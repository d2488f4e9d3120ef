# Random-march cave generator, modelled in Dafny

This project models the core of a procedural cave generator written in C# for
Unity. A level is a `width x height` grid of tiles (`Wall`, `Floor`,
`EdgeTile`, `Island`), created solid. One or more random-march walkers start at
the centre, and for each of `walkSteps` steps pick one of eight directions,
pick a step length in `[1, maxStepLength]`, and for every sub-step move forward
(or back, on a backtrack draw), clamp themselves one tile inside the outer ring
and carve `Floor` there plus a one-tile perpendicular widening. After each
walker the grid runs two classification passes: the edge pass turns every
`Wall` next to a `Floor` into `EdgeTile`, and the island pass flood-fills from
the border over `Wall`/`EdgeTile` cells and retags every such cell the fill
never reached as `Island`.

Modules (one per file):

- `Geometry` (`geometry.dfy`): integer vectors and orthogonal adjacency.
- `LevelGrid` (`level_grid.dfy`): the tile grid as an immutable value with
  bounds-safe reads and writes; the source's in-place mutations become
  functions returning the new grid.
- `Edges` (`edges.dfy`): the edge pass as the source's in-place scan, proved
  equal to a simultaneous classification `EdgesOf`.
- `Islands` (`islands.dfy`): the breadth-first fill and the island pass,
  proved against a reachability definition (`ReachesBorder`: an orthogonal
  path of `Wall`/`EdgeTile` cells to a border cell), with the retagging
  stated as `IslandsOf`.
- `Lists` (`lists.dfy`): `List.RemoveAll` on direction lists, with its
  membership, order and multiplicity.
- `Walker` (`walker.dfy`): direction choice, step length, sub-step movement,
  carving, and `Walk`; the loops are proved equal to recursive reference
  functions (`WalkerAfter`, `MarchGrid`), and `Trail` lists the cells the
  walker stands on after each sub-step.
- `Generation` (`generation.dfy`): the map-creation loop running the walkers
  in sequence on one grid, with its properties proved by induction over the
  recursive `MapAfter`.
- `Scenarios` (`scenarios.dfy`): a worked example on a 5 x 5 grid, one step
  to the right from the centre, with the final map stated cell by cell.

Randomness is a parameter. Each step of a walk receives a `StepDraws` record
holding a raw direction draw, a raw step-length draw, and one boolean per
sub-step saying whether the backtrack test succeeded; the source consumes
them in that order, except that a step whose filters leave no direction
draws no direction at all, and its record's direction draw goes unused.
`Random.Range(lo, hi)` on integers is modelled as
`lo + draw % (hi - lo)` (the upper bound excluded, `lo` for an empty range),
and `RandomRangeCovers` shows every value of the range is reachable.

The clamp is `Mathf.Clamp` on integers: below the lower bound gives the lower
bound, otherwise above the upper bound gives the upper bound. With
`width, height >= 3` this keeps the walker in `[1, width-2] x [1, height-2]`.

The clamp keeps only the walker's own cell off the outer ring of the grid. The
widening's guards test the walker's own `width` and `height` (the grid's, as
`CreateMap` passes them), not the ring, so a
widening can write `Floor` on row 0, row `height-1`, column 0 or column
`width-1`. `Walker.WideningReachesRing` shows such a case, and
`Walker.StrideTrail`/`Walker.Trail` state what does hold: the walker's own
cell is always off the ring.

## Model

| member | source | states |
|---|---|---|
| LevelGrid.NewGrid | Assets/LevelGrid.cs:19-33 | a new grid has the requested size and reads Wall everywhere |
| LevelGrid.GetTile | Assets/LevelGrid.cs:36-43 | inside the bounds the stored tile is returned; outside them the result is Wall |
| LevelGrid.GetDimensions | Assets/LevelGrid.cs:46-48 | the pair is (number of columns, column length), and a coordinate is inside the grid exactly when it lies in [0, width) x [0, height) |
| LevelGrid.SetTile | Assets/LevelGrid.cs:51-55 | inside the bounds the cell then reads the new tile and every other cell is unchanged; outside them the grid is unchanged |
| LevelGrid.IsEdgeTile | Assets/LevelGrid.cs:58-60 | true exactly for an in-bounds cell holding EdgeTile |
| LevelGrid.IsFloorTile | Assets/LevelGrid.cs:61-63 | true exactly for an in-bounds cell holding Floor |
| LevelGrid.IsWallTile | Assets/LevelGrid.cs:64-66 | true exactly for an out-of-bounds coordinate or a cell holding Wall |
| LevelGrid.IsIslandTile | Assets/LevelGrid.cs:67-69 | true exactly for an in-bounds cell holding Island |
| LevelGrid.SetTileOfGetTile | Assets/LevelGrid.cs:41-55 | writing back the tile just read leaves the grid as it was |
| LevelGrid.SetTileTwice | Assets/LevelGrid.cs:51-55 | of two writes to the same cell only the second survives |
| Edges.Promote | Assets/LevelGrid.cs:78-81 | one guarded write changes only the named cell, and only from Wall to EdgeTile when the cell is in bounds |
| Edges.PromoteAroundTile | Assets/LevelGrid.cs:76-82 | the four guarded writes around a cell turn exactly its in-bounds Wall neighbours into EdgeTile |
| Edges.DetectEdges | Assets/LevelGrid.cs:72-85 | every in-bounds Wall with a Floor neighbour becomes EdgeTile, every changed cell is such a Wall, and the in-place scan equals the simultaneous classification EdgesOf |
| Edges.EdgesOfIdempotent | Assets/LevelGrid.cs:72-85 | running the edge pass a second time changes nothing |
| Islands.Neighbours | Assets/LevelGrid.cs:128-131 | the four positions queued are exactly the orthogonal neighbours |
| Islands.OutsideReachesNothing | Assets/LevelGrid.cs:114 | a start outside the grid reaches no cell, so returning at once loses nothing |
| Islands.FloodFillIsland | Assets/LevelGrid.cs:113-133 | the fill marks exactly the cells reachable from the start through Wall/EdgeTile cells without crossing an earlier mark, marks only in-bounds cells, marks a passable start, and keeps a closed mark set closed |
| Islands.FillFromBorder | Assets/LevelGrid.cs:92-99 | a fill from a border seed keeps the marks in bounds, closed and border-reachable, never removes a mark, and leaves the seed marked if it is passable |
| Islands.SweepComplete | Assets/LevelGrid.cs:91-100 | once every cell of the four border lines has seeded a fill, the marks are exactly the cells that reach the border |
| Islands.MarkIslands | Assets/LevelGrid.cs:102-109 | a cell becomes Island exactly when it was Island or is an unmarked Wall/EdgeTile; all other cells are unchanged |
| Islands.IdentifyIslands | Assets/LevelGrid.cs:88-110 | an in-bounds cell is Island afterwards exactly when it was Island or is a Wall/EdgeTile with no path to the border; no other cell changes, so Floor never changes and Island stays Island |
| Islands.PathCellsReachBorder | Assets/LevelGrid.cs:113-133 | every cell on a passable path starting at the border itself reaches the border |
| Islands.IslandsOfIdempotent | Assets/LevelGrid.cs:88-110 | running the island pass a second time changes nothing |
| Walker.NewWalker | Assets/RandomMarchWalker.cs:15-23 | the walker starts at (width/2, height/2) with the given parameters, which lies inside the ring when width, height >= 3 |
| Walker.RandomRange | Assets/RandomMarchWalker.cs:29 | a draw reduced into [lo, hi), the upper bound excluded, or lo for an empty range |
| Walker.RandomRangeCovers | Assets/RandomMarchWalker.cs:29 | every value of the range is produced by some draw |
| Walker.StepLength | Assets/RandomMarchWalker.cs:29 | the step length is at least 1 and at most maxStepLength (1 when maxStepLength is 0) |
| Lists.RemoveAll | Assets/RandomMarchWalker.cs:83-92 | the result holds exactly the elements the predicate does not drop, is no longer than the input, is empty when all are dropped, and is the input itself when none is |
| Lists.RemoveAllAppend | Assets/RandomMarchWalker.cs:83-92 | RemoveAll keeps order: removing from a concatenation gives the concatenation of the two results |
| Lists.RemoveAllCount | Assets/RandomMarchWalker.cs:83-92 | RemoveAll keeps every copy of a kept element and no copy of a removed one |
| Lists.RemoveAllSingle | Assets/RandomMarchWalker.cs:83-92 | on a one-element list RemoveAll keeps the element exactly when the predicate does not drop it; with RemoveAllAppend this fixes the result on every list |
| Walker.FilterWhen | Assets/RandomMarchWalker.cs:82-93 | a guarded filter keeps exactly the elements it does not drop when the guard holds, and all of them otherwise |
| Walker.Candidates | Assets/RandomMarchWalker.cs:69-93 | the filtered list holds exactly the unit directions the boundary rules permit |
| Walker.ChooseRandomDirection | Assets/RandomMarchWalker.cs:68-102 | the result is a permitted unit direction, or the zero vector exactly when nothing is permitted |
| Walker.EveryCandidateChosen | Assets/RandomMarchWalker.cs:100-101 | every permitted direction is chosen by some draw |
| Walker.NoFilterInsideRing | Assets/RandomMarchWalker.cs:81-93 | inside the ring no filter fires and all eight directions remain, in order |
| Walker.CandidatesEmptyIff | Assets/RandomMarchWalker.cs:81-98 | the filters leave nothing exactly when the walker sits on all four boundaries at once |
| Walker.Clamp | Assets/RandomMarchWalker.cs:40-41 | with lo <= hi the result lies in [lo, hi], equals the value when it is in range, and is the nearer bound otherwise |
| Walker.SubStep | Assets/RandomMarchWalker.cs:32-41 | the walker moves by minus or plus the direction and is clamped: it lands inside the ring when width, height >= 3, keeps each target coordinate that is in range, lands on the nearer ring-adjacent row or column when the target is past it, and moves at most one cell per axis from inside the ring |
| Walker.CreateWideCorridor | Assets/RandomMarchWalker.cs:56-65 | only Floor is written, only on the widening cells (above and below for any move with a horizontal part, left and right for a purely vertical one, none for the zero vector), and every widening cell inside the walker's area becomes Floor |
| Walker.Carve | Assets/RandomMarchWalker.cs:44-47 | a sub-step writes only Floor, only on the walker's cell and its widening cells, and the walker's cell becomes Floor when in bounds |
| Walker.StrideWalker | Assets/RandomMarchWalker.cs:31-41 | a step changes only the position, and leaves it inside the ring when width, height >= 3 |
| Walker.StrideTrail | Assets/RandomMarchWalker.cs:31-41 | a step visits one position per sub-step, each off the outer ring when width, height >= 3, ending where the walker ends |
| Walker.StrideGrid | Assets/RandomMarchWalker.cs:31-48 | a step only ever turns cells into Floor |
| Walker.WalkerAfter | Assets/RandomMarchWalker.cs:27-49 | the whole walk changes only the position, and a walker that starts inside the ring ends inside it |
| Walker.Trail | Assets/RandomMarchWalker.cs:27-49 | every position the walker occupies after a sub-step is off the outer ring when width, height >= 3 |
| Walker.MarchGrid | Assets/RandomMarchWalker.cs:27-49 | the carving of a whole walk only ever turns cells into Floor |
| Walker.TrailLength | Assets/RandomMarchWalker.cs:27-31 | the walk performs exactly the drawn number of sub-steps per step, so over a sequence of step records the total lies between one sub-step per record and LongestStep(maxStepLength) per record, where LongestStep is maxStepLength, or 1 when maxStepLength is 0 |
| Walker.StrideTrailFloor | Assets/RandomMarchWalker.cs:31-48 | every in-bounds position of a step's trail is Floor once the step has carved |
| Walker.TrailFloor | Assets/RandomMarchWalker.cs:27-49 | every in-bounds position of the walk's trail is Floor once all steps have carved |
| Walker.WalkerStaysInside | Assets/RandomMarchWalker.cs:39-41 | after at least one step, or from a start inside the ring, the walker ends inside the ring |
| Walker.DirectionsNeverFiltered | Assets/RandomMarchWalker.cs:68-101 | from inside the ring on a grid of at least 3 x 3, every step chooses among all eight directions, so the raw draw picks Directions[draw % 8] |
| Walker.WideningReachesRing | Assets/RandomMarchWalker.cs:40-60 | on a 3 x 3 grid a rightward sub-step from the centre stays at (1, 1) and widens onto (1, 0) on the border row |
| Walker.PassesKeepFloor | Assets/RandomMarchWalker.cs:51-52 | the edge pass and the island pass never change a Floor cell |
| Walker.PassesLeaveNoBareWall | Assets/RandomMarchWalker.cs:51-52 | after the edge pass and the island pass no in-bounds Wall is next to a Floor |
| Walker.Stride | Assets/RandomMarchWalker.cs:31-48 | the sub-step loop ends with the walker and grid of the reference StrideWalker and StrideGrid |
| Walker.March | Assets/RandomMarchWalker.cs:27-49 | the step loop performs walkSteps steps and ends with the walker and grid of the references WalkerAfter and MarchGrid |
| Walker.Walk | Assets/RandomMarchWalker.cs:26-53 | the result is the island pass of the edge pass of the carved grid; every in-bounds trail cell is Floor, earlier Floor stays Floor, and no Wall is left next to a Floor |
| Generation.MapAfterKeepsFloor | Assets/RandomMarchLevelGeneration.cs:86-89 | a run of walkers never turns a Floor cell into anything else |
| Generation.MapAfterSplit | Assets/RandomMarchLevelGeneration.cs:86-89 | running the walkers as two consecutive batches, the second on the first's map, gives the same map as running them all |
| Generation.FirstTrailKept | Assets/RandomMarchLevelGeneration.cs:86-89 | the first walker's in-bounds trail cells are still Floor after all later walkers have run |
| Generation.MapAfterTrail | Assets/RandomMarchLevelGeneration.cs:86-89 | every in-bounds trail cell of any one walker of a run is Floor in the final map |
| Generation.MapAfterNoBareWall | Assets/RandomMarchLevelGeneration.cs:86-89 | after a run of at least one walker no in-bounds Wall is next to a Floor |
| Generation.RunWalkers | Assets/RandomMarchLevelGeneration.cs:85-88 | running the walkers one after another from a common start gives the walkers' passes applied in sequence; the grid is unchanged with no walker, otherwise every walker's in-bounds trail cell is Floor and no Wall is next to a Floor |
| Generation.CreateMap | Assets/RandomMarchLevelGeneration.cs:83-89 | the map is the walkers' passes applied in sequence to a fresh grid: solid Wall with no walker, otherwise every walker's in-bounds trail cell is Floor and no Wall is next to a Floor |
| Scenarios.ExampleCarving | Assets/RandomMarchWalker.cs:27-47 | on a 5 x 5 grid with direction draw 3 and no backtrack, the walker moves from (2, 2) to (3, 2) and carves exactly (3, 1), (3, 2) and (3, 3) |
| Scenarios.ExampleWalk | Assets/RandomMarchWalker.cs:26-53 | the same walk ends with the carved column Floor, its eight orthogonal neighbours EdgeTile, every other cell Wall and no Island |

## Left out

- Rendering, input, object lifecycle and coroutine timing of the Unity behaviour that hosts the generator (`GenerateMap`, `Update`, `DestroyExistingMap`, `DrawDebugGrid`, the commented-out spline smoothing): presentation, not generation logic.
- Seeding of Unity's global random source (`Random.InitState`): the draws are parameters, so a fixed draw sequence trivially gives a fixed map.
- The float `backtrackProbability` and the comparison `Random.value < backtrackProbability`: each outcome is a supplied boolean.
- Walker.Walk: requires the draws to be well formed (one record per step and one backtrack outcome per sub-step); this constrains the injected random source, not the source's callers.
- Walker.Stride: loops over the supplied backtrack outcomes; under well-formed draws their number equals the drawn step length, which `Walker.March` asserts.
- LevelGrid.GetDimensions: returns an integer pair rather than the source's float `Vector2`; floating point is not modelled.
- Walker.Walker: `walkSteps` and `maxStepLength` are natural numbers, while the source's fields are `int`. A negative `walkSteps` would run no steps, the same as 0. A negative `maxStepLength` would hand `Random.Range(1, maxStepLength + 1)` an inverted range, and so would `maxStepLength == int.MaxValue`, where the 32-bit sum wraps to `int.MinValue`; such a range allows step lengths of zero or less, which carve nothing, and the draw model does not describe it (`Walker.StepLength` gives a length in `[1, maxStepLength]` instead).
- Walker.StepLength: promises a length in `[1, LongestStep(maxStepLength)]` for every natural `maxStepLength`, whereas at `int.MaxValue` the source's wrapped bound would yield lengths of zero or less (see the `Walker.Walker` line).
- Walker.ChooseRandomDirection: when the filters leave no direction the source returns the zero vector without drawing, so that step consumes no random number; the model's step record still carries a direction draw, which goes unused.
- Negative widths and heights: C# throws when allocating such an array, so the dimensions are natural numbers.
- C# 32-bit integer overflow: integers are unbounded. The coordinate arithmetic (centre, sub-step, clamp, widening and neighbour offsets) stays within one cell of a grid that fits in memory; the one sum that can wrap, `maxStepLength + 1`, is covered by the `Walker.Walker` line above.
- Fields the core never reads (`clusterProbability`, `pathNoise`, `physicsMaterial`, `edgeLineRenderer`, prefabs, sprite shape).
- Grid storage: the source's `Tile[,]` and the fill's `bool[,]` visited array become a sequence of columns and a set of marked cells; the fill's `Queue` becomes a sequence.
- The edge pass's guards (`y + 1 < height` and so on) are modelled as one in-bounds check; the column index is always in range there, so the two agree.

/**
 The random-march walker. It starts at the centre of its area and, for each
 of walkSteps steps, picks a direction, picks a step length, and for every
 sub-step moves forward or backward, clamps itself one tile inside the area's
 outer ring and carves Floor there plus a one-tile perpendicular widening.

 The random source is injected: each step's draws arrive pre-drawn, in the
 order the source consumes them (direction index, step length, then one
 backtrack decision per sub-step).
 */
module Walker {
  import opened Geometry
  import opened LevelGrid
  import opened Lists
  import Edges
  import Islands

  /** The walker's position and the parameters fixed at construction. */
  datatype Walker = Walker(position: Vec2, walkSteps: nat, maxStepLength: nat, width: nat, height: nat)

  /**
   The draws of one step. `direction` and `length` are raw draws that
   Random.Range reduces into its range; `backtracks[j]` is the outcome of the
   backtrack test at sub-step j.
   */
  datatype StepDraws = StepDraws(direction: nat, length: nat, backtracks: seq<bool>)

  function NewWalker(walkSteps: nat, maxStepLength: nat, width: nat, height: nat): (w: Walker)
    ensures w.walkSteps == walkSteps && w.maxStepLength == maxStepLength
    ensures w.width == width && w.height == height
    ensures 0 <= width - 2 * w.position.x <= 1 && 0 <= height - 2 * w.position.y <= 1
    ensures width >= 3 && height >= 3 ==> InsideRing(w)
  {
    Walker(Vec2(width / 2, height / 2), walkSteps, maxStepLength, width, height)
  }

  /** The position lies in [1, width-2] x [1, height-2], the box the clamp keeps the walker in. */
  predicate InsideRing(w: Walker) {
    1 <= w.position.x <= w.width - 2 && 1 <= w.position.y <= w.height - 2
  }

  /**
   Random.Range(lo, hi) on integers: a raw draw reduced into [lo, hi), the
   upper bound excluded; an empty range (lo == hi) gives lo.
   */
  function RandomRange(lo: int, hi: int, draw: nat): (r: int)
    requires lo <= hi
    ensures lo < hi ==> lo <= r < hi
    ensures lo == hi ==> r == lo
  {
    if lo == hi then lo else lo + draw % (hi - lo)
  }

  /** Every value of the range is some draw's outcome. */
  lemma RandomRangeCovers(lo: int, hi: int, k: int)
    requires lo <= k < hi
    ensures RandomRange(lo, hi, k - lo) == k
  {
  }

  /** The longest step: maxStepLength, except that a maximum of 0 still gives steps of length 1. */
  function LongestStep(maxStepLength: nat): nat {
    if maxStepLength == 0 then 1 else maxStepLength
  }

  /** The step length: Random.Range(1, maxStepLength + 1). */
  function StepLength(maxStepLength: nat, draw: nat): (n: nat)
    ensures 1 <= n <= LongestStep(maxStepLength)
  {
    RandomRange(1, maxStepLength + 1, draw)
  }

  /** Each record holds one backtrack decision per sub-step of its step. */
  predicate StepsFit(maxStepLength: nat, draws: seq<StepDraws>) {
    forall k :: 0 <= k < |draws| ==> |draws[k].backtracks| == StepLength(maxStepLength, draws[k].length)
  }

  /** The records after the first fit whenever all of them do. */
  lemma StepsFitTail(maxStepLength: nat, draws: seq<StepDraws>)
    requires |draws| > 0 && StepsFit(maxStepLength, draws)
    ensures StepsFit(maxStepLength, draws[1..])
  {
    forall k | 0 <= k < |draws| - 1
      ensures |draws[1..][k].backtracks| == StepLength(maxStepLength, draws[1..][k].length)
    {
      assert draws[1..][k] == draws[k + 1];
    }
  }

  /** The draws fit the walker: one record per step, one backtrack decision per sub-step. */
  predicate WellFormedDraws(w: Walker, draws: seq<StepDraws>) {
    && |draws| == w.walkSteps
    && StepsFit(w.maxStepLength, draws)
  }

  /** The eight unit directions, in the source's list order. */
  const Directions: seq<Vec2> :=
    [Vec2(0, 1), Vec2(0, -1), Vec2(-1, 0), Vec2(1, 0), Vec2(1, 1), Vec2(-1, 1), Vec2(1, -1), Vec2(-1, -1)]

  /** The boundary rules: no step left at x <= 0, right at x >= width-1, down at y <= 0, up at y >= height-1. */
  predicate Permitted(w: Walker, d: Vec2) {
    && (w.position.x <= 0 ==> d.x != -1)
    && (w.position.x >= w.width - 1 ==> d.x != 1)
    && (w.position.y <= 0 ==> d.y != -1)
    && (w.position.y >= w.height - 1 ==> d.y != 1)
  }

  /** One of the source's guarded filters: RemoveAll when the guard holds, the list unchanged otherwise. */
  function FilterWhen(guard: bool, ds: seq<Vec2>, drop: Vec2 -> bool): (r: seq<Vec2>)
    ensures forall d :: d in r <==> d in ds && !(guard && drop(d))
  {
    if guard then RemoveAll(ds, drop) else ds
  }

  /** The direction list after the source's four filters. */
  function Candidates(w: Walker): (ds: seq<Vec2>)
    ensures forall d :: d in ds <==> d in Directions && Permitted(w, d)
  {
    var p := w.position;
    var ds1 := FilterWhen(p.x <= 0, Directions, (d: Vec2) => d.x == -1);
    var ds2 := FilterWhen(p.x >= w.width - 1, ds1, (d: Vec2) => d.x == 1);
    var ds3 := FilterWhen(p.y <= 0, ds2, (d: Vec2) => d.y == -1);
    FilterWhen(p.y >= w.height - 1, ds3, (d: Vec2) => d.y == 1)
  }

  /** A permitted unit direction, or the zero vector when the filters leave nothing. */
  function ChooseRandomDirection(w: Walker, draw: nat): (d: Vec2)
    ensures |Candidates(w)| == 0 ==> d == Zero
    ensures |Candidates(w)| > 0 ==> d in Directions && Permitted(w, d)
  {
    var ds := Candidates(w);
    if |ds| == 0 then Zero else ds[RandomRange(0, |ds|, draw)]
  }

  /** Every permitted direction is the choice of some draw. */
  lemma EveryCandidateChosen(w: Walker, d: Vec2)
    requires d in Directions && Permitted(w, d)
    ensures exists draw: nat :: ChooseRandomDirection(w, draw) == d
  {
    var ds := Candidates(w);
    var k :| 0 <= k < |ds| && ds[k] == d;
    RandomRangeCovers(0, |ds|, k);
    assert ChooseRandomDirection(w, k) == d;
  }

  /** Away from the outer ring no filter fires: all eight directions remain, in order. */
  lemma NoFilterInsideRing(w: Walker)
    requires InsideRing(w)
    ensures Candidates(w) == Directions
  {
  }

  /** The filters empty the list exactly when the walker sits on all four boundaries at once. */
  lemma CandidatesEmptyIff(w: Walker)
    ensures |Candidates(w)| == 0 <==>
      w.position.x <= 0 && w.position.x >= w.width - 1 && w.position.y <= 0 && w.position.y >= w.height - 1
  {
    var p := w.position;
    if p.x > 0 {
      CandidateKept(w, Vec2(-1, 0), 2);
    } else if p.x < w.width - 1 {
      CandidateKept(w, Vec2(1, 0), 3);
    } else if p.y > 0 {
      CandidateKept(w, Vec2(0, -1), 1);
    } else if p.y < w.height - 1 {
      CandidateKept(w, Vec2(0, 1), 0);
    } else {
      NoCandidates(w);
    }
  }

  lemma CandidateKept(w: Walker, d: Vec2, k: nat)
    requires k < |Directions| && Directions[k] == d && Permitted(w, d)
    ensures |Candidates(w)| > 0
  {
    assert d in Candidates(w);
  }

  lemma NoCandidates(w: Walker)
    requires w.position.x <= 0 && w.position.x >= w.width - 1 && w.position.y <= 0 && w.position.y >= w.height - 1
    ensures |Candidates(w)| == 0
  {
    NothingPermitted(w);
  }

  lemma NothingPermitted(w: Walker)
    requires w.position.x <= 0 && w.position.x >= w.width - 1 && w.position.y <= 0 && w.position.y >= w.height - 1
    ensures forall d :: d in Directions ==> !Permitted(w, d)
  {
    forall d | d in Directions
      ensures !Permitted(w, d)
    {
      assert d.x != 0 || d.y != 0;
    }
  }

  /** Mathf.Clamp: below lo gives lo, above hi gives hi. With lo > hi it is not a proper clamp. */
  function Clamp(v: int, lo: int, hi: int): (r: int)
    ensures lo <= hi ==> lo <= r <= hi
    ensures lo <= v <= hi ==> r == v
    ensures lo <= hi ==> (v < lo ==> r == lo) && (v > hi ==> r == hi)
  {
    if v < lo then lo else if v > hi then hi else v
  }

  /** One sub-step: move back along the direction when backtracking, forward otherwise, then clamp into the ring. */
  function SubStep(w: Walker, dir: Vec2, backtrack: bool): (w': Walker)
    ensures w' == w.(position := w'.position)
    ensures w.width >= 3 && w.height >= 3 ==> InsideRing(w')
    ensures var t := if backtrack then Minus(w.position, dir) else Plus(w.position, dir);
      && (1 <= t.x <= w.width - 2 ==> w'.position.x == t.x)
      && (1 <= t.y <= w.height - 2 ==> w'.position.y == t.y)
    ensures var t := if backtrack then Minus(w.position, dir) else Plus(w.position, dir);
      w.width >= 3 && w.height >= 3 ==>
        && (t.x < 1 ==> w'.position.x == 1) && (t.x > w.width - 2 ==> w'.position.x == w.width - 2)
        && (t.y < 1 ==> w'.position.y == 1) && (t.y > w.height - 2 ==> w'.position.y == w.height - 2)
    ensures InsideRing(w) && -1 <= dir.x <= 1 && -1 <= dir.y <= 1 ==>
      -1 <= w'.position.x - w.position.x <= 1 && -1 <= w'.position.y - w.position.y <= 1
  {
    var t := if backtrack then Minus(w.position, dir) else Plus(w.position, dir);
    w.(position := Vec2(Clamp(t.x, 1, w.width - 2), Clamp(t.y, 1, w.height - 2)))
  }

  /** The perpendicular widening cells: above and below for any move with a horizontal part, else left and right for a vertical move. */
  predicate Widened(p: Vec2, dir: Vec2, x: int, y: int) {
    if dir.x != 0 then x == p.x && (y == p.y + 1 || y == p.y - 1)
    else if dir.y != 0 then y == p.y && (x == p.x + 1 || x == p.x - 1)
    else false
  }

  /** Inside both the walker's area and the grid. */
  predicate InArea(g: Grid, w: Walker, x: int, y: int) {
    WithinBounds(g, x, y) && 0 <= x < w.width && 0 <= y < w.height
  }

  /**
   Widens the corridor at the walker's position. Diagonal moves take the
   horizontal-move branch; a zero direction widens nothing.
   */
  function CreateWideCorridor(g: Grid, w: Walker, dir: Vec2): (r: Grid)
    requires Valid(g)
    ensures Valid(r) && r.width == g.width && r.height == g.height
    ensures forall x, y :: GetTile(r, x, y) != GetTile(g, x, y) ==> GetTile(r, x, y) == Floor && Widened(w.position, dir, x, y)
    ensures forall x, y :: Widened(w.position, dir, x, y) && InArea(g, w, x, y) ==> GetTile(r, x, y) == Floor
  {
    var p := w.position;
    if dir.x != 0 then
      var g1 := if p.y + 1 < w.height then SetTile(g, p.x, p.y + 1, Floor) else g;
      if p.y - 1 >= 0 then SetTile(g1, p.x, p.y - 1, Floor) else g1
    else if dir.y != 0 then
      var g1 := if p.x + 1 < w.width then SetTile(g, p.x + 1, p.y, Floor) else g;
      if p.x - 1 >= 0 then SetTile(g1, p.x - 1, p.y, Floor) else g1
    else
      g
  }

  /** The writes of one sub-step: the walker's cell, then the widening. */
  function Carve(g: Grid, w: Walker, dir: Vec2): (r: Grid)
    requires Valid(g)
    ensures Valid(r) && r.width == g.width && r.height == g.height
    ensures forall x, y :: GetTile(r, x, y) != GetTile(g, x, y) ==>
      GetTile(r, x, y) == Floor && ((x == w.position.x && y == w.position.y) || Widened(w.position, dir, x, y))
    ensures WithinBounds(g, w.position.x, w.position.y) ==> GetTile(r, w.position.x, w.position.y) == Floor
    ensures forall x, y :: Widened(w.position, dir, x, y) && InArea(g, w, x, y) ==> GetTile(r, x, y) == Floor
  {
    CreateWideCorridor(SetTile(g, w.position.x, w.position.y, Floor), w, dir)
  }

  /** The walker after the sub-steps of one step. */
  function StrideWalker(w: Walker, dir: Vec2, backtracks: seq<bool>): (w': Walker)
    ensures w' == w.(position := w'.position)
    ensures w.width >= 3 && w.height >= 3 && (|backtracks| > 0 || InsideRing(w)) ==> InsideRing(w')
    decreases |backtracks|
  {
    if |backtracks| == 0 then w
    else StrideWalker(SubStep(w, dir, backtracks[0]), dir, backtracks[1..])
  }

  /** The positions the walker occupies after each sub-step of one step. */
  function StrideTrail(w: Walker, dir: Vec2, backtracks: seq<bool>): (t: seq<Vec2>)
    ensures |t| == |backtracks|
    ensures w.width >= 3 && w.height >= 3 ==>
      forall k :: 0 <= k < |t| ==> 1 <= t[k].x <= w.width - 2 && 1 <= t[k].y <= w.height - 2
    ensures |t| > 0 ==> t[|t| - 1] == StrideWalker(w, dir, backtracks).position
    decreases |backtracks|
  {
    if |backtracks| == 0 then []
    else
      var w' := SubStep(w, dir, backtracks[0]);
      [w'.position] + StrideTrail(w', dir, backtracks[1..])
  }

  /** The grid after the sub-steps of one step: it only ever gains Floor. */
  function StrideGrid(w: Walker, g: Grid, dir: Vec2, backtracks: seq<bool>): (r: Grid)
    requires Valid(g)
    ensures Valid(r) && r.width == g.width && r.height == g.height
    ensures forall x, y :: GetTile(r, x, y) == GetTile(g, x, y) || GetTile(r, x, y) == Floor
    decreases |backtracks|
  {
    if |backtracks| == 0 then g
    else
      var w' := SubStep(w, dir, backtracks[0]);
      StrideGrid(w', Carve(g, w', dir), dir, backtracks[1..])
  }

  /** The direction chosen for a step. */
  function StepDirection(w: Walker, d: StepDraws): Vec2 {
    ChooseRandomDirection(w, d.direction)
  }

  /** The walker after all the steps. */
  function WalkerAfter(w: Walker, draws: seq<StepDraws>): (w': Walker)
    ensures w' == w.(position := w'.position)
    ensures w.width >= 3 && w.height >= 3 && InsideRing(w) ==> InsideRing(w')
    decreases |draws|
  {
    if |draws| == 0 then w
    else WalkerAfter(StrideWalker(w, StepDirection(w, draws[0]), draws[0].backtracks), draws[1..])
  }

  /** Every position the walker occupies after a sub-step, in order. */
  function Trail(w: Walker, draws: seq<StepDraws>): (t: seq<Vec2>)
    ensures w.width >= 3 && w.height >= 3 ==>
      forall k :: 0 <= k < |t| ==> 1 <= t[k].x <= w.width - 2 && 1 <= t[k].y <= w.height - 2
    decreases |draws|
  {
    if |draws| == 0 then []
    else
      var dir := StepDirection(w, draws[0]);
      StrideTrail(w, dir, draws[0].backtracks) + Trail(StrideWalker(w, dir, draws[0].backtracks), draws[1..])
  }

  /** The grid after all the steps' carving, before the classification passes. */
  function MarchGrid(w: Walker, g: Grid, draws: seq<StepDraws>): (r: Grid)
    requires Valid(g)
    ensures Valid(r) && r.width == g.width && r.height == g.height
    ensures forall x, y :: GetTile(r, x, y) == GetTile(g, x, y) || GetTile(r, x, y) == Floor
    decreases |draws|
  {
    if |draws| == 0 then g
    else
      var dir := StepDirection(w, draws[0]);
      MarchGrid(StrideWalker(w, dir, draws[0].backtracks), StrideGrid(w, g, dir, draws[0].backtracks), draws[1..])
  }

  /** The total number of sub-steps the draws call for. */
  function TotalLength(maxStepLength: nat, draws: seq<StepDraws>): nat {
    if |draws| == 0 then 0 else StepLength(maxStepLength, draws[0].length) + TotalLength(maxStepLength, draws[1..])
  }

  /** Each step performs exactly its drawn number of sub-steps, between 1 and maxStepLength. */
  lemma {:induction false} TrailLength(w: Walker, draws: seq<StepDraws>)
    requires StepsFit(w.maxStepLength, draws)
    ensures |Trail(w, draws)| == TotalLength(w.maxStepLength, draws)
    ensures |draws| <= |Trail(w, draws)| <= |draws| * LongestStep(w.maxStepLength)
    decreases |draws|
  {
    if |draws| > 0 {
      var dir := StepDirection(w, draws[0]);
      var w1 := StrideWalker(w, dir, draws[0].backtracks);
      StepsFitTail(w.maxStepLength, draws);
      TrailLength(w1, draws[1..]);
      var head := |draws[0].backtracks|;
      var rest := |Trail(w1, draws[1..])|;
      assert w1.maxStepLength == w.maxStepLength;
      assert head == StepLength(w.maxStepLength, draws[0].length);
      assert |Trail(w, draws)| == head + rest;
      BoundStep(rest, head, |draws[1..]|, |draws|, LongestStep(w.maxStepLength));
    }
  }

  /** The induction step of the trail bound: one more step of at most `m` sub-steps. */
  lemma BoundStep(rest: nat, head: nat, k: nat, n: nat, m: nat)
    requires n == k + 1 && rest <= k * m && head <= m
    ensures rest + head <= n * m
  {
    assert n * m == k * m + m;
  }

  /** Every position of a step's trail is Floor once the step has carved, if it lies in the grid. */
  lemma {:induction false} StrideTrailFloor(w: Walker, g: Grid, dir: Vec2, backtracks: seq<bool>)
    requires Valid(g)
    ensures forall p :: p in StrideTrail(w, dir, backtracks) && WithinBounds(g, p.x, p.y) ==>
      GetTile(StrideGrid(w, g, dir, backtracks), p.x, p.y) == Floor
    decreases |backtracks|
  {
    if |backtracks| > 0 {
      var w' := SubStep(w, dir, backtracks[0]);
      var g' := Carve(g, w', dir);
      var rest := StrideTrail(w', dir, backtracks[1..]);
      var r := StrideGrid(w, g, dir, backtracks);
      assert StrideTrail(w, dir, backtracks) == [w'.position] + rest;
      assert r == StrideGrid(w', g', dir, backtracks[1..]);
      StrideTrailFloor(w', g', dir, backtracks[1..]);
      forall p | p in StrideTrail(w, dir, backtracks) && WithinBounds(g, p.x, p.y)
        ensures GetTile(r, p.x, p.y) == Floor
      {
        if p == w'.position {
          assert GetTile(g', p.x, p.y) == Floor;
        } else {
          assert p in rest;
        }
      }
    }
  }

  /** Every position the walker occupied after a sub-step is Floor once all steps have carved, if it lies in the grid. */
  lemma {:induction false} TrailFloor(w: Walker, g: Grid, draws: seq<StepDraws>)
    requires Valid(g)
    ensures forall p :: p in Trail(w, draws) && WithinBounds(g, p.x, p.y) ==> GetTile(MarchGrid(w, g, draws), p.x, p.y) == Floor
    decreases |draws|
  {
    if |draws| > 0 {
      var dir := StepDirection(w, draws[0]);
      var bs := draws[0].backtracks;
      var w1 := StrideWalker(w, dir, bs);
      var g1 := StrideGrid(w, g, dir, bs);
      var head := StrideTrail(w, dir, bs);
      var r := MarchGrid(w, g, draws);
      assert r == MarchGrid(w1, g1, draws[1..]);
      assert Trail(w, draws) == head + Trail(w1, draws[1..]);
      StrideTrailFloor(w, g, dir, bs);
      TrailFloor(w1, g1, draws[1..]);
      forall p | p in Trail(w, draws) && WithinBounds(g, p.x, p.y)
        ensures GetTile(r, p.x, p.y) == Floor
      {
        if p in head {
          FloorKept(w1, g1, draws[1..], p);
        } else {
          assert p in Trail(w1, draws[1..]);
        }
      }
    }
  }

  lemma FloorKept(w: Walker, g: Grid, draws: seq<StepDraws>, p: Vec2)
    requires Valid(g) && GetTile(g, p.x, p.y) == Floor
    ensures GetTile(MarchGrid(w, g, draws), p.x, p.y) == Floor
  {
  }

  /** The walker never leaves the ring's inner box; for at least one step it lands there wherever it started. */
  lemma {:induction false} WalkerStaysInside(w: Walker, draws: seq<StepDraws>)
    requires w.width >= 3 && w.height >= 3
    requires StepsFit(w.maxStepLength, draws)
    requires |draws| > 0 || InsideRing(w)
    ensures InsideRing(WalkerAfter(w, draws))
    decreases |draws|
  {
    if |draws| > 0 {
      var dir := StepDirection(w, draws[0]);
      var w1 := StrideWalker(w, dir, draws[0].backtracks);
      assert |draws[0].backtracks| == StepLength(w.maxStepLength, draws[0].length);
      assert InsideRing(w1);
      StepsFitTail(w.maxStepLength, draws);
      WalkerStaysInside(w1, draws[1..]);
    }
  }

  /**
   On a grid of at least 3 x 3, from the centre, no boundary filter ever fires:
   every step chooses among all eight directions, so the raw draw selects
   Directions[draw % 8].
   */
  lemma DirectionsNeverFiltered(w: Walker, draws: seq<StepDraws>, k: nat)
    requires w.width >= 3 && w.height >= 3 && InsideRing(w)
    requires k < |draws|
    ensures Candidates(WalkerAfter(w, draws[..k])) == Directions
    ensures StepDirection(WalkerAfter(w, draws[..k]), draws[k]) == Directions[draws[k].direction % 8]
  {
    NoFilterInsideRing(WalkerAfter(w, draws[..k]));
  }

  /**
   The clamp keeps the walker's own cell off the outer ring, but the widening
   does not: on a 3 x 3 grid a rightward step from the centre is clamped back
   to (1, 1) and widens onto (1, 0), a cell of the border row.
   */
  lemma WideningReachesRing()
    ensures var w := SubStep(NewWalker(1, 1, 3, 3), Vec2(1, 0), false);
      && w.position == Vec2(1, 1)
      && GetTile(Carve(NewGrid(3, 3), w, Vec2(1, 0)), 1, 0) == Floor
  {
    var w := SubStep(NewWalker(1, 1, 3, 3), Vec2(1, 0), false);
    assert Widened(w.position, Vec2(1, 0), 1, 0);
    assert InArea(NewGrid(3, 3), w, 1, 0);
  }

  /** The edge pass and the island pass never change a Floor cell. */
  lemma PassesKeepFloor(c: Grid)
    requires Valid(c)
    ensures forall x, y :: GetTile(c, x, y) == Floor ==> GetTile(Islands.IslandsOf(Edges.EdgesOf(c)), x, y) == Floor
  {
    var e := Edges.EdgesOf(c);
    forall x, y | GetTile(c, x, y) == Floor
      ensures GetTile(Islands.IslandsOf(e), x, y) == Floor
    {
      Edges.EdgesOfTile(c, x, y);
      Islands.IslandsOfTile(e, x, y);
    }
  }

  /** After both classification passes no Wall cell is left next to a Floor cell. */
  lemma PassesLeaveNoBareWall(c: Grid)
    requires Valid(c)
    ensures var r := Islands.IslandsOf(Edges.EdgesOf(c));
      forall x, y :: WithinBounds(r, x, y) && GetTile(r, x, y) == Wall ==> !Edges.NextToFloor(r, x, y)
  {
    var e := Edges.EdgesOf(c);
    var r := Islands.IslandsOf(e);
    forall x, y
      ensures GetTile(r, x, y) == Floor <==> GetTile(c, x, y) == Floor
    {
      Edges.EdgesOfTile(c, x, y);
      if WithinBounds(c, x, y) {
        Islands.IslandsOfTile(e, x, y);
      }
    }
    forall x, y | WithinBounds(r, x, y) && GetTile(r, x, y) == Wall
      ensures !Edges.NextToFloor(r, x, y)
    {
      Edges.EdgesOfTile(c, x, y);
      Islands.IslandsOfTile(e, x, y);
      assert GetTile(e, x, y) == Wall;
    }
  }

  /**
   The source's Walk: walkSteps steps of direction choice, step-length draw
   and carving sub-steps, then the edge pass and the island pass over the
   whole grid.
   */
  method Walk(w: Walker, g: Grid, draws: seq<StepDraws>) returns (w': Walker, r: Grid)
    requires Valid(g) && WellFormedDraws(w, draws)
    ensures w' == WalkerAfter(w, draws)
    ensures r == Islands.IslandsOf(Edges.EdgesOf(MarchGrid(w, g, draws)))
    ensures Valid(r) && r.width == g.width && r.height == g.height
    ensures forall p :: p in Trail(w, draws) && WithinBounds(g, p.x, p.y) ==> GetTile(r, p.x, p.y) == Floor
    ensures forall x, y :: GetTile(g, x, y) == Floor ==> GetTile(r, x, y) == Floor
    ensures forall x, y :: WithinBounds(r, x, y) && GetTile(r, x, y) == Wall ==> !Edges.NextToFloor(r, x, y)
  {
    var carved;
    w', carved := March(w, g, draws);
    var e := Edges.DetectEdges(carved);
    r := Islands.IdentifyIslands(e);
    TrailFloor(w, g, draws);
    PassesLeaveNoBareWall(carved);
    PassesKeepFloor(carved);
  }

  /** The stepping loop of Walk, before the classification passes. */
  method March(w: Walker, g: Grid, draws: seq<StepDraws>) returns (cur: Walker, grid: Grid)
    requires Valid(g) && WellFormedDraws(w, draws)
    ensures cur == WalkerAfter(w, draws)
    ensures grid == MarchGrid(w, g, draws)
  {
    cur := w;
    grid := g;
    var i := 0;
    while i < w.walkSteps
      invariant 0 <= i <= w.walkSteps
      invariant Valid(grid)
      invariant cur == w.(position := cur.position)
      invariant WalkerAfter(cur, draws[i..]) == WalkerAfter(w, draws)
      invariant MarchGrid(cur, grid, draws[i..]) == MarchGrid(w, g, draws)
    {
      var direction := ChooseRandomDirection(cur, draws[i].direction);
      var stepLength := StepLength(w.maxStepLength, draws[i].length);
      assert |draws[i].backtracks| == stepLength;
      assert draws[i..][1..] == draws[i + 1..];
      cur, grid := Stride(cur, grid, direction, draws[i].backtracks);
      i := i + 1;
    }
  }

  /** The sub-step loop of one step: move or backtrack, clamp, carve the cell, widen. */
  method Stride(w: Walker, g: Grid, direction: Vec2, backtracks: seq<bool>) returns (cur: Walker, grid: Grid)
    requires Valid(g)
    ensures cur == StrideWalker(w, direction, backtracks)
    ensures grid == StrideGrid(w, g, direction, backtracks)
  {
    cur := w;
    grid := g;
    var j := 0;
    while j < |backtracks|
      invariant 0 <= j <= |backtracks|
      invariant Valid(grid)
      invariant cur == w.(position := cur.position)
      invariant StrideWalker(cur, direction, backtracks[j..]) == StrideWalker(w, direction, backtracks)
      invariant StrideGrid(cur, grid, direction, backtracks[j..]) == StrideGrid(w, g, direction, backtracks)
    {
      var position := if backtracks[j] then Minus(cur.position, direction) else Plus(cur.position, direction);
      position := Vec2(Clamp(position.x, 1, w.width - 2), position.y);
      position := Vec2(position.x, Clamp(position.y, 1, w.height - 2));
      assert backtracks[j..][1..] == backtracks[j + 1..];
      assert cur.(position := position) == SubStep(cur, direction, backtracks[j]);
      ghost var before := grid;
      cur := cur.(position := position);
      grid := SetTile(grid, position.x, position.y, Floor);
      grid := CreateWideCorridor(grid, cur, direction);
      assert grid == Carve(before, cur, direction);
      j := j + 1;
    }
  }
}

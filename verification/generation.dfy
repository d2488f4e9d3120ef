/**
 The generator's map creation: a fresh all-Wall grid, then a number of
 walkers run one after another on it, each starting again from the centre
 with the same parameters and each finishing with the edge and island passes.
 */
module Generation {
  import opened Geometry
  import opened LevelGrid
  import Edges
  import Islands
  import Walker

  /** The grid after one walker's whole Walk: its march, then the edge and island passes. */
  ghost function AfterWalker(start: Walker.Walker, g: Grid, draws: seq<Walker.StepDraws>): (r: Grid)
    requires Valid(g)
    ensures Valid(r) && r.width == g.width && r.height == g.height
  {
    Islands.IslandsOf(Edges.EdgesOf(Walker.MarchGrid(start, g, draws)))
  }

  /** The grid after the given walkers, each running its whole Walk in turn. */
  ghost function MapAfter(g: Grid, start: Walker.Walker, walkers: seq<seq<Walker.StepDraws>>): (r: Grid)
    requires Valid(g)
    ensures Valid(r) && r.width == g.width && r.height == g.height
    decreases |walkers|
  {
    if |walkers| == 0 then g
    else MapAfter(AfterWalker(start, g, walkers[0]), start, walkers[1..])
  }

  /** A run of walkers never turns a Floor cell back into something else. */
  lemma {:induction false} MapAfterKeepsFloor(g: Grid, start: Walker.Walker, walkers: seq<seq<Walker.StepDraws>>)
    requires Valid(g)
    ensures forall x, y :: GetTile(g, x, y) == Floor ==> GetTile(MapAfter(g, start, walkers), x, y) == Floor
    decreases |walkers|
  {
    if |walkers| > 0 {
      var c := Walker.MarchGrid(start, g, walkers[0]);
      Walker.PassesKeepFloor(c);
      MapAfterKeepsFloor(Islands.IslandsOf(Edges.EdgesOf(c)), start, walkers[1..]);
    }
  }

  /** Every cell of trail `t` that lies inside `r` is Floor there. */
  predicate TrailKept(r: Grid, t: seq<Vec2>)
    requires Valid(r)
  {
    forall p :: p in t && WithinBounds(r, p.x, p.y) ==> GetTile(r, p.x, p.y) == Floor
  }

  /** The first walker's in-bounds trail cells are Floor at the end of the run. */
  lemma FirstTrailKept(g: Grid, start: Walker.Walker, walkers: seq<seq<Walker.StepDraws>>)
    requires Valid(g) && |walkers| > 0
    ensures TrailKept(MapAfter(g, start, walkers), Walker.Trail(start, walkers[0]))
  {
    var c := Walker.MarchGrid(start, g, walkers[0]);
    var g1 := Islands.IslandsOf(Edges.EdgesOf(c));
    var r := MapAfter(g1, start, walkers[1..]);
    assert MapAfter(g, start, walkers) == r;
    Walker.TrailFloor(start, g, walkers[0]);
    Walker.PassesKeepFloor(c);
    MapAfterKeepsFloor(g1, start, walkers[1..]);
    forall p | p in Walker.Trail(start, walkers[0]) && WithinBounds(r, p.x, p.y)
      ensures GetTile(r, p.x, p.y) == Floor
    {
      assert WithinBounds(g, p.x, p.y);
      assert GetTile(c, p.x, p.y) == Floor;
      assert GetTile(g1, p.x, p.y) == Floor;
    }
  }

  /** Running the walkers in two batches, the second on the first's map, gives the same map. */
  lemma {:induction false} MapAfterSplit(g: Grid, start: Walker.Walker, walkers: seq<seq<Walker.StepDraws>>, i: nat)
    requires Valid(g) && i <= |walkers|
    ensures MapAfter(g, start, walkers) == MapAfter(MapAfter(g, start, walkers[..i]), start, walkers[i..])
    decreases i
  {
    if i == 0 {
      assert walkers[..0] == [] && walkers[0..] == walkers;
    } else {
      var g1 := AfterWalker(start, g, walkers[0]);
      assert walkers[..i][0] == walkers[0];
      assert walkers[..i][1..] == walkers[1..][..i - 1];
      assert walkers[1..][i - 1..] == walkers[i..];
      MapAfterSplit(g1, start, walkers[1..], i - 1);
    }
  }

  /** Every in-bounds trail cell of walker `i` of a run is Floor in the final map. */
  lemma MapAfterTrail(g: Grid, start: Walker.Walker, walkers: seq<seq<Walker.StepDraws>>, i: nat)
    requires Valid(g) && i < |walkers|
    ensures TrailKept(MapAfter(g, start, walkers), Walker.Trail(start, walkers[i]))
  {
    MapAfterSplit(g, start, walkers, i);
    assert walkers[i..][0] == walkers[i];
    FirstTrailKept(MapAfter(g, start, walkers[..i]), start, walkers[i..]);
  }

  /** After at least one walker no Wall of the map is left bare next to a Floor. */
  lemma {:induction false} MapAfterNoBareWall(g: Grid, start: Walker.Walker, walkers: seq<seq<Walker.StepDraws>>)
    requires Valid(g) && |walkers| > 0
    ensures var r := MapAfter(g, start, walkers);
      forall x, y :: WithinBounds(r, x, y) && GetTile(r, x, y) == Wall ==> !Edges.NextToFloor(r, x, y)
    decreases |walkers|
  {
    var c := Walker.MarchGrid(start, g, walkers[0]);
    var g1 := Islands.IslandsOf(Edges.EdgesOf(c));
    assert MapAfter(g, start, walkers) == MapAfter(g1, start, walkers[1..]);
    if |walkers| == 1 {
      Walker.PassesLeaveNoBareWall(c);
    } else {
      MapAfterNoBareWall(g1, start, walkers[1..]);
    }
  }

  /**
   The walkers in turn on one grid, each starting from `start`. Every trail
   cell of every walker ends up Floor, and after at least one walker no Wall
   is left bare next to a Floor.
   */
  method RunWalkers(start: Walker.Walker, g0: Grid, walkers: seq<seq<Walker.StepDraws>>) returns (g: Grid)
    requires Valid(g0)
    requires forall i :: 0 <= i < |walkers| ==> Walker.WellFormedDraws(start, walkers[i])
    ensures Valid(g) && g.width == g0.width && g.height == g0.height
    ensures g == MapAfter(g0, start, walkers)
    ensures |walkers| == 0 ==> g == g0
    ensures forall i, p :: 0 <= i < |walkers| && p in Walker.Trail(start, walkers[i]) && WithinBounds(g, p.x, p.y) ==>
      GetTile(g, p.x, p.y) == Floor
    ensures |walkers| > 0 ==>
      forall x, y :: WithinBounds(g, x, y) && GetTile(g, x, y) == Wall ==> !Edges.NextToFloor(g, x, y)
  {
    g := g0;
    var i := 0;
    while i < |walkers|
      invariant 0 <= i <= |walkers|
      invariant Valid(g) && g.width == g0.width && g.height == g0.height
      invariant MapAfter(g, start, walkers[i..]) == MapAfter(g0, start, walkers)
    {
      assert walkers[i..][1..] == walkers[i + 1..];
      var _, r := Walker.Walk(start, g, walkers[i]);
      g := r;
      i := i + 1;
    }
    forall i | 0 <= i < |walkers|
      ensures forall p :: p in Walker.Trail(start, walkers[i]) && WithinBounds(g, p.x, p.y) ==> GetTile(g, p.x, p.y) == Floor
    {
      MapAfterTrail(g0, start, walkers, i);
    }
    if |walkers| > 0 {
      MapAfterNoBareWall(g0, start, walkers);
    }
  }

  /**
   CreateMap: one fresh grid and one walk per entry of `walkers`, every walker
   starting from the centre. With no walker the map stays solid Wall;
   otherwise every trail cell of every walker is Floor and no Wall is left
   bare next to a Floor.
   */
  method CreateMap(width: nat, height: nat, walkSteps: nat, maxStepLength: nat, walkers: seq<seq<Walker.StepDraws>>)
    returns (g: Grid)
    requires forall i :: 0 <= i < |walkers| ==>
      Walker.WellFormedDraws(Walker.NewWalker(walkSteps, maxStepLength, width, height), walkers[i])
    ensures Valid(g) && g.width == width && g.height == height
    ensures g == MapAfter(NewGrid(width, height), Walker.NewWalker(walkSteps, maxStepLength, width, height), walkers)
    ensures |walkers| == 0 ==> forall x, y :: GetTile(g, x, y) == Wall
    ensures var start := Walker.NewWalker(walkSteps, maxStepLength, width, height);
      forall i, p :: 0 <= i < |walkers| && p in Walker.Trail(start, walkers[i]) && WithinBounds(g, p.x, p.y) ==>
        GetTile(g, p.x, p.y) == Floor
    ensures |walkers| > 0 ==>
      forall x, y :: WithinBounds(g, x, y) && GetTile(g, x, y) == Wall ==> !Edges.NextToFloor(g, x, y)
  {
    g := RunWalkers(Walker.NewWalker(walkSteps, maxStepLength, width, height), NewGrid(width, height), walkers);
  }
}

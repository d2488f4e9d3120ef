/**
 A worked example: one walker on a 5 x 5 grid, one step of length 1, no
 backtrack, and a direction draw of 3, which selects the rightward direction.
 */
module Scenarios {
  import opened Geometry
  import opened LevelGrid
  import Edges
  import Islands
  import Walker

  const Start: Walker.Walker := Walker.NewWalker(1, 1, 5, 5)
  const Draws: seq<Walker.StepDraws> := [Walker.StepDraws(3, 0, [false])]

  /** The cells the example carves: column 3, rows 1 to 3. */
  predicate Carved(x: int, y: int) {
    x == 3 && 1 <= y <= 3
  }

  /** The cells the edge pass promotes around the carved column. */
  predicate Rim(x: int, y: int) {
    ((x == 2 || x == 4) && 1 <= y <= 3) || (x == 3 && (y == 0 || y == 4))
  }

  /** The walker moves from (2, 2) to (3, 2) and carves (3, 1), (3, 2) and (3, 3). */
  lemma ExampleCarving()
    ensures Walker.WalkerAfter(Start, Draws).position == Vec2(3, 2)
    ensures forall x, y :: GetTile(Walker.MarchGrid(Start, NewGrid(5, 5), Draws), x, y) == if Carved(x, y) then Floor else Wall
  {
    var g := NewGrid(5, 5);
    Walker.NoFilterInsideRing(Start);
    var dir := Walker.StepDirection(Start, Draws[0]);
    assert dir == Vec2(1, 0);
    var w1 := Walker.SubStep(Start, dir, false);
    assert w1.position == Vec2(3, 2);
    assert Walker.StrideWalker(Start, dir, [false]) == Walker.StrideWalker(w1, dir, []);
    assert Walker.WalkerAfter(Start, Draws) == Walker.WalkerAfter(w1, []);
    var c := Walker.Carve(g, w1, dir);
    assert Walker.StrideGrid(Start, g, dir, [false]) == Walker.StrideGrid(w1, c, dir, []);
    assert Walker.MarchGrid(Start, g, Draws) == Walker.MarchGrid(w1, c, []);
    forall x, y
      ensures GetTile(c, x, y) == if Carved(x, y) then Floor else Wall
    {
      if Carved(x, y) && y != 2 {
        assert Walker.Widened(w1.position, dir, x, y) && Walker.InArea(g, w1, x, y);
      }
    }
  }

  /** Every solid cell of the example joins the border, so the island pass tags nothing. */
  lemma ExampleSolidReachesBorder(e: Grid, x: int, y: int)
    requires Valid(e) && e.width == 5 && e.height == 5
    requires forall i, j :: GetTile(e, i, j) == Floor <==> Carved(i, j)
    requires forall i, j :: GetTile(e, i, j) != Island
    requires Islands.Passable(e, Vec2(x, y))
    ensures Islands.ReachesBorder(e, Vec2(x, y))
  {
    var p := seq(y + 1, k => Vec2(x, k));
    assert !Carved(x, y);
    if x == 3 {
      assert y == 0 || y == 4;
      assert Islands.IsPath(e, [Vec2(x, y)]);
      assert Islands.OnBorder(e, Vec2(x, y)) && Islands.Reach(e, Vec2(x, y), Vec2(x, y));
    } else {
      forall k | 0 <= k < |p|
        ensures Islands.Passable(e, p[k])
      {
        assert !Carved(x, k) && GetTile(e, x, k) != Island;
      }
      assert Islands.IsPath(e, p);
      assert Islands.OnBorder(e, p[0]) && Islands.Reach(e, p[0], Vec2(x, y));
    }
  }

  /** The example's edge pass: the eight orthogonal neighbours of the carved column become EdgeTile. */
  lemma ExampleEdges(c: Grid)
    requires Valid(c) && c.width == 5 && c.height == 5
    requires forall x, y :: GetTile(c, x, y) == if Carved(x, y) then Floor else Wall
    ensures forall x, y :: 0 <= x < 5 && 0 <= y < 5 ==>
      GetTile(Edges.EdgesOf(c), x, y) == if Carved(x, y) then Floor else if Rim(x, y) then EdgeTile else Wall
    ensures forall x, y :: (GetTile(Edges.EdgesOf(c), x, y) == Floor <==> Carved(x, y)) && GetTile(Edges.EdgesOf(c), x, y) != Island
  {
    forall x, y
      ensures GetTile(Edges.EdgesOf(c), x, y) == if Carved(x, y) then Floor else if Rim(x, y) && WithinBounds(c, x, y) then EdgeTile else Wall
    {
      Edges.EdgesOfTile(c, x, y);
    }
  }

  /** The example's island pass changes nothing. */
  lemma ExampleIslands(e: Grid)
    requires Valid(e) && e.width == 5 && e.height == 5
    requires forall x, y :: GetTile(e, x, y) == Floor <==> Carved(x, y)
    requires forall x, y :: GetTile(e, x, y) != Island
    ensures forall x, y :: 0 <= x < 5 && 0 <= y < 5 ==> GetTile(Islands.IslandsOf(e), x, y) == GetTile(e, x, y)
  {
    forall x, y | 0 <= x < 5 && 0 <= y < 5
      ensures GetTile(Islands.IslandsOf(e), x, y) == GetTile(e, x, y)
    {
      Islands.IslandsOfTile(e, x, y);
      if Islands.Passable(e, Vec2(x, y)) {
        ExampleSolidReachesBorder(e, x, y);
      }
    }
  }

  /**
   The example's final map: the carved column is Floor, its eight orthogonal
   neighbours are EdgeTile, everything else is Wall, and nothing is Island.
   */
  method ExampleWalk() returns (r: Grid)
    ensures Valid(r) && r.width == 5 && r.height == 5
    ensures forall x, y :: 0 <= x < 5 && 0 <= y < 5 ==>
      GetTile(r, x, y) == if Carved(x, y) then Floor else if Rim(x, y) then EdgeTile else Wall
  {
    var _, walked := Walker.Walk(Start, NewGrid(5, 5), Draws);
    r := walked;
    ExampleCarving();
    var c := Walker.MarchGrid(Start, NewGrid(5, 5), Draws);
    ExampleEdges(c);
    ExampleIslands(Edges.EdgesOf(c));
  }
}

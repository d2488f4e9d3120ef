/**
 The island pass: a breadth-first flood fill from every border cell over Wall
 and EdgeTile cells, after which every such cell the fill never reached is
 retagged Island. Floor and Island cells block the fill.
 */
module Islands {
  import opened Geometry
  import opened LevelGrid

  /** Cells the fill may enter: inside the grid and Wall or EdgeTile. */
  predicate Passable(g: Grid, c: Vec2)
    requires Valid(g)
  {
    WithinBounds(g, c.x, c.y) && (GetTile(g, c.x, c.y) == Wall || GetTile(g, c.x, c.y) == EdgeTile)
  }

  predicate OnBorder(g: Grid, c: Vec2) {
    WithinBounds(g, c.x, c.y) && (c.x == 0 || c.x == g.width - 1 || c.y == 0 || c.y == g.height - 1)
  }

  /** An orthogonal walk through passable cells. */
  ghost predicate IsPath(g: Grid, p: seq<Vec2>)
    requires Valid(g)
  {
    && |p| > 0
    && (forall i :: 0 <= i < |p| ==> Passable(g, p[i]))
    && (forall i :: 0 <= i < |p| - 1 ==> Adjacent(p[i], p[i + 1]))
  }

  ghost predicate Avoids(p: seq<Vec2>, blocked: set<Vec2>) {
    forall i :: 0 <= i < |p| ==> p[i] !in blocked
  }

  /** c is reachable from s along a path none of whose cells lies in `blocked`. */
  ghost predicate ReachAvoiding(g: Grid, blocked: set<Vec2>, s: Vec2, c: Vec2)
    requires Valid(g)
  {
    exists p :: IsPath(g, p) && Avoids(p, blocked) && p[0] == s && p[|p| - 1] == c
  }

  ghost predicate Reach(g: Grid, s: Vec2, c: Vec2)
    requires Valid(g)
  {
    exists p :: IsPath(g, p) && p[0] == s && p[|p| - 1] == c
  }

  /** c is joined to the grid's border by an orthogonal path of Wall/EdgeTile cells. */
  ghost predicate ReachesBorder(g: Grid, c: Vec2)
    requires Valid(g)
  {
    exists s :: OnBorder(g, s) && Reach(g, s, c)
  }

  /** Every passable neighbour of a cell of v outside `blocked` is in v or still queued. */
  ghost predicate ClosedUpTo(g: Grid, v: set<Vec2>, blocked: set<Vec2>, queue: seq<Vec2>)
    requires Valid(g)
  {
    forall c, n :: c in v && c !in blocked && Adjacent(c, n) && Passable(g, n) && n !in blocked ==> n in v || n in queue
  }

  /** v holds every passable neighbour of each of its cells. */
  ghost predicate Closed(g: Grid, v: set<Vec2>)
    requires Valid(g)
  {
    ClosedUpTo(g, v, {}, [])
  }

  ghost function Cells(g: Grid): set<Vec2> {
    set x, y | 0 <= x < g.width && 0 <= y < g.height :: Vec2(x, y)
  }

  lemma ReachAvoidingExtend(g: Grid, blocked: set<Vec2>, s: Vec2, a: Vec2, b: Vec2)
    requires Valid(g)
    requires ReachAvoiding(g, blocked, s, a) && Adjacent(a, b) && Passable(g, b) && b !in blocked
    ensures ReachAvoiding(g, blocked, s, b)
  {
    var p :| IsPath(g, p) && Avoids(p, blocked) && p[0] == s && p[|p| - 1] == a;
    var q := p + [b];
    assert IsPath(g, q) && Avoids(q, blocked) && q[0] == s && q[|q| - 1] == b;
  }

  lemma ReachAvoidingStart(g: Grid, blocked: set<Vec2>, s: Vec2)
    requires Valid(g) && Passable(g, s) && s !in blocked
    ensures ReachAvoiding(g, blocked, s, s)
  {
    assert IsPath(g, [s]) && Avoids([s], blocked);
  }

  /** A path that starts inside a set closed outside `blocked` and avoids `blocked` never leaves it. */
  lemma {:induction false} PathStaysInside(g: Grid, v: set<Vec2>, blocked: set<Vec2>, p: seq<Vec2>)
    requires Valid(g) && ClosedUpTo(g, v, blocked, [])
    requires IsPath(g, p) && Avoids(p, blocked) && p[0] in v
    ensures p[|p| - 1] in v
  {
    if |p| > 1 {
      var q := p[..|p| - 1];
      assert IsPath(g, q) && Avoids(q, blocked);
      PathStaysInside(g, v, blocked, q);
      assert Adjacent(p[|p| - 2], p[|p| - 1]);
    }
  }

  lemma ReachAvoidingIsReach(g: Grid, blocked: set<Vec2>, s: Vec2, c: Vec2)
    requires Valid(g) && ReachAvoiding(g, blocked, s, c)
    ensures Reach(g, s, c) && Passable(g, s) && Passable(g, c)
  {
    var p :| IsPath(g, p) && Avoids(p, blocked) && p[0] == s && p[|p| - 1] == c;
    assert Passable(g, p[0]) && Passable(g, p[|p| - 1]);
  }

  /**
   What the fill keeps true while it runs from `start` with `visited` marked
   beforehand: only cells inside the grid are marked; everything newly marked,
   and every passable queued position, is reachable from `start` avoiding the
   earlier marks; `start` is marked or still queued; and every passable
   neighbour of a newly marked cell is marked or queued.
   */
  ghost predicate FillInvariant(g: Grid, visited: set<Vec2>, start: Vec2, v: set<Vec2>, queue: seq<Vec2>)
    requires Valid(g)
  {
    && (forall c :: c in v ==> WithinBounds(g, c.x, c.y))
    && visited <= v
    && (forall c :: c in v && c !in visited ==> ReachAvoiding(g, visited, start, c))
    && (forall i :: 0 <= i < |queue| && Passable(g, queue[i]) && queue[i] !in visited ==> ReachAvoiding(g, visited, start, queue[i]))
    && (Passable(g, start) && start !in visited ==> start in v || start in queue)
    && ClosedUpTo(g, v, visited, queue)
  }

  lemma FillSkip(g: Grid, visited: set<Vec2>, start: Vec2, v: set<Vec2>, queue: seq<Vec2>)
    requires Valid(g) && FillInvariant(g, visited, start, v, queue)
    requires |queue| > 0 && (queue[0] in v || !Passable(g, queue[0]))
    ensures FillInvariant(g, visited, start, v, queue[1..])
  {
    var q := queue[1..];
    forall n | n in queue && n != queue[0]
      ensures n in q
    {
      var k :| 0 <= k < |queue| && queue[k] == n;
      assert q[k - 1] == n;
    }
    forall i | 0 <= i < |q|
      ensures q[i] == queue[i + 1]
    {
    }
  }

  lemma FillVisit(g: Grid, visited: set<Vec2>, start: Vec2, v: set<Vec2>, queue: seq<Vec2>)
    requires Valid(g) && FillInvariant(g, visited, start, v, queue)
    requires |queue| > 0 && queue[0] !in v && Passable(g, queue[0])
    ensures FillInvariant(g, visited, start, v + {queue[0]}, queue[1..] + Neighbours(queue[0]))
  {
    var c := queue[0];
    var q := queue[1..] + Neighbours(c);
    assert c !in visited;
    assert ReachAvoiding(g, visited, start, c);
    FillVisitQueue(g, visited, start, queue);
    FillVisitClosed(g, visited, v, queue);
  }

  /** The four positions the fill queues around a marked cell, in the source's order. */
  function Neighbours(c: Vec2): (ns: seq<Vec2>)
    ensures forall n :: Adjacent(c, n) <==> n in ns
  {
    [Vec2(c.x + 1, c.y), Vec2(c.x - 1, c.y), Vec2(c.x, c.y + 1), Vec2(c.x, c.y - 1)]
  }

  lemma FillVisitQueue(g: Grid, visited: set<Vec2>, start: Vec2, queue: seq<Vec2>)
    requires Valid(g) && |queue| > 0 && Passable(g, queue[0]) && queue[0] !in visited
    requires forall i :: 0 <= i < |queue| && Passable(g, queue[i]) && queue[i] !in visited ==> ReachAvoiding(g, visited, start, queue[i])
    ensures var q := queue[1..] + Neighbours(queue[0]);
      forall i :: 0 <= i < |q| && Passable(g, q[i]) && q[i] !in visited ==> ReachAvoiding(g, visited, start, q[i])
  {
    var c := queue[0];
    var q := queue[1..] + Neighbours(c);
    assert ReachAvoiding(g, visited, start, c);
    forall i | 0 <= i < |q| && Passable(g, q[i]) && q[i] !in visited
      ensures ReachAvoiding(g, visited, start, q[i])
    {
      if i < |queue| - 1 {
        assert q[i] == queue[i + 1];
      } else {
        assert q[i] in Neighbours(c);
        ReachAvoidingExtend(g, visited, start, c, q[i]);
      }
    }
  }

  lemma FillVisitClosed(g: Grid, visited: set<Vec2>, v: set<Vec2>, queue: seq<Vec2>)
    requires Valid(g) && |queue| > 0
    requires ClosedUpTo(g, v, visited, queue)
    ensures ClosedUpTo(g, v + {queue[0]}, visited, queue[1..] + Neighbours(queue[0]))
  {
    var c := queue[0];
    var q := queue[1..] + Neighbours(c);
    var v' := v + {c};
    forall n | n in queue
      ensures n in v' || n in q
    {
      var k :| 0 <= k < |queue| && queue[k] == n;
      if k > 0 {
        assert q[k - 1] == n;
      }
    }
  }

  lemma FillDone(g: Grid, visited: set<Vec2>, start: Vec2, v: set<Vec2>)
    requires Valid(g) && FillInvariant(g, visited, start, v, [])
    ensures forall c :: c in v <==> c in visited || ReachAvoiding(g, visited, start, c)
    ensures Passable(g, start) ==> start in v
    ensures Closed(g, visited) ==> Closed(g, v)
  {
    forall c | ReachAvoiding(g, visited, start, c)
      ensures c in v
    {
      var p :| IsPath(g, p) && Avoids(p, visited) && p[0] == start && p[|p| - 1] == c;
      assert Passable(g, p[0]) && p[0] !in visited;
      PathStaysInside(g, v, visited, p);
    }
  }

  lemma UnvisitedShrinks(g: Grid, v: set<Vec2>, c: Vec2)
    requires WithinBounds(g, c.x, c.y) && c !in v
    ensures |Cells(g) - (v + {c})| < |Cells(g) - v|
  {
    assert c in Cells(g) - v;
    assert Cells(g) - (v + {c}) == (Cells(g) - v) - {c};
  }

  /**
   The source's FloodFillIsland: a FIFO work queue seeded with `start`;
   positions outside the grid, already visited, Floor or Island are
   discarded when dequeued, the rest are marked and their four neighbours
   queued. It marks exactly the cells reachable from `start` without
   crossing an already-marked cell, and only cells inside the grid.
   */
  method FloodFillIsland(g: Grid, start: Vec2, visited: set<Vec2>) returns (v: set<Vec2>)
    requires Valid(g)
    requires forall c :: c in visited ==> WithinBounds(g, c.x, c.y)
    ensures forall c :: c in v ==> WithinBounds(g, c.x, c.y)
    ensures forall c :: c in v <==> c in visited || ReachAvoiding(g, visited, start, c)
    ensures Passable(g, start) ==> start in v
    ensures Closed(g, visited) ==> Closed(g, v)
  {
    v := visited;
    if start.x < 0 || start.x >= g.width || start.y < 0 || start.y >= g.height {
      OutsideReachesNothing(g, visited, start);
      return;
    }
    var toVisit := [start];
    while |toVisit| > 0
      invariant FillInvariant(g, visited, start, v, toVisit)
      decreases |Cells(g) - v|, |toVisit|
    {
      var current := toVisit[0];
      if current.x < 0 || current.x >= g.width || current.y < 0 || current.y >= g.height {
        FillSkip(g, visited, start, v, toVisit);
        toVisit := toVisit[1..];
      } else if current in v || g.cells[current.x][current.y] == Floor || g.cells[current.x][current.y] == Island {
        FillSkip(g, visited, start, v, toVisit);
        toVisit := toVisit[1..];
      } else {
        FillVisit(g, visited, start, v, toVisit);
        UnvisitedShrinks(g, v, current);
        v := v + {current};
        toVisit := toVisit[1..] + Neighbours(current);
      }
    }
    FillDone(g, visited, start, v);
  }

  /** A start outside the grid reaches nothing. */
  lemma OutsideReachesNothing(g: Grid, visited: set<Vec2>, start: Vec2)
    requires Valid(g) && !WithinBounds(g, start.x, start.y)
    ensures forall c :: !ReachAvoiding(g, visited, start, c)
  {
    forall c | ReachAvoiding(g, visited, start, c)
      ensures false
    {
      ReachAvoidingIsReach(g, visited, start, c);
    }
  }

  /** The island tag of (x, y): Wall/EdgeTile cells cut off from the border become Island, all else stays. */
  ghost function IslandTileAt(g: Grid, x: int, y: int): Tile
    requires Valid(g)
  {
    if Passable(g, Vec2(x, y)) && !ReachesBorder(g, Vec2(x, y)) then Island else GetTile(g, x, y)
  }

  /** The island classification stated on reachability rather than on a traversal. */
  ghost function IslandsOf(g: Grid): (r: Grid)
    requires Valid(g)
    ensures Valid(r) && r.width == g.width && r.height == g.height
  {
    Grid(g.width, g.height, seq(g.width, x => seq(g.height, y => IslandTileAt(g, x, y))))
  }

  lemma IslandsOfTile(g: Grid, x: int, y: int)
    requires Valid(g) && WithinBounds(g, x, y)
    ensures GetTile(IslandsOf(g), x, y) == IslandTileAt(g, x, y)
  {
  }

  /** What the border sweep keeps true of the marks: inside the grid, closed, and all joined to the border. */
  ghost predicate SweepInvariant(g: Grid, v: set<Vec2>)
    requires Valid(g)
  {
    && (forall c :: c in v ==> WithinBounds(g, c.x, c.y))
    && Closed(g, v)
    && (forall c :: c in v ==> ReachesBorder(g, c))
  }

  /** The seed s has been filled from: if the fill could enter it, it is marked. */
  ghost predicate Seeded(g: Grid, v: set<Vec2>, s: Vec2)
    requires Valid(g)
  {
    Passable(g, s) ==> s in v
  }

  /** Both border cells of column i (top and bottom rows) have been seeds. */
  ghost predicate ColumnSeeded(g: Grid, v: set<Vec2>, i: int)
    requires Valid(g)
  {
    Seeded(g, v, Vec2(i, 0)) && Seeded(g, v, Vec2(i, g.height - 1))
  }

  /** Both border cells of row j (left and right columns) have been seeds. */
  ghost predicate RowSeeded(g: Grid, v: set<Vec2>, j: int)
    requires Valid(g)
  {
    Seeded(g, v, Vec2(0, j)) && Seeded(g, v, Vec2(g.width - 1, j))
  }

  /** A fill from a seed on one of the border lines keeps the sweep invariant. */
  lemma SweepStep(g: Grid, v: set<Vec2>, s: Vec2, v': set<Vec2>)
    requires Valid(g) && SweepInvariant(g, v)
    requires s.x == 0 || s.x == g.width - 1 || s.y == 0 || s.y == g.height - 1
    requires forall c :: c in v' ==> WithinBounds(g, c.x, c.y)
    requires forall c :: c in v' <==> c in v || ReachAvoiding(g, v, s, c)
    requires Closed(g, v) ==> Closed(g, v')
    ensures SweepInvariant(g, v') && v <= v'
  {
    forall c | c in v' && c !in v
      ensures ReachesBorder(g, c)
    {
      ReachAvoidingIsReach(g, v, s, c);
      assert OnBorder(g, s);
    }
  }

  /** One call of FloodFillIsland from a seed on a border line, with what it does to the sweep. */
  method FillFromBorder(g: Grid, seed: Vec2, visited: set<Vec2>) returns (v: set<Vec2>)
    requires Valid(g) && SweepInvariant(g, visited)
    requires seed.x == 0 || seed.x == g.width - 1 || seed.y == 0 || seed.y == g.height - 1
    ensures SweepInvariant(g, v) && visited <= v && Seeded(g, v, seed)
  {
    v := FloodFillIsland(g, seed, visited);
    SweepStep(g, visited, seed, v);
  }

  /** Marks are never removed, so seeds already handled stay handled. */
  lemma SeedsKept(g: Grid, v: set<Vec2>, v': set<Vec2>, columns: int, rows: int)
    requires Valid(g) && v <= v'
    requires forall i :: 0 <= i < columns ==> ColumnSeeded(g, v, i)
    requires forall j :: 0 <= j < rows ==> RowSeeded(g, v, j)
    ensures forall i :: 0 <= i < columns ==> ColumnSeeded(g, v', i)
    ensures forall j :: 0 <= j < rows ==> RowSeeded(g, v', j)
  {
    forall i | 0 <= i < columns
      ensures ColumnSeeded(g, v', i)
    {
      assert ColumnSeeded(g, v, i);
    }
    forall j | 0 <= j < rows
      ensures RowSeeded(g, v', j)
    {
      assert RowSeeded(g, v, j);
    }
  }

  /** Once every border cell has been a seed, the marks are exactly the border-reachable cells. */
  lemma SweepComplete(g: Grid, v: set<Vec2>)
    requires Valid(g) && SweepInvariant(g, v)
    requires forall i :: 0 <= i < g.width ==> ColumnSeeded(g, v, i)
    requires forall j :: 0 <= j < g.height ==> RowSeeded(g, v, j)
    ensures forall c :: c in v <==> ReachesBorder(g, c)
  {
    forall c | ReachesBorder(g, c)
      ensures c in v
    {
      var s :| OnBorder(g, s) && Reach(g, s, c);
      var p :| IsPath(g, p) && p[0] == s && p[|p| - 1] == c;
      assert Passable(g, p[0]);
      if s.y == 0 || s.y == g.height - 1 {
        assert ColumnSeeded(g, v, s.x);
      } else {
        assert RowSeeded(g, v, s.y);
      }
      assert Avoids(p, {});
      PathStaysInside(g, v, {}, p);
    }
  }

  /** The tile (i, j) holds once the retagging scan has reached (x, y). */
  ghost function MarkTileAt(g: Grid, v: set<Vec2>, x: int, y: int, i: int, j: int): Tile
    requires Valid(g)
  {
    var t := GetTile(g, i, j);
    if WithinBounds(g, i, j) && ScannedBefore(i, j, x, y) && Vec2(i, j) !in v && (t == Wall || t == EdgeTile) then Island else t
  }

  /**
   The source's IdentifyIslands: fill from the top and bottom rows, then from
   the left and right columns, then retag every unmarked Wall/EdgeTile as
   Island. A Wall/EdgeTile cell ends up Island exactly when no orthogonal
   path of Wall/EdgeTile cells joins it to the border.
   */
  method IdentifyIslands(g: Grid) returns (r: Grid)
    requires Valid(g)
    ensures Valid(r) && r.width == g.width && r.height == g.height
    ensures forall x, y :: WithinBounds(g, x, y) ==>
      (GetTile(r, x, y) == Island <==> GetTile(g, x, y) == Island || (Passable(g, Vec2(x, y)) && !ReachesBorder(g, Vec2(x, y))))
    ensures forall x, y :: GetTile(r, x, y) != Island ==> GetTile(r, x, y) == GetTile(g, x, y)
    ensures r == IslandsOf(g)
  {
    var visited: set<Vec2> := {};
    var x := 0;
    while x < g.width
      invariant 0 <= x <= g.width
      invariant SweepInvariant(g, visited)
      invariant forall i :: 0 <= i < x ==> ColumnSeeded(g, visited, i)
    {
      ghost var before := visited;
      visited := FillFromBorder(g, Vec2(x, 0), visited);
      visited := FillFromBorder(g, Vec2(x, g.height - 1), visited);
      SeedsKept(g, before, visited, x, 0);
      x := x + 1;
    }
    var y := 0;
    while y < g.height
      invariant 0 <= y <= g.height
      invariant SweepInvariant(g, visited)
      invariant forall i :: 0 <= i < g.width ==> ColumnSeeded(g, visited, i)
      invariant forall j :: 0 <= j < y ==> RowSeeded(g, visited, j)
    {
      ghost var before := visited;
      visited := FillFromBorder(g, Vec2(0, y), visited);
      visited := FillFromBorder(g, Vec2(g.width - 1, y), visited);
      SeedsKept(g, before, visited, g.width, y);
      y := y + 1;
    }
    SweepComplete(g, visited);
    r := MarkIslands(g, visited);
  }

  /** The retagging scan of IdentifyIslands over the final marks. */
  method MarkIslands(g: Grid, visited: set<Vec2>) returns (r: Grid)
    requires Valid(g)
    requires forall c :: c in visited <==> ReachesBorder(g, c)
    ensures Valid(r) && r.width == g.width && r.height == g.height
    ensures forall x, y :: WithinBounds(g, x, y) ==>
      (GetTile(r, x, y) == Island <==> GetTile(g, x, y) == Island || (Passable(g, Vec2(x, y)) && !ReachesBorder(g, Vec2(x, y))))
    ensures forall x, y :: GetTile(r, x, y) != Island ==> GetTile(r, x, y) == GetTile(g, x, y)
    ensures r == IslandsOf(g)
  {
    r := g;
    var x := 0;
    while x < g.width
      invariant 0 <= x <= g.width
      invariant Valid(r) && r.width == g.width && r.height == g.height
      invariant forall i, j :: GetTile(r, i, j) == MarkTileAt(g, visited, x, 0, i, j)
    {
      var y := 0;
      while y < g.height
        invariant 0 <= y <= g.height
        invariant Valid(r) && r.width == g.width && r.height == g.height
        invariant forall i, j :: GetTile(r, i, j) == MarkTileAt(g, visited, x, y, i, j)
      {
        assert GetTile(r, x, y) == MarkTileAt(g, visited, x, y, x, y);
        if Vec2(x, y) !in visited && (r.cells[x][y] == Wall || IsEdgeTile(r, x, y)) {
          r := SetTile(r, x, y, Island);
        }
        y := y + 1;
      }
      x := x + 1;
    }
    forall i, j | WithinBounds(g, i, j)
      ensures GetTile(r, i, j) == GetTile(IslandsOf(g), i, j)
    {
      IslandsOfTile(g, i, j);
      assert GetTile(r, i, j) == MarkTileAt(g, visited, g.width, 0, i, j);
    }
    SameTiles(r, IslandsOf(g));
  }

  /** Every cell on a path that starts on the border itself reaches the border. */
  lemma PathCellsReachBorder(g: Grid, p: seq<Vec2>, k: int)
    requires Valid(g) && IsPath(g, p) && OnBorder(g, p[0]) && 0 <= k < |p|
    ensures ReachesBorder(g, p[k])
  {
    var q := p[..k + 1];
    assert IsPath(g, q) && q[0] == p[0] && q[|q| - 1] == p[k];
  }

  /** Running the island pass a second time changes nothing. */
  lemma IslandsOfIdempotent(g: Grid)
    requires Valid(g)
    ensures IslandsOf(IslandsOf(g)) == IslandsOf(g)
  {
    var r := IslandsOf(g);
    forall x, y | WithinBounds(r, x, y)
      ensures GetTile(IslandsOf(r), x, y) == GetTile(r, x, y)
    {
      IslandsOfTile(r, x, y);
      IslandsOfTile(g, x, y);
      var c := Vec2(x, y);
      if Passable(r, c) {
        assert Passable(g, c) && ReachesBorder(g, c);
        var s :| OnBorder(g, s) && Reach(g, s, c);
        var p: seq<Vec2> :| IsPath(g, p) && p[0] == s && p[|p| - 1] == c;
        forall k | 0 <= k < |p|
          ensures Passable(r, p[k])
        {
          PathCellsReachBorder(g, p, k);
          assert Passable(g, p[k]);
          IslandsOfTile(g, p[k].x, p[k].y);
        }
        assert IsPath(r, p);
        assert OnBorder(r, s) && Reach(r, s, c);
      }
    }
    SameTiles(IslandsOf(r), r);
  }
}

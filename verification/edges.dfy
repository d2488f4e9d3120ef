/** The edge pass: every Wall orthogonally next to a Floor becomes an EdgeTile. */
module Edges {
  import opened Geometry
  import opened LevelGrid

  /** Some orthogonal neighbour of (x, y) is Floor; reads outside the grid give Wall, so only neighbours inside the grid count. */
  predicate NextToFloor(g: Grid, x: int, y: int)
    requires Valid(g)
  {
    || GetTile(g, x + 1, y) == Floor
    || GetTile(g, x - 1, y) == Floor
    || GetTile(g, x, y + 1) == Floor
    || GetTile(g, x, y - 1) == Floor
  }

  /** The tile (x, y) gets when every decision is taken on the state g. */
  function EdgeTileAt(g: Grid, x: int, y: int): Tile
    requires Valid(g)
  {
    var t := GetTile(g, x, y);
    if WithinBounds(g, x, y) && t == Wall && NextToFloor(g, x, y) then EdgeTile else t
  }

  /** The simultaneous edge classification, every cell judged on the pre-state. */
  function EdgesOf(g: Grid): (r: Grid)
    requires Valid(g)
    ensures Valid(r) && r.width == g.width && r.height == g.height
  {
    Grid(g.width, g.height, seq(g.width, x => seq(g.height, y => EdgeTileAt(g, x, y))))
  }

  lemma EdgesOfTile(g: Grid, x: int, y: int)
    requires Valid(g)
    ensures GetTile(EdgesOf(g), x, y) == EdgeTileAt(g, x, y)
  {
  }

  /** A floor neighbour of (i, j) that the scan has already visited when it stands at (x, y). */
  predicate ScannedFloorNextTo(g: Grid, i: int, j: int, x: int, y: int)
    requires Valid(g)
  {
    || (GetTile(g, i + 1, j) == Floor && ScannedBefore(i + 1, j, x, y))
    || (GetTile(g, i - 1, j) == Floor && ScannedBefore(i - 1, j, x, y))
    || (GetTile(g, i, j + 1) == Floor && ScannedBefore(i, j + 1, x, y))
    || (GetTile(g, i, j - 1) == Floor && ScannedBefore(i, j - 1, x, y))
  }

  /** The tile (i, j) holds once the in-place scan has reached (x, y). */
  function ScanTileAt(g: Grid, x: int, y: int, i: int, j: int): Tile
    requires Valid(g)
  {
    var t := GetTile(g, i, j);
    if WithinBounds(g, i, j) && t == Wall && ScannedFloorNextTo(g, i, j, x, y) then EdgeTile else t
  }

  /**
   The in-place scan of the source: columns then rows, promoting the Wall
   neighbours of each Floor it meets. Because it only ever performs
   Wall -> EdgeTile and never writes a Floor, its result is the simultaneous
   classification, whatever the scan order.
   */
  method DetectEdges(g: Grid) returns (r: Grid)
    requires Valid(g)
    ensures Valid(r) && r.width == g.width && r.height == g.height
    ensures forall x, y :: WithinBounds(g, x, y) && GetTile(g, x, y) == Wall && NextToFloor(g, x, y) ==> GetTile(r, x, y) == EdgeTile
    ensures forall x, y :: GetTile(r, x, y) != GetTile(g, x, y) ==> GetTile(g, x, y) == Wall && GetTile(r, x, y) == EdgeTile && NextToFloor(g, x, y)
    ensures r == EdgesOf(g)
  {
    r := g;
    var x := 0;
    while x < g.width
      invariant 0 <= x <= g.width
      invariant Valid(r) && r.width == g.width && r.height == g.height
      invariant forall i, j :: GetTile(r, i, j) == ScanTileAt(g, x, 0, i, j)
    {
      var y := 0;
      while y < g.height
        invariant 0 <= y <= g.height
        invariant Valid(r) && r.width == g.width && r.height == g.height
        invariant forall i, j :: GetTile(r, i, j) == ScanTileAt(g, x, y, i, j)
      {
        ScanCellStep(g, r, x, y);
        r := ScanCell(r, x, y);
        y := y + 1;
      }
      forall i, j
        ensures ScanTileAt(g, x, g.height, i, j) == ScanTileAt(g, x + 1, 0, i, j)
      {
      }
      x := x + 1;
    }
    forall i, j | WithinBounds(g, i, j)
      ensures GetTile(r, i, j) == GetTile(EdgesOf(g), i, j)
    {
      EdgesOfTile(g, i, j);
    }
    SameTiles(r, EdgesOf(g));
  }

  /** One iteration of the scan: the body of the inner loop at (x, y). */
  function ScanCell(r: Grid, x: int, y: int): (r': Grid)
    requires Valid(r) && WithinBounds(r, x, y)
    ensures Valid(r') && r'.width == r.width && r'.height == r.height
  {
    if r.cells[x][y] == Floor then PromoteAround(r, x, y) else r
  }

  /** Scanning (x, y) moves the scan position one cell on. */
  lemma ScanCellStep(g: Grid, r: Grid, x: int, y: int)
    requires Valid(g) && Valid(r) && r.width == g.width && r.height == g.height
    requires WithinBounds(g, x, y)
    requires forall i, j :: GetTile(r, i, j) == ScanTileAt(g, x, y, i, j)
    ensures forall i, j :: GetTile(ScanCell(r, x, y), i, j) == ScanTileAt(g, x, y + 1, i, j)
  {
    assert GetTile(r, x, y) == ScanTileAt(g, x, y, x, y);
    forall i, j
      ensures GetTile(ScanCell(r, x, y), i, j) == ScanTileAt(g, x, y + 1, i, j)
    {
      assert GetTile(r, i, j) == ScanTileAt(g, x, y, i, j);
      if GetTile(r, x, y) == Floor {
        assert GetTile(g, x, y) == Floor;
        ScanFloorStep(g, r, x, y, i, j);
      } else {
        assert GetTile(g, x, y) != Floor;
        assert ScannedFloorNextTo(g, i, j, x, y) == ScannedFloorNextTo(g, i, j, x, y + 1);
      }
    }
  }

  /** The guarded write of the scan: a Wall cell inside the grid becomes an EdgeTile. */
  function Promote(r: Grid, x: int, y: int): (r': Grid)
    requires Valid(r)
    ensures Valid(r') && r'.width == r.width && r'.height == r.height
    ensures forall i, j :: GetTile(r', i, j) == (if i == x && j == y && GetTile(r, i, j) == Wall && WithinBounds(r, i, j) then EdgeTile else GetTile(r, i, j))
  {
    if WithinBounds(r, x, y) && r.cells[x][y] == Wall then SetTile(r, x, y, EdgeTile) else r
  }

  /** The four guarded writes around a Floor cell, in the source's order: up, down, right, left. */
  function PromoteAround(r: Grid, x: int, y: int): (r': Grid)
    requires Valid(r)
    ensures Valid(r') && r'.width == r.width && r'.height == r.height
  {
    Promote(Promote(Promote(Promote(r, x, y + 1), x, y - 1), x + 1, y), x - 1, y)
  }

  lemma PromoteAroundTile(r: Grid, x: int, y: int, i: int, j: int)
    requires Valid(r)
    ensures GetTile(PromoteAround(r, x, y), i, j) ==
      if WithinBounds(r, i, j) && GetTile(r, i, j) == Wall && Adjacent(Vec2(x, y), Vec2(i, j)) then EdgeTile else GetTile(r, i, j)
  {
    var r1 := Promote(r, x, y + 1);
    var r2 := Promote(r1, x, y - 1);
    var r3 := Promote(r2, x + 1, y);
    assert GetTile(r1, i, j) == (if i == x && j == y + 1 && GetTile(r, i, j) == Wall && WithinBounds(r, i, j) then EdgeTile else GetTile(r, i, j));
    assert GetTile(r2, i, j) == (if i == x && j == y - 1 && GetTile(r1, i, j) == Wall && WithinBounds(r, i, j) then EdgeTile else GetTile(r1, i, j));
    assert GetTile(r3, i, j) == (if i == x + 1 && j == y && GetTile(r2, i, j) == Wall && WithinBounds(r, i, j) then EdgeTile else GetTile(r2, i, j));
  }

  /** Scanning a Floor cell at (x, y) extends the scanned region by that cell. */
  lemma ScanFloorStep(g: Grid, r: Grid, x: int, y: int, i: int, j: int)
    requires Valid(g) && Valid(r) && r.width == g.width && r.height == g.height
    requires WithinBounds(g, x, y) && GetTile(r, x, y) == Floor && GetTile(g, x, y) == Floor
    requires GetTile(r, i, j) == ScanTileAt(g, x, y, i, j)
    ensures GetTile(PromoteAround(r, x, y), i, j) == ScanTileAt(g, x, y + 1, i, j)
  {
    PromoteAroundTile(r, x, y, i, j);
    ScanMonotone(g, i, j, x, y);
    if Adjacent(Vec2(x, y), Vec2(i, j)) {
      FloorJustScanned(g, i, j, x, y);
    } else {
      ScanPastOther(g, i, j, x, y);
    }
  }

  /** Scanning past a cell that is not next to (i, j) does not change what (i, j) has seen. */
  lemma ScanPastOther(g: Grid, i: int, j: int, x: int, y: int)
    requires Valid(g) && !Adjacent(Vec2(x, y), Vec2(i, j))
    ensures ScannedFloorNextTo(g, i, j, x, y) == ScannedFloorNextTo(g, i, j, x, y + 1)
  {
  }

  /** Once a floor neighbour has been scanned it stays scanned. */
  lemma ScanMonotone(g: Grid, i: int, j: int, x: int, y: int)
    requires Valid(g)
    ensures ScannedFloorNextTo(g, i, j, x, y) ==> ScannedFloorNextTo(g, i, j, x, y + 1)
  {
  }

  /** The Floor cell just scanned counts as a scanned floor neighbour of each cell next to it. */
  lemma FloorJustScanned(g: Grid, i: int, j: int, x: int, y: int)
    requires Valid(g) && GetTile(g, x, y) == Floor && Adjacent(Vec2(x, y), Vec2(i, j))
    ensures ScannedFloorNextTo(g, i, j, x, y + 1)
  {
    assert ScannedBefore(x, y, x, y + 1);
  }

  /** Running the edge pass a second time changes nothing. */
  lemma EdgesOfIdempotent(g: Grid)
    requires Valid(g)
    ensures EdgesOf(EdgesOf(g)) == EdgesOf(g)
  {
    var e := EdgesOf(g);
    forall x, y
      ensures GetTile(e, x, y) == Floor <==> GetTile(g, x, y) == Floor
    {
      EdgesOfTile(g, x, y);
    }
    forall x, y | WithinBounds(e, x, y)
      ensures GetTile(EdgesOf(e), x, y) == GetTile(e, x, y)
    {
      EdgesOfTile(e, x, y);
      EdgesOfTile(g, x, y);
    }
    SameTiles(EdgesOf(e), e);
  }
}

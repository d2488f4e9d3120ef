/**
 The level grid: a width x height array of tiles with bounds-safe access.
 Reads outside the grid give Wall and writes outside it are ignored, so callers
 treat everything beyond the border as solid rock without special cases.
 */
module LevelGrid {
  import opened Geometry

  datatype Tile = Wall | Floor | EdgeTile | Island

  /** cells[x][y] is the tile in column x, row y (the source's Tile[width, height]). */
  datatype Grid = Grid(width: nat, height: nat, cells: seq<seq<Tile>>)

  /** The storage really is width x height. */
  predicate Valid(g: Grid) {
    |g.cells| == g.width && forall x :: 0 <= x < g.width ==> |g.cells[x]| == g.height
  }

  predicate WithinBounds(g: Grid, x: int, y: int) {
    0 <= x < g.width && 0 <= y < g.height
  }

  /** The constructor: every cell starts as Wall. */
  function NewGrid(width: nat, height: nat): (g: Grid)
    ensures Valid(g) && g.width == width && g.height == height
    ensures forall x, y :: GetTile(g, x, y) == Wall
  {
    Grid(width, height, seq(width, _ => seq(height, _ => Wall)))
  }

  function GetTile(g: Grid, x: int, y: int): (t: Tile)
    requires Valid(g)
    ensures WithinBounds(g, x, y) ==> t == g.cells[x][y]
    ensures !WithinBounds(g, x, y) ==> t == Wall
  {
    if WithinBounds(g, x, y) then g.cells[x][y] else Wall
  }

  /** The grid's size, as the integer pair the source returns as a vector. */
  function GetDimensions(g: Grid): (d: (int, int))
    requires Valid(g)
    ensures d.0 == |g.cells| && d.1 == g.height
    ensures d.0 > 0 ==> d.1 == |g.cells[0]|
    ensures forall x, y :: WithinBounds(g, x, y) <==> 0 <= x < d.0 && 0 <= y < d.1
  {
    (g.width, g.height)
  }

  /** Writes one cell; the read-after-write law holds and nothing else changes. */
  function SetTile(g: Grid, x: int, y: int, t: Tile): (r: Grid)
    requires Valid(g)
    ensures Valid(r) && r.width == g.width && r.height == g.height
    ensures WithinBounds(g, x, y) ==> GetTile(r, x, y) == t
    ensures forall i, j :: i != x || j != y ==> GetTile(r, i, j) == GetTile(g, i, j)
    ensures !WithinBounds(g, x, y) ==> r == g
  {
    if WithinBounds(g, x, y) then g.(cells := g.cells[x := g.cells[x][y := t]]) else g
  }

  function IsEdgeTile(g: Grid, x: int, y: int): (b: bool)
    requires Valid(g)
    ensures b <==> WithinBounds(g, x, y) && g.cells[x][y] == EdgeTile
  {
    GetTile(g, x, y) == EdgeTile
  }

  function IsFloorTile(g: Grid, x: int, y: int): (b: bool)
    requires Valid(g)
    ensures b <==> WithinBounds(g, x, y) && g.cells[x][y] == Floor
  {
    GetTile(g, x, y) == Floor
  }

  /** Everything outside the grid reads as wall. */
  function IsWallTile(g: Grid, x: int, y: int): (b: bool)
    requires Valid(g)
    ensures b <==> !WithinBounds(g, x, y) || g.cells[x][y] == Wall
  {
    GetTile(g, x, y) == Wall
  }

  function IsIslandTile(g: Grid, x: int, y: int): (b: bool)
    requires Valid(g)
    ensures b <==> WithinBounds(g, x, y) && g.cells[x][y] == Island
  {
    GetTile(g, x, y) == Island
  }

  /** Writing back the tile just read leaves the grid as it was. */
  lemma SetTileOfGetTile(g: Grid, x: int, y: int)
    requires Valid(g)
    ensures SetTile(g, x, y, GetTile(g, x, y)) == g
  {
    if WithinBounds(g, x, y) {
      assert g.cells[x][y := g.cells[x][y]] == g.cells[x];
      assert g.cells[x := g.cells[x]] == g.cells;
    }
  }

  /** Of two writes to the same cell only the second survives. */
  lemma SetTileTwice(g: Grid, x: int, y: int, t: Tile, u: Tile)
    requires Valid(g)
    ensures SetTile(SetTile(g, x, y, t), x, y, u) == SetTile(g, x, y, u)
  {
    if WithinBounds(g, x, y) {
      SameTiles(SetTile(SetTile(g, x, y, t), x, y, u), SetTile(g, x, y, u));
    }
  }

  /** Two grids of the same size that read alike everywhere are equal. */
  lemma SameTiles(a: Grid, b: Grid)
    requires Valid(a) && Valid(b) && a.width == b.width && a.height == b.height
    requires forall x, y :: WithinBounds(a, x, y) ==> GetTile(a, x, y) == GetTile(b, x, y)
    ensures a == b
  {
    forall x | 0 <= x < a.width
      ensures a.cells[x] == b.cells[x]
    {
      forall y | 0 <= y < a.height
        ensures a.cells[x][y] == b.cells[x][y]
      {
        assert GetTile(a, x, y) == GetTile(b, x, y);
      }
    }
  }

  /** (i, j) comes before (x, y) in the column-major scans the passes perform. */
  predicate ScannedBefore(i: int, j: int, x: int, y: int) {
    i < x || (i == x && j < y)
  }
}

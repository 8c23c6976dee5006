/**
  The maze compiler: a grid of one-character symbols, read row by row, becomes
  the list of wall tiles the movement code collides against.
 */
module Maze {
  import opened Geometry

  /** The maze layout, row-major; each cell is a symbol string. */
  type Grid = seq<seq<string>>

  /** The only symbol that produces a wall. */
  const WallSymbol: string := "-"

  /** The wall tile for the cell at row `i`, column `j`. */
  function BoundaryAt(i: int, j: int): Boundary {
    MakeBoundary(Vec(TileSize * j, TileSize * i))
  }

  predicate IsWallCell(grid: Grid, i: int, j: int) {
    0 <= i < |grid| && 0 <= j < |grid[i]| && grid[i][j] == WallSymbol
  }

  /** A tile-sized boundary whose corner lies on the non-negative tile lattice. */
  predicate OnTile(b: Boundary) {
    && b.width == TileSize && b.height == TileSize
    && 0 <= b.position.x && b.position.x % TileSize == 0
    && 0 <= b.position.y && b.position.y % TileSize == 0
  }

  function RowOf(b: Boundary): int {
    b.position.y / TileSize
  }

  function ColOf(b: Boundary): int {
    b.position.x / TileSize
  }

  /** `b` is the tile of one wall cell of `grid`. */
  predicate IsWallOf(grid: Grid, b: Boundary) {
    OnTile(b) && IsWallCell(grid, RowOf(b), ColOf(b))
  }

  /** `a` comes strictly before `b` in row-major (top-to-bottom, left-to-right) order. */
  predicate RowMajorBefore(a: Boundary, b: Boundary) {
    a.position.y < b.position.y || (a.position.y == b.position.y && a.position.x < b.position.x)
  }

  ghost predicate StrictlyRowMajor(bs: seq<Boundary>) {
    forall k, l :: 0 <= k < l < |bs| ==> RowMajorBefore(bs[k], bs[l])
  }

  lemma BoundaryAtOnTile(i: nat, j: nat)
    ensures OnTile(BoundaryAt(i, j))
    ensures RowOf(BoundaryAt(i, j)) == i && ColOf(BoundaryAt(i, j)) == j
  {
  }

  /** Joining two row-major runs, the first wholly before the second, keeps row-major order. */
  lemma AppendRowMajor(xs: seq<Boundary>, ys: seq<Boundary>)
    requires StrictlyRowMajor(xs) && StrictlyRowMajor(ys)
    requires forall a, b :: a in xs && b in ys ==> RowMajorBefore(a, b)
    ensures StrictlyRowMajor(xs + ys)
  {
    forall k, l | 0 <= k < l < |xs + ys|
      ensures RowMajorBefore((xs + ys)[k], (xs + ys)[l])
    {
      if l < |xs| {
      } else if k >= |xs| {
        assert (xs + ys)[k] == ys[k - |xs|];
      } else {
        assert (xs + ys)[k] in xs && (xs + ys)[l] in ys;
      }
    }
  }

  /** On the tile lattice, a smaller row or column index means a smaller coordinate. */
  lemma LatticeOrder(a: Boundary, b: Boundary)
    requires OnTile(a) && OnTile(b)
    ensures RowOf(a) < RowOf(b) ==> a.position.y < b.position.y
    ensures RowOf(a) == RowOf(b) ==> a.position.y == b.position.y
    ensures ColOf(a) < ColOf(b) ==> a.position.x < b.position.x
  {
  }

  /**
    The walls of row `i`, pushed left to right: one tile per wall symbol,
    at (40 j, 40 i), and nothing for any other symbol.
   */
  function RowWalls(row: seq<string>, i: nat): (bs: seq<Boundary>)
    ensures forall b :: b in bs <==>
      OnTile(b) && RowOf(b) == i && ColOf(b) < |row| && row[ColOf(b)] == WallSymbol
    ensures StrictlyRowMajor(bs)
  {
    if row == [] then []
    else
      var j := |row| - 1;
      var last := if row[j] == WallSymbol then [BoundaryAt(i, j)] else [];
      BoundaryAtOnTile(i, j);
      forall a, b | a in RowWalls(row[..j], i) && b in last
        ensures RowMajorBefore(a, b)
      {
        LatticeOrder(a, b);
      }
      AppendRowMajor(RowWalls(row[..j], i), last);
      RowWalls(row[..j], i) + last
  }

  /**
    The whole map, rows top to bottom: exactly the wall cells' tiles, each
    once, in row-major order.
   */
  function CompileMap(grid: Grid): (bs: seq<Boundary>)
    ensures forall b :: b in bs <==> IsWallOf(grid, b)
    ensures StrictlyRowMajor(bs)
  {
    if grid == [] then []
    else
      var i := |grid| - 1;
      forall a, b | a in CompileMap(grid[..i]) && b in RowWalls(grid[i], i)
        ensures RowMajorBefore(a, b)
      {
        LatticeOrder(a, b);
      }
      AppendRowMajor(CompileMap(grid[..i]), RowWalls(grid[i], i));
      CompileMap(grid[..i]) + RowWalls(grid[i], i)
  }

  /** Every wall cell's tile is among the compiled walls. */
  lemma WallCellCompiled(grid: Grid, i: nat, j: nat)
    requires IsWallCell(grid, i, j)
    ensures BoundaryAt(i, j) in CompileMap(grid)
  {
    BoundaryAtOnTile(i, j);
  }

  /** The maze the game ships with. */
  const SourceMap: Grid := [
    ["-", "-", "-", "-", "-", "-", "-"],
    ["-", " ", " ", " ", " ", " ", "-"],
    ["-", " ", "-", " ", "-", " ", "-"],
    ["-", " ", " ", " ", " ", " ", "-"],
    ["-", "-", "-", "-", "-", "-", "-"]
  ]
}

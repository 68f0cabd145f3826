/**
 * Grid primitives (Generator_Helpers.py): allocation of a zero tile grid, and the
 * value view of a grid that the specifications of the other stages are written in.
 */
module GeneratorHelpers {
  import opened Constants

  /** A tile grid as a value: a sequence of rows of uint8 cells. */
  type Grid = seq<seq<bv8>>

  /** Python's min on two integers. */
  function Min(a: int, b: int): int {
    if a <= b then a else b
  }

  /** Number of columns (0 for a grid without rows). */
  function Width(g: Grid): nat {
    if |g| == 0 then 0 else |g[0]|
  }

  /** Every row has the same length. */
  predicate Rect(g: Grid) {
    forall i :: 0 <= i < |g| ==> |g[i]| == Width(g)
  }

  predicate InGrid(g: Grid, i: int, j: int) {
    0 <= i < |g| && 0 <= j < Width(g)
  }

  /** (y, x) is a cell off the outer ring. */
  predicate Interior(g: Grid, y: int, x: int) {
    1 <= y < |g| - 1 && 1 <= x < Width(g) - 1
  }

  /** Cell (a, b) comes before cell (y, x) in row-major order. */
  predicate Before(a: int, b: int, y: int, x: int) {
    a < y || (a == y && b < x)
  }

  /** Two grids of the same shape. */
  predicate SameShape(g: Grid, h: Grid) {
    Rect(g) && Rect(h) && |g| == |h| && Width(g) == Width(h)
  }

  /** The outermost ring of the grid (first and last row and column) holds only zeros. */
  ghost predicate RingEmpty(g: Grid) {
    Rect(g) &&
    forall i, j :: InGrid(g, i, j) && (i == 0 || i == |g| - 1 || j == 0 || j == Width(g) - 1) ==> g[i][j] == 0
  }

  /** Every cell is WALL or the seed flag TEMP. */
  ghost predicate Binary(g: Grid) {
    Rect(g) && forall i, j :: InGrid(g, i, j) ==> g[i][j] == WALL || g[i][j] == TEMP
  }

  /** r is g with some cells set to WALL and nothing else changed. */
  ghost predicate ShrinksTo(g: Grid, r: Grid) {
    SameShape(g, r) && forall i, j :: InGrid(g, i, j) ==> r[i][j] == g[i][j] || r[i][j] == WALL
  }

  /** The all-zero grid of the given shape. */
  function ZeroGrid(height: nat, width: nat): (g: Grid)
    ensures Rect(g) && |g| == height && (height > 0 ==> Width(g) == width)
    ensures forall i, j :: 0 <= i < height && 0 <= j < width ==> g[i][j] == 0
  {
    seq(height, i => seq(width, j => 0))
  }

  /** The current contents of an in-place grid, as a value. */
  function Cells(a: array2<bv8>): (g: Grid)
    reads a
    ensures Rect(g) && |g| == a.Length0 && (a.Length0 > 0 ==> Width(g) == a.Length1)
    ensures forall i, j :: 0 <= i < a.Length0 && 0 <= j < a.Length1 ==> g[i][j] == a[i, j]
  {
    seq(a.Length0, i requires 0 <= i < a.Length0 reads a =>
      seq(a.Length1, j requires 0 <= j < a.Length1 reads a => a[i, j]))
  }

  /** An array whose every cell agrees with a grid of its shape holds exactly that grid. */
  lemma CellsAre(a: array2<bv8>, g: Grid)
    requires Rect(g) && |g| == a.Length0 && (a.Length0 > 0 ==> Width(g) == a.Length1)
    requires forall i, j :: 0 <= i < a.Length0 && 0 <= j < a.Length1 ==> a[i, j] == g[i][j]
    ensures Cells(a) == g
  {
    var c := Cells(a);
    assert |c| == |g|;
    forall i | 0 <= i < |g|
      ensures c[i] == g[i]
    {
      assert |c[i]| == a.Length1 == |g[i]|;
    }
  }

  /**
   * init_tilemap: a fresh height x width grid of zeros; a width of 0 (the
   * default) means a square height x height grid.
   */
  method InitTilemap(height: nat, width: nat := 0) returns (tilemap: array2<bv8>)
    ensures fresh(tilemap)
    ensures tilemap.Length0 == height
    ensures tilemap.Length1 == if width != 0 then width else height
    ensures Cells(tilemap) == ZeroGrid(height, tilemap.Length1)
  {
    if width != 0 {
      tilemap := new bv8[height, width]((i, j) => 0);
    } else {
      tilemap := new bv8[height, height]((i, j) => 0);
    }
    CellsAre(tilemap, ZeroGrid(height, tilemap.Length1));
  }

  /** A fresh in-place grid holding the given value grid (numpy fancy indexing allocates). */
  method FromGrid(g: Grid) returns (a: array2<bv8>)
    requires Rect(g)
    ensures fresh(a) && a.Length0 == |g| && a.Length1 == Width(g)
    ensures Cells(a) == g
  {
    a := new bv8[|g|, Width(g)]((i, j) requires 0 <= i < |g| && 0 <= j < Width(g) => g[i][j]);
    CellsAre(a, g);
  }
}

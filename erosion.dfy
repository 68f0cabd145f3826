/** Neighbour counting and stochastic erosion of the seed rectangles (adj_map, room_eroder). */
module Erosion {
  import opened Constants
  import opened GeneratorHelpers
  import opened Directions

  /**
   * The adj_map value of cell (i, j): the two vertical neighbours for rows
   * 1 .. h-2, plus the two horizontal neighbours for columns 1 .. w-2, in uint8
   * arithmetic, multiplied by the cell itself when iso is set.
   */
  function AdjCount(g: Grid, i: int, j: int, iso: bool): bv8
    requires Rect(g) && InGrid(g, i, j)
  {
    Combine(VerticalSum(g, i, j), HorizontalSum(g, i, j), g[i][j], iso)
  }

  /** The uint8 sum of two neighbours. */
  function PairSum(a: bv8, b: bv8): bv8 {
    a + b
  }

  /** The two pairs added, then multiplied by the cell itself when iso is set (uint8). */
  function Combine(vertical: bv8, horizontal: bv8, self: bv8, iso: bool): bv8 {
    if iso then (vertical + horizontal) * self else vertical + horizontal
  }

  /** The vertical pair of adj_map, present for rows 1 .. h-2 only. */
  function VerticalSum(g: Grid, i: int, j: int): bv8
    requires Rect(g) && InGrid(g, i, j)
  {
    if 1 <= i < |g| - 1 then PairSum(g[i - 1][j], g[i + 1][j]) else 0
  }

  /** The horizontal pair of adj_map, present for columns 1 .. w-2 only. */
  function HorizontalSum(g: Grid, i: int, j: int): bv8
    requires Rect(g) && InGrid(g, i, j)
  {
    if 1 <= j < Width(g) - 1 then PairSum(g[i][j - 1], g[i][j + 1]) else 0
  }

  /** The whole neighbour map adj_map produces. */
  function AdjGrid(g: Grid, iso: bool): (counts: Grid)
    requires Rect(g)
    ensures SameShape(g, counts)
  {
    seq(|g|, i requires 0 <= i < |g| =>
      seq(Width(g), j requires 0 <= j < Width(g) => AdjCount(g, i, j, iso)))
  }

  /** 1 when (y, x) is inside the grid and active, 0 otherwise: a zero-padded read. */
  function ActiveAt(g: Grid, y: int, x: int): bv8
    requires Rect(g)
  {
    if InGrid(g, y, x) && g[y][x] != 0 then 1 else 0
  }

  /**
   * The neighbour count of an active cell with zero padding at the border, as
   * adj_map's docstring describes it ("how many neighbors each cell has in
   * orthogonal directions"): its active orthogonal neighbours, vertical pair
   * first; 0 for an inactive cell.
   */
  function PaddedCount(g: Grid, i: int, j: int): bv8
    requires Rect(g) && InGrid(g, i, j)
  {
    if g[i][j] == 0 then 0
    else (ActiveAt(g, i - 1, j) + ActiveAt(g, i + 1, j)) + (ActiveAt(g, i, j - 1) + ActiveAt(g, i, j + 1))
  }

  /**
   * The adj_map value of one cell, read from the in-place grid: fill(0), then
   * the vertical pair, then the horizontal pair, then the mask by the cell.
   */
  method CellCount(tilemap: array2<bv8>, i: int, j: int, iso: bool) returns (count: bv8)
    requires 0 <= i < tilemap.Length0 && 0 <= j < tilemap.Length1
    ensures count == AdjCount(Cells(tilemap), i, j, iso)
  {
    ghost var g := Cells(tilemap);
    var h, w := tilemap.Length0, tilemap.Length1;
    assert |g| == h && Width(g) == w;
    var self := tilemap[i, j];
    assert self == g[i][j];
    var vertical: bv8 := 0;
    if 1 <= i < h - 1 {
      var up, down := tilemap[i - 1, j], tilemap[i + 1, j];
      assert up == g[i - 1][j] && down == g[i + 1][j];
      vertical := PairSum(up, down);
    }
    assert vertical == VerticalSum(g, i, j);
    var horizontal: bv8 := 0;
    if 1 <= j < w - 1 {
      var left, right := tilemap[i, j - 1], tilemap[i, j + 1];
      assert left == g[i][j - 1] && right == g[i][j + 1];
      horizontal := PairSum(left, right);
    }
    assert horizontal == HorizontalSum(g, i, j);
    count := Combine(vertical, horizontal, self, iso);
  }

  /**
   * adj_map: overwrites the whole neighbour buffer with the neighbour counts of
   * tilemap (the four vectorised steps fill(0), +vertical, +horizontal, *tilemap
   * are done cell by cell in row-major order by CellCount).
   */
  method AdjMap(tilemap: array2<bv8>, neighborMap: array2<bv8>, iso: bool)
    requires tilemap != neighborMap
    requires neighborMap.Length0 == tilemap.Length0 && neighborMap.Length1 == tilemap.Length1
    modifies neighborMap
    ensures Cells(neighborMap) == AdjGrid(Cells(tilemap), iso)
  {
    ghost var g := Cells(tilemap);
    var h, w := tilemap.Length0, tilemap.Length1;
    for i := 0 to h
      invariant forall a, b :: 0 <= a < i && 0 <= b < w ==> neighborMap[a, b] == AdjCount(g, a, b, iso)
    {
      for j := 0 to w
        invariant forall a, b :: 0 <= a < i && 0 <= b < w ==> neighborMap[a, b] == AdjCount(g, a, b, iso)
        invariant forall b :: 0 <= b < j ==> neighborMap[i, b] == AdjCount(g, i, b, iso)
      {
        var count := CellCount(tilemap, i, j, iso);
        neighborMap[i, j] := count;
      }
    }
    CellsAre(neighborMap, AdjGrid(g, iso));
  }

  /**
   * On a 0/1 grid the adj_map count of a cell off the outer ring is its number
   * of active orthogonal neighbours, or 0 for an inactive cell; when the outer
   * ring is empty this holds of the border cells too, with zero padding.
   */
  lemma AdjCountIsPaddedCount(g: Grid, i: int, j: int)
    requires Binary(g) && InGrid(g, i, j)
    requires RingEmpty(g) || Interior(g, i, j)
    ensures AdjCount(g, i, j, true) == PaddedCount(g, i, j)
  {
    var v, h := VerticalSum(g, i, j), HorizontalSum(g, i, j);
    MaskByBit(v, h);
    if g[i][j] != 0 {
      assert g[i][j] == TEMP;
      assert Interior(g, i, j);
      ActiveIsValue(g, i - 1, j);
      ActiveIsValue(g, i + 1, j);
      ActiveIsValue(g, i, j - 1);
      ActiveIsValue(g, i, j + 1);
    }
  }

  /** In a 0/1 grid the zero-padded read of a cell inside is the cell itself. */
  lemma ActiveIsValue(g: Grid, y: int, x: int)
    requires Binary(g) && InGrid(g, y, x)
    ensures ActiveAt(g, y, x) == g[y][x]
  {
  }

  /** Masking by an inactive cell gives 0, by an active TEMP cell the plain sum. */
  lemma MaskByBit(vertical: bv8, horizontal: bv8)
    ensures Combine(vertical, horizontal, 0, true) == 0
    ensures Combine(vertical, horizontal, 1, true) == vertical + horizontal
  {
  }

  /**
   * At the border adj_map is not zero-padded: a cell of the first or last row
   * counts only its horizontal neighbours, one of the first or last column only
   * its vertical ones, and a corner counts nothing.
   */
  lemma AdjCountAtBorder(g: Grid, i: int, j: int)
    requires Binary(g) && InGrid(g, i, j)
    ensures var n := AdjCount(g, i, j, true);
      var own: bv8 := if g[i][j] == 0 then 0 else 1;
      ((i == 0 || i == |g| - 1) && 1 <= j < Width(g) - 1 ==>
        n == own * (ActiveAt(g, i, j - 1) + ActiveAt(g, i, j + 1))) &&
      ((j == 0 || j == Width(g) - 1) && 1 <= i < |g| - 1 ==>
        n == own * (ActiveAt(g, i - 1, j) + ActiveAt(g, i + 1, j))) &&
      ((i == 0 || i == |g| - 1) && (j == 0 || j == Width(g) - 1) ==> n == 0)
  {
  }

  /** The grid after clearing every cell whose count equals target and whose draw says so. */
  function Cleared(g: Grid, counts: Grid, target: bv8, draw: (nat, nat) -> bool): (r: Grid)
    requires SameShape(g, counts)
    ensures SameShape(g, r)
  {
    seq(|g|, i requires 0 <= i < |g| =>
      seq(Width(g), j requires 0 <= j < Width(g) =>
        if counts[i][j] == target && draw(i, j) then WALL else g[i][j]))
  }

  /** The draw of the final pass, which clears unconditionally. */
  function Always(i: nat, j: nat): bool {
    true
  }

  /**
   * One row-major ndenumerate pass of room_eroder: cells whose neighbour count
   * equals target are set to WALL when their draw comes out so.
   */
  method ClearWhere(tilemap: array2<bv8>, neighborMap: array2<bv8>, target: bv8, draw: (nat, nat) -> bool)
    requires tilemap != neighborMap
    requires neighborMap.Length0 == tilemap.Length0 && neighborMap.Length1 == tilemap.Length1
    modifies tilemap
    ensures Cells(tilemap) == Cleared(old(Cells(tilemap)), Cells(neighborMap), target, draw)
  {
    ghost var g := Cells(tilemap);
    var h, w := tilemap.Length0, tilemap.Length1;
    for i := 0 to h
      invariant forall a, b :: 0 <= a < h && 0 <= b < w ==>
        tilemap[a, b] == if a < i && neighborMap[a, b] == target && draw(a, b) then WALL else g[a][b]
    {
      for j := 0 to w
        invariant forall a, b :: 0 <= a < h && 0 <= b < w ==>
          tilemap[a, b] == if (a < i || (a == i && b < j)) && neighborMap[a, b] == target && draw(a, b) then WALL else g[a][b]
      {
        if neighborMap[i, j] == target && draw(i, j) {
          tilemap[i, j] := WALL;
        }
      }
    }
    CellsAre(tilemap, Cleared(g, Cells(neighborMap), target, draw));
  }

  /**
   * One erosion iteration: from a single neighbour-count snapshot, clear cells
   * with count 2 on a coin flip, then cells with count 3 on a one-in-ten draw.
   */
  function ErodeIteration(g: Grid, halfDraw: (nat, nat) -> bool, tenthDraw: (nat, nat) -> bool): (r: Grid)
    requires Rect(g)
    ensures ShrinksTo(g, r)
  {
    var counts := AdjGrid(g, true);
    Cleared(Cleared(g, counts, 2, halfDraw), counts, 3, tenthDraw)
  }

  /**
   * The first n erosion iterations; iteration k uses halfDraw(k) and
   * tenthDraw(k). They only ever set cells to WALL.
   */
  function ErodeIterations(g: Grid, n: nat, halfDraw: nat -> (nat, nat) -> bool, tenthDraw: nat -> (nat, nat) -> bool): (r: Grid)
    requires Rect(g)
    ensures ShrinksTo(g, r)
  {
    if n == 0 then g
    else ErodeIteration(ErodeIterations(g, n - 1, halfDraw, tenthDraw), halfDraw(n - 1), tenthDraw(n - 1))
  }

  /** The final pass: every cell whose neighbour count is 0 becomes WALL. */
  function FinalPass(g: Grid): (r: Grid)
    requires Rect(g)
    ensures SameShape(g, r)
  {
    Cleared(g, AdjGrid(g, true), 0, Always)
  }

  /** The result of room_eroder: ERODE_COUNT iterations and the final pass. */
  function Eroded(g: Grid, halfDraw: nat -> (nat, nat) -> bool, tenthDraw: nat -> (nat, nat) -> bool): (r: Grid)
    requires Rect(g)
    ensures SameShape(g, r)
  {
    FinalPass(ErodeIterations(g, ERODE_COUNT, halfDraw, tenthDraw))
  }

  /**
   * room_eroder: erodes the seed rectangles in place. halfDraw(k)(i, j) says
   * whether rand(0, 1) returned 1 for cell (i, j) in iteration k, tenthDraw(k)(i, j)
   * whether rand(0, 9) returned 0.
   */
  method RoomEroder(tilemap: array2<bv8>, halfDraw: nat -> (nat, nat) -> bool, tenthDraw: nat -> (nat, nat) -> bool)
    modifies tilemap
    ensures Cells(tilemap) == Eroded(old(Cells(tilemap)), halfDraw, tenthDraw)
  {
    var zeroes := new bv8[tilemap.Length0, tilemap.Length1]((i, j) => 0);
    ghost var g := Cells(tilemap);
    for k := 0 to ERODE_COUNT
      invariant Cells(tilemap) == ErodeIterations(g, k, halfDraw, tenthDraw)
    {
      ErodeStep(tilemap, zeroes, halfDraw(k), tenthDraw(k));
    }
    FinalStep(tilemap, zeroes);
  }

  /** The final pass of room_eroder, on the scratch buffer zeroes. */
  method FinalStep(tilemap: array2<bv8>, zeroes: array2<bv8>)
    requires tilemap != zeroes
    requires zeroes.Length0 == tilemap.Length0 && zeroes.Length1 == tilemap.Length1
    modifies tilemap, zeroes
    ensures Cells(tilemap) == FinalPass(old(Cells(tilemap)))
  {
    AdjMap(tilemap, zeroes, true);
    ClearWhere(tilemap, zeroes, 0, Always);
  }

  /** The body of one erosion iteration, on the scratch buffer zeroes. */
  method ErodeStep(tilemap: array2<bv8>, zeroes: array2<bv8>, halfDraw: (nat, nat) -> bool, tenthDraw: (nat, nat) -> bool)
    requires tilemap != zeroes
    requires zeroes.Length0 == tilemap.Length0 && zeroes.Length1 == tilemap.Length1
    modifies tilemap, zeroes
    ensures Cells(tilemap) == ErodeIteration(old(Cells(tilemap)), halfDraw, tenthDraw)
  {
    ghost var before := Cells(tilemap);
    AdjMap(tilemap, zeroes, true);
    ghost var counts := Cells(zeroes);
    ClearWhere(tilemap, zeroes, 2, halfDraw);
    assert Cells(zeroes) == counts;
    ClearWhere(tilemap, zeroes, 3, tenthDraw);
  }

  /**
   * Within one iteration every decision reads the snapshot taken at its start:
   * a cell is cleared exactly when its snapshot count is 2 and the coin says so,
   * or 3 and the one-in-ten draw says so; counts 0, 1 and 4 never clear a cell.
   */
  lemma ErodeIterationRule(g: Grid, halfDraw: (nat, nat) -> bool, tenthDraw: (nat, nat) -> bool, i: nat, j: nat)
    requires Rect(g) && InGrid(g, i, j)
    ensures var n := AdjCount(g, i, j, true);
      ErodeIteration(g, halfDraw, tenthDraw)[i][j] ==
        if (n == 2 && halfDraw(i, j)) || (n == 3 && tenthDraw(i, j)) then WALL else g[i][j]
    ensures var n := AdjCount(g, i, j, true);
      n != 2 && n != 3 ==> ErodeIteration(g, halfDraw, tenthDraw)[i][j] == g[i][j]
  {
  }

  /**
   * room_eroder only ever sets cells to WALL: the active set shrinks, a 0/1
   * grid stays 0/1 and an empty outer ring stays empty.
   */
  lemma ErodedShrinks(g: Grid, halfDraw: nat -> (nat, nat) -> bool, tenthDraw: nat -> (nat, nat) -> bool)
    requires Rect(g)
    ensures var r := Eroded(g, halfDraw, tenthDraw);
      ShrinksTo(g, r) && (Binary(g) ==> Binary(r)) && (RingEmpty(g) ==> RingEmpty(r))
  {
  }

  /**
   * After the final pass no active cell is isolated, provided the input is a
   * 0/1 grid with an empty outer ring: clearing an isolated cell takes no
   * neighbour away from any other active cell.
   */
  lemma FinalPassNoIsolated(e: Grid)
    requires Binary(e) && RingEmpty(e)
    ensures var f := FinalPass(e);
      Binary(f) && RingEmpty(f) &&
      forall i, j :: InGrid(f, i, j) && f[i][j] != 0 ==> AdjCount(f, i, j, true) != 0
  {
    var f := FinalPass(e);
    var counts := AdjGrid(e, true);
    assert Binary(f) && RingEmpty(f);
    forall i, j | InGrid(f, i, j) && f[i][j] != 0
      ensures AdjCount(f, i, j, true) != 0
    {
      assert f[i][j] == if counts[i][j] == 0 && Always(i, j) then WALL else e[i][j];
      assert e[i][j] == TEMP && AdjCount(e, i, j, true) != 0;
      assert Interior(e, i, j);
      ActiveCountMeansNeighbour(e, i, j);
      // some neighbour is active in e, and it survives because (i, j) is its neighbour
      if e[i - 1][j] != 0 {
        SurvivesBeside(e, i - 1, j, South);
      } else if e[i + 1][j] != 0 {
        SurvivesBeside(e, i + 1, j, North);
      } else if e[i][j - 1] != 0 {
        SurvivesBeside(e, i, j - 1, East);
      } else {
        SurvivesBeside(e, i, j + 1, West);
      }
      ActiveCountMeansNeighbour(f, i, j);
    }
  }

  /**
   * room_eroder on a 0/1 grid with an empty outer ring leaves every active
   * cell off the ring and next to another active cell.
   */
  lemma ErodedNoIsolated(g: Grid, halfDraw: nat -> (nat, nat) -> bool, tenthDraw: nat -> (nat, nat) -> bool)
    requires Binary(g) && RingEmpty(g)
    ensures var r := Eroded(g, halfDraw, tenthDraw);
      forall i, j {:trigger InGrid(r, i, j)} :: InGrid(r, i, j) && r[i][j] != 0 ==>
        Interior(r, i, j) && HasActiveNeighbour(r, i, j)
  {
    var e := ErodeIterations(g, ERODE_COUNT, halfDraw, tenthDraw);
    assert Binary(e) && RingEmpty(e);
    FinalPassNoIsolated(e);
    var r := FinalPass(e);
    forall i, j | InGrid(r, i, j) && r[i][j] != 0
      ensures Interior(r, i, j)
      ensures HasActiveNeighbour(r, i, j)
    {
      ActiveCountMeansNeighbour(r, i, j);
    }
  }

  /** Some orthogonal neighbour of the cell (i, j), off the outer ring, is active. */
  predicate HasActiveNeighbour(g: Grid, i: int, j: int)
    requires Rect(g) && Interior(g, i, j)
  {
    g[i - 1][j] != 0 || g[i + 1][j] != 0 || g[i][j - 1] != 0 || g[i][j + 1] != 0
  }

  /** An active cell with an active neighbour survives the final pass. */
  lemma SurvivesBeside(e: Grid, y: int, x: int, d: Direction)
    requires Binary(e) && RingEmpty(e) && InGrid(e, y, x) && e[y][x] != 0
    requires InGrid(e, y + DY(d), x + DX(d)) && e[y + DY(d)][x + DX(d)] != 0
    ensures FinalPass(e)[y][x] == TEMP
  {
    assert Interior(e, y, x);
    ActiveCountMeansNeighbour(e, y, x);
    assert AdjGrid(e, true)[y][x] != 0;
  }

  /**
   * For an active cell off the outer ring of a 0/1 grid, the adj_map count is
   * nonzero exactly when some orthogonal neighbour is active.
   */
  lemma ActiveCountMeansNeighbour(g: Grid, i: int, j: int)
    requires Binary(g) && Interior(g, i, j) && g[i][j] != 0
    ensures AdjCount(g, i, j, true) != 0 <==>
      g[i - 1][j] != 0 || g[i + 1][j] != 0 || g[i][j - 1] != 0 || g[i][j + 1] != 0
  {
    assert g[i][j] == TEMP;
    CountOfBits(g[i - 1][j], g[i + 1][j], g[i][j - 1], g[i][j + 1]);
  }

  /** Four 0/1 cells add up, in uint8, to a nonzero count exactly when one of them is 1. */
  lemma CountOfBits(a: bv8, b: bv8, c: bv8, d: bv8)
    requires a <= 1 && b <= 1 && c <= 1 && d <= 1
    ensures Combine(PairSum(a, b), PairSum(c, d), TEMP, true) != 0 <==>
      a != 0 || b != 0 || c != 0 || d != 0
  {
  }
}

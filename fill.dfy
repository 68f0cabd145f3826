/** Seeding of room rectangles (room_fill). */
module Fill {
  import opened Constants
  import opened GeneratorHelpers

  /** The three rand draws one seed rectangle consumes: y_s, y_e and x_s. */
  datatype BoxDraw = BoxDraw(ys: int, ye: int, xs: int)

  /** The vertical midline the rectangles straddle. */
  const MID: int := DUNGEON_SIZE / 2

  /** The ranges of rand(1, mid - 1), rand(mid + 2, DUNGEON_SIZE - 2) and rand(1, mid - 1). */
  predicate ValidDraw(b: BoxDraw) {
    1 <= b.ys <= MID - 1 && MID + 2 <= b.ye <= DUNGEON_SIZE - 2 && 1 <= b.xs <= MID - 1
  }

  /** x_e: the width 16 - height plus padding, clamped away from the last columns. */
  function XEnd(b: BoxDraw): (xe: int)
    ensures xe <= DUNGEON_SIZE - 2
    ensures ValidDraw(b) ==> b.xs < xe
  {
    var roomDims := 16 - (b.ye - b.ys);
    Min(b.xs + roomDims + 3, DUNGEON_SIZE - 4) + 2
  }

  /** Cell (i, j) lies in the slice tilemap[y_s:y_e, x_s:x_e]. */
  predicate InBox(b: BoxDraw, i: int, j: int) {
    b.ys <= i < b.ye && b.xs <= j < XEnd(b)
  }

  /** Cell (i, j) lies in one of the rectangles. */
  predicate Covered(boxes: seq<BoxDraw>, i: int, j: int) {
    exists k :: 0 <= k < |boxes| && InBox(boxes[k], i, j)
  }

  /** The grid after stamping TEMP over every rectangle. */
  function Filled(g: Grid, boxes: seq<BoxDraw>): (r: Grid)
    requires Rect(g)
    ensures SameShape(g, r)
  {
    seq(|g|, i requires 0 <= i < |g| =>
      seq(Width(g), j requires 0 <= j < Width(g) =>
        if Covered(boxes, i, j) then TEMP else g[i][j]))
  }

  /** Every seed rectangle is non-empty and lies within rows and columns 1 .. DUNGEON_SIZE - 3. */
  lemma BoxWithinMargin(b: BoxDraw)
    requires ValidDraw(b)
    ensures 1 <= b.ys < b.ye <= DUNGEON_SIZE - 2
    ensures 1 <= b.xs < XEnd(b) <= DUNGEON_SIZE - 2
  {
  }

  /**
   * On an empty grid room_fill writes only TEMP, exactly on the covered cells,
   * and row and column 0 and the last two rows and columns stay empty.
   */
  lemma FilledEmptyGrid(boxes: seq<BoxDraw>)
    requires forall k :: 0 <= k < |boxes| ==> ValidDraw(boxes[k])
    ensures var g := Filled(ZeroGrid(DUNGEON_SIZE, DUNGEON_SIZE), boxes);
      Binary(g) && RingEmpty(g) &&
      forall i, j :: 0 <= i < DUNGEON_SIZE && 0 <= j < DUNGEON_SIZE ==>
        (g[i][j] == TEMP <==> Covered(boxes, i, j)) &&
        (i == 0 || j == 0 || i >= DUNGEON_SIZE - 2 || j >= DUNGEON_SIZE - 2 ==> g[i][j] == WALL)
  {
    var g := Filled(ZeroGrid(DUNGEON_SIZE, DUNGEON_SIZE), boxes);
    forall i, j | 0 <= i < DUNGEON_SIZE && 0 <= j < DUNGEON_SIZE && Covered(boxes, i, j)
      ensures 1 <= i < DUNGEON_SIZE - 2 && 1 <= j < DUNGEON_SIZE - 2
    {
      var k :| 0 <= k < |boxes| && InBox(boxes[k], i, j);
      BoxWithinMargin(boxes[k]);
    }
  }

  /** tilemap[y0:y1, x0:x1] = v. */
  method FillRect(tilemap: array2<bv8>, y0: int, y1: int, x0: int, x1: int, v: bv8)
    requires 0 <= y0 <= y1 <= tilemap.Length0 && 0 <= x0 <= x1 <= tilemap.Length1
    modifies tilemap
    ensures forall i, j :: 0 <= i < tilemap.Length0 && 0 <= j < tilemap.Length1 ==>
      tilemap[i, j] == if y0 <= i < y1 && x0 <= j < x1 then v else old(tilemap[i, j])
  {
    for i := y0 to y1
      invariant forall a, b :: 0 <= a < tilemap.Length0 && 0 <= b < tilemap.Length1 ==>
        tilemap[a, b] == if y0 <= a < i && x0 <= b < x1 then v else old(tilemap[a, b])
    {
      for j := x0 to x1
        invariant forall a, b :: 0 <= a < tilemap.Length0 && 0 <= b < tilemap.Length1 ==>
          tilemap[a, b] == if (y0 <= a < i && x0 <= b < x1) || (a == i && x0 <= b < j) then v else old(tilemap[a, b])
      {
        tilemap[i, j] := v;
      }
    }
  }

  /**
   * room_fill: stamps BOX_COUNT random rectangles straddling the midline with
   * TEMP; boxes holds the rand draws.
   */
  method RoomFill(tilemap: array2<bv8>, boxes: seq<BoxDraw>)
    requires tilemap.Length0 == DUNGEON_SIZE && tilemap.Length1 == DUNGEON_SIZE
    requires |boxes| == BOX_COUNT && forall k :: 0 <= k < |boxes| ==> ValidDraw(boxes[k])
    modifies tilemap
    ensures Cells(tilemap) == Filled(old(Cells(tilemap)), boxes)
  {
    ghost var g := Cells(tilemap);
    for k := 0 to |boxes|
      invariant forall i, j :: 0 <= i < DUNGEON_SIZE && 0 <= j < DUNGEON_SIZE ==>
        tilemap[i, j] == if Covered(boxes[..k], i, j) then TEMP else g[i][j]
    {
      var b := boxes[k];
      BoxWithinMargin(b);
      FillRect(tilemap, b.ys, b.ye, b.xs, XEnd(b), TEMP);
      forall i, j | 0 <= i < DUNGEON_SIZE && 0 <= j < DUNGEON_SIZE
        ensures Covered(boxes[..k + 1], i, j) <==> Covered(boxes[..k], i, j) || InBox(b, i, j)
      {
        assert boxes[..k + 1][k] == b;
        if Covered(boxes[..k], i, j) {
          var m :| 0 <= m < k && InBox(boxes[..k][m], i, j);
          assert boxes[..k + 1][m] == boxes[..k][m];
        }
        if Covered(boxes[..k + 1], i, j) && !InBox(b, i, j) {
          var m :| 0 <= m < k + 1 && InBox(boxes[..k + 1][m], i, j);
          assert boxes[..k][m] == boxes[..k + 1][m];
        }
      }
    }
    assert boxes[..|boxes|] == boxes;
    CellsAre(tilemap, Filled(g, boxes));
  }
}

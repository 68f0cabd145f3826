/**
 * dungeon_map_generator: the whole pipeline, from an empty DUNGEON_SIZE grid
 * to the trimmed and pruned room map. The random draws of every stage are
 * parameters.
 */
module DungeonGenerator {
  import opened Constants
  import opened GeneratorHelpers
  import opened Directions
  import opened Fill
  import opened Erosion
  import opened Connector
  import opened Trim
  import opened Clear

  /** One cell of tilemap *= 16 on uint8. */
  function Times16(v: bv8): bv8 {
    v * 16
  }

  /** The grid after tilemap *= 16. */
  function Scaled(g: Grid): (r: Grid)
    requires Rect(g)
    ensures SameShape(g, r)
  {
    seq(|g|, i requires 0 <= i < |g| =>
      seq(Width(g), j requires 0 <= j < Width(g) => Times16(g[i][j])))
  }

  /** Scaling turns the seed flag TEMP into ROOM and keeps WALL. */
  lemma Times16Binary(v: bv8)
    requires v == WALL || v == TEMP
    ensures Times16(v) == if v == TEMP then ROOM else WALL
    ensures Times16(v) & 0x0F == 0
  {
  }

  /** On a 0/1 grid the scaled grid holds ROOM exactly where the input held TEMP, and 0 elsewhere. */
  lemma ScaledRooms(g: Grid)
    requires Binary(g)
    ensures var s := Scaled(g);
      forall i, j :: InGrid(g, i, j) ==> s[i][j] == (if g[i][j] == TEMP then ROOM else WALL) && s[i][j] & 0x0F == 0
  {
    forall i, j | InGrid(g, i, j)
      ensures Scaled(g)[i][j] == (if g[i][j] == TEMP then ROOM else WALL) && Scaled(g)[i][j] & 0x0F == 0
    {
      Times16Binary(g[i][j]);
    }
  }

  /** tilemap *= 16, in place. */
  method ScaleRooms(tilemap: array2<bv8>)
    modifies tilemap
    ensures Cells(tilemap) == Scaled(old(Cells(tilemap)))
  {
    ghost var g := Cells(tilemap);
    for i := 0 to tilemap.Length0
      invariant forall a, b :: 0 <= a < tilemap.Length0 && 0 <= b < tilemap.Length1 ==>
        tilemap[a, b] == if a < i then Times16(g[a][b]) else g[a][b]
    {
      for j := 0 to tilemap.Length1
        invariant forall a, b :: 0 <= a < tilemap.Length0 && 0 <= b < tilemap.Length1 ==>
          tilemap[a, b] == if a < i || (a == i && b < j) then Times16(g[a][b]) else g[a][b]
      {
        tilemap[i, j] := Times16(tilemap[i, j]);
      }
    }
    CellsAre(tilemap, Scaled(g));
  }

  /** The rand draws of room_fill are in range. */
  predicate ValidBoxes(boxes: seq<BoxDraw>) {
    |boxes| == BOX_COUNT && forall k :: 0 <= k < |boxes| ==> ValidDraw(boxes[k])
  }

  /** The grid after room_fill, room_eroder and the scaling. */
  ghost function Seeded(boxes: seq<BoxDraw>, halfDraw: nat -> (nat, nat) -> bool, tenthDraw: nat -> (nat, nat) -> bool): (g: Grid)
    ensures Rect(g)
  {
    Scaled(Eroded(Filled(ZeroGrid(DUNGEON_SIZE, DUNGEON_SIZE), boxes), halfDraw, tenthDraw))
  }

  /** The grid after room_connector, before trimming. */
  ghost function Untrimmed(boxes: seq<BoxDraw>, halfDraw: nat -> (nat, nat) -> bool, tenthDraw: nat -> (nat, nat) -> bool,
                           rolls: (nat, nat) -> real, picks: (nat, nat) -> nat -> nat): (g: Grid)
    ensures Rect(g)
  {
    Connected(Seeded(boxes, halfDraw, tenthDraw), rolls, picks)
  }

  /** Every active cell has at least one exit. */
  ghost predicate Linked(g: Grid) {
    Rect(g) && forall i, j :: InGrid(g, i, j) && g[i][j] != 0 ==> exists d :: HasExit(g[i][j], d)
  }

  /** Every cell is 0 or ROOM plus exit bits. */
  ghost predicate RoomValues(g: Grid) {
    Rect(g) && forall i, j :: InGrid(g, i, j) ==> RoomValue(g[i][j])
  }

  /**
   * After seeding, erosion and scaling: the grid is DUNGEON_SIZE square, every
   * cell is 0 or ROOM, the outer ring is empty and no room is isolated.
   */
  lemma SeededShape(boxes: seq<BoxDraw>, halfDraw: nat -> (nat, nat) -> bool, tenthDraw: nat -> (nat, nat) -> bool)
    requires ValidBoxes(boxes)
    ensures var s := Seeded(boxes, halfDraw, tenthDraw);
      |s| == DUNGEON_SIZE && Width(s) == DUNGEON_SIZE && RingEmpty(s) &&
      (forall i, j :: InGrid(s, i, j) ==> s[i][j] == WALL || s[i][j] == ROOM) &&
      forall i, j {:trigger InGrid(s, i, j)} :: InGrid(s, i, j) && s[i][j] != 0 ==>
        Interior(s, i, j) && HasActiveNeighbour(s, i, j)
  {
    var f := Filled(ZeroGrid(DUNGEON_SIZE, DUNGEON_SIZE), boxes);
    FilledEmptyGrid(boxes);
    var e := Eroded(f, halfDraw, tenthDraw);
    ErodedShrinks(f, halfDraw, tenthDraw);
    ErodedNoIsolated(f, halfDraw, tenthDraw);
    var s := Scaled(e);
    ScaledRooms(e);
    forall i, j | InGrid(s, i, j) && s[i][j] != 0
      ensures Interior(s, i, j) && HasActiveNeighbour(s, i, j)
    {
      assert InGrid(e, i, j) && e[i][j] != 0;
      assert InGrid(e, i - 1, j) && InGrid(e, i + 1, j) && InGrid(e, i, j - 1) && InGrid(e, i, j + 1);
    }
  }

  /**
   * Before trimming: the grid is DUNGEON_SIZE square, the outer ring is empty,
   * every cell is 0 or a room, every exit is answered by the neighbour, and
   * every room has an exit.
   */
  lemma UntrimmedShape(boxes: seq<BoxDraw>, halfDraw: nat -> (nat, nat) -> bool, tenthDraw: nat -> (nat, nat) -> bool,
                       rolls: (nat, nat) -> real, picks: (nat, nat) -> nat -> nat)
    requires ValidBoxes(boxes)
    ensures var u := Untrimmed(boxes, halfDraw, tenthDraw, rolls, picks);
      |u| == DUNGEON_SIZE && Width(u) == DUNGEON_SIZE &&
      RingEmpty(u) && RoomValues(u) && Reciprocal(u) && Linked(u)
  {
    var s := Seeded(boxes, halfDraw, tenthDraw);
    SeededShape(boxes, halfDraw, tenthDraw);
    var u := Connected(s, rolls, picks);
    ConnectedRooms(s, rolls, picks);
    ConnectedLinked(s, rolls, picks);
  }

  /** Connecting a grid of 0 and ROOM cells with an empty ring gives a reciprocal grid of room values with an empty ring. */
  lemma ConnectedRooms(s: Grid, rolls: (nat, nat) -> real, picks: (nat, nat) -> nat -> nat)
    requires Rect(s) && RingEmpty(s) && forall i, j :: InGrid(s, i, j) ==> s[i][j] == WALL || s[i][j] == ROOM
    ensures var u := Connected(s, rolls, picks);
      RingEmpty(u) && RoomValues(u) && Reciprocal(u)
  {
    assert forall i, j :: InGrid(s, i, j) ==> s[i][j] & 0x0F == 0;
    ConnectedReciprocal(s, rolls, picks);
    ConnectedRoomValues(s, rolls, picks);
  }

  /** Connecting a grid whose rooms all have a room beside them gives every room an exit. */
  lemma ConnectedLinked(s: Grid, rolls: (nat, nat) -> real, picks: (nat, nat) -> nat -> nat)
    requires Rect(s) && forall i, j :: InGrid(s, i, j) ==> s[i][j] == WALL || s[i][j] == ROOM
    requires forall i, j {:trigger InGrid(s, i, j)} :: InGrid(s, i, j) && s[i][j] != 0 ==>
      Interior(s, i, j) && HasActiveNeighbour(s, i, j)
    ensures Linked(Connected(s, rolls, picks))
  {
    var u := Connected(s, rolls, picks);
    ConnectedRoomValues(s, rolls, picks);
    forall i, j | InGrid(u, i, j) && u[i][j] != 0
      ensures exists d :: HasExit(u[i][j], d)
    {
      assert InGrid(s, i, j) && s[i][j] != 0;
      assert Interior(s, i, j) && HasActiveNeighbour(s, i, j);
      ConnectedGivesExit(s, rolls, picks, i, j);
    }
  }

  /** The result of dungeon_map_generator. */
  ghost function DungeonMap(boxes: seq<BoxDraw>, halfDraw: nat -> (nat, nat) -> bool, tenthDraw: nat -> (nat, nat) -> bool,
                            rolls: (nat, nat) -> real, picks: (nat, nat) -> nat -> nat): (g: Grid)
    requires ValidBoxes(boxes)
    ensures ClearsSingles(TilemapTrim(Untrimmed(boxes, halfDraw, tenthDraw, rolls, picks)), g)
  {
    var trimmed := TilemapTrim(Untrimmed(boxes, halfDraw, tenthDraw, rolls, picks));
    UntrimmedShape(boxes, halfDraw, tenthDraw, rolls, picks);
    TrimReciprocal(Untrimmed(boxes, halfDraw, tenthDraw, rolls, picks));
    ReciprocalInBounds(trimmed);
    Pruned(trimmed)
  }

  /** A grid taken from the cells of another keeps RoomValues and Linked. */
  lemma CellsFrom(g: Grid, t: Grid)
    requires RoomValues(g) && Linked(g) && Rect(t)
    requires forall r, c :: InGrid(t, r, c) ==> exists i, j :: InGrid(g, i, j) && t[r][c] == g[i][j]
    ensures RoomValues(t) && Linked(t)
  {
    forall r, c | InGrid(t, r, c)
      ensures RoomValue(t[r][c]) && (t[r][c] != 0 ==> exists d :: HasExit(t[r][c], d))
    {
      var i, j :| InGrid(g, i, j) && t[r][c] == g[i][j];
    }
  }

  /**
   * The pipeline's promise: the map is reciprocal, every cell is 0 or a room
   * with at least one exit, and no two single-exit rooms point at each other.
   */
  lemma DungeonMapShape(boxes: seq<BoxDraw>, halfDraw: nat -> (nat, nat) -> bool, tenthDraw: nat -> (nat, nat) -> bool,
                        rolls: (nat, nat) -> real, picks: (nat, nat) -> nat -> nat)
    requires ValidBoxes(boxes)
    ensures var m := DungeonMap(boxes, halfDraw, tenthDraw, rolls, picks);
      Reciprocal(m) && RoomValues(m) && Linked(m) && NoSingleExitPairs(m)
  {
    var u := Untrimmed(boxes, halfDraw, tenthDraw, rolls, picks);
    UntrimmedShape(boxes, halfDraw, tenthDraw, rolls, picks);
    var t := TilemapTrim(u);
    TrimReciprocal(u);
    forall r, c | InGrid(t, r, c)
      ensures exists i, j :: InGrid(u, i, j) && t[r][c] == u[i][j]
    {
      TrimCell(u, r, c);
      var i, j := KeptRows(u)[r], KeptCols(u)[c];
      assert InGrid(u, i, j) && t[r][c] == u[i][j];
    }
    CellsFrom(u, t);
    PrunedReciprocal(t);
    PrunedSettles(t);
    ClearedKeeps(t, Pruned(t));
  }

  /** Clearing single-exit cells keeps RoomValues and Linked: a cleared cell is 0. */
  lemma ClearedKeeps(g: Grid, m: Grid)
    requires RoomValues(g) && Linked(g) && ClearsSingles(g, m)
    ensures RoomValues(m) && Linked(m)
  {
    forall r, c | InGrid(m, r, c)
      ensures RoomValue(m[r][c]) && (m[r][c] != 0 ==> exists d :: HasExit(m[r][c], d))
    {
      assert m[r][c] == g[r][c] || m[r][c] == 0;
    }
  }

  /**
   * dungeon_map_generator: allocate, seed, erode, scale, connect, trim and
   * prune. boxes are room_fill's rand draws, halfDraw and tenthDraw
   * room_eroder's, rolls and picks room_connector's.
   */
  method DungeonMapGenerator(boxes: seq<BoxDraw>, halfDraw: nat -> (nat, nat) -> bool, tenthDraw: nat -> (nat, nat) -> bool,
                             rolls: (nat, nat) -> real, picks: (nat, nat) -> nat -> nat) returns (tilemap: array2<bv8>)
    requires ValidBoxes(boxes)
    ensures fresh(tilemap)
    ensures Cells(tilemap) == DungeonMap(boxes, halfDraw, tenthDraw, rolls, picks)
    ensures var m := Cells(tilemap); Reciprocal(m) && RoomValues(m) && Linked(m) && NoSingleExitPairs(m)
  {
    var grid := InitTilemap(DUNGEON_SIZE);
    RoomFill(grid, boxes);
    RoomEroder(grid, halfDraw, tenthDraw);
    ScaleRooms(grid);
    RoomConnector(grid, rolls, picks);
    assert Cells(grid) == Untrimmed(boxes, halfDraw, tenthDraw, rolls, picks);
    UntrimmedShape(boxes, halfDraw, tenthDraw, rolls, picks);
    tilemap := FromGrid(TilemapTrim(Cells(grid)));
    TrimReciprocal(Cells(grid));
    ReciprocalInBounds(Cells(tilemap));
    RoomClear(tilemap);
    DungeonMapShape(boxes, halfDraw, tenthDraw, rolls, picks);
  }
}

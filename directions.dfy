/**
 * Exit directions and their bit encoding (get_directions, dir_to_bit and the
 * neighbour step of room_connector), and the grid-wide reciprocity invariant.
 */
module Directions {
  import opened Constants
  import opened GeneratorHelpers

  datatype Direction = North | East | South | West

  /** The canonical order in which get_directions lists directions. */
  const Order: seq<Direction> := [North, East, South, West]

  /** The direction with bit number i. */
  function DirAt(i: nat): (d: Direction)
    requires i < 4
    ensures Index(d) == i
  {
    if i == 0 then North else if i == 1 then East else if i == 2 then South else West
  }

  /** Position of a direction in the canonical order (its bit number). */
  function Index(d: Direction): nat {
    match d
    case North => 0
    case East => 1
    case South => 2
    case West => 3
  }

  /** dir_to_bit. */
  function Bit(d: Direction): bv8 {
    match d
    case North => NORTH
    case East => EAST
    case South => SOUTH
    case West => WEST
  }

  /** opposite. */
  function Opposite(d: Direction): Direction {
    match d
    case North => South
    case East => West
    case South => North
    case West => East
  }

  /** Row offset of the neighbour in direction d. */
  function DY(d: Direction): int {
    match d
    case North => -1
    case South => 1
    case _ => 0
  }

  /** Column offset of the neighbour in direction d. */
  function DX(d: Direction): int {
    match d
    case East => 1
    case West => -1
    case _ => 0
  }

  /** Cell value v carries the exit bit of direction d. */
  predicate HasExit(v: bv8, d: Direction) {
    v & Bit(d) != 0
  }

  /** Directions listed in strictly increasing canonical order. */
  predicate Increasing(s: seq<Direction>) {
    forall a, b :: 0 <= a < b < |s| ==> Index(s[a]) < Index(s[b])
  }

  lemma ConsIncreasing(d: Direction, rest: seq<Direction>)
    requires Increasing(rest)
    requires forall a :: 0 <= a < |rest| ==> Index(d) < Index(rest[a])
    ensures Increasing([d] + rest)
  {
    var r := [d] + rest;
    forall a, b | 0 <= a < b < |r|
      ensures Index(r[a]) < Index(r[b])
    {
      assert r[b] == rest[b - 1];
      if a > 0 { assert r[a] == rest[a - 1]; }
    }
  }

  /**
   * The directions with bit number i or more whose bit is set in bits, in
   * order (Bit(DirAt(i)) is the source's 1 << i).
   */
  function DirsFrom(bits: bv8, i: nat): (r: seq<Direction>)
    requires i <= 4
    ensures forall d :: d in r <==> Index(d) >= i && bits & Bit(d) != 0
    ensures Increasing(r)
    ensures forall a :: 0 <= a < |r| ==> Index(r[a]) >= i
    decreases 4 - i
  {
    if i == 4 then []
    else
      var d := DirAt(i);
      var rest := DirsFrom(bits, i + 1);
      if bits & Bit(d) != 0 then
        ConsIncreasing(d, rest);
        [d] + rest
      else rest
  }

  /**
   * get_directions: the directions whose bit is set among the low four bits of
   * value, in the order North, East, South, West.
   */
  function GetDirections(value: bv8): (dirs: seq<Direction>)
    ensures forall d :: d in dirs <==> HasExit(value, d)
    ensures Increasing(dirs)
  {
    var bits := value & 0x0F;
    assert forall d :: bits & Bit(d) == value & Bit(d);
    DirsFrom(bits, 0)
  }

  /** Two increasing direction lists with the same members are equal. */
  lemma {:induction false} IncreasingUnique(s: seq<Direction>, t: seq<Direction>)
    requires Increasing(s) && Increasing(t)
    requires forall d :: d in s <==> d in t
    ensures s == t
    decreases |s|
  {
    assert s != [] ==> s[0] in t;
    assert t != [] ==> t[0] in s;
    if s != [] && t != [] {
      HeadIsLeast(s, t[0]);
      HeadIsLeast(t, s[0]);
      assert Index(s[0]) == Index(t[0]);
      TailMembers(s);
      TailMembers(t);
      IncreasingUnique(s[1..], t[1..]);
      assert s == [s[0]] + s[1..] && t == [t[0]] + t[1..];
    }
  }

  /** The head of an increasing list comes first among its members. */
  lemma HeadIsLeast(s: seq<Direction>, d: Direction)
    requires Increasing(s) && d in s
    ensures Index(s[0]) <= Index(d)
  {
    var a :| 0 <= a < |s| && s[a] == d;
    assert a == 0 || Index(s[0]) < Index(s[a]);
  }

  /** The tail of an increasing list is increasing and holds every member but the head. */
  lemma TailMembers(s: seq<Direction>)
    requires Increasing(s) && s != []
    ensures Increasing(s[1..])
    ensures forall d :: d in s[1..] <==> d in s && d != s[0]
  {
    forall d | d in s && d != s[0]
      ensures d in s[1..]
    {
      var a :| 0 <= a < |s| && s[a] == d;
      assert s[1..][a - 1] == d;
    }
    forall d | d in s[1..]
      ensures d != s[0]
    {
      var a :| 0 <= a < |s[1..]| && s[1..][a] == d;
      assert Index(s[0]) < Index(s[a + 1]);
    }
  }

  /**
   * get_directions is determined by its two promises: any increasing list of
   * exactly the set exit bits is its result.
   */
  lemma GetDirectionsUnique(value: bv8, s: seq<Direction>)
    requires Increasing(s)
    requires forall d :: d in s <==> HasExit(value, d)
    ensures s == GetDirections(value)
  {
    IncreasingUnique(s, GetDirections(value));
  }

  /** Bits above bit 3 are ignored. */
  lemma GetDirectionsIgnoresHighBits(value: bv8)
    ensures GetDirections(value) == GetDirections(value & 0x0F)
  {
    assert forall d :: HasExit(value, d) <==> HasExit(value & 0x0F, d);
    GetDirectionsUnique(value, GetDirections(value & 0x0F));
  }

  /** 0 has no exits. */
  lemma GetDirectionsOfWall()
    ensures GetDirections(0) == []
  {
    GetDirectionsUnique(0, []);
  }

  /** A room open to the north and the south lists North, then South. */
  lemma GetDirectionsOfCorridor()
    ensures GetDirections(ROOM | NORTH | SOUTH) == [North, South]
  {
    GetDirectionsUnique(ROOM | NORTH | SOUTH, [North, South]);
  }

  /** A room open on all four sides lists all four, in order. */
  lemma GetDirectionsOfCrossing()
    ensures GetDirections(31) == Order
  {
    GetDirectionsUnique(31, Order);
  }

  /** Stepping one cell in d and then back in Opposite(d) returns to the start. */
  lemma OppositeStepsBack(d: Direction)
    ensures Opposite(Opposite(d)) == d
    ensures DY(Opposite(d)) == -DY(d) && DX(Opposite(d)) == -DX(d)
    ensures Bit(d) & 0x0F == Bit(d) && Bit(d) != 0
    ensures Bit(d) & (Bit(d) - 1) == 0
  {
  }

  /** A legal cell of the final grid: inactive, or the ROOM flag plus exit bits. */
  predicate RoomValue(v: bv8) {
    v == 0 || ROOM <= v <= 31
  }

  /**
   * Every exit bit points at a cell inside the grid that carries the opposite
   * exit bit: graph edges are recorded on both ends.
   */
  ghost predicate Reciprocal(g: Grid) {
    Rect(g) &&
    forall i, j, d {:trigger HasExit(g[i][j], d), InGrid(g, i, j)} :: InGrid(g, i, j) && HasExit(g[i][j], d) ==> Answered(g, i, j, d)
  }

  /** The neighbour of (i, j) in direction d is inside the grid and has the opposite exit. */
  predicate Answered(g: Grid, i: int, j: int, d: Direction)
    requires Rect(g)
  {
    0 <= i + DY(d) < |g| && 0 <= j + DX(d) < Width(g) && HasExit(g[i + DY(d)][j + DX(d)], Opposite(d))
  }
}

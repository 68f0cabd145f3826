/**
 * Exit-bit wiring between adjacent active rooms (get_possible_connections,
 * room_random, random.sample and room_connector).
 */
module Connector {
  import opened Constants
  import opened GeneratorHelpers
  import opened Directions

  /** uint8 bitwise or. */
  function Or(a: bv8, b: bv8): bv8 {
    a | b
  }

  /** The bit of d when flag holds, else 0. */
  function Flag(flag: bool, d: Direction): bv8 {
    if flag then Bit(d) else 0
  }

  /** Four direction flags packed as bits 0 .. 3 (North, East, South, West). */
  function Mask4(n: bool, e: bool, s: bool, w: bool): bv8 {
    Or(Or(Flag(n, North), Flag(e, East)), Or(Flag(s, South), Flag(w, West)))
  }

  /** The flag among n, e, s, w that belongs to d. */
  function FlagOf(d: Direction, n: bool, e: bool, s: bool, w: bool): bool {
    match d
    case North => n
    case East => e
    case South => s
    case West => w
  }

  /** The exits of a packed mask are exactly its set flags, and it has no bit above bit 3. */
  lemma Mask4Exits(n: bool, e: bool, s: bool, w: bool)
    ensures forall d :: HasExit(Mask4(n, e, s, w), d) <==> FlagOf(d, n, e, s, w)
    ensures Mask4(n, e, s, w) & 0xF0 == 0
    ensures Mask4(n, e, s, w) == 0 <==> !n && !e && !s && !w
  {
  }

  /** Or-ing a cell with a mask adds the mask's exits and keeps the cell's other bits. */
  lemma OrExits(v: bv8, m: bv8)
    ensures forall d :: HasExit(Or(v, m), d) <==> HasExit(v, d) || HasExit(m, d)
    ensures m & 0xF0 == 0 ==> Or(v, m) & 0xF0 == v & 0xF0
    ensures Or(v, m) == 0 <==> v == 0 && m == 0
  {
  }

  /** Or-ing in the bit of d turns on d's flag. */
  lemma Mask4AddBit(n: bool, e: bool, s: bool, w: bool, d: Direction)
    ensures Or(Mask4(n, e, s, w), Bit(d)) ==
      Mask4(n || d == North, e || d == East, s || d == South, w || d == West)
  {
  }

  lemma OrAssoc(a: bv8, b: bv8, c: bv8)
    ensures Or(Or(a, b), c) == Or(a, Or(b, c))
  {
  }

  /**
   * The possible-connections entry of interior cell (y, x): bit d set when the
   * neighbour in direction d is active, the whole mask multiplied by (cell != 0).
   */
  function ConnectionMask(g: Grid, y: int, x: int): (m: bv8)
    requires Rect(g) && Interior(g, y, x)
    ensures m & 0xF0 == 0
  {
    var m := Mask4(g[y - 1][x] != 0, g[y][x + 1] != 0, g[y + 1][x] != 0, g[y][x - 1] != 0);
    if g[y][x] != 0 then m else 0
  }

  /** The neighbour of (y, x) in direction d is active. */
  predicate ActiveToward(g: Grid, y: int, x: int, d: Direction)
    requires Rect(g) && Interior(g, y, x)
  {
    g[y + DY(d)][x + DX(d)] != 0
  }

  /**
   * Bit d of the possible-connections entry of (y, x) is set exactly when
   * (y, x) and its neighbour in direction d are both active; bits 4 .. 7 are 0.
   */
  lemma ConnectionMaskExits(g: Grid, y: int, x: int)
    requires Rect(g) && Interior(g, y, x)
    ensures forall d :: HasExit(ConnectionMask(g, y, x), d) <==> g[y][x] != 0 && ActiveToward(g, y, x, d)
    ensures ConnectionMask(g, y, x) & 0xF0 == 0
  {
    Mask4Exits(g[y - 1][x] != 0, g[y][x + 1] != 0, g[y + 1][x] != 0, g[y][x - 1] != 0);
  }

  /**
   * get_possible_connections: the (H-2) x (W-2) map whose entry (y-1, x-1) is
   * the connection mask of interior cell (y, x).
   */
  function PossibleConnections(g: Grid): (c: Grid)
    requires Rect(g)
    ensures Rect(c) && |c| == if |g| >= 2 then |g| - 2 else 0
    ensures |c| > 0 ==> Width(c) == if Width(g) >= 2 then Width(g) - 2 else 0
    ensures forall y, x :: Interior(g, y, x) ==> c[y - 1][x - 1] == ConnectionMask(g, y, x)
  {
    var h := if |g| >= 2 then |g| - 2 else 0;
    var w := if Width(g) >= 2 then Width(g) - 2 else 0;
    seq(h, i requires 0 <= i < h => seq(w, j requires 0 <= j < w => ConnectionMask(g, i + 1, j + 1)))
  }

  /** room_random: 1, 2 or 3 exits, from the float r = random() against the thresholds 0.60 and 0.85. */
  function RoomRandom(r: real): (n: nat)
    ensures 1 <= n <= 3
  {
    if r < 0.60 then 1
    else if r < 0.85 then 2
    else 3
  }

  /** A larger draw never asks for fewer exits. */
  lemma RoomRandomMonotone(r: real, s: real)
    requires r <= s
    ensures RoomRandom(r) <= RoomRandom(s)
  {
  }

  /**
   * random.sample(pool, k) for a pool of at most 21 elements (CPython's pool
   * branch): the i-th pick takes pool[j] with j = randbelow(n - i), modelled as
   * draw(step + i) reduced modulo n - i, and moves the last live element into
   * slot j. The picks are k elements of the pool, never one slot twice.
   */
  function Sample<T>(pool: seq<T>, k: nat, draw: nat -> nat, step: nat): (r: seq<T>)
    requires k <= |pool|
    ensures |r| == k
    ensures multiset(r) <= multiset(pool)
    decreases k
  {
    if k == 0 then []
    else
      var n := |pool|;
      var j := draw(step) % n;
      var rest := pool[j := pool[n - 1]][..n - 1];
      SwapRemove(pool, j);
      [pool[j]] + Sample(rest, k - 1, draw, step + 1)
  }

  /** Moving the last element into slot j and dropping the last slot removes exactly pool[j]. */
  lemma SwapRemove<T>(pool: seq<T>, j: nat)
    requires j < |pool|
    ensures multiset(pool[j := pool[|pool| - 1]][..|pool| - 1]) + multiset{pool[j]} == multiset(pool)
  {
    var n := |pool|;
    var p := pool[j := pool[n - 1]];
    assert p == p[..n - 1] + [pool[n - 1]];
    assert pool == pool[..n - 1] + [pool[n - 1]];
    assert multiset(p) == multiset(pool) - multiset{pool[j]} + multiset{pool[n - 1]};
  }

  /** No element occurs twice. */
  predicate Distinct<T(==)>(s: seq<T>) {
    forall a, b :: 0 <= a < b < |s| ==> s[a] != s[b]
  }

  /** Drawing from a pool without repeats gives picks without repeats. */
  lemma DistinctSubMultiset<T>(r: seq<T>, pool: seq<T>)
    requires multiset(r) <= multiset(pool) && Distinct(pool)
    ensures Distinct(r)
  {
    forall a, b | 0 <= a < b < |r|
      ensures r[a] != r[b]
    {
      if r[a] == r[b] {
        CountTwice(r, a, b);
        DistinctCountsOnce(pool, r[a]);
        assert false;
      }
    }
  }

  lemma CountTwice<T>(s: seq<T>, a: int, b: int)
    requires 0 <= a < b < |s| && s[a] == s[b]
    ensures multiset(s)[s[a]] >= 2
  {
    assert s == s[..b] + [s[b]] + s[b + 1..];
    assert s[..b][a] == s[a];
    assert s[a] in multiset(s[..b]);
  }

  lemma {:induction false} DistinctCountsOnce<T>(s: seq<T>, v: T)
    requires Distinct(s)
    ensures multiset(s)[v] <= 1
  {
    if s != [] {
      assert s == [s[0]] + s[1..];
      assert Distinct(s[1..]);
      DistinctCountsOnce(s[1..], v);
      if v == s[0] {
        assert v !in s[1..];
      }
    }
  }

  /** An increasing direction list has no repeats. */
  lemma IncreasingDistinct(s: seq<Direction>)
    requires Increasing(s)
    ensures Distinct(s)
  {
  }

  /**
   * The exits interior cell (y, x) picks in room_connector: none when the cell
   * is inactive, otherwise min(room_random(), number of candidates) of the
   * candidate directions, drawn by random.sample. rolls(y, x) is the random()
   * value of the cell, picks(y, x) the randbelow values of its sample.
   */
  function Choice(g: Grid, rolls: (nat, nat) -> real, picks: (nat, nat) -> nat -> nat, y: int, x: int): (c: seq<Direction>)
    requires Rect(g) && Interior(g, y, x)
    ensures |c| <= 3
  {
    if g[y][x] == 0 then []
    else
      var dirs := GetDirections(ConnectionMask(g, y, x));
      Sample(dirs, Min(RoomRandom(rolls(y, x)), |dirs|), picks(y, x), 0)
  }

  /**
   * An active interior cell picks between 1 and 3 distinct exits, at least one
   * when it has an active neighbour, never more than it has active neighbours,
   * and each toward an active neighbour; an inactive one picks none.
   */
  lemma ChoiceBounds(g: Grid, rolls: (nat, nat) -> real, picks: (nat, nat) -> nat -> nat, y: int, x: int)
    requires Rect(g) && Interior(g, y, x)
    ensures var c := Choice(g, rolls, picks, y, x);
      var cands := GetDirections(ConnectionMask(g, y, x));
      (g[y][x] == 0 ==> c == []) &&
      (forall d :: d in cands <==> g[y][x] != 0 && ActiveToward(g, y, x, d)) &&
      Distinct(c) && (forall d :: d in c ==> d in cands) &&
      |c| == Min(if g[y][x] == 0 then 0 else RoomRandom(rolls(y, x)), |cands|) &&
      |c| <= 3 && (cands != [] ==> 1 <= |c|)
  {
    var c := Choice(g, rolls, picks, y, x);
    var cands := GetDirections(ConnectionMask(g, y, x));
    ConnectionMaskExits(g, y, x);
    IncreasingDistinct(cands);
    if g[y][x] != 0 {
      DistinctSubMultiset(c, cands);
      forall d | d in c
        ensures d in cands
      {
        assert d in multiset(c);
      }
    }
  }

  /** An exit picked at (y, x), as a directed link. */
  datatype Link = Link(y: int, x: int, d: Direction)

  /** The picks of every cell: Choice on interior cells, nothing elsewhere. */
  ghost function Choices(g: Grid, rolls: (nat, nat) -> real, picks: (nat, nat) -> nat -> nat): (int, int) -> seq<Direction>
    requires Rect(g)
  {
    (a: int, b: int) => if Interior(g, a, b) then Choice(g, rolls, picks, a, b) else []
  }

  /** Every pick leaves an active interior cell toward an active neighbour. */
  ghost predicate ChoicesSound(g: Grid, choices: (int, int) -> seq<Direction>)
    requires Rect(g)
  {
    forall y, x, d :: Interior(g, y, x) && d in choices(y, x) ==> g[y][x] != 0 && ActiveToward(g, y, x, d)
  }

  /** room_connector's picks are sound. */
  lemma ChoicesAreSound(g: Grid, rolls: (nat, nat) -> real, picks: (nat, nat) -> nat -> nat)
    requires Rect(g)
    ensures ChoicesSound(g, Choices(g, rolls, picks))
  {
    forall y, x, d | Interior(g, y, x) && d in Choices(g, rolls, picks)(y, x)
      ensures g[y][x] != 0 && ActiveToward(g, y, x, d)
    {
      ChoiceBounds(g, rolls, picks, y, x);
    }
  }

  /** The links that the given picks of the interior cells make. */
  ghost function LinksOf(g: Grid, choices: (int, int) -> seq<Direction>): set<Link>
    requires Rect(g)
  {
    set y, x, d | 1 <= y < |g| - 1 && 1 <= x < Width(g) - 1 && d in choices(y, x) :: Link(y, x, d)
  }

  lemma InLinksOf(g: Grid, choices: (int, int) -> seq<Direction>, l: Link)
    requires Rect(g)
    ensures l in LinksOf(g, choices) <==> Interior(g, l.y, l.x) && l.d in choices(l.y, l.x)
  {
    if Interior(g, l.y, l.x) && l.d in choices(l.y, l.x) {
      assert Link(l.y, l.x, l.d) == l;
    }
  }

  /** Cell (y, x) gets the exit bit of d from links: picked there, or picked the other way by its neighbour. */
  predicate Has(links: set<Link>, y: int, x: int, d: Direction) {
    Link(y, x, d) in links || Link(y + DY(d), x + DX(d), Opposite(d)) in links
  }

  /** The exit bits cell (y, x) gets from links. */
  function MaskOf(links: set<Link>, y: int, x: int): bv8 {
    Mask4(Has(links, y, x, North), Has(links, y, x, East), Has(links, y, x, South), Has(links, y, x, West))
  }

  /** The grid with the exit bits of links or-ed in. */
  function Marked(g: Grid, links: set<Link>): (r: Grid)
    requires Rect(g)
    ensures SameShape(g, r)
  {
    seq(|g|, i requires 0 <= i < |g| =>
      seq(Width(g), j requires 0 <= j < Width(g) => Or(g[i][j], MaskOf(links, i, j))))
  }

  /** The result of room_connector. */
  ghost function Connected(g: Grid, rolls: (nat, nat) -> real, picks: (nat, nat) -> nat -> nat): (r: Grid)
    requires Rect(g)
    ensures SameShape(g, r)
  {
    Marked(g, LinksOf(g, Choices(g, rolls, picks)))
  }

  /**
   * A marked cell has the exits of the original cell plus those its links
   * give it, keeps bits 4 .. 7, and is 0 exactly when the cell was 0 and no
   * link reaches it.
   */
  lemma MarkedCell(g: Grid, links: set<Link>, y: int, x: int)
    requires Rect(g) && InGrid(g, y, x)
    ensures var v := Marked(g, links)[y][x];
      (forall d :: HasExit(v, d) <==> HasExit(g[y][x], d) || Has(links, y, x, d)) &&
      v & 0xF0 == g[y][x] & 0xF0 &&
      (v == 0 <==> g[y][x] == 0 && forall d :: !Has(links, y, x, d))
  {
    var m := MaskOf(links, y, x);
    Mask4Exits(Has(links, y, x, North), Has(links, y, x, East), Has(links, y, x, South), Has(links, y, x, West));
    OrExits(g[y][x], m);
    if !Has(links, y, x, North) && !Has(links, y, x, East) && !Has(links, y, x, South) && !Has(links, y, x, West) {
      forall d
        ensures !Has(links, y, x, d)
      {
        assert d == North || d == East || d == South || d == West;
      }
    }
  }

  /** Without links nothing is marked. */
  lemma MarkedNothing(g: Grid)
    requires Rect(g)
    ensures Marked(g, {}) == g
  {
    Mask4Exits(false, false, false, false);
    forall i | 0 <= i < |g|
      ensures Marked(g, {})[i] == g[i]
    {
      forall j | 0 <= j < Width(g)
        ensures Marked(g, {})[i][j] == g[i][j]
      {
        OrZero(g[i][j]);
      }
    }
  }

  lemma OrZero(v: bv8)
    ensures Or(v, 0) == v
  {
  }

  /** A link reaches its far end too: Has is symmetric across each edge. */
  lemma HasSymmetric(links: set<Link>, y: int, x: int, d: Direction)
    ensures Has(links, y, x, d) <==> Has(links, y + DY(d), x + DX(d), Opposite(d))
  {
    OppositeStepsBack(d);
  }

  /** Links made from sound picks only join two active cells of the grid. */
  lemma LinkEndsActive(g: Grid, choices: (int, int) -> seq<Direction>, links: set<Link>, y: int, x: int, d: Direction)
    requires Rect(g) && ChoicesSound(g, choices)
    requires links <= LinksOf(g, choices) && Has(links, y, x, d)
    ensures InGrid(g, y, x) && InGrid(g, y + DY(d), x + DX(d))
    ensures g[y][x] != 0 && g[y + DY(d)][x + DX(d)] != 0
  {
    OppositeStepsBack(d);
    if Link(y, x, d) in links {
      InLinksOf(g, choices, Link(y, x, d));
    } else {
      var ny, nx := y + DY(d), x + DX(d);
      InLinksOf(g, choices, Link(ny, nx, Opposite(d)));
    }
  }

  /**
   * On a grid whose cells have no exit bits yet (bits 0 .. 3 clear),
   * room_connector records every edge on both ends.
   */
  lemma ConnectedReciprocal(g: Grid, rolls: (nat, nat) -> real, picks: (nat, nat) -> nat -> nat)
    requires Rect(g)
    requires forall i, j :: InGrid(g, i, j) ==> g[i][j] & 0x0F == 0
    ensures Reciprocal(Connected(g, rolls, picks))
  {
    var choices := Choices(g, rolls, picks);
    var links := LinksOf(g, choices);
    var c := Marked(g, links);
    ChoicesAreSound(g, rolls, picks);
    forall i, j, d | InGrid(c, i, j) && HasExit(c[i][j], d)
      ensures Answered(c, i, j, d)
    {
      MarkedAnswered(g, choices, links, i, j, d);
    }
  }

  /** One exit of a marked cell, on a grid without exits of its own, is answered. */
  lemma MarkedAnswered(g: Grid, choices: (int, int) -> seq<Direction>, links: set<Link>, i: int, j: int, d: Direction)
    requires Rect(g) && InGrid(g, i, j) && g[i][j] & 0x0F == 0
    requires ChoicesSound(g, choices) && links <= LinksOf(g, choices)
    requires HasExit(Marked(g, links)[i][j], d)
    ensures Answered(Marked(g, links), i, j, d)
  {
    MarkedCell(g, links, i, j);
    NoExitsInHighBits(g[i][j], d);
    LinkEndsActive(g, choices, links, i, j, d);
    HasSymmetric(links, i, j, d);
    MarkedCell(g, links, i + DY(d), j + DX(d));
  }

  /** A value with bits 0 .. 3 clear has no exit. */
  lemma NoExitsInHighBits(v: bv8, d: Direction)
    requires v & 0x0F == 0
    ensures !HasExit(v, d)
  {
  }

  /** An active interior cell with an active neighbour has a candidate connection. */
  lemma NeighbourCandidate(g: Grid, y: int, x: int)
    requires Rect(g) && Interior(g, y, x) && g[y][x] != 0
    requires g[y - 1][x] != 0 || g[y + 1][x] != 0 || g[y][x - 1] != 0 || g[y][x + 1] != 0
    ensures |GetDirections(ConnectionMask(g, y, x))| > 0
  {
    var d0 := if g[y - 1][x] != 0 then North else if g[y + 1][x] != 0 then South
      else if g[y][x - 1] != 0 then West else East;
    assert ActiveToward(g, y, x, d0);
    ConnectionMaskExits(g, y, x);
    assert d0 in GetDirections(ConnectionMask(g, y, x));
  }

  /**
   * An active interior cell with an active neighbour gets at least one exit:
   * room_random is at least 1 and it has at least one candidate.
   */
  lemma ConnectedGivesExit(g: Grid, rolls: (nat, nat) -> real, picks: (nat, nat) -> nat -> nat, y: int, x: int)
    requires Rect(g) && Interior(g, y, x) && g[y][x] != 0
    requires g[y - 1][x] != 0 || g[y + 1][x] != 0 || g[y][x - 1] != 0 || g[y][x + 1] != 0
    ensures exists d :: HasExit(Connected(g, rolls, picks)[y][x], d)
  {
    var choices := Choices(g, rolls, picks);
    var links := LinksOf(g, choices);
    ChoiceBounds(g, rolls, picks, y, x);
    var c := Choice(g, rolls, picks, y, x);
    NeighbourCandidate(g, y, x);
    var d := c[0];
    assert d in choices(y, x);
    InLinksOf(g, choices, Link(y, x, d));
    assert Has(links, y, x, d);
    MarkedCell(g, links, y, x);
    assert HasExit(Connected(g, rolls, picks)[y][x], d);
  }

  /** While the links made are sound links, a marked cell is 0 exactly when it was 0. */
  lemma MarkedZero(g: Grid, choices: (int, int) -> seq<Direction>, links: set<Link>, y: int, x: int)
    requires Rect(g) && InGrid(g, y, x) && ChoicesSound(g, choices)
    requires links <= LinksOf(g, choices)
    ensures Marked(g, links)[y][x] == 0 <==> g[y][x] == 0
  {
    MarkedCell(g, links, y, x);
    if g[y][x] == 0 {
      forall d
        ensures !Has(links, y, x, d)
      {
        if Has(links, y, x, d) {
          LinkEndsActive(g, choices, links, y, x, d);
        }
      }
    }
  }

  /**
   * On a grid of 0 and ROOM cells room_connector leaves every 0 cell 0 and
   * turns every ROOM cell into ROOM plus exit bits, a value in 16 .. 31.
   */
  lemma ConnectedRoomValues(g: Grid, rolls: (nat, nat) -> real, picks: (nat, nat) -> nat -> nat)
    requires Rect(g)
    requires forall i, j :: InGrid(g, i, j) ==> g[i][j] == 0 || g[i][j] == ROOM
    ensures var c := Connected(g, rolls, picks);
      forall i, j :: InGrid(g, i, j) ==> RoomValue(c[i][j]) && (c[i][j] == 0 <==> g[i][j] == 0)
  {
    var c := Connected(g, rolls, picks);
    var choices := Choices(g, rolls, picks);
    var links := LinksOf(g, choices);
    ChoicesAreSound(g, rolls, picks);
    forall i, j | InGrid(g, i, j)
      ensures RoomValue(c[i][j]) && (c[i][j] == 0 <==> g[i][j] == 0)
    {
      MarkedZero(g, choices, links, i, j);
      if g[i][j] != 0 {
        MarkedCell(g, links, i, j);
        RoomPlusBits(c[i][j]);
      }
    }
  }

  /** A value whose bits 4 .. 7 are those of ROOM lies in 16 .. 31. */
  lemma RoomPlusBits(v: bv8)
    requires v & 0xF0 == ROOM & 0xF0
    ensures RoomValue(v) && v != 0
  {
  }

  /**
   * Link l has been made once room_connector has finished every cell before
   * (cy, cx) and the first m picks of (cy, cx).
   */
  ghost predicate IsDone(g: Grid, choices: (int, int) -> seq<Direction>, cy: int, cx: int, m: nat, l: Link) {
    Interior(g, l.y, l.x) &&
    var c := choices(l.y, l.x);
    l.d in c && (Before(l.y, l.x, cy, cx) || (l.y == cy && l.x == cx && l.d in c[..Min(m, |c|)]))
  }

  /** links holds exactly the links made before pick m of cell (cy, cx). */
  ghost predicate DoneUpTo(g: Grid, choices: (int, int) -> seq<Direction>, links: set<Link>, cy: int, cx: int, m: nat) {
    forall l :: l in links <==> IsDone(g, choices, cy, cx, m, l)
  }

  /** Before the first interior cell nothing is made. */
  lemma DoneNone(g: Grid, choices: (int, int) -> seq<Direction>)
    ensures DoneUpTo(g, choices, {}, 1, 1, 0)
  {
    forall l
      ensures !IsDone(g, choices, 1, 1, 0, l)
    {
      var c := choices(l.y, l.x);
      assert c[..0] == [];
    }
  }

  /** Making pick m of (y, x) adds exactly that link. */
  lemma DoneStep(g: Grid, choices: (int, int) -> seq<Direction>, links: set<Link>, y: int, x: int, m: nat)
    requires Interior(g, y, x) && m < |choices(y, x)|
    requires DoneUpTo(g, choices, links, y, x, m)
    ensures DoneUpTo(g, choices, links + {Link(y, x, choices(y, x)[m])}, y, x, m + 1)
  {
    var c := choices(y, x);
    assert c[..m + 1] == c[..m] + [c[m]];
  }

  /** Once every pick of (y, x) is made, the next cell starts. */
  lemma DoneNextCell(g: Grid, choices: (int, int) -> seq<Direction>, links: set<Link>, y: int, x: int)
    requires DoneUpTo(g, choices, links, y, x, |choices(y, x)|)
    ensures DoneUpTo(g, choices, links, y, x + 1, 0)
  {
    var c := choices(y, x);
    assert c[..|c|] == c;
  }

  /** Past the last interior column of row y, the next row starts. */
  lemma DoneNextRow(g: Grid, choices: (int, int) -> seq<Direction>, links: set<Link>, y: int, x: int)
    requires 1 <= x && x >= Width(g) - 1
    requires DoneUpTo(g, choices, links, y, x, 0)
    ensures DoneUpTo(g, choices, links, y + 1, 1, 0)
  {
  }

  /** Past the last interior row every link is made. */
  lemma DoneAll(g: Grid, choices: (int, int) -> seq<Direction>, links: set<Link>, y: int)
    requires Rect(g) && y >= |g| - 1
    requires DoneUpTo(g, choices, links, y, 1, 0)
    ensures links == LinksOf(g, choices)
  {
    forall l
      ensures l in links <==> l in LinksOf(g, choices)
    {
      InLinksOf(g, choices, l);
    }
  }

  /** Links made so far are links of the picks. */
  lemma DoneChosen(g: Grid, choices: (int, int) -> seq<Direction>, links: set<Link>, y: int, x: int, m: nat)
    requires Rect(g)
    requires DoneUpTo(g, choices, links, y, x, m)
    ensures links <= LinksOf(g, choices)
  {
    forall l | l in links
      ensures l in LinksOf(g, choices)
    {
      InLinksOf(g, choices, l);
    }
  }

  /**
   * One pick d at interior cell (y, x): set bit d on the cell and the opposite
   * bit on its neighbour in direction d.
   */
  method ApplyLink(tilemap: array2<bv8>, ghost g: Grid, ghost links: set<Link>, y: int, x: int, d: Direction)
    requires Rect(g) && Interior(g, y, x)
    requires Cells(tilemap) == Marked(g, links)
    modifies tilemap
    ensures Cells(tilemap) == Marked(g, links + {Link(y, x, d)})
  {
    ghost var next := links + {Link(y, x, d)};
    var ny, nx := y + DY(d), x + DX(d);
    OppositeStepsBack(d);
    tilemap[y, x] := Or(tilemap[y, x], Bit(d));
    tilemap[ny, nx] := Or(tilemap[ny, nx], Bit(Opposite(d)));
    forall a, b | 0 <= a < tilemap.Length0 && 0 <= b < tilemap.Length1
      ensures tilemap[a, b] == Marked(g, next)[a][b]
    {
      MarkStep(g, links, y, x, d, a, b);
    }
    CellsAre(tilemap, Marked(g, next));
  }

  /** How one more link changes a marked cell: its two ends gain one bit each. */
  lemma MarkStep(g: Grid, links: set<Link>, y: int, x: int, d: Direction, a: int, b: int)
    requires Rect(g) && InGrid(g, a, b)
    ensures var ny, nx := y + DY(d), x + DX(d);
      var before := Marked(g, links)[a][b];
      Marked(g, links + {Link(y, x, d)})[a][b] ==
        if a == y && b == x then Or(before, Bit(d))
        else if a == ny && b == nx then Or(before, Bit(Opposite(d)))
        else before
  {
    var next := links + {Link(y, x, d)};
    MaskStep(links, y, x, d, a, b);
    OrAssoc(g[a][b], MaskOf(links, a, b), Bit(d));
    OrAssoc(g[a][b], MaskOf(links, a, b), Bit(Opposite(d)));
  }

  /** How one more link changes the exit bits a cell gets. */
  lemma MaskStep(links: set<Link>, y: int, x: int, d: Direction, a: int, b: int)
    ensures var ny, nx := y + DY(d), x + DX(d);
      var before := MaskOf(links, a, b);
      MaskOf(links + {Link(y, x, d)}, a, b) ==
        if a == y && b == x then Or(before, Bit(d))
        else if a == ny && b == nx then Or(before, Bit(Opposite(d)))
        else before
  {
    var next := links + {Link(y, x, d)};
    var n, e, s, w := Has(links, a, b, North), Has(links, a, b, East), Has(links, a, b, South), Has(links, a, b, West);
    HasStep(links, y, x, d, a, b, North);
    HasStep(links, y, x, d, a, b, East);
    HasStep(links, y, x, d, a, b, South);
    HasStep(links, y, x, d, a, b, West);
    if a == y && b == x {
      Mask4AddBit(n, e, s, w, d);
    } else if a == y + DY(d) && b == x + DX(d) {
      Mask4AddBit(n, e, s, w, Opposite(d));
    }
  }

  /** One more link adds exit d at its start and the opposite exit at its end, nothing else. */
  lemma HasStep(links: set<Link>, y: int, x: int, d: Direction, a: int, b: int, e: Direction)
    ensures Has(links + {Link(y, x, d)}, a, b, e) <==>
      Has(links, a, b, e) || (a == y && b == x && e == d) ||
      (a == y + DY(d) && b == x + DX(d) && e == Opposite(d))
  {
    OppositeStepsBack(d);
    OppositeStepsBack(e);
  }

  /**
   * The body of room_connector for interior cell (y, x): skipped when the cell
   * reads 0, otherwise its picks are made one by one.
   */
  method ConnectCell(tilemap: array2<bv8>, ghost g: Grid, rolls: (nat, nat) -> real, picks: (nat, nat) -> nat -> nat,
                     ghost choices: (int, int) -> seq<Direction>, connectionMap: Grid, ghost links: set<Link>, y: int, x: int)
    returns (ghost links': set<Link>)
    requires Rect(g) && Interior(g, y, x) && connectionMap == PossibleConnections(g)
    requires ChoicesSound(g, choices) && choices(y, x) == Choice(g, rolls, picks, y, x)
    requires Cells(tilemap) == Marked(g, links)
    requires DoneUpTo(g, choices, links, y, x, 0)
    modifies tilemap
    ensures Cells(tilemap) == Marked(g, links')
    ensures DoneUpTo(g, choices, links', y, x + 1, 0)
  {
    DoneChosen(g, choices, links, y, x, 0);
    MarkedZero(g, choices, links, y, x);
    links' := links;
    if tilemap[y, x] != 0 {
      var dirList := GetDirections(connectionMap[y - 1][x - 1]);
      var connectCount := Min(RoomRandom(rolls(y, x)), |dirList|);
      var chosenDirs := Sample(dirList, connectCount, picks(y, x), 0);
      assert chosenDirs == choices(y, x);
      links' := ApplyLinks(tilemap, g, choices, links, y, x, chosenDirs);
    }
    DoneNextCell(g, choices, links', y, x);
  }

  /** The inner loop of room_connector: sets the picked exits of (y, x) one by one. */
  method ApplyLinks(tilemap: array2<bv8>, ghost g: Grid, ghost choices: (int, int) -> seq<Direction>,
                    ghost links: set<Link>, y: int, x: int, chosenDirs: seq<Direction>)
    returns (ghost links': set<Link>)
    requires Rect(g) && Interior(g, y, x) && chosenDirs == choices(y, x)
    requires Cells(tilemap) == Marked(g, links)
    requires DoneUpTo(g, choices, links, y, x, 0)
    modifies tilemap
    ensures Cells(tilemap) == Marked(g, links')
    ensures DoneUpTo(g, choices, links', y, x, |chosenDirs|)
  {
    links' := links;
    for m := 0 to |chosenDirs|
      invariant Cells(tilemap) == Marked(g, links')
      invariant DoneUpTo(g, choices, links', y, x, m)
    {
      ApplyLink(tilemap, g, links', y, x, chosenDirs[m]);
      DoneStep(g, choices, links', y, x, m);
      links' := links' + {Link(y, x, chosenDirs[m])};
    }
  }

  /**
   * room_connector: visits the interior cells in row-major order; each active
   * one picks its exits and sets them on itself and, opposite, on the
   * neighbour. The candidate map is taken once, before any cell changes.
   */
  method RoomConnector(tilemap: array2<bv8>, rolls: (nat, nat) -> real, picks: (nat, nat) -> nat -> nat)
    modifies tilemap
    ensures Cells(tilemap) == Connected(old(Cells(tilemap)), rolls, picks)
  {
    ghost var g := Cells(tilemap);
    ghost var choices := Choices(g, rolls, picks);
    ChoicesAreSound(g, rolls, picks);
    var connectionMap := PossibleConnections(Cells(tilemap));
    var h, w := tilemap.Length0, tilemap.Length1;
    ghost var links: set<Link> := {};
    DoneNone(g, choices);
    MarkedNothing(g);
    var y := 1;
    while y < h - 1
      invariant 1 <= y && (h >= 2 ==> y <= h - 1)
      invariant Cells(tilemap) == Marked(g, links)
      invariant DoneUpTo(g, choices, links, y, 1, 0)
    {
      var x := 1;
      while x < w - 1
        invariant 1 <= x && (w >= 2 ==> x <= w - 1)
        invariant Cells(tilemap) == Marked(g, links)
        invariant DoneUpTo(g, choices, links, y, x, 0)
      {
        links := ConnectCell(tilemap, g, rolls, picks, choices, connectionMap, links, y, x);
        x := x + 1;
      }
      DoneNextRow(g, choices, links, y, x);
      y := y + 1;
    }
    DoneAll(g, choices, links, y);
  }
}

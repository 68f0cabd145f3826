/**
 * room_clear: a row-major scan that removes every pair of single-exit rooms
 * whose exits point at each other, reading the live grid as it goes.
 */
module Clear {
  import opened Constants
  import opened GeneratorHelpers
  import opened Directions

  /** one_exit_tiles: ROOM plus exactly one exit bit. */
  predicate SingleExit(v: bv8) {
    v == 17 || v == 18 || v == 20 || v == 24
  }

  /** dir_dict: the (row, column) step from a single-exit cell toward its exit. */
  function Step(v: bv8): (int, int)
    requires SingleExit(v)
  {
    if v == 17 then (-1, 0)
    else if v == 18 then (0, 1)
    else if v == 20 then (1, 0)
    else (0, -1)
  }

  /** The direction of the one exit of a single-exit value. */
  function ExitOf(v: bv8): Direction
    requires SingleExit(v)
  {
    if v == 17 then North else if v == 18 then East else if v == 20 then South else West
  }

  /** dir_dict agrees with the exit bits: a single-exit value has exactly one exit, and Step walks through it. */
  lemma SingleExitBits(v: bv8)
    requires SingleExit(v)
    ensures forall d :: HasExit(v, d) <==> d == ExitOf(v)
    ensures Step(v) == (DY(ExitOf(v)), DX(ExitOf(v)))
    ensures v & ROOM != 0
  {
  }

  /** How numpy reads an index k on an axis of length n: a negative one counts from the end. */
  function Wrap(k: int, n: int): int {
    if k < 0 then k + n else k
  }

  /** The cell numpy reads as the neighbour of single-exit cell (i, j). */
  function Target(g: Grid, i: int, j: int): (t: (int, int))
    requires Rect(g) && InGrid(g, i, j) && SingleExit(g[i][j])
    ensures var d := ExitOf(g[i][j]);
      t == (Wrap(i + DY(d), |g|), Wrap(j + DX(d), Width(g)))
  {
    var (dy, dx) := Step(g[i][j]);
    (Wrap(i + dy, |g|), Wrap(j + dx, Width(g)))
  }

  /**
   * No single-exit cell points past the last row or column (a step to -1 wraps
   * instead). This is stronger than "the scan raises no IndexError": numpy only
   * raises when the scan reaches such a cell while it still holds 17, 18, 20 or
   * 24, and a pair cleared earlier in the scan may already have zeroed it
   * (OutOfRangeClearedFirst).
   */
  ghost predicate InBounds(g: Grid) {
    Rect(g) &&
    forall i, j {:trigger Target(g, i, j)} :: InGrid(g, i, j) && SingleExit(g[i][j]) ==> InGrid(g, Target(g, i, j).0, Target(g, i, j).1)
  }

  /** g with cell (a, b) set to 0. */
  function Zero(g: Grid, a: int, b: int): (r: Grid)
    requires Rect(g) && InGrid(g, a, b)
    ensures SameShape(g, r)
  {
    g[a := g[a][b := 0]]
  }

  /** r is g with some single-exit cells set to 0 and nothing else changed. */
  ghost predicate ClearsSingles(g: Grid, r: Grid) {
    SameShape(g, r) &&
    forall i, j {:trigger r[i][j]} :: InGrid(g, i, j) ==> r[i][j] == g[i][j] || (r[i][j] == 0 && SingleExit(g[i][j]))
  }

  /**
   * The body of the scan at cell (i, j). A target outside the grid is where
   * numpy raises IndexError; the scan is only applied to grids where no target
   * lies outside (InBounds), and there the step leaves such a cell alone.
   */
  function ClearStep(g: Grid, i: int, j: int): (r: Grid)
    requires Rect(g) && InGrid(g, i, j)
    ensures SameShape(g, r)
  {
    if SingleExit(g[i][j]) then
      var (a, b) := Target(g, i, j);
      if InGrid(g, a, b) && SingleExit(g[a][b]) then Zero(Zero(g, i, j), a, b) else g
    else g
  }

  /** A step of the scan clears only single-exit cells. */
  lemma ClearStepClears(g: Grid, i: int, j: int)
    requires Rect(g) && InGrid(g, i, j)
    ensures ClearsSingles(g, ClearStep(g, i, j))
  {
    if SingleExit(g[i][j]) {
      var (a, b) := Target(g, i, j);
      if InGrid(g, a, b) && SingleExit(g[a][b]) {
        ZeroPairClears(g, i, j, a, b);
      }
    }
  }

  /** A step of the scan keeps every target inside the grid. */
  lemma ClearStepInBounds(g: Grid, i: int, j: int)
    requires InBounds(g) && InGrid(g, i, j)
    ensures InBounds(ClearStep(g, i, j))
  {
    ClearStepClears(g, i, j);
    ClearsKeepInBounds(g, ClearStep(g, i, j));
  }

  /** Clearing two single-exit cells clears only single-exit cells. */
  lemma ZeroPairClears(g: Grid, i: int, j: int, a: int, b: int)
    requires Rect(g) && InGrid(g, i, j) && InGrid(g, a, b)
    requires SingleExit(g[i][j]) && SingleExit(g[a][b])
    ensures ClearsSingles(g, Zero(Zero(g, i, j), a, b))
  {
    forall p, q | InGrid(g, p, q)
      ensures Zero(Zero(g, i, j), a, b)[p][q] == if (p == i && q == j) || (p == a && q == b) then 0 else g[p][q]
    {
      ZeroCells(g, i, j, a, b, p, q);
    }
  }

  /** A single-exit cell that survives clearing points where it pointed before. */
  lemma ClearsKeepInBounds(g: Grid, r: Grid)
    requires InBounds(g) && ClearsSingles(g, r)
    ensures InBounds(r)
  {
    forall i, j | InGrid(r, i, j) && SingleExit(r[i][j])
      ensures InGrid(r, Target(r, i, j).0, Target(r, i, j).1)
    {
      assert r[i][j] == g[i][j];
      assert Target(r, i, j) == Target(g, i, j);
    }
  }

  /** The scan from cell (i, j) on, in row-major order. */
  function ClearFrom(g: Grid, i: nat, j: nat): (r: Grid)
    requires Rect(g) && i <= |g| && j <= Width(g)
    ensures SameShape(g, r)
    decreases |g| - i, Width(g) - j
  {
    if i == |g| then g
    else if j == Width(g) then ClearFrom(g, i + 1, 0)
    else ClearFrom(ClearStep(g, i, j), i, j + 1)
  }

  /** Clearing single-exit cells twice over still clears only single-exit cells of the original. */
  lemma ClearsTrans(g: Grid, m: Grid, r: Grid)
    requires ClearsSingles(g, m) && ClearsSingles(m, r)
    ensures ClearsSingles(g, r)
  {
    forall i, j | InGrid(g, i, j)
      ensures r[i][j] == g[i][j] || (r[i][j] == 0 && SingleExit(g[i][j]))
    {
      assert m[i][j] == g[i][j] || (m[i][j] == 0 && SingleExit(g[i][j]));
      assert r[i][j] == m[i][j] || (r[i][j] == 0 && SingleExit(m[i][j]));
    }
  }

  /** The scan only ever clears single-exit cells. */
  lemma {:induction false} ClearFromClears(g: Grid, i: nat, j: nat)
    requires Rect(g) && i <= |g| && j <= Width(g)
    ensures ClearsSingles(g, ClearFrom(g, i, j))
    decreases |g| - i, Width(g) - j
  {
    if i < |g| && j == Width(g) {
      ClearFromClears(g, i + 1, 0);
    } else if i < |g| {
      var m := ClearStep(g, i, j);
      ClearStepClears(g, i, j);
      ClearFromClears(m, i, j + 1);
      ClearsTrans(g, m, ClearFrom(m, i, j + 1));
    }
  }

  /** The result of room_clear. */
  function Pruned(g: Grid): (r: Grid)
    requires InBounds(g)
    ensures ClearsSingles(g, r) && InBounds(r)
  {
    ClearFromClears(g, 0, 0);
    ClearsKeepInBounds(g, ClearFrom(g, 0, 0));
    ClearFrom(g, 0, 0)
  }

  /**
   * One step clears cell (i, j) exactly when it clears the cell it points at,
   * and touches no other cell.
   */
  lemma ClearStepPairs(g: Grid, i: int, j: int)
    requires InBounds(g) && InGrid(g, i, j) && SingleExit(g[i][j])
    ensures var r, t := ClearStep(g, i, j), Target(g, i, j);
      (r[i][j] != g[i][j] <==> r[t.0][t.1] != g[t.0][t.1]) &&
      forall a, b :: InGrid(g, a, b) && r[a][b] != g[a][b] ==> (a, b) == (i, j) || (a, b) == t
  {
  }

  /** Cell (i, j) does not point at a single-exit cell. */
  ghost predicate Settled(g: Grid, i: int, j: int)
    requires InBounds(g) && InGrid(g, i, j)
  {
    SingleExit(g[i][j]) ==> var t := Target(g, i, j); !SingleExit(g[t.0][t.1])
  }

  /** No single-exit cell points at another single-exit cell. */
  ghost predicate NoSingleExitPairs(g: Grid) {
    InBounds(g) && forall i, j {:trigger Settled(g, i, j)} :: InGrid(g, i, j) ==> Settled(g, i, j)
  }

  /** Clearing single-exit cells never unsettles a cell. */
  lemma SettledKept(g: Grid, m: Grid, a: int, b: int)
    requires InBounds(g) && InBounds(m) && ClearsSingles(g, m) && InGrid(g, a, b)
    requires Settled(g, a, b)
    ensures Settled(m, a, b)
  {
    if SingleExit(m[a][b]) {
      assert m[a][b] == g[a][b];
      var t := Target(g, a, b);
      assert Target(m, a, b) == t;
    }
  }

  /** After the step at (i, j), cell (i, j) is settled and every earlier settled cell stays so. */
  lemma StepSettles(g: Grid, i: int, j: int)
    requires InBounds(g) && InGrid(g, i, j)
    requires forall a, b {:trigger Settled(g, a, b)} :: InGrid(g, a, b) && Before(a, b, i, j) ==> Settled(g, a, b)
    ensures InBounds(ClearStep(g, i, j))
    ensures var m := ClearStep(g, i, j);
      forall a, b {:trigger Settled(m, a, b)} :: InGrid(m, a, b) && Before(a, b, i, j + 1) ==> Settled(m, a, b)
  {
    var m := ClearStep(g, i, j);
    ClearStepClears(g, i, j);
    ClearsKeepInBounds(g, m);
    forall a, b | InGrid(m, a, b) && Before(a, b, i, j + 1)
      ensures Settled(m, a, b)
    {
      if Before(a, b, i, j) {
        SettledKept(g, m, a, b);
      }
    }
  }

  /** The scan from (i, j) on leaves every cell settled when the cells before (i, j) are. */
  lemma {:induction false} ClearFromSettles(g: Grid, i: nat, j: nat)
    requires InBounds(g) && i <= |g| && j <= Width(g)
    requires forall a, b {:trigger Settled(g, a, b)} :: InGrid(g, a, b) && Before(a, b, i, j) ==> Settled(g, a, b)
    ensures NoSingleExitPairs(ClearFrom(g, i, j))
    decreases |g| - i, Width(g) - j, 1
  {
    if i == |g| {
      AllBeforeSettled(g, j);
    } else if j == Width(g) {
      RowEndSettled(g, i);
      ClearFromSettles(g, i + 1, 0);
    } else {
      StepThenSettles(g, i, j);
    }
  }

  /** The inductive step of ClearFromSettles at a cell (i, j) inside the grid. */
  lemma {:induction false} StepThenSettles(g: Grid, i: nat, j: nat)
    requires InBounds(g) && i < |g| && j < Width(g)
    requires forall a, b {:trigger Settled(g, a, b)} :: InGrid(g, a, b) && Before(a, b, i, j) ==> Settled(g, a, b)
    ensures NoSingleExitPairs(ClearFrom(g, i, j))
    decreases |g| - i, Width(g) - j, 0
  {
    StepSettles(g, i, j);
    ClearFromSettles(ClearStep(g, i, j), i, j + 1);
  }

  /** Once the scan is past the last row, every cell is settled. */
  lemma AllBeforeSettled(g: Grid, j: nat)
    requires InBounds(g)
    requires forall a, b {:trigger Settled(g, a, b)} :: InGrid(g, a, b) && Before(a, b, |g|, j) ==> Settled(g, a, b)
    ensures NoSingleExitPairs(g)
  {
    forall a, b | InGrid(g, a, b)
      ensures Settled(g, a, b)
    {
      assert Before(a, b, |g|, j);
    }
  }

  /** The cells before the end of row i are the cells before the start of row i + 1. */
  lemma RowEndSettled(g: Grid, i: nat)
    requires InBounds(g)
    requires forall a, b {:trigger Settled(g, a, b)} :: InGrid(g, a, b) && Before(a, b, i, Width(g)) ==> Settled(g, a, b)
    ensures forall a, b {:trigger Settled(g, a, b)} :: InGrid(g, a, b) && Before(a, b, i + 1, 0) ==> Settled(g, a, b)
  {
    forall a, b | InGrid(g, a, b) && Before(a, b, i + 1, 0)
      ensures Settled(g, a, b)
    {
      assert Before(a, b, i, Width(g));
    }
  }

  /** Afterwards no single-exit cell points at another single-exit cell. */
  lemma PrunedSettles(g: Grid)
    requires InBounds(g)
    ensures NoSingleExitPairs(Pruned(g))
  {
    ClearFromSettles(g, 0, 0);
  }

  /**
   * [[18, 18]] points past its last column at (0, 1), so it is not InBounds, yet
   * room_clear returns [[0, 0]] without error: the step at (0, 0) zeroes the
   * pair before the scan reads (0, 1).
   */
  lemma OutOfRangeClearedFirst()
    ensures !InBounds([[18, 18]])
    ensures ClearFrom([[18, 18]], 0, 0) == [[0, 0]]
  {
    var g: Grid := [[18, 18]];
    assert SingleExit(g[0][1]) && !InGrid(g, Target(g, 0, 1).0, Target(g, 0, 1).1);
    assert Target(g, 0, 0) == (0, 1) && SingleExit(g[0][1]);
    var m: Grid := [[0, 18]];
    var z: Grid := [[0, 0]];
    assert m[0][1 := 0] == z[0];
    assert g[0][0 := 0] == m[0];
    assert Zero(g, 0, 0) == m;
    assert Zero(m, 0, 1) == z;
    assert ClearStep(g, 0, 0) == z;
  }

  /** Under reciprocity every exit stays inside the grid, so the scan raises no IndexError. */
  lemma ReciprocalInBounds(g: Grid)
    requires Reciprocal(g)
    ensures InBounds(g)
  {
    forall i, j | InGrid(g, i, j) && SingleExit(g[i][j])
      ensures InGrid(g, Target(g, i, j).0, Target(g, i, j).1)
    {
      SingleExitBits(g[i][j]);
      assert HasExit(g[i][j], ExitOf(g[i][j]));
    }
  }

  /**
   * Under reciprocity the cell a single-exit cell points at is its neighbour
   * through its exit, and when that one is single-exit too it points back.
   */
  lemma MutualPair(g: Grid, i: int, j: int)
    requires Reciprocal(g) && InGrid(g, i, j) && SingleExit(g[i][j])
    ensures InBounds(g)
    ensures var e, t := ExitOf(g[i][j]), Target(g, i, j);
      t == (i + DY(e), j + DX(e)) && HasExit(g[t.0][t.1], Opposite(e)) &&
      (SingleExit(g[t.0][t.1]) ==> ExitOf(g[t.0][t.1]) == Opposite(e) && Target(g, t.0, t.1) == (i, j))
  {
    ReciprocalInBounds(g);
    var e := ExitOf(g[i][j]);
    SingleExitBits(g[i][j]);
    assert HasExit(g[i][j], e);
    var a, b := i + DY(e), j + DX(e);
    if SingleExit(g[a][b]) {
      SingleExitBits(g[a][b]);
      OppositeStepsBack(e);
    }
  }

  /** A step of the scan keeps reciprocity: it only ever removes both ends of an exit pair. */
  lemma ClearStepReciprocal(g: Grid, i: int, j: int)
    requires Reciprocal(g) && InGrid(g, i, j)
    ensures Reciprocal(ClearStep(g, i, j))
  {
    ReciprocalInBounds(g);
    if ClearStep(g, i, j) != g {
      MutualPair(g, i, j);
      var e, t := ExitOf(g[i][j]), Target(g, i, j);
      SingleExitBits(g[i][j]);
      SingleExitBits(g[t.0][t.1]);
      ZeroPairReciprocal(g, i, j, t.0, t.1, e);
    }
  }

  /**
   * Clearing two neighbours whose only exits point at each other keeps
   * reciprocity: no other cell has an exit into either of them.
   */
  lemma ZeroPairReciprocal(g: Grid, i: int, j: int, a: int, b: int, e: Direction)
    requires Reciprocal(g) && InGrid(g, i, j) && InGrid(g, a, b)
    requires a == i + DY(e) && b == j + DX(e)
    requires forall d :: HasExit(g[i][j], d) <==> d == e
    requires forall d :: HasExit(g[a][b], d) <==> d == Opposite(e)
    ensures Reciprocal(Zero(Zero(g, i, j), a, b))
  {
    var m := Zero(Zero(g, i, j), a, b);
    OppositeStepsBack(e);
    forall p, q, d | InGrid(m, p, q) && HasExit(m[p][q], d)
      ensures Answered(m, p, q, d)
    {
      ZeroCells(g, i, j, a, b, p, q);
      assert m[p][q] != 0;
      assert InGrid(g, p, q) && HasExit(g[p][q], d);
      var ni, nj := p + DY(d), q + DX(d);
      assert Answered(g, p, q, d);
      OppositeStepsBack(d);
      ZeroCells(g, i, j, a, b, ni, nj);
    }
  }

  /** The cells of g with (i, j) and (a, b) cleared. */
  lemma ZeroCells(g: Grid, i: int, j: int, a: int, b: int, p: int, q: int)
    requires Rect(g) && InGrid(g, i, j) && InGrid(g, a, b) && InGrid(g, p, q)
    ensures Zero(Zero(g, i, j), a, b)[p][q] == if (p == i && q == j) || (p == a && q == b) then 0 else g[p][q]
  {
  }

  /** The scan from (i, j) on keeps reciprocity. */
  lemma {:induction false} ClearFromReciprocal(g: Grid, i: nat, j: nat)
    requires Reciprocal(g) && i <= |g| && j <= Width(g)
    ensures Reciprocal(ClearFrom(g, i, j))
    decreases |g| - i, Width(g) - j
  {
    if i < |g| {
      if j == Width(g) {
        ClearFromReciprocal(g, i + 1, 0);
      } else {
        ClearStepReciprocal(g, i, j);
        ClearFromReciprocal(ClearStep(g, i, j), i, j + 1);
      }
    }
  }

  /** room_clear keeps reciprocity. */
  lemma PrunedReciprocal(g: Grid)
    requires Reciprocal(g)
    ensures InBounds(g) && Reciprocal(Pruned(g))
  {
    ReciprocalInBounds(g);
    ClearFromReciprocal(g, 0, 0);
  }

  /** The scan body at (y, x), on the live grid. */
  method ClearCell(tilemap: array2<bv8>, y: int, x: int)
    requires InBounds(Cells(tilemap)) && 0 <= y < tilemap.Length0 && 0 <= x < tilemap.Length1
    modifies tilemap
    ensures Cells(tilemap) == ClearStep(old(Cells(tilemap)), y, x)
  {
    ghost var g := Cells(tilemap);
    var v := tilemap[y, x];
    if SingleExit(v) {
      var (dy, dx) := Step(v);
      var a, b := Wrap(y + dy, tilemap.Length0), Wrap(x + dx, tilemap.Length1);
      assert (a, b) == Target(g, y, x);
      if SingleExit(tilemap[a, b]) {
        tilemap[y, x] := 0;
        tilemap[a, b] := 0;
        CellsAre(tilemap, Zero(Zero(g, y, x), a, b));
      }
    }
  }

  /** The steps of row y of the scan, from column x to the end of the row. */
  function ScanRow(g: Grid, y: nat, x: nat): (r: Grid)
    requires Rect(g) && y < |g| && x <= Width(g)
    ensures SameShape(g, r)
    decreases Width(g) - x
  {
    if x == Width(g) then g else ScanRow(ClearStep(g, y, x), y, x + 1)
  }

  /** The scan from (y, x) is the rest of row y followed by the scan from row y + 1. */
  lemma {:induction false} ScanRowThenRest(g: Grid, y: nat, x: nat)
    requires Rect(g) && y < |g| && x <= Width(g)
    ensures ClearFrom(g, y, x) == ClearFrom(ScanRow(g, y, x), y + 1, 0)
    decreases Width(g) - x
  {
    if x < Width(g) {
      ScanRowThenRest(ClearStep(g, y, x), y, x + 1);
    }
  }

  /** One row of the scan of room_clear, on the live grid. */
  method ClearRow(tilemap: array2<bv8>, y: int)
    requires InBounds(Cells(tilemap)) && 0 <= y < tilemap.Length0
    modifies tilemap
    ensures InBounds(Cells(tilemap))
    ensures Cells(tilemap) == ScanRow(old(Cells(tilemap)), y, 0)
  {
    ghost var g := Cells(tilemap);
    for x := 0 to tilemap.Length1
      invariant InBounds(Cells(tilemap))
      invariant ScanRow(Cells(tilemap), y, x) == ScanRow(g, y, 0)
    {
      ClearStepInBounds(Cells(tilemap), y, x);
      ClearCell(tilemap, y, x);
    }
  }

  /** room_clear, in place: the row-major scan over the live grid. */
  method RoomClear(tilemap: array2<bv8>)
    requires InBounds(Cells(tilemap))
    modifies tilemap
    ensures Cells(tilemap) == Pruned(old(Cells(tilemap)))
  {
    ghost var g := Cells(tilemap);
    for y := 0 to tilemap.Length0
      invariant InBounds(Cells(tilemap))
      invariant ClearFrom(Cells(tilemap), y, 0) == Pruned(g)
    {
      ScanRowThenRest(Cells(tilemap), y, 0);
      ClearRow(tilemap, y);
    }
  }
}

/**
 * tilemap_trim: the sub-grid of the rows and columns that hold a nonzero cell
 * (np.any along each axis, then np.ix_ on the two boolean masks).
 */
module Trim {
  import opened GeneratorHelpers
  import opened Directions

  /** np.any(tilemap != 0, axis=1): row i holds a nonzero cell. */
  function ActiveRows(g: Grid): (mask: seq<bool>)
    requires Rect(g)
    ensures |mask| == |g|
  {
    seq(|g|, i requires 0 <= i < |g| => exists j | 0 <= j < Width(g) :: g[i][j] != 0)
  }

  /** np.any(tilemap != 0, axis=0): column j holds a nonzero cell. */
  function ActiveCols(g: Grid): (mask: seq<bool>)
    requires Rect(g)
    ensures |mask| == Width(g)
  {
    seq(Width(g), j requires 0 <= j < Width(g) => exists i | 0 <= i < |g| :: g[i][j] != 0)
  }

  /** Strictly increasing indices. */
  predicate Ascending(ix: seq<int>) {
    forall a, b :: 0 <= a < b < |ix| ==> ix[a] < ix[b]
  }

  /**
   * The positions from `from` on where mask is true, in order: what np.ix_
   * makes of a boolean mask.
   */
  function Selected(mask: seq<bool>, from: nat): (ix: seq<int>)
    requires from <= |mask|
    ensures forall k :: 0 <= k < |ix| ==> from <= ix[k] < |mask|
    ensures Ascending(ix)
    decreases |mask| - from
  {
    if from == |mask| then []
    else
      var rest := Selected(mask, from + 1);
      if mask[from] then [from] + rest else rest
  }

  /** Every selected position is one where mask is true. */
  lemma {:induction false} SelectedSound(mask: seq<bool>, from: nat, k: nat)
    requires from <= |mask| && k < |Selected(mask, from)|
    ensures mask[Selected(mask, from)[k]]
    decreases |mask| - from
  {
    var rest := Selected(mask, from + 1);
    if mask[from] && k > 0 {
      SelectedSound(mask, from + 1, k - 1);
    } else if !mask[from] {
      SelectedSound(mask, from + 1, k);
    }
  }

  /** Every position from `from` on where mask is true is selected. */
  lemma {:induction false} SelectedFinds(mask: seq<bool>, from: nat, i: nat) returns (k: nat)
    requires from <= i < |mask| && mask[i]
    ensures k < |Selected(mask, from)| && Selected(mask, from)[k] == i
    decreases |mask| - from
  {
    if i == from {
      k := 0;
    } else {
      var k' := SelectedFinds(mask, from + 1, i);
      k := if mask[from] then k' + 1 else k';
    }
  }

  /** The rows tilemap_trim keeps. */
  function KeptRows(g: Grid): seq<int>
    requires Rect(g)
  {
    Selected(ActiveRows(g), 0)
  }

  /** The columns tilemap_trim keeps. */
  function KeptCols(g: Grid): seq<int>
    requires Rect(g)
  {
    Selected(ActiveCols(g), 0)
  }

  /** tilemap_trim. */
  function TilemapTrim(g: Grid): (t: Grid)
    requires Rect(g)
    ensures Rect(t) && |t| == |KeptRows(g)| && (|t| > 0 ==> Width(t) == |KeptCols(g)|)
  {
    var rs, cs := KeptRows(g), KeptCols(g);
    seq(|rs|, r requires 0 <= r < |rs| =>
      seq(|cs|, c requires 0 <= c < |cs| => g[rs[r]][cs[c]]))
  }

  /**
   * The kept rows are exactly the rows with a nonzero cell and the kept
   * columns exactly the columns with one, each in their original order;
   * all-zero rows and columns inside the grid go too.
   */
  lemma KeptLines(g: Grid)
    requires Rect(g)
    ensures Ascending(KeptRows(g)) && Ascending(KeptCols(g))
    ensures forall i :: i in KeptRows(g) <==> 0 <= i < |g| && exists j :: 0 <= j < Width(g) && g[i][j] != 0
    ensures forall j :: j in KeptCols(g) <==> 0 <= j < Width(g) && exists i :: 0 <= i < |g| && g[i][j] != 0
  {
    var rs, cs := KeptRows(g), KeptCols(g);
    var rows, cols := ActiveRows(g), ActiveCols(g);
    forall i | i in rs
      ensures 0 <= i < |g| && exists j :: 0 <= j < Width(g) && g[i][j] != 0
    {
      var k :| 0 <= k < |rs| && rs[k] == i;
      SelectedSound(rows, 0, k);
      assert rows[i];
    }
    forall j | j in cs
      ensures 0 <= j < Width(g) && exists i :: 0 <= i < |g| && g[i][j] != 0
    {
      var k :| 0 <= k < |cs| && cs[k] == j;
      SelectedSound(cols, 0, k);
      assert cols[j];
    }
    forall i | 0 <= i < |g| && exists j :: 0 <= j < Width(g) && g[i][j] != 0
      ensures i in rs
    {
      var k := SelectedFinds(rows, 0, i);
    }
    forall j | 0 <= j < Width(g) && exists i :: 0 <= i < |g| && g[i][j] != 0
      ensures j in cs
    {
      var k := SelectedFinds(cols, 0, j);
    }
  }

  /** In an ascending list, values one apart sit at neighbouring positions, equal values at the same one. */
  lemma Consecutive(ix: seq<int>, p: nat, q: nat, delta: int)
    requires Ascending(ix) && p < |ix| && q < |ix|
    requires -1 <= delta <= 1 && ix[q] == ix[p] + delta
    ensures q == p + delta
  {
    Order(ix, p, q);
    Order(ix, q, p);
  }

  /** Positions and values of an ascending list compare alike, and a gap of two positions is a gap of two values. */
  lemma Order(ix: seq<int>, a: nat, b: nat)
    requires Ascending(ix) && a < |ix| && b < |ix|
    ensures a < b <==> ix[a] < ix[b]
    ensures a + 1 < b ==> ix[a] + 1 < ix[b]
  {
    if a + 1 < b {
      assert ix[a] < ix[a + 1] < ix[b];
    }
  }

  /**
   * Every nonzero cell survives, at the positions of its row and column among
   * the kept ones, and every kept cell is a cell of the input.
   */
  lemma TrimKeepsNonzero(g: Grid, i: int, j: int) returns (r: nat, c: nat)
    requires Rect(g) && InGrid(g, i, j) && g[i][j] != 0
    ensures InGrid(TilemapTrim(g), r, c) && TilemapTrim(g)[r][c] == g[i][j]
    ensures KeptRows(g)[r] == i && KeptCols(g)[c] == j
  {
    assert ActiveRows(g)[i] && ActiveCols(g)[j];
    r := SelectedFinds(ActiveRows(g), 0, i);
    c := SelectedFinds(ActiveCols(g), 0, j);
  }

  /** Each cell of the trimmed grid is the cell of its kept row and column. */
  lemma TrimCell(g: Grid, r: int, c: int)
    requires Rect(g) && InGrid(TilemapTrim(g), r, c)
    ensures var rs, cs := KeptRows(g), KeptCols(g);
      r < |rs| && c < |cs| && InGrid(g, rs[r], cs[c]) && TilemapTrim(g)[r][c] == g[rs[r]][cs[c]]
  {
  }

  /**
   * Trimming keeps reciprocity: two cells joined by an exit are both nonzero,
   * so their rows and columns are kept and they stay neighbours.
   */
  lemma TrimReciprocal(g: Grid)
    requires Reciprocal(g)
    ensures Reciprocal(TilemapTrim(g))
  {
    var t, rs, cs := TilemapTrim(g), KeptRows(g), KeptCols(g);
    forall r, c, d | InGrid(t, r, c) && HasExit(t[r][c], d)
      ensures Answered(t, r, c, d)
    {
      TrimCell(g, r, c);
      var i, j := rs[r], cs[c];
      assert HasExit(g[i][j], d);
      var ni, nj := i + DY(d), j + DX(d);
      assert InGrid(g, ni, nj) && HasExit(g[ni][nj], Opposite(d));
      ExitMeansActive(g[ni][nj], Opposite(d));
      TrimNeighbour(g, r, c, DY(d), DX(d));
    }
  }

  /** The active neighbour of a kept cell is kept, next to it. */
  lemma TrimNeighbour(g: Grid, r: int, c: int, dy: int, dx: int)
    requires Rect(g) && InGrid(TilemapTrim(g), r, c)
    requires -1 <= dy <= 1 && -1 <= dx <= 1
    requires InGrid(g, KeptRows(g)[r] + dy, KeptCols(g)[c] + dx)
    requires g[KeptRows(g)[r] + dy][KeptCols(g)[c] + dx] != 0
    ensures InGrid(TilemapTrim(g), r + dy, c + dx)
    ensures TilemapTrim(g)[r + dy][c + dx] == g[KeptRows(g)[r] + dy][KeptCols(g)[c] + dx]
  {
    var rs, cs := KeptRows(g), KeptCols(g);
    var ni, nj := rs[r] + dy, cs[c] + dx;
    var r', c' := TrimKeepsNonzero(g, ni, nj);
    Consecutive(rs, r, r', dy);
    Consecutive(cs, c, c', dx);
  }

  /** A cell with an exit is active. */
  lemma ExitMeansActive(v: bv8, d: Direction)
    requires HasExit(v, d)
    ensures v != 0
  {
  }

  /** Sum of the weights of a sequence of items. */
  function Total<T>(s: seq<T>, w: T -> multiset<bv8>): multiset<bv8> {
    if s == [] then multiset{} else w(s[0]) + Total(s[1..], w)
  }

  /** The items of s at the indices ix. */
  function Pick<T>(s: seq<T>, ix: seq<int>): (p: seq<T>)
    requires forall k :: 0 <= k < |ix| ==> 0 <= ix[k] < |s|
    ensures |p| == |ix| && forall k :: 0 <= k < |ix| ==> p[k] == s[ix[k]]
  {
    seq(|ix|, k requires 0 <= k < |ix| => s[ix[k]])
  }

  /** The nonzero value v counts once, a zero not at all. */
  function NonzeroWeight(v: bv8): multiset<bv8> {
    if v != 0 then multiset{v} else multiset{}
  }

  /** The multiset of the nonzero cells of a row. */
  function RowNonzeros(row: seq<bv8>): multiset<bv8> {
    Total(row, NonzeroWeight)
  }

  /** The multiset of the nonzero cells of a grid. */
  function Nonzeros(g: Grid): multiset<bv8> {
    Total(g, RowNonzeros)
  }

  /** Picking the selected items from `from` on keeps the total when every dropped item weighs nothing. */
  lemma {:induction false} PickSelectedTotal<T>(s: seq<T>, w: T -> multiset<bv8>, mask: seq<bool>, from: nat)
    requires |mask| == |s| && from <= |s|
    requires forall k :: from <= k < |s| && !mask[k] ==> w(s[k]) == multiset{}
    ensures Total(Pick(s, Selected(mask, from)), w) == Total(s[from..], w)
    decreases |s| - from
  {
    if from < |s| {
      var rest := Selected(mask, from + 1);
      PickSelectedTotal(s, w, mask, from + 1);
      assert s[from..][1..] == s[from + 1..];
      if mask[from] {
        assert Pick(s, [from] + rest)[1..] == Pick(s, rest);
      }
    }
  }

  /** Totals agree on two sequences whose items weigh the same position by position. */
  lemma {:induction false} TotalPointwise<T>(s: seq<T>, u: seq<T>, w: T -> multiset<bv8>)
    requires |s| == |u| && forall k :: 0 <= k < |s| ==> w(s[k]) == w(u[k])
    ensures Total(s, w) == Total(u, w)
  {
    if s != [] {
      TotalPointwise(s[1..], u[1..], w);
    }
  }

  /** A row of zeros has no nonzero cells. */
  lemma {:induction false} ZeroRowNonzeros(row: seq<bv8>)
    requires forall j :: 0 <= j < |row| ==> row[j] == 0
    ensures RowNonzeros(row) == multiset{}
  {
    if row != [] {
      ZeroRowNonzeros(row[1..]);
    }
  }

  /** Trimming keeps the multiset of nonzero cell values. */
  lemma TrimNonzeros(g: Grid)
    requires Rect(g)
    ensures Nonzeros(TilemapTrim(g)) == Nonzeros(g)
  {
    var t := TilemapTrim(g);
    var rs, cs := KeptRows(g), KeptCols(g);
    var rows, cols := ActiveRows(g), ActiveCols(g);
    // each kept row loses only zeros
    forall r | 0 <= r < |t|
      ensures RowNonzeros(t[r]) == RowNonzeros(g[rs[r]])
    {
      var row := g[rs[r]];
      assert t[r] == Pick(row, cs);
      forall k | 0 <= k < |row| && !cols[k]
        ensures NonzeroWeight(row[k]) == multiset{}
      {
        assert row[k] == 0;
      }
      PickSelectedTotal(row, NonzeroWeight, cols, 0);
      assert row[0..] == row;
    }
    TotalPointwise(t, Pick(g, rs), RowNonzeros);
    // the dropped rows hold only zeros
    forall i | 0 <= i < |g| && !rows[i]
      ensures RowNonzeros(g[i]) == multiset{}
    {
      ZeroRowNonzeros(g[i]);
    }
    PickSelectedTotal(g, RowNonzeros, rows, 0);
    assert g[0..] == g;
  }
}

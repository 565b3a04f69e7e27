/**
 The grid model of the Sudoku engine: a 9x9 row-major matrix of integers in
 which -1 marks an empty cell and 1..9 are the digits. Cells are plain
 integers because a custom grid may hold any number; only the solver and
 the cell-edit rule restrict what they write.
 */
module Wrappers {
  datatype Option<T> = None | Some(value: T)
}

module GridModel {

  /** The empty-cell sentinel. */
  const Empty: int := -1

  type Grid = seq<seq<int>>

  /** Exactly 9 rows of exactly 9 cells. */
  predicate IsGrid(g: Grid) {
    |g| == 9 && forall i :: 0 <= i < 9 ==> |g[i]| == 9
  }

  predicate IsDigit(v: int) {
    1 <= v <= 9
  }

  predicate InGrid(i: int, j: int) {
    0 <= i < 9 && 0 <= j < 9
  }

  /** Every cell is the empty sentinel or a digit. */
  predicate WellFormed(g: Grid) {
    IsGrid(g) && forall i, j :: 0 <= i < 9 && 0 <= j < 9 ==> g[i][j] == Empty || IsDigit(g[i][j])
  }

  /** No cell is empty. */
  predicate Filled(g: Grid)
    requires IsGrid(g)
  {
    forall i, j :: 0 <= i < 9 && 0 <= j < 9 ==> g[i][j] != Empty
  }

  /** `s` keeps every non-empty cell of `g`: `s` is `g` with (some of) its holes filled in. */
  predicate Agrees(g: Grid, s: Grid)
    requires IsGrid(g) && IsGrid(s)
  {
    forall i, j :: 0 <= i < 9 && 0 <= j < 9 && g[i][j] != Empty ==> s[i][j] == g[i][j]
  }

  /** Every cell that is empty in `g` holds a digit in `s`. */
  predicate FillsWithDigits(g: Grid, s: Grid)
    requires IsGrid(g) && IsGrid(s)
  {
    forall i, j :: 0 <= i < 9 && 0 <= j < 9 && g[i][j] == Empty ==> IsDigit(s[i][j])
  }

  /** The grid `g` with the single cell (r, c) set to `v`. */
  function Set(g: Grid, r: int, c: int, v: int): (h: Grid)
    requires IsGrid(g) && InGrid(r, c)
    ensures IsGrid(h)
    ensures h[r][c] == v
    ensures forall i, j :: 0 <= i < 9 && 0 <= j < 9 && (i != r || j != c) ==> h[i][j] == g[i][j]
  {
    g[r := g[r][c := v]]
  }

  /** Two 9x9 grids with the same 81 cells are the same grid. */
  lemma GridExt(g: Grid, h: Grid)
    requires IsGrid(g) && IsGrid(h)
    requires forall i, j :: 0 <= i < 9 && 0 <= j < 9 ==> g[i][j] == h[i][j]
    ensures g == h
  {
    forall i | 0 <= i < 9
      ensures g[i] == h[i]
    {
      assert forall j :: 0 <= j < 9 ==> g[i][j] == h[i][j];
    }
  }

  /** Number of empty cells in a row. */
  function CountEmpty(row: seq<int>): nat {
    if |row| == 0 then 0 else (if row[0] == Empty then 1 else 0) + CountEmpty(row[1..])
  }

  /** Number of empty cells in a grid: the solver's termination measure. */
  function EmptyCount(g: Grid): nat {
    if |g| == 0 then 0 else CountEmpty(g[0]) + EmptyCount(g[1..])
  }

  lemma {:induction false} CountEmptyUpdate(row: seq<int>, c: nat, v: int)
    requires c < |row| && row[c] == Empty && v != Empty
    ensures CountEmpty(row[c := v]) + 1 == CountEmpty(row)
    decreases c
  {
    if c == 0 {
      assert row[c := v][1..] == row[1..];
    } else {
      assert row[c := v][1..] == row[1..][c - 1 := v];
      CountEmptyUpdate(row[1..], c - 1, v);
    }
  }

  lemma {:induction false} EmptyCountUpdate(g: Grid, r: nat, c: nat, v: int)
    requires r < |g| && c < |g[r]| && g[r][c] == Empty && v != Empty
    ensures EmptyCount(g[r := g[r][c := v]]) + 1 == EmptyCount(g)
    decreases r
  {
    if r == 0 {
      assert g[r := g[r][c := v]][1..] == g[1..];
      CountEmptyUpdate(g[0], c, v);
    } else {
      assert g[r := g[r][c := v]][1..] == g[1..][r - 1 := g[1..][r - 1][c := v]];
      EmptyCountUpdate(g[1..], r - 1, c, v);
    }
  }

  /** Filling one empty cell with a non-empty value removes exactly one empty cell. */
  lemma EmptyCountSet(g: Grid, r: int, c: int, v: int)
    requires IsGrid(g) && InGrid(r, c) && g[r][c] == Empty && v != Empty
    ensures EmptyCount(Set(g, r, c, v)) + 1 == EmptyCount(g)
  {
    EmptyCountUpdate(g, r, c, v);
  }

  /** The value of the 9x9 array `a`, as a grid. */
  function Contents(a: array2<int>): (g: Grid)
    requires a.Length0 == 9 && a.Length1 == 9
    reads a
    ensures IsGrid(g)
    ensures forall i, j :: 0 <= i < 9 && 0 <= j < 9 ==> g[i][j] == a[i, j]
  {
    seq(9, i requires 0 <= i < 9 reads a => seq(9, j requires 0 <= j < 9 reads a => a[i, j]))
  }

  /** getDeepCopy: a fresh array, shared with nobody, holding the cells of `g`. */
  method DeepCopy(g: Grid) returns (a: array2<int>)
    requires IsGrid(g)
    ensures fresh(a)
    ensures a.Length0 == 9 && a.Length1 == 9
    ensures Contents(a) == g
  {
    a := new int[9, 9];
    for i := 0 to 9
      invariant forall i', j :: 0 <= i' < i && 0 <= j < 9 ==> a[i', j] == g[i'][j]
    {
      for j := 0 to 9
        invariant forall i', j' :: 0 <= i' < i && 0 <= j' < 9 ==> a[i', j'] == g[i'][j']
        invariant forall j' :: 0 <= j' < j ==> a[i, j'] == g[i][j']
      {
        a[i, j] := g[i][j];
      }
    }
    GridExt(Contents(a), g);
  }
}

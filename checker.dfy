/**
 The constraint checker: whether a digit may be placed in a cell, given the
 digits already in the cell's row, column and 3x3 box.
 */
module Checker {
  import opened GridModel

  /** (i1, j1) and (i2, j2) lie in the same 3x3 box. */
  predicate SameBox(i1: int, j1: int, i2: int, j2: int) {
    i1 / 3 == i2 / 3 && j1 / 3 == j2 / 3
  }

  /** Two different cells that share a row, a column or a box. */
  predicate Peers(i1: int, j1: int, i2: int, j2: int) {
    (i1 != i2 || j1 != j2) && (i1 == i2 || j1 == j2 || SameBox(i1, j1, i2, j2))
  }

  predicate InRow(g: Grid, r: int, num: int)
    requires IsGrid(g) && 0 <= r < 9
  {
    exists j :: 0 <= j < 9 && g[r][j] == num
  }

  predicate InCol(g: Grid, c: int, num: int)
    requires IsGrid(g) && 0 <= c < 9
  {
    exists i :: 0 <= i < 9 && g[i][c] == num
  }

  /** `num` occurs in the box that holds (r, c), the box whose corner is (3*(r/3), 3*(c/3)). */
  predicate InBox(g: Grid, r: int, c: int, num: int)
    requires IsGrid(g)
  {
    exists i, j :: 0 <= i < 9 && 0 <= j < 9 && SameBox(i, j, r, c) && g[i][j] == num
  }

  /** Placing `num` at (r, c) is legal: `num` is nowhere in the row, the column or the box. */
  predicate IsLegal(g: Grid, r: int, c: int, num: int)
    requires IsGrid(g) && InGrid(r, c)
  {
    !InRow(g, r, num) && !InCol(g, c, num) && !InBox(g, r, c, num)
  }

  /** The k-th cell (0 <= k < 9) of the box of (row, col), in the order checkValid visits it. */
  lemma BoxCellOf(row: int, col: int, k: int)
    requires InGrid(row, col) && 0 <= k < 9
    ensures InGrid(3 * (row / 3) + k / 3, 3 * (col / 3) + k % 3)
    ensures SameBox(3 * (row / 3) + k / 3, 3 * (col / 3) + k % 3, row, col)
  {
    assert 0 <= k / 3 < 3 && 0 <= k % 3 < 3;
    assert 0 <= row / 3 < 3 && 0 <= col / 3 < 3;
  }

  /** Every cell of the box of (row, col) is visited by checkValid's box scan, at index `k`. */
  lemma BoxIndexOf(row: int, col: int, i: int, j: int) returns (k: int)
    requires InGrid(row, col) && InGrid(i, j) && SameBox(i, j, row, col)
    ensures 0 <= k < 9 && 3 * (row / 3) + k / 3 == i && 3 * (col / 3) + k % 3 == j
  {
    k := 3 * (i % 3) + j % 3;
    assert k / 3 == i % 3 && k % 3 == j % 3;
  }

  /**
   checkValid: scans i = 0..8 over the row, the column and the box of
   (row, col) and rejects `num` as soon as one of them holds it.
   */
  method CheckValid(a: array2<int>, row: int, col: int, num: int) returns (ok: bool)
    requires a.Length0 == 9 && a.Length1 == 9 && InGrid(row, col)
    ensures ok == IsLegal(Contents(a), row, col, num)
  {
    for i := 0 to 9
      invariant forall k :: 0 <= k < i ==> a[row, k] != num && a[k, col] != num
      invariant forall k :: 0 <= k < i ==> a[3 * (row / 3) + k / 3, 3 * (col / 3) + k % 3] != num
    {
      if a[row, i] == num || a[i, col] == num {
        return false;
      }
      BoxCellOf(row, col, i);
      if a[3 * (row / 3) + i / 3, 3 * (col / 3) + i % 3] == num {
        BoxHit(a, row, col, num, i);
        return false;
      }
    }
    ScanArray(a, row, col, num);
    return true;
  }

  /** The scan of checkValid over the array, stated on its contents. */
  lemma ScanArray(a: array2<int>, row: int, col: int, num: int)
    requires a.Length0 == 9 && a.Length1 == 9 && InGrid(row, col)
    requires forall k :: 0 <= k < 9 ==> a[row, k] != num && a[k, col] != num
    requires forall k :: 0 <= k < 9 ==> a[3 * (row / 3) + k / 3, 3 * (col / 3) + k % 3] != num
    ensures IsLegal(Contents(a), row, col, num)
  {
    var g := Contents(a);
    forall k | 0 <= k < 9
      ensures BoxScan(g, row, col)[k] != num
    {
      BoxCellOf(row, col, k);
    }
    ScanLegal(g, row, col, num);
  }

  /** A digit met by checkValid's box scan over the array is in the box. */
  lemma BoxHit(a: array2<int>, row: int, col: int, num: int, k: int)
    requires a.Length0 == 9 && a.Length1 == 9 && InGrid(row, col) && 0 <= k < 9
    requires InGrid(3 * (row / 3) + k / 3, 3 * (col / 3) + k % 3)
    requires a[3 * (row / 3) + k / 3, 3 * (col / 3) + k % 3] == num
    ensures !IsLegal(Contents(a), row, col, num)
  {
    BoxScanInBox(Contents(a), row, col, num, k);
  }

  /** A digit met by the box scan is in the box. */
  lemma BoxScanInBox(g: Grid, row: int, col: int, num: int, k: int)
    requires IsGrid(g) && InGrid(row, col) && 0 <= k < 9 && BoxScan(g, row, col)[k] == num
    ensures InBox(g, row, col, num)
  {
    BoxCellOf(row, col, k);
  }

  /** A digit the whole scan does not meet is legal. */
  lemma ScanLegal(g: Grid, row: int, col: int, num: int)
    requires IsGrid(g) && InGrid(row, col)
    requires forall k :: 0 <= k < 9 ==> g[row][k] != num && g[k][col] != num
    requires forall k :: 0 <= k < 9 ==> BoxScan(g, row, col)[k] != num
    ensures IsLegal(g, row, col, num)
  {
    ScanBox(g, row, col, num);
  }

  lemma ScanBox(g: Grid, row: int, col: int, num: int)
    requires IsGrid(g) && InGrid(row, col)
    requires forall k :: 0 <= k < 9 ==> BoxScan(g, row, col)[k] != num
    ensures !InBox(g, row, col, num)
  {
    forall i, j | 0 <= i < 9 && 0 <= j < 9 && SameBox(i, j, row, col)
      ensures g[i][j] != num
    {
      var k := BoxIndexOf(row, col, i, j);
      assert BoxScan(g, row, col)[k] == g[i][j];
    }
  }

  /** The digit at (i, j), if there is one, is held by none of the peers of (i, j). */
  predicate CellOk(g: Grid, i: int, j: int)
    requires IsGrid(g) && InGrid(i, j)
  {
    g[i][j] == Empty ||
    forall i2, j2 :: 0 <= i2 < 9 && 0 <= j2 < 9 && Peers(i, j, i2, j2) ==> g[i2][j2] != g[i][j]
  }

  /** No two peers hold the same digit (empty cells may repeat). */
  predicate NoConflicts(g: Grid)
    requires IsGrid(g)
  {
    forall i, j :: 0 <= i < 9 && 0 <= j < 9 ==> CellOk(g, i, j)
  }

  /** A solved Sudoku: every cell a digit, and no digit repeated in a row, column or box. */
  predicate IsSolution(s: Grid) {
    WellFormed(s) && Filled(s) && NoConflicts(s)
  }

  /** Placing a legal digit into an empty cell of a conflict-free grid keeps it conflict-free. */
  lemma PlaceLegal(g: Grid, r: int, c: int, v: int)
    requires IsGrid(g) && InGrid(r, c) && NoConflicts(g)
    requires g[r][c] == Empty && v != Empty && IsLegal(g, r, c, v)
    ensures NoConflicts(Set(g, r, c, v))
  {
    var h := Set(g, r, c, v);
    forall i, j | 0 <= i < 9 && 0 <= j < 9
      ensures CellOk(h, i, j)
    {
      if i == r && j == c {
        forall i2, j2 | 0 <= i2 < 9 && 0 <= j2 < 9 && Peers(i, j, i2, j2)
          ensures h[i2][j2] != h[i][j]
        {
          PeerHasNot(g, r, c, v, i2, j2);
        }
      } else if h[i][j] != Empty {
        assert CellOk(g, i, j);
        forall i2, j2 | 0 <= i2 < 9 && 0 <= j2 < 9 && Peers(i, j, i2, j2)
          ensures h[i2][j2] != h[i][j]
        {
          if i2 == r && j2 == c {
            PeerHasNot(g, r, c, v, i, j);
          }
        }
      }
    }
  }

  /** A legal digit for (r, c) is held by no peer of (r, c). */
  lemma PeerHasNot(g: Grid, r: int, c: int, v: int, i: int, j: int)
    requires IsGrid(g) && InGrid(r, c) && IsLegal(g, r, c, v)
    requires InGrid(i, j) && (Peers(r, c, i, j) || Peers(i, j, r, c))
    ensures g[i][j] != v
  {
    if i == r {
      assert !InRow(g, r, v);
    } else if j == c {
      assert !InCol(g, c, v);
    } else {
      assert !InBox(g, r, c, v);
    }
  }

  /**
   A digit that a full solution `s` extending `g` puts into an empty cell of
   `g` is legal there: the checker never rules out a solution.
   */
  lemma SolutionDigitLegal(g: Grid, s: Grid, r: int, c: int)
    requires IsGrid(g) && IsSolution(s) && Agrees(g, s) && InGrid(r, c) && g[r][c] == Empty
    ensures IsLegal(g, r, c, s[r][c])
  {
    var v := s[r][c];
    assert CellOk(s, r, c);
    forall j | 0 <= j < 9 && j != c
      ensures g[r][j] != v
    {
      assert Peers(r, c, r, j);
    }
    forall i | 0 <= i < 9 && i != r
      ensures g[i][c] != v
    {
      assert Peers(r, c, i, c);
    }
    forall i, j | 0 <= i < 9 && 0 <= j < 9 && SameBox(i, j, r, c) && (i != r || j != c)
      ensures g[i][j] != v
    {
      assert Peers(r, c, i, j);
    }
  }

  /** Nine pairwise different digits are all nine digits. */
  lemma {:induction false} NineDistinctDigits(xs: seq<int>, d: int)
    requires |xs| == 9 && forall k :: 0 <= k < 9 ==> IsDigit(xs[k])
    requires forall k1, k2 :: 0 <= k1 < k2 < 9 ==> xs[k1] != xs[k2]
    requires IsDigit(d)
    ensures d in xs
  {
    var values := set k | 0 <= k < 9 :: xs[k];
    DistinctCard(xs);
    assert values == set x | x in xs;
    var digits := {1, 2, 3, 4, 5, 6, 7, 8, 9};
    assert values <= digits;
    SubsetSameSize(values, digits);
  }

  /** A sequence without repetitions has as many distinct values as elements. */
  lemma {:induction false} DistinctCard(xs: seq<int>)
    requires forall k1, k2 :: 0 <= k1 < k2 < |xs| ==> xs[k1] != xs[k2]
    ensures |set x | x in xs| == |xs|
  {
    if xs != [] {
      DistinctCard(xs[1..]);
      assert (set x | x in xs) == {xs[0]} + set x | x in xs[1..];
    }
  }

  /** A subset of a finite set with as many elements is the whole set. */
  lemma SubsetSameSize(a: set<int>, b: set<int>)
    requires a <= b && |a| == |b|
    ensures a == b
  {
    var rest := b - a;
    assert a + rest == b;
    assert a * rest == {};
    assert rest == {};
  }

  /**
   Each row, column and box of a solution holds every digit; with
   NoConflicts, each of them holds 1..9 exactly once.
   */
  lemma SolutionHasEveryDigit(s: Grid, r: int, c: int, d: int)
    requires IsSolution(s) && InGrid(r, c) && IsDigit(d)
    ensures InRow(s, r, d) && InCol(s, c, d) && InBox(s, r, c, d)
  {
    RowHasEveryDigit(s, r, d);
    ColHasEveryDigit(s, c, d);
    BoxHasEveryDigit(s, r, c, d);
  }

  lemma RowHasEveryDigit(s: Grid, r: int, d: int)
    requires IsSolution(s) && 0 <= r < 9 && IsDigit(d)
    ensures InRow(s, r, d)
  {
    var row := seq(9, k requires 0 <= k < 9 => s[r][k]);
    forall k1, k2 | 0 <= k1 < k2 < 9 ensures row[k1] != row[k2] {
      assert CellOk(s, r, k1) && Peers(r, k1, r, k2);
    }
    NineDistinctDigits(row, d);
  }

  lemma ColHasEveryDigit(s: Grid, c: int, d: int)
    requires IsSolution(s) && 0 <= c < 9 && IsDigit(d)
    ensures InCol(s, c, d)
  {
    var col := seq(9, k requires 0 <= k < 9 => s[k][c]);
    forall k1, k2 | 0 <= k1 < k2 < 9 ensures col[k1] != col[k2] {
      assert CellOk(s, k1, c) && Peers(k1, c, k2, c);
    }
    NineDistinctDigits(col, d);
  }

  lemma BoxHasEveryDigit(s: Grid, r: int, c: int, d: int)
    requires IsSolution(s) && InGrid(r, c) && IsDigit(d)
    ensures InBox(s, r, c, d)
  {
    var box := BoxScan(s, r, c);
    forall k1, k2 | 0 <= k1 < k2 < 9 ensures box[k1] != box[k2] {
      BoxCellsDiffer(s, r, c, k1, k2);
    }
    NineDistinctDigits(box, d);
    var k :| 0 <= k < 9 && box[k] == d;
    BoxCellOf(r, c, k);
  }

  /** The nine cells of the box of (r, c), in the order checkValid visits them. */
  function BoxScan(g: Grid, r: int, c: int): (xs: seq<int>)
    requires IsGrid(g) && InGrid(r, c)
    ensures |xs| == 9
    ensures forall k :: 0 <= k < 9 ==>
      InGrid(3 * (r / 3) + k / 3, 3 * (c / 3) + k % 3) && xs[k] == g[3 * (r / 3) + k / 3][3 * (c / 3) + k % 3]
  {
    seq(9, k requires 0 <= k < 9 => BoxCellOf(r, c, k); g[3 * (r / 3) + k / 3][3 * (c / 3) + k % 3])
  }

  /** Two different visiting indices of checkValid's box scan reach two different digits of a solution. */
  lemma BoxCellsDiffer(s: Grid, r: int, c: int, k1: int, k2: int)
    requires IsSolution(s) && InGrid(r, c) && 0 <= k1 < k2 < 9
    ensures s[3 * (r / 3) + k1 / 3][3 * (c / 3) + k1 % 3] != s[3 * (r / 3) + k2 / 3][3 * (c / 3) + k2 % 3]
  {
    var br, bc := 3 * (r / 3), 3 * (c / 3);
    BoxCellOf(r, c, k1);
    BoxCellOf(r, c, k2);
    assert k1 / 3 != k2 / 3 || k1 % 3 != k2 % 3;
    assert CellOk(s, br + k1 / 3, bc + k1 % 3);
    assert Peers(br + k1 / 3, bc + k1 % 3, br + k2 / 3, bc + k2 % 3);
  }
}

/**
 What the search promises: a completed grid is a solution whenever the
 puzzle's givens are free of conflicts, the search finds a solution whenever
 one exists, and a grid with no empty cell is returned as it is.
 */
module SolverLemmas {
  import opened Wrappers
  import opened GridModel
  import opened Checker
  import opened Solver

  /** A conflict-free puzzle whose cells are empty or digits is completed to a valid Sudoku, if at all. */
  lemma {:induction false} SolveYieldsSolution(g: Grid)
    requires WellFormed(g) && NoConflicts(g)
    ensures Solve(g).Some? ==> IsSolution(Solve(g).value)
    decreases EmptyCount(g), 10
  {
    match FirstEmpty(g)
    case None =>
    case Some(p) => TryDigitsYieldSolution(g, p.row, p.col, 1);
  }

  lemma {:induction false} TryDigitsYieldSolution(g: Grid, r: int, c: int, num: int)
    requires WellFormed(g) && NoConflicts(g) && InGrid(r, c) && g[r][c] == Empty && 1 <= num <= 10
    ensures TryDigits(g, r, c, num).Some? ==> IsSolution(TryDigits(g, r, c, num).value)
    decreases EmptyCount(g), 10 - num
  {
    if num < 10 {
      if IsLegal(g, r, c, num) {
        var h := Set(g, r, c, num);
        PlaceLegal(g, r, c, num);
        EmptyCountSet(g, r, c, num);
        SolveYieldsSolution(h);
      }
      TryDigitsYieldSolution(g, r, c, num + 1);
    }
  }

  /** The search is complete: if some solution keeps every given of `g`, the search succeeds. */
  lemma {:induction false} SolveFindsSolution(g: Grid, s: Grid)
    requires IsGrid(g) && IsSolution(s) && Agrees(g, s)
    ensures Solve(g).Some?
    decreases EmptyCount(g), 10
  {
    match FirstEmpty(g)
    case None =>
    case Some(p) => TryDigitsFindSolution(g, p.row, p.col, 1, s);
  }

  lemma {:induction false} TryDigitsFindSolution(g: Grid, r: int, c: int, num: int, s: Grid)
    requires IsGrid(g) && IsSolution(s) && Agrees(g, s)
    requires InGrid(r, c) && g[r][c] == Empty && 1 <= num <= s[r][c]
    ensures TryDigits(g, r, c, num).Some?
    decreases EmptyCount(g), 10 - num
  {
    var h := Set(g, r, c, num);
    EmptyCountSet(g, r, c, num);
    if num == s[r][c] {
      SolutionDigitLegal(g, s, r, c);
      SolveFindsSolution(h, s);
    } else if !(IsLegal(g, r, c, num) && Solve(h).Some?) {
      TryDigitsFindSolution(g, r, c, num + 1, s);
    }
  }

  /**
   For a conflict-free puzzle whose cells are empty or digits, the search
   succeeds exactly when the puzzle has a solution.
   */
  lemma SolvableIff(g: Grid)
    requires WellFormed(g) && NoConflicts(g)
    ensures Solve(g).Some? <==> exists s :: IsSolution(s) && Agrees(g, s)
  {
    if Solve(g).Some? {
      SolveYieldsSolution(g);
      SolveCompletes(g);
      assert IsSolution(Solve(g).value) && Agrees(g, Solve(g).value);
    }
    if s :| IsSolution(s) && Agrees(g, s) {
      SolveFindsSolution(g, s);
    }
  }

  /**
   A grid without empty cells is returned unchanged and reported solved,
   whatever conflicts its cells hold: the givens are never validated.
   */
  lemma SolveFilled(g: Grid)
    requires IsGrid(g) && Filled(g)
    ensures Solve(g) == Some(g)
  {
  }

  /**
   `s` comes no later than `t` in row-major lexicographic order: the grids are
   equal, or `s` is smaller at the first cell where they differ.
   */
  predicate LexLeq(s: Grid, t: Grid)
    requires IsGrid(s) && IsGrid(t)
  {
    s == t ||
    exists i, j :: 0 <= i < 9 && 0 <= j < 9 && s[i][j] < t[i][j] &&
      forall i', j' :: 0 <= i' < 9 && 0 <= j' < 9 && Before(i', j', i, j) ==> s[i'][j'] == t[i'][j']
  }

  /** Every cell before (r, c) in row-major order is filled. */
  predicate EmptyBefore(g: Grid, r: int, c: int)
    requires IsGrid(g)
  {
    forall i, j :: 0 <= i < 9 && 0 <= j < 9 && Before(i, j, r, c) ==> g[i][j] != Empty
  }

  /**
   The search order (first empty cell in row-major order, digits ascending)
   makes the result the least solution in row-major lexicographic order.
   */
  lemma {:induction false} SolveIsLeast(g: Grid, t: Grid)
    requires IsGrid(g) && IsSolution(t) && Agrees(g, t)
    ensures Solve(g).Some? && LexLeq(Solve(g).value, t)
    decreases EmptyCount(g), 10, 0
  {
    match FirstEmpty(g)
    case None =>
      GridExt(g, t);
    case Some(p) =>
      assert EmptyBefore(g, p.row, p.col);
      TryDigitsIsLeast(g, p.row, p.col, 1, t);
  }

  lemma {:induction false} TryDigitsIsLeast(g: Grid, r: int, c: int, num: int, t: Grid)
    requires IsGrid(g) && IsSolution(t) && Agrees(g, t)
    requires InGrid(r, c) && g[r][c] == Empty && EmptyBefore(g, r, c) && 1 <= num <= t[r][c]
    ensures TryDigits(g, r, c, num).Some? && LexLeq(TryDigits(g, r, c, num).value, t)
    decreases EmptyCount(g), 10 - num, 1
  {
    if num == t[r][c] {
      LeastWithSolutionDigit(g, r, c, t);
    } else if IsLegal(g, r, c, num) && Solve(Set(g, r, c, num)).Some? {
      LeastBelowSolutionDigit(g, r, c, num, t);
    } else {
      LeastSkippingDigit(g, r, c, num, t);
    }
  }

  /** A digit that is rejected, or whose placement the search cannot complete, hands over to the next one. */
  lemma {:induction false} LeastSkippingDigit(g: Grid, r: int, c: int, num: int, t: Grid)
    requires IsGrid(g) && IsSolution(t) && Agrees(g, t)
    requires InGrid(r, c) && g[r][c] == Empty && EmptyBefore(g, r, c) && 1 <= num < t[r][c]
    requires !(IsLegal(g, r, c, num) && Solve(Set(g, r, c, num)).Some?)
    ensures TryDigits(g, r, c, num).Some? && LexLeq(TryDigits(g, r, c, num).value, t)
    decreases EmptyCount(g), 10 - num, 0
  {
    TryDigitsStep(g, r, c, num);
    TryDigitsIsLeast(g, r, c, num + 1, t);
  }

  /** At the digit the solution `t` holds, the search succeeds with a grid no later than `t`. */
  lemma {:induction false} LeastWithSolutionDigit(g: Grid, r: int, c: int, t: Grid)
    requires IsGrid(g) && IsSolution(t) && Agrees(g, t)
    requires InGrid(r, c) && g[r][c] == Empty
    ensures TryDigits(g, r, c, t[r][c]).Some? && LexLeq(TryDigits(g, r, c, t[r][c]).value, t)
    decreases EmptyCount(g), 10 - t[r][c], 0
  {
    var h := Set(g, r, c, t[r][c]);
    EmptyCountSet(g, r, c, t[r][c]);
    SolutionDigitLegal(g, t, r, c);
    SolveIsLeast(h, t);
    TryDigitsStep(g, r, c, t[r][c]);
  }

  /** A success with a digit below the one `t` holds yields a grid smaller than `t`. */
  lemma LeastBelowSolutionDigit(g: Grid, r: int, c: int, num: int, t: Grid)
    requires IsGrid(g) && IsGrid(t) && Agrees(g, t)
    requires InGrid(r, c) && g[r][c] == Empty && EmptyBefore(g, r, c) && 1 <= num < t[r][c] <= 9
    requires IsLegal(g, r, c, num) && Solve(Set(g, r, c, num)).Some?
    ensures TryDigits(g, r, c, num).Some? && LexLeq(TryDigits(g, r, c, num).value, t)
  {
    var h := Set(g, r, c, num);
    TryDigitsStep(g, r, c, num);
    SolveCompletes(h);
    SmallerAtFirstEmpty(g, r, c, Solve(h).value, t);
  }

  /** Two completions of `g` that differ first at its first empty cell are ordered by that cell. */
  lemma SmallerAtFirstEmpty(g: Grid, r: int, c: int, s: Grid, t: Grid)
    requires IsGrid(g) && IsGrid(s) && IsGrid(t) && Agrees(g, s) && Agrees(g, t)
    requires InGrid(r, c) && EmptyBefore(g, r, c) && s[r][c] < t[r][c]
    ensures LexLeq(s, t)
  {
    assert forall i', j' :: 0 <= i' < 9 && 0 <= j' < 9 && Before(i', j', r, c) ==> s[i'][j'] == t[i'][j'];
  }

  /**
   For a conflict-free puzzle with a solution, the search returns the
   lexicographically least of its solutions: the order of the search
   determines the answer.
   */
  lemma SolveLeastSolution(g: Grid, t: Grid)
    requires WellFormed(g) && NoConflicts(g) && IsSolution(t) && Agrees(g, t)
    ensures Solve(g).Some?
    ensures IsSolution(Solve(g).value) && Agrees(g, Solve(g).value)
    ensures forall u :: IsSolution(u) && Agrees(g, u) ==> LexLeq(Solve(g).value, u)
  {
    SolveFindsSolution(g, t);
    SolveYieldsSolution(g);
    SolveCompletes(g);
    forall u | IsSolution(u) && Agrees(g, u)
      ensures LexLeq(Solve(g).value, u)
    {
      SolveIsLeast(g, u);
    }
  }
}

/**
 Judging the player's grid: compareSudokus sets the player's grid against the
 grid the solver completed, and checkSudoku turns the comparison into one of
 three messages.
 */
module Comparator {
  import opened Wrappers
  import opened GridModel
  import opened Checker
  import opened Solver
  import opened SolverLemmas

  /** The record compareSudokus returns. */
  datatype Comparison = Comparison(isComplete: bool, isSolvable: bool)

  /** The three messages checkSudoku can show. */
  datatype Verdict = Congratulations | KeepGoing | CannotSolve

  /**
   compareSudokus: every cell is visited; a cell that differs from the solved
   grid clears isComplete, and clears isSolvable too unless it is empty.
   So the grids are complete exactly when they are equal, and solvable exactly
   when every filled cell of the player's grid matches the solved grid.
   */
  method CompareSudokus(current: Grid, solved: Grid) returns (res: Comparison)
    requires IsGrid(current) && IsGrid(solved)
    ensures res.isComplete <==> current == solved
    ensures res.isSolvable <==> Agrees(current, solved)
  {
    res := Comparison(true, true);
    for i := 0 to 9
      invariant res.isComplete <==>
        forall p, q :: 0 <= p < i && 0 <= q < 9 ==> current[p][q] == solved[p][q]
      invariant res.isSolvable <==>
        forall p, q :: 0 <= p < i && 0 <= q < 9 && current[p][q] != Empty ==> current[p][q] == solved[p][q]
    {
      for j := 0 to 9
        invariant res.isComplete <==>
          forall p, q :: 0 <= p < 9 && 0 <= q < 9 && Before(p, q, i, j) ==> current[p][q] == solved[p][q]
        invariant res.isSolvable <==>
          forall p, q :: 0 <= p < 9 && 0 <= q < 9 && Before(p, q, i, j) && current[p][q] != Empty ==>
            current[p][q] == solved[p][q]
      {
        if current[i][j] != solved[i][j] {
          if current[i][j] != Empty {
            res := res.(isSolvable := false);
          }
          res := res.(isComplete := false);
        }
      }
    }
    if res.isComplete {
      GridExt(current, solved);
    }
  }

  /** The message checkSudoku shows for a comparison. */
  function Message(c: Comparison): Verdict {
    if c.isComplete then Congratulations
    else if c.isSolvable then KeepGoing
    else CannotSolve
  }

  /**
   checkSudoku as its code reads: the solver's success flag is dropped, so when
   the search fails the player's grid is compared with the untouched puzzle.
   */
  function CheckVerdictAsWritten(initial: Grid, current: Grid): (v: Verdict)
    requires IsGrid(initial) && IsGrid(current)
    ensures Solve(initial).None? ==> (v == Congratulations <==> current == initial)
    ensures Solve(initial).Some? ==> v == CheckVerdict(initial, current)
  {
    var solved := AfterSolver(initial);
    Message(Comparison(current == solved, Agrees(current, solved)))
  }

  /**
   checkSudoku with the solver's result consulted: an unsolvable puzzle can
   only be told that it cannot be solved; otherwise the player's grid is
   compared with the grid the search completes.
   */
  function CheckVerdict(initial: Grid, current: Grid): (v: Verdict)
    requires IsGrid(initial) && IsGrid(current)
    ensures Solve(initial).None? ==> v == CannotSolve
  {
    match Solve(initial)
    case None => CannotSolve
    case Some(solved) => Message(Comparison(current == solved, Agrees(current, solved)))
  }

  /**
   For a conflict-free puzzle, the corrected check congratulates only a valid
   Sudoku that keeps every given, says "keep going" only when the player's
   filled cells can still be completed to a valid Sudoku, and says the puzzle
   cannot be solved whenever no valid Sudoku keeps its givens.
   */
  lemma VerdictSound(initial: Grid, current: Grid)
    requires WellFormed(initial) && NoConflicts(initial) && IsGrid(current)
    ensures CheckVerdict(initial, current) == Congratulations ==>
      IsSolution(current) && Agrees(initial, current)
    ensures CheckVerdict(initial, current) == KeepGoing ==>
      exists s :: IsSolution(s) && Agrees(initial, s) && Agrees(current, s) && s != current
    ensures (forall s :: IsSolution(s) ==> !Agrees(initial, s)) ==> CheckVerdict(initial, current) == CannotSolve
  {
    SolvableIff(initial);
    if Solve(initial).Some? {
      var s := Solve(initial).value;
      SolveYieldsSolution(initial);
      SolveCompletes(initial);
      assert IsSolution(s) && Agrees(initial, s);
    }
  }

  /**
   For a puzzle with exactly one solution, the corrected check congratulates
   exactly the grids that are that solution, and says "keep going" exactly for
   the grids that are not yet it but whose filled cells all match it.
   */
  lemma VerdictUnique(initial: Grid, current: Grid, t: Grid)
    requires WellFormed(initial) && NoConflicts(initial) && IsGrid(current)
    requires IsSolution(t) && Agrees(initial, t)
    requires forall u :: IsSolution(u) && Agrees(initial, u) ==> u == t
    ensures CheckVerdict(initial, current) == Congratulations <==> current == t
    ensures CheckVerdict(initial, current) == KeepGoing <==> current != t && Agrees(current, t)
  {
    SolveFindsSolution(initial, t);
    SolveYieldsSolution(initial);
    SolveCompletes(initial);
  }

  /**
   Pressing check on a solvable puzzle right after it has been entered (the
   player's grid equals the puzzle) says "keep going" when a cell is still
   empty, and the grid the solver produced is always congratulated.
   */
  lemma VerdictOnFreshAndSolved(initial: Grid)
    requires IsGrid(initial) && Solve(initial).Some?
    ensures !Filled(initial) ==> CheckVerdict(initial, initial) == KeepGoing
    ensures CheckVerdict(initial, AfterSolver(initial)) == Congratulations
  {
    var s := Solve(initial).value;
    SolveCompletes(initial);
    assert Agrees(initial, s);
    if !Filled(initial) {
      var i, j :| 0 <= i < 9 && 0 <= j < 9 && initial[i][j] == Empty;
      assert initial[i][j] != s[i][j];
    }
  }

  /**
   A conflict-free puzzle with no solution: row 0 holds 1..8 after an empty
   first cell, and 9 sits just below that cell, so no digit fits at (0, 0).
   */
  function Stuck(): (g: Grid)
    ensures IsGrid(g)
  {
    seq(9, i requires 0 <= i < 9 =>
      seq(9, j requires 0 <= j < 9 =>
        if i == 0 && j > 0 then j else if i == 1 && j == 0 then 9 else Empty))
  }

  /** No digit from `num` upwards is legal at the first cell of `Stuck()`. */
  lemma {:induction false} StuckTryFails(num: int)
    requires 1 <= num <= 10
    ensures TryDigits(Stuck(), 0, 0, num).None?
    decreases 10 - num
  {
    var g := Stuck();
    if num < 10 {
      if num < 9 {
        assert g[0][num] == num;
        assert InRow(g, 0, num);
      } else {
        assert g[1][0] == 9;
        assert InCol(g, 0, num);
      }
      StuckTryFails(num + 1);
    }
  }

  /**
   checkSudoku as written congratulates the player on the untouched `Stuck()`
   puzzle, which has no solution at all, while the corrected check says it
   cannot be solved.
   */
  lemma StuckCongratulated()
    ensures WellFormed(Stuck()) && NoConflicts(Stuck())
    ensures forall s :: IsSolution(s) ==> !Agrees(Stuck(), s)
    ensures CheckVerdictAsWritten(Stuck(), Stuck()) == Congratulations
    ensures CheckVerdict(Stuck(), Stuck()) == CannotSolve
  {
    var g := Stuck();
    assert g[0][0] == Empty;
    assert FirstEmpty(g) == Some(Pos(0, 0));
    StuckTryFails(1);
    assert Solve(g).None?;
    assert NoConflicts(g);
    SolvableIff(g);
  }
}

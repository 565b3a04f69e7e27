# Sudoku-Wizard engine, modelled in Dafny

This project models the engine of the Sudoku-Wizard app, the provider in
`Sudoku-Wizard-App/src/Context/SudokuContext.tsx`.

- **Grid.** A grid is a 9x9 matrix of integers in which -1 marks an empty cell.
- **Legality test.** `checkValid` decides whether a digit may be placed in a cell, given its row, column and 3x3 box.
- **Solver.** `solver` is a depth-first backtracking search. It works in place on the grid: it takes the first empty cell in row-major order, tries 1..9 in ascending order, and reverts every placement that leads nowhere.
- **Comparator.** `compareSudokus` sets the player's grid against the solved grid.
- **Session.** The provider's state (`Initial`, `SudokuArr`, `solveTime`, `resetTrigger`) changes through the handlers `onInputChange`, `applyCustomGrid`, `checkSudoku`, `solveSudoku` and `resetSudoku`.

Files:

- `grid.dfy` (`GridModel`): the grid value and the `Empty` sentinel. It also holds the count of empty cells, which is the solver's termination measure, and `getDeepCopy` as a fresh `array2`.
- `checker.dfy` (`Checker`): what the legality test means, as the predicate `IsLegal`, and `checkValid` as a loop proved equal to it. It also defines what a solved Sudoku is, and proves that a solved Sudoku holds every digit once in each row, column and box.
- `solver.dfy` (`Solver`): the search as the functions `Solve`/`TryDigits` on grid values, and `solver` as an in-place method on an `array2` proved to compute exactly `Solve`.
- `solver_lemmas.dfy` (`SolverLemmas`): what the search guarantees:
  - soundness: the grid it completes is a solution;
  - completeness: it finds a solution whenever one exists;
  - which solution it returns: the least in row-major order.
- `comparator.dfy` (`Comparator`):
  - `compareSudokus`;
  - the verdict of `checkSudoku`, both as written and corrected;
  - the puzzle that shows the difference between the two.
- `session.dfy` (`Session`): the class `SudokuSession` with the four state fields and one method per handler, plus the cell-edit rule as a function.

## Model

| member | source | states |
|---|---|---|
| GridModel.DeepCopy | Sudoku-Wizard-App/src/Context/SudokuContext.tsx:66-68 | the copy is a fresh 9x9 array, shared with nothing, holding exactly the cells of the grid |
| GridModel.EmptyCountSet | Sudoku-Wizard-App/src/Context/SudokuContext.tsx:115-119 | writing a digit into an empty cell leaves exactly one empty cell fewer, which is why the recursion terminates |
| Checker.CheckValid | Sudoku-Wizard-App/src/Context/SudokuContext.tsx:99-109 | returns true exactly when `num` is not in the row, not in the column and not in the 3x3 box of (row, col); the box's corner is (3*(row/3), 3*(col/3)) |
| Checker.PlaceLegal | Sudoku-Wizard-App/src/Context/SudokuContext.tsx:116-118 | writing a digit that the legality test accepts into an empty cell of a conflict-free grid keeps the grid conflict-free |
| Checker.SolutionDigitLegal | Sudoku-Wizard-App/src/Context/SudokuContext.tsx:116-117 | the legality test never rejects the digit that a solution keeping the givens puts into an empty cell |
| Checker.SolutionHasEveryDigit | Sudoku-Wizard-App/src/Context/SudokuContext.tsx:99-109 | in a solved Sudoku, every digit 1..9 occurs in every row, every column and every box |
| Solver.FirstEmptyFrom | Sudoku-Wizard-App/src/Context/SudokuContext.tsx:113-115 | the cell found is empty, and every cell before it in row-major order is filled; the result is None exactly when no cell from the start point on is empty |
| Solver.SolveCompletes | Sudoku-Wizard-App/src/Context/SudokuContext.tsx:113-130 | a successful search leaves no empty cell, keeps every non-empty input cell, and writes only digits 1..9 into the cells that were empty |
| Solver.Solver | Sudoku-Wizard-App/src/Context/SudokuContext.tsx:112-131 | the method returns true exactly when the search `Solve` succeeds; on success the array holds the grid the search completes; on failure the array is exactly as it was on entry |
| Solver.PlaceDigits | Sudoku-Wizard-App/src/Context/SudokuContext.tsx:116-126 | the digit loop at one empty cell returns what `TryDigits` from digit 1 returns; on failure every tentative write has been reverted to -1 |
| Solver.Place | Sudoku-Wizard-App/src/Context/SudokuContext.tsx:117-124 | one digit succeeds exactly when the legality test accepts it and the search completes the grid with it placed; on failure the cell is empty again and the array is as it was |
| Solver.AfterSolver | Sudoku-Wizard-App/src/Context/SudokuContext.tsx:154-155 | the caller's copy after the solver runs keeps every given of the puzzle, and equals the puzzle when the search fails |
| SolverLemmas.SolveYieldsSolution | Sudoku-Wizard-App/src/Context/SudokuContext.tsx:116-119 | for a conflict-free puzzle of empty cells and digits, a successful search returns a valid Sudoku |
| SolverLemmas.SolveFindsSolution | Sudoku-Wizard-App/src/Context/SudokuContext.tsx:113-128 | if any valid Sudoku keeps the givens, the search succeeds |
| SolverLemmas.SolvableIff | Sudoku-Wizard-App/src/Context/SudokuContext.tsx:112-131 | for a conflict-free puzzle, the search succeeds if and only if a valid Sudoku keeping the givens exists |
| SolverLemmas.SolveFilled | Sudoku-Wizard-App/src/Context/SudokuContext.tsx:113-130 | a grid with no empty cell is returned as it is |
| SolverLemmas.SolveIsLeast | Sudoku-Wizard-App/src/Context/SudokuContext.tsx:113-119 | the search result is at or below every solution keeping the givens, in row-major lexicographic order |
| SolverLemmas.TryDigitsIsLeast | Sudoku-Wizard-App/src/Context/SudokuContext.tsx:116-125 | trying digits in ascending order from any digit at or below a solution's digit reaches a result at or below that solution |
| SolverLemmas.SolveLeastSolution | Sudoku-Wizard-App/src/Context/SudokuContext.tsx:113-119 | for a solvable conflict-free puzzle, the search returns the least of its solutions in row-major order |
| Comparator.CompareSudokus | Sudoku-Wizard-App/src/Context/SudokuContext.tsx:134-150 | isComplete holds exactly when the two grids are equal; isSolvable holds exactly when every non-empty cell of the player's grid matches the solved grid |
| Comparator.CheckVerdictAsWritten | Sudoku-Wizard-App/src/Context/SudokuContext.tsx:153-164 | with the solver's result ignored, an unsolvable puzzle congratulates exactly a player grid equal to the puzzle; a solvable one gets the corrected verdict |
| Comparator.CheckVerdict | Sudoku-Wizard-App/src/Context/SudokuContext.tsx:153-164 | the corrected verdict: an unsolvable puzzle is always reported as unsolvable |
| Comparator.VerdictSound | Sudoku-Wizard-App/src/Context/SudokuContext.tsx:153-164 | for a conflict-free puzzle: congratulations only for a valid Sudoku keeping the givens; "keep going" only when a solution extends the player's filled cells; "cannot be solved" whenever no solution exists |
| Comparator.VerdictUnique | Sudoku-Wizard-App/src/Context/SudokuContext.tsx:153-164 | for a puzzle with exactly one solution: congratulations if and only if the player's grid is that solution; "keep going" if and only if it is not yet the solution but all its filled cells match it |
| Comparator.VerdictOnFreshAndSolved | Sudoku-Wizard-App/src/Context/SudokuContext.tsx:153-174 | on a solvable puzzle, checking an untouched puzzle that has an empty cell says "keep going", and checking the grid that solve produced says congratulations |
| Comparator.StuckTryFails | Sudoku-Wizard-App/src/Context/SudokuContext.tsx:116-126 | at the first cell of the `Stuck` puzzle, no digit passes the legality test, so the digit loop fails |
| Comparator.StuckCongratulated | Sudoku-Wizard-App/src/Context/SudokuContext.tsx:154-158 | `Stuck` is well formed and conflict-free yet has no solution; the check as written congratulates it, and the corrected check reports it unsolvable |
| Session.InputValue | Sudoku-Wizard-App/src/Context/SudokuContext.tsx:76 | a NaN or 0 parse becomes -1; any other parsed value is kept |
| Session.EditCell | Sudoku-Wizard-App/src/Context/SudokuContext.tsx:76-81 | only (row, col) can change. NaN, 0 and -1 clear it; a digit 1..9 is stored; any other value leaves the grid unchanged. A grid of empty cells and digits stays one |
| Session.EditKeepsGivens | Sudoku-Wizard-App/src/Components/SudokuGrid.tsx:20-23 | an edit of a cell that the puzzle leaves open keeps every given of the puzzle |
| Session.EditThenClear | Sudoku-Wizard-App/src/Context/SudokuContext.tsx:76-81 | typing a value into an empty cell and then clearing it restores the grid |
| Session.SudokuSession.constructor | Sudoku-Wizard-App/src/Context/SudokuContext.tsx:42-63 | the session starts on the default puzzle with the player's grid a copy of it, no solve time and no reset signalled |
| Session.SudokuSession.OnInputChange | Sudoku-Wizard-App/src/Context/SudokuContext.tsx:71-82 | the player's grid becomes the edit of the old one, and nothing else changes; the player's grid keeps every given |
| Session.SudokuSession.ApplyCustomGrid | Sudoku-Wizard-App/src/Context/SudokuContext.tsx:85-96 | a 9x9 input becomes both the puzzle and the player's grid (through the effect at :61-63); a parse failure or any other shape raises its alert and changes nothing |
| Session.SudokuSession.CheckSudoku | Sudoku-Wizard-App/src/Context/SudokuContext.tsx:153-164 | returns the corrected verdict for the current puzzle and player's grid, and changes no state |
| Session.SudokuSession.SolveSudoku | Sudoku-Wizard-App/src/Context/SudokuContext.tsx:167-174 | the player's grid becomes the solver's copy of the puzzle and the solve time is recorded; the puzzle is unchanged |
| Session.SudokuSession.ResetSudoku | Sudoku-Wizard-App/src/Context/SudokuContext.tsx:177-183 | the puzzle and the player's grid become the default puzzle, the solve time is cleared and the reset is signalled |

`compare(g, g)` gives {true, true}, and an all-empty grid against a filled
one gives {false, true}. Both follow directly from the two equivalences in
`CompareSudokus`'s contract.

## Left out

- React plumbing is not modelled: the context, the hook, the provider and the render cycle. Each state setter becomes a field assignment, and the effect that copies `Initial` into `SudokuArr` is folded into `ApplyCustomGrid`. The raw setters the context exports (`setSudokuArr`, `setSolveTime`, `setResetTrigger`) are plain assignments and have no members.
- `alert` calls become the `Verdict` and `ApplyResult` values the methods return.
- `performance.now()` is not modelled. The elapsed time is the parameter of `SolveSudoku`, and `solveTime` is an `Option<real>` that is set or cleared.
- `JSON.parse` is not modelled. `ApplyCustomGrid` takes its result as `Option<seq<seq<int>>>`, with None when it throws. Parsed values that are not arrays of arrays of integers are out of the model: strings whose length happens to be 9, non-integer cells, and nested objects.
- `JSON.stringify`/`JSON.parse` deep copying is modelled as a fresh `array2` with equal contents (`DeepCopy`).
- `parseInt` is not modelled. `OnInputChange` takes its result as `Option<int>`, with None for NaN.
- Session.SudokuSession.OnInputChange: requires the cell to be open in the puzzle. The handler itself does not check this; the grid component disables given cells at Sudoku-Wizard-App/src/Components/SudokuGrid.tsx:23.
- `solver` is split into three mutually recursive methods: `Solver` (the scan for the first empty cell), `PlaceDigits` (the digit loop) and `Place` (the body of that loop). Together they are the single recursive function of the source.
- Session.SudokuSession.CheckSudoku: implements the corrected check, which returns "cannot be solved" when the solver fails. The check as written is `CheckVerdictAsWritten`; see Findings.
- There is no proof that the default puzzle is conflict-free or has a unique solution. Evaluating the search on that concrete grid is beyond what the verifier does cheaply, so no lemma names the grid the solve button shows for it.
- A player grid that is a different valid solution of a puzzle with several solutions is reported as unsolvable, because it is compared with the search's least solution. `VerdictUnique` states the verdicts only for puzzles with one solution.

## Findings

| source | as written | input that shows it | evidently intended | confidence | as-written member | corrected member |
|---|---|---|---|---|---|---|
| Sudoku-Wizard-App/src/Context/SudokuContext.tsx:154-158 | `checkSudoku` ignores the boolean that `solver` returns. When the search fails, the copy is restored to the puzzle, and the player's untouched grid compares as complete | puzzle with row 0 = [-1, 1, 2, 3, 4, 5, 6, 7, 8], 9 at (1, 0), all else empty, right after it is applied (player's grid equals the puzzle): no digit fits at (0, 0), yet the message is "Congratulations! You have solved Sudoku!" | an unsolvable puzzle is reported as "Sudoku can't be solved" | high (not executed) | Comparator.StuckCongratulated | Comparator.CheckVerdict |

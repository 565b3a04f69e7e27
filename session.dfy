/**
 The game session that the Sudoku context provides: the puzzle as given
 (`Initial`), the grid the player edits (`SudokuArr`), the time the last
 solve took and the flag that tells the custom-grid input to clear itself.
 Each React state variable is a field; each handler is a method that
 replaces the fields it sets.
 */
module Session {
  import opened Wrappers
  import opened GridModel
  import opened Solver
  import opened Comparator

  /** The puzzle the game starts with and returns to on reset. */
  const DefaultGrid: Grid := [
    [5, 3, -1, -1, 7, -1, -1, -1, -1],
    [6, -1, -1, 1, 9, 5, -1, -1, -1],
    [-1, 9, 8, -1, -1, -1, -1, 6, -1],
    [8, -1, -1, -1, 6, -1, -1, -1, 3],
    [4, -1, -1, 8, -1, 3, -1, -1, 1],
    [7, -1, -1, -1, 2, -1, -1, -1, 6],
    [-1, 6, -1, -1, -1, -1, 2, 8, -1],
    [-1, -1, -1, 4, 1, 9, -1, -1, 5],
    [-1, -1, -1, -1, 8, -1, -1, 7, 9]
  ]

  /** The alert applyCustomGrid raises, if any. */
  datatype ApplyResult = Applied | InvalidFormat | InvalidInput

  /**
   The value onInputChange takes from the text box: `parsed` is what parseInt
   made of it (None for NaN); NaN and 0 are falsy, so both become the empty
   sentinel.
   */
  function InputValue(parsed: Option<int>): (v: int)
    ensures parsed.None? || parsed == Some(0) ==> v == Empty
    ensures parsed.Some? && parsed.value != 0 ==> v == parsed.value
  {
    match parsed
    case None => Empty
    case Some(n) => if n == 0 then Empty else n
  }

  /**
   The grid onInputChange stores: cell (row, col) takes the typed value when
   that is the empty sentinel or a digit, and is otherwise left as it was;
   no other cell changes.
   */
  function EditCell(g: Grid, row: int, col: int, parsed: Option<int>): (h: Grid)
    requires IsGrid(g) && InGrid(row, col)
    ensures IsGrid(h)
    ensures forall i, j :: 0 <= i < 9 && 0 <= j < 9 && (i != row || j != col) ==> h[i][j] == g[i][j]
    ensures parsed.None? || parsed == Some(0) || parsed == Some(Empty) ==> h[row][col] == Empty
    ensures parsed.Some? && IsDigit(parsed.value) ==> h[row][col] == parsed.value
    ensures parsed.Some? && !IsDigit(parsed.value) && parsed.value != 0 && parsed.value != Empty ==> h == g
    ensures WellFormed(g) ==> WellFormed(h)
  {
    var v := InputValue(parsed);
    if v == Empty || IsDigit(v) then Set(g, row, col, v) else g
  }

  /** An edit of a cell that the puzzle leaves open keeps every given of the puzzle. */
  lemma EditKeepsGivens(initial: Grid, g: Grid, row: int, col: int, parsed: Option<int>)
    requires IsGrid(initial) && IsGrid(g) && Agrees(initial, g) && InGrid(row, col) && initial[row][col] == Empty
    ensures Agrees(initial, EditCell(g, row, col, parsed))
  {
  }

  /** Typing a digit and then clearing the cell restores a grid whose cell was empty. */
  lemma EditThenClear(g: Grid, row: int, col: int, d: int)
    requires IsGrid(g) && InGrid(row, col) && g[row][col] == Empty
    ensures EditCell(EditCell(g, row, col, Some(d)), row, col, None) == g
  {
    var h := EditCell(EditCell(g, row, col, Some(d)), row, col, None);
    GridExt(h, g);
  }

  class SudokuSession {
    var Initial: Grid
    var SudokuArr: Grid
    var solveTime: Option<real>
    var resetTrigger: bool

    /** Both grids are 9x9, and the player's grid keeps every given of the puzzle. */
    predicate Valid()
      reads this
    {
      IsGrid(Initial) && IsGrid(SudokuArr) && Agrees(Initial, SudokuArr)
    }

    /** The provider's initial state: the default puzzle, untouched, no solve time, no reset. */
    constructor ()
      ensures Valid()
      ensures Initial == DefaultGrid && SudokuArr == DefaultGrid
      ensures solveTime == None && !resetTrigger
    {
      Initial := DefaultGrid;
      var copy := DeepCopy(DefaultGrid);
      SudokuArr := Contents(copy);
      solveTime := None;
      resetTrigger := false;
    }

    /**
     onInputChange: copy the player's grid, write the typed value into the
     cell if it is the empty sentinel or a digit, and store the copy. The
     grid component offers only the cells the puzzle leaves open.
     */
    method OnInputChange(row: int, col: int, parsed: Option<int>)
      requires Valid() && InGrid(row, col) && Initial[row][col] == Empty
      modifies this
      ensures Valid()
      ensures SudokuArr == EditCell(old(SudokuArr), row, col, parsed)
      ensures Initial == old(Initial) && solveTime == old(solveTime) && resetTrigger == old(resetTrigger)
    {
      var val := InputValue(parsed);
      var grid := DeepCopy(SudokuArr);
      if val == Empty || (val >= 1 && val <= 9) {
        grid[row, col] := val;
      }
      GridExt(Contents(grid), EditCell(SudokuArr, row, col, parsed));
      EditKeepsGivens(Initial, SudokuArr, row, col, parsed);
      SudokuArr := Contents(grid);
    }

    /**
     applyCustomGrid: `input` is what JSON.parse made of the text (None when
     it threw). A 9x9 grid becomes the new puzzle, and the effect on Initial
     resets the player's grid to a copy of it; anything else raises an alert
     and changes nothing.
     */
    method ApplyCustomGrid(input: Option<seq<seq<int>>>) returns (res: ApplyResult)
      requires Valid()
      modifies this
      ensures Valid()
      ensures res == InvalidInput <==> input.None?
      ensures res == Applied <==> input.Some? && IsGrid(input.value)
      ensures res == Applied ==> Initial == input.value && SudokuArr == input.value
      ensures res != Applied ==> Initial == old(Initial) && SudokuArr == old(SudokuArr)
      ensures solveTime == old(solveTime) && resetTrigger == old(resetTrigger)
    {
      match input
      case None =>
        return InvalidInput;
      case Some(grid) =>
        if |grid| == 9 && forall k :: 0 <= k < |grid| ==> |grid[k]| == 9 {
          Initial := grid;
          var copy := DeepCopy(Initial);
          SudokuArr := Contents(copy);
          return Applied;
        } else {
          return InvalidFormat;
        }
    }

    /**
     checkSudoku: solve a copy of the puzzle and compare the player's grid
     with it. The solver's success flag is consulted, so a puzzle the search
     cannot complete is reported as unsolvable.
     */
    method CheckSudoku() returns (v: Verdict)
      requires Valid()
      ensures v == CheckVerdict(Initial, SudokuArr)
    {
      var sudoku := DeepCopy(Initial);
      var solved := Solver.Solver(sudoku);
      if !solved {
        return CannotSolve;
      }
      var compare := CompareSudokus(SudokuArr, Contents(sudoku));
      v := Message(compare);
    }

    /**
     solveSudoku: solve a copy of the puzzle, record the time the solver took
     (`elapsed`, the difference of the two clock readings), and show the
     solved copy as the player's grid.
     */
    method SolveSudoku(elapsed: real)
      requires Valid()
      modifies this
      ensures Valid()
      ensures SudokuArr == AfterSolver(Initial)
      ensures solveTime == Some(elapsed)
      ensures Initial == old(Initial) && resetTrigger == old(resetTrigger)
    {
      var sudoku := DeepCopy(Initial);
      var solved := Solver.Solver(sudoku);
      var result := Contents(sudoku);
      assert result == AfterSolver(Initial);
      solveTime := Some(elapsed);
      SudokuArr := result;
    }

    /** resetSudoku: back to the default puzzle, untouched, with no solve time, and signal the reset. */
    method ResetSudoku()
      requires Valid()
      modifies this
      ensures Valid()
      ensures Initial == DefaultGrid && SudokuArr == DefaultGrid
      ensures solveTime == None && resetTrigger
    {
      resetTrigger := true;
      Initial := DefaultGrid;
      solveTime := None;
      var sudoku := DeepCopy(DefaultGrid);
      SudokuArr := Contents(sudoku);
    }
  }
}

/**
 The backtracking solver. `Solve` and `TryDigits` state, as functions on grid
 values, the depth-first search that `solver` performs: take the first empty
 cell in row-major order, try the digits 1..9 in ascending order, place each
 legal one and recurse, and undo the placement when the recursion fails.
 The method `Solver` runs that search in place on an array and is proved to
 compute exactly `Solve`, leaving the array untouched when it fails.
 */
module Solver {
  import opened Wrappers
  import opened GridModel
  import opened Checker

  datatype Pos = Pos(row: int, col: int)

  /** (i, j) comes at or after (r, c) in row-major order. */
  predicate AtOrAfter(i: int, j: int, r: int, c: int) {
    i > r || (i == r && j >= c)
  }

  /** (i, j) comes strictly before (r, c) in row-major order. */
  predicate Before(i: int, j: int, r: int, c: int) {
    i < r || (i == r && j < c)
  }

  /** The first empty cell at or after (r, c) in row-major order, if any. */
  function FirstEmptyFrom(g: Grid, r: int, c: int): (p: Option<Pos>)
    requires IsGrid(g) && 0 <= r <= 9 && 0 <= c <= 9
    ensures p.None? <==>
      forall i, j :: 0 <= i < 9 && 0 <= j < 9 && AtOrAfter(i, j, r, c) ==> g[i][j] != Empty
    ensures p.Some? ==>
      InGrid(p.value.row, p.value.col) && g[p.value.row][p.value.col] == Empty &&
      AtOrAfter(p.value.row, p.value.col, r, c) &&
      forall i, j :: 0 <= i < 9 && 0 <= j < 9 && AtOrAfter(i, j, r, c) && Before(i, j, p.value.row, p.value.col) ==>
        g[i][j] != Empty
    decreases 9 - r, 9 - c
  {
    if r == 9 then None
    else if c == 9 then FirstEmptyFrom(g, r + 1, 0)
    else if g[r][c] == Empty then Some(Pos(r, c))
    else FirstEmptyFrom(g, r, c + 1)
  }

  /** The cell the solver fills next: the first empty cell of the whole grid. */
  function FirstEmpty(g: Grid): (p: Option<Pos>)
    requires IsGrid(g)
  {
    FirstEmptyFrom(g, 0, 0)
  }

  /**
   The search from grid `g`: `Some(s)` with the grid the search completes, or
   `None` when no sequence of legal placements fills every empty cell.
   */
  function Solve(g: Grid): (res: Option<Grid>)
    requires IsGrid(g)
    ensures res.Some? ==> IsGrid(res.value)
    decreases EmptyCount(g), 10
  {
    match FirstEmpty(g)
    case None => Some(g)
    case Some(p) => TryDigits(g, p.row, p.col, 1)
  }

  /** The search at the empty cell (r, c) of `g`, from digit `num` upwards. */
  function TryDigits(g: Grid, r: int, c: int, num: int): (res: Option<Grid>)
    requires IsGrid(g) && InGrid(r, c) && g[r][c] == Empty && 1 <= num <= 10
    ensures res.Some? ==> IsGrid(res.value)
    decreases EmptyCount(g), 10 - num
  {
    if num == 10 then None
    else if IsLegal(g, r, c, num) then
      EmptyCountSet(g, r, c, num);
      match Solve(Set(g, r, c, num))
      case Some(s) => Some(s)
      case None => TryDigits(g, r, c, num + 1)
    else TryDigits(g, r, c, num + 1)
  }

  /**
   A successful search fills every empty cell of `g` with a digit and
   leaves every given cell as it was.
   */
  lemma {:induction false} SolveCompletes(g: Grid)
    requires IsGrid(g)
    ensures Solve(g).Some? ==>
      Filled(Solve(g).value) && Agrees(g, Solve(g).value) && FillsWithDigits(g, Solve(g).value)
    decreases EmptyCount(g), 10
  {
    match FirstEmpty(g)
    case None =>
    case Some(p) => TryDigitsCompletes(g, p.row, p.col, 1);
  }

  lemma {:induction false} TryDigitsCompletes(g: Grid, r: int, c: int, num: int)
    requires IsGrid(g) && InGrid(r, c) && g[r][c] == Empty && 1 <= num <= 10
    ensures TryDigits(g, r, c, num).Some? ==>
      Filled(TryDigits(g, r, c, num).value) &&
      Agrees(g, TryDigits(g, r, c, num).value) && FillsWithDigits(g, TryDigits(g, r, c, num).value)
    decreases EmptyCount(g), 10 - num
  {
    if num < 10 {
      var h := Set(g, r, c, num);
      EmptyCountSet(g, r, c, num);
      TryDigitsStep(g, r, c, num);
      if IsLegal(g, r, c, num) && Solve(h).Some? {
        SolveCompletes(h);
      } else {
        TryDigitsCompletes(g, r, c, num + 1);
      }
    }
  }

  /**
   solver: the depth-first search, in place. On success the array holds the
   grid `Solve` completes; on failure every tentative placement has been
   reverted and the array is exactly as it was.
   */
  method Solver(a: array2<int>) returns (ok: bool)
    requires a.Length0 == 9 && a.Length1 == 9
    modifies a
    ensures ok == Solve(old(Contents(a))).Some?
    ensures ok ==> Contents(a) == Solve(old(Contents(a))).value
    ensures !ok ==> Contents(a) == old(Contents(a))
    decreases EmptyCount(Contents(a)), 2
  {
    ghost var g := Contents(a);
    for row := 0 to 9
      invariant FirstEmptyFrom(g, row, 0) == FirstEmpty(g)
    {
      for col := 0 to 9
        invariant FirstEmptyFrom(g, row, col) == FirstEmpty(g)
      {
        if a[row, col] == Empty {
          ok := PlaceDigits(a, row, col);
          return;
        }
      }
    }
    return true;
  }

  /**
   The digit loop of solver at the empty cell (row, col): the digits 1..9 are
   tried in ascending order, and the first one whose placement the search
   completes ends the loop; when none does, the cell is left empty.
   */
  method PlaceDigits(a: array2<int>, row: int, col: int) returns (ok: bool)
    requires a.Length0 == 9 && a.Length1 == 9 && InGrid(row, col) && a[row, col] == Empty
    modifies a
    ensures ok == TryDigits(old(Contents(a)), row, col, 1).Some?
    ensures ok ==> Contents(a) == TryDigits(old(Contents(a)), row, col, 1).value
    ensures !ok ==> Contents(a) == old(Contents(a))
    decreases EmptyCount(Contents(a)), 1
  {
    ghost var g := Contents(a);
    for num := 1 to 10
      invariant Contents(a) == g
      invariant TryDigits(g, row, col, 1) == TryDigits(g, row, col, num)
    {
      TryDigitsStep(g, row, col, num);
      ok := Place(a, row, col, num);
      if ok {
        return;
      }
    }
    return false;
  }

  /**
   One pass of the digit loop: if checkValid accepts `num`, write it into the
   empty cell and recurse; when the recursion fails, write the empty
   sentinel back.
   */
  method Place(a: array2<int>, row: int, col: int, num: int) returns (ok: bool)
    requires a.Length0 == 9 && a.Length1 == 9 && InGrid(row, col) && a[row, col] == Empty && IsDigit(num)
    modifies a
    ensures ok == (IsLegal(old(Contents(a)), row, col, num) && Solve(Set(old(Contents(a)), row, col, num)).Some?)
    ensures ok ==> Contents(a) == Solve(Set(old(Contents(a)), row, col, num)).value
    ensures !ok ==> Contents(a) == old(Contents(a))
    decreases EmptyCount(Contents(a)), 0
  {
    ghost var g := Contents(a);
    var legal := CheckValid(a, row, col, num);
    if !legal {
      return false;
    }
    a[row, col] := num;
    GridExt(Contents(a), Set(g, row, col, num));
    EmptyCountSet(g, row, col, num);
    ok := Solver(a);
    if !ok {
      a[row, col] := Empty;
      GridExt(Contents(a), g);
    }
  }

  /** One step of the digit loop: digit `num` either completes the search or hands over to `num + 1`. */
  lemma TryDigitsStep(g: Grid, r: int, c: int, num: int)
    requires IsGrid(g) && InGrid(r, c) && g[r][c] == Empty && 1 <= num <= 9
    ensures IsLegal(g, r, c, num) && Solve(Set(g, r, c, num)).Some? ==>
      TryDigits(g, r, c, num) == Solve(Set(g, r, c, num))
    ensures !(IsLegal(g, r, c, num) && Solve(Set(g, r, c, num)).Some?) ==>
      TryDigits(g, r, c, num) == TryDigits(g, r, c, num + 1)
  {
  }

  /** What the caller's copy holds after solver: the completed grid, or the input unchanged. */
  function AfterSolver(g: Grid): (s: Grid)
    requires IsGrid(g)
    ensures IsGrid(s) && Agrees(g, s)
    ensures Solve(g).None? ==> s == g
  {
    SolveCompletes(g);
    match Solve(g)
    case Some(s) => s
    case None => g
  }
}

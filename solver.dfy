/** BacktrackingSudokuSolver: fills the first empty cell (row-major) with each digit of a
    shuffled 1..9 in turn, keeps a digit when the board stays legal and the rest of the
    board can be filled, and otherwise empties the cell again. */
module Solvers {
  import opened Grids
  import opened Boards

  /** One shuffle of the digits: each of 1..9 exactly once among nine entries. */
  predicate IsShuffle(s: seq<int>) {
    |s| == 9 && (forall d | 1 <= d <= 9 :: d in s) && forall i | 0 <= i < |s| :: 1 <= s[i] <= 9
  }

  /** The shuffles the solver draws, one per empty cell it tries, in order. */
  ghost predicate Shuffles(shuffles: nat -> seq<int>) {
    forall n: nat :: IsShuffle(shuffles(n))
  }

  /** Returns true with the board full and every given digit kept (and legal, unless the
      board was already full on entry, which is accepted unchecked); returns false with the
      board unchanged, and then no legal completion of the board exists. `next` and `used`
      thread the shuffle stream through the recursion. */
  method RecursiveSolve(board: Board, shuffles: nat -> seq<int>, next: nat) returns (solved: bool, used: nat)
    requires board.Valid() && Shuffles(shuffles)
    modifies board.cells
    ensures board.Valid() && next <= used
    ensures solved ==> Full(board.Grid()) && Extends(board.Grid(), old(board.Grid()))
    ensures solved && !Full(old(board.Grid())) ==> Legal(board.Grid())
    ensures Full(old(board.Grid())) ==> solved && board.Grid() == old(board.Grid())
    ensures !solved ==> board.Grid() == old(board.Grid()) && !Solvable(old(board.Grid()))
    decreases Occurrences(board.Grid(), 0), 1
  {
    ghost var g0 := board.Grid();
    for row := 0 to 9
      invariant board.Grid() == g0
      invariant forall k | 0 <= k < Index(row, 0) :: g0[k] != 0
    {
      for col := 0 to 9
        invariant board.Grid() == g0
        invariant forall k | 0 <= k < Index(row, col) :: g0[k] != 0
      {
        if board.Get(row, col) == 0 {
          assert !Full(g0);
          solved, used := TryDigits(board, shuffles, next, row, col);
          return;
        }
      }
    }
    assert Full(g0);
    return true, next;
  }

  /** The search at the empty cell (row, col): tries each digit of the next shuffle in
      turn, keeping the first that leaves the board legal and lets the rest be filled.
      Returns true with the board full, legal and keeping every given digit; returns false
      with the cell emptied again, and then no legal completion of the board exists. */
  method TryDigits(board: Board, shuffles: nat -> seq<int>, next: nat, row: int, col: int)
    returns (solved: bool, used: nat)
    requires board.Valid() && Shuffles(shuffles) && 0 <= row < 9 && 0 <= col < 9
    requires board.Get(row, col) == 0
    modifies board.cells
    ensures board.Valid() && next < used
    ensures solved ==> Full(board.Grid()) && Extends(board.Grid(), old(board.Grid())) && Legal(board.Grid())
    ensures !solved ==> board.Grid() == old(board.Grid()) && !Solvable(old(board.Grid()))
    decreases Occurrences(board.Grid(), 0), 0
  {
    ghost var g0 := board.Grid();
    ghost var idx := Index(row, col);
    var numbers := shuffles(next);
    used := next + 1;
    for i := 0 to 9
      invariant board.Valid() && board.Grid() == g0 && next < used
      invariant forall j | 0 <= j < i :: !Solvable(WithDigit(g0, idx, numbers[j]))
    {
      ghost var g1 := WithDigit(g0, idx, numbers[i]);
      var _ := board.Set(row, col, numbers[i]);
      var legal := board.CheckBoard();
      if legal {
        OccurrencesAfterWrite(g0, idx, numbers[i], 0);
        var rest: bool;
        rest, used := RecursiveSolve(board, shuffles, used);
        if rest {
          KeptDigitSolves(g0, idx, numbers[i], board.Grid());
          return true, used;
        }
      } else {
        IllegalIsUnsolvable(g1);
      }
      var _ := board.Set(row, col, 0);
      assert board.Grid() == g0;
    }
    forall d | 1 <= d <= 9 ensures !Solvable(WithDigit(g0, idx, d)) {
      assert d in numbers;
    }
    UnsolvableByEveryDigit(g0, idx);
    return false, used;
  }

  /** A digit written into an empty cell of `g` and kept by a successful search below it
      gives a full, legal grid that keeps every digit of `g`. */
  lemma KeptDigitSolves(g: seq<int>, idx: int, d: int, f: seq<int>)
    requires |g| == 81 && 0 <= idx < 81 && g[idx] == 0 && 1 <= d <= 9
    requires Legal(WithDigit(g, idx, d))
    requires Full(f) && Extends(f, WithDigit(g, idx, d))
    requires !Full(WithDigit(g, idx, d)) ==> Legal(f)
    requires Full(WithDigit(g, idx, d)) ==> f == WithDigit(g, idx, d)
    ensures Full(f) && Extends(f, g) && Legal(f)
  {
    var h := WithDigit(g, idx, d);
    forall k | 0 <= k < 81 && g[k] != 0 ensures f[k] == g[k] {
      assert h[k] == g[k];
    }
  }

  /** Runs the backtracking search and discards its result: the board ends either as it
      was or full, legal and keeping every given digit, and whenever a legal completion
      exists the search finds one. */
  method Solve(board: Board, shuffles: nat -> seq<int>)
    requires board.Valid() && Shuffles(shuffles)
    modifies board.cells
    ensures board.Valid()
    ensures board.Grid() == old(board.Grid())
         || (Full(board.Grid()) && Legal(board.Grid()) && Extends(board.Grid(), old(board.Grid())))
    ensures Solvable(old(board.Grid())) ==>
              Full(board.Grid()) && Legal(board.Grid()) && Extends(board.Grid(), old(board.Grid()))
  {
    ghost var g0 := board.Grid();
    var solved, _ := RecursiveSolve(board, shuffles, 0);
    if solved && Full(g0) && Solvable(g0) {
      var f :| |f| == 81 && Full(f) && Extends(f, g0) && Legal(f);
      LegalBelow(f, g0);
    }
  }
}

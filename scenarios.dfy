/** Whole-board runs of the model: the behaviours the repository's own tests exercise, and
    the game set-up that solves a board and then empties cells. */
module Scenarios {
  import opened Outcomes
  import opened Grids
  import opened Difficulties
  import opened Boards
  import opened Solvers
  import opened Puzzles

  /** Copies the test puzzle into a new board cell by cell. */
  method LoadPuzzle() returns (board: Board)
    ensures fresh(board.cells) && board.Valid() && board.Grid() == Puzzle()
  {
    board := new Board();
    PuzzleInRange();
    for r := 0 to 9
      invariant fresh(board.cells) && board.Valid()
      invariant forall k | 0 <= k < Index(r, 0) :: board.Grid()[k] == Puzzle()[k]
    {
      for c := 0 to 9
        invariant fresh(board.cells) && board.Valid()
        invariant forall k | 0 <= k < Index(r, c) :: board.Grid()[k] == Puzzle()[k]
      {
        var _ := board.Set(r, c, Puzzle()[Index(r, c)]);
      }
    }
    assert board.Grid() == Puzzle();
  }

  /** Solving the test puzzle, whatever the shuffles, fills every cell, keeps every given
      digit and leaves a legal board. */
  method SolveTestPuzzle(shuffles: nat -> seq<int>) returns (grid: seq<int>)
    requires Shuffles(shuffles)
    ensures |grid| == 81 && Full(grid) && Legal(grid) && Extends(grid, Puzzle())
  {
    var board := LoadPuzzle();
    PuzzleIsSolvable();
    Solve(board, shuffles);
    grid := board.Grid();
  }

  /** A new game: solve an empty board, then empty cells for the tier. The result keeps
      exactly the tier's number of filled cells and is legal. */
  method NewGame(difficulty: Difficulty, shuffles: nat -> seq<int>, draw: nat -> (int, int))
    returns (grid: seq<int>)
    requires Shuffles(shuffles) && DrawsOnBoard(draw) && FairDraws(draw)
    ensures |grid| == 81 && Legal(grid) && Filled(grid) == difficulty.CellsToFill()
  {
    var board := new Board();
    EmptyIsSolvable();
    Solve(board, shuffles);
    ghost var solved := board.Grid();
    NoEmptyCellIsFull(solved);
    board.RemoveFields(difficulty, draw);
    grid := board.Grid();
    assert Extends(solved, grid);
    LegalBelow(solved, grid);
  }

  /** The empty board has a legal completion. */
  lemma EmptyIsSolvable()
    ensures Solvable(EmptyGrid())
  {
    SolutionIsFull();
    SolutionIsLegal();
    assert Extends(Solution(), EmptyGrid());
  }

  /** A value written through row 0 is read back by the row and by `Get`. */
  method WriteThroughRow() returns (viaRow: int, viaGet: int)
    ensures viaRow == 5 && viaGet == 5
  {
    var board := new Board();
    var row := board.GetRow(0).value;
    var _ := row.SetFieldValue(0, 5);
    viaRow := row.GetFieldValue(0);
    viaGet := board.Get(0, 0);
  }

  /** A value written through column 1 is read back by the column and by row 1. */
  method WriteThroughColumn() returns (viaColumn: int, viaRow: int)
    ensures viaColumn == 7 && viaRow == 7
  {
    var board := new Board();
    var column := board.GetColumn(1).value;
    var _ := column.SetFieldValue(1, 7);
    viaColumn := column.GetFieldValue(1);
    viaRow := board.GetRow(1).value.GetFieldValue(1);
  }

  /** A value written at the middle of the box of (1, 1) is read back by the box and by
      `Get` at (1, 1). */
  method WriteThroughBox() returns (viaBox: int, viaGet: int)
    ensures viaBox == 9 && viaGet == 9
  {
    var board := new Board();
    var box := board.GetBox(1, 1).value;
    assert BoxNumber(1, 1) == 0 && PosInBox(1, 1) == 4 && Index(1, 1) == 10;
    SlotsInStore(0);
    assert box.store == board.cells && box.slots[4] == 10;
    ghost var before := board.Grid();
    var _ := box.SetFieldValue(4, 9);
    assert board.Grid() == before[10 := 9];
    assert board.Valid();
    viaBox := box.GetFieldValue(4);
    viaGet := board.Get(1, 1);
  }

  /** Writing a value outside [0,9] fails and leaves the cell as it was. */
  method SetOutOfRange() returns (s: Status, value: int)
    ensures s == Failed(InvalidValue) && value == 0
  {
    var board := new Board();
    s := board.Set(0, 0, 25);
    value := board.Get(0, 0);
  }

  /** The empty grid is legal: no group holds any digit. */
  lemma EmptyIsLegal()
    ensures Legal(EmptyGrid())
  {
    forall k | 0 <= k < 9
      ensures GroupsOk(EmptyGrid(), k)
    {
      SlotsInStore(k);
    }
  }

  /** On the empty grid any digit may go anywhere, and the result is legal. */
  lemma FirstMoveIsFree(r: int, c: int, v: int)
    requires 0 <= r < 9 && 0 <= c < 9 && 1 <= v <= 9
    ensures !Clashes(EmptyGrid(), r, c, v)
    ensures Legal(EmptyGrid()[Index(r, c) := v])
  {
    EmptyIsLegal();
    BoxCoordinates(r, c);
    SlotsInStore(r);
    SlotsInStore(c);
    SlotsInStore(BoxOf(r, c));
    LegalAfterWrite(EmptyGrid(), r, c, v);
  }

  /** After a 5 at (0, 0), a 5 at (0, 1) repeats a digit in row 0. */
  lemma SecondFiveClashes()
    ensures Legal(EmptyGrid()[Index(0, 0) := 5])
    ensures !Legal(EmptyGrid()[Index(0, 0) := 5][Index(0, 1) := 5])
  {
    FirstMoveIsFree(0, 0, 5);
    var g := EmptyGrid()[Index(0, 0) := 5];
    assert Row(g, 0)[0] == 5;
    assert Clashes(g, 0, 1, 5);
    LegalAfterWrite(g, 0, 1, 5);
  }

  /** A final move of 5 into an empty board stands; a second 5 in the same row is refused
      and undone. */
  method SecondFiveInRowRefused() returns (first: Status, second: Status, value: int)
    ensures first == Done && second == Failed(ImpossibleMove) && value == 0
  {
    var board := new Board();
    SecondFiveClashes();
    first := board.SetMove(0, 0, 5, true);
    second := board.SetMove(0, 1, 5, true);
    value := board.Get(0, 1);
  }

  /** Row and column indexes outside [0,8] fail, and so does a box whose computed number is;
      a cell just off the board can still name a box. */
  method IndexChecks() returns (row: bool, column: bool, farBox: bool, leftOfBox0: bool, rightOfBox0: bool)
    ensures !row && !column && !farBox && leftOfBox0 && rightOfBox0
  {
    var board := new Board();
    row := board.GetRow(53).Ok?;
    column := board.GetColumn(53).Ok?;
    farBox := board.GetBox(15, 53).Ok?;
    leftOfBox0 := board.GetBox(-1, 0).Ok? && board.GetBox(-1, 0).value == board.boxes[0];
    rightOfBox0 := board.GetBox(0, 9).Ok? && board.GetBox(0, 9).value == board.boxes[3];
  }

  /** A clone equals its original until the original is written. */
  method CloneIsIndependent() returns (equalBefore: bool, equalAfter: bool, cloneValue: int)
    ensures equalBefore && !equalAfter && cloneValue == 0
  {
    var original := new Board();
    var copy := original.Clone();
    equalBefore := original.Equals(copy);
    var _ := original.Set(0, 0, 1);
    equalAfter := original.Equals(copy);
    cloneValue := copy.Get(0, 0);
  }

  /** Trying 0 never reads the cell, so it is accepted even off the board. */
  method ZeroTrialOffBoard() returns (answer: Result<bool>, stillEmpty: bool)
    ensures answer == Ok(true) && stillEmpty
  {
    var board := new Board();
    answer := board.IsValidMove(9, 20, 0);
    stillEmpty := board.Grid() == EmptyGrid();
  }

  /** Trying the digit a cell already holds clears that cell. */
  method TrialClearsCell() returns (answer: Result<bool>, before: int, after: int)
    ensures answer == Ok(true) && before == 5 && after == 0
  {
    var board := new Board();
    var _ := board.Set(0, 0, 5);
    before := board.Get(0, 0);
    FirstMoveIsFree(0, 0, 5);
    assert board.Grid()[Index(0, 0) := 5] == board.Grid();
    answer := board.IsValidMove(0, 0, 5);
    after := board.Get(0, 0);
  }

  /** The restoring trial gives the same answer and keeps the digit. */
  method RestoringTrialKeepsCell() returns (answer: Result<bool>, before: int, after: int)
    ensures answer == Ok(true) && before == 5 && after == 5
  {
    var board := new Board();
    var _ := board.Set(0, 0, 5);
    before := board.Get(0, 0);
    FirstMoveIsFree(0, 0, 5);
    assert board.Grid()[Index(0, 0) := 5] == board.Grid();
    answer := board.IsValidMoveRestoring(0, 0, 5);
    after := board.Get(0, 0);
  }
}

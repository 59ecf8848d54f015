/** SudokuBoard: 81 cells in one row-major store, with 9 row, 9 column and 9 box views
    built over that same store, a legality check, guarded writes, random hole-punching,
    copying and comparison. */
module Boards {
  import opened Outcomes
  import opened Fields
  import opened Grids
  import opened Groups
  import opened Difficulties

  /** Integer division as Java computes it: the quotient is truncated toward zero. */
  function TruncDiv(a: int, b: int): int
    requires b > 0
  {
    if a >= 0 then a / b else -((-a) / b)
  }

  /** The box number `getBox` computes from a row and a column; neither coordinate is
      checked on its own. */
  function BoxNumber(row: int, col: int): int {
    TruncDiv(row, 3) * 3 + TruncDiv(col, 3)
  }

  /** On the board, the box number is the box that holds the cell. */
  lemma BoxNumberOnBoard(row: int, col: int)
    ensures 0 <= row < 9 && 0 <= col < 9 ==>
              BoxNumber(row, col) == BoxOf(row, col) && 0 <= BoxOf(row, col) < 9
              && 0 <= PosInBox(row, col) < 9 && BoxSlots(BoxOf(row, col))[PosInBox(row, col)] == Index(row, col)
  {
    if 0 <= row < 9 && 0 <= col < 9 {
      ViewsShareCell(row, col);
    }
  }

  /** Random draws of a cell, as a stream: every draw is a cell of the board. */
  ghost predicate DrawsOnBoard(draw: nat -> (int, int)) {
    forall n: nat :: 0 <= draw(n).0 < 9 && 0 <= draw(n).1 < 9
  }

  /** Cell (r, c) is drawn again at or after draw number n. */
  ghost predicate DrawnAgain(draw: nat -> (int, int), n: nat, r: int, c: int) {
    exists m: nat :: n <= m && draw(m) == (r, c)
  }

  /** No cell is avoided forever: the stream keeps drawing every cell. */
  ghost predicate FairDraws(draw: nat -> (int, int)) {
    forall n: nat, r: int, c: int | 0 <= r < 9 && 0 <= c < 9 :: DrawnAgain(draw, n, r, c)
  }

  class Board {
    /** The cell store, and the views over it. */
    const cells: array<int>
    const rows: seq<Group>
    const columns: seq<Group>
    const boxes: seq<Group>

    /** Row, column and box k refer to the cells the coordinate maps name, in order. */
    predicate Wired() {
      && cells.Length == 81 && |rows| == 9 && |columns| == 9 && |boxes| == 9
      && (forall k | 0 <= k < 9 ::
            rows[k].store == cells && rows[k].slots == RowSlots(k) && rows[k].kind == SudokuRow)
      && (forall k | 0 <= k < 9 ::
            columns[k].store == cells && columns[k].slots == ColumnSlots(k) && columns[k].kind == SudokuColumn)
      && (forall k | 0 <= k < 9 ::
            boxes[k].store == cells && boxes[k].slots == BoxSlots(k) && boxes[k].kind == SudokuBox)
    }

    /** Wired, and every cell holds 0 or a digit. */
    predicate Valid()
      reads cells
    {
      Wired() && AllInRange(cells[..])
    }

    /** The 81 values, row-major. */
    function Grid(): seq<int>
      reads cells
    {
      cells[..]
    }

    /** A new board: every cell 0, and the 27 views over the one store. */
    constructor ()
      ensures Valid() && fresh(cells) && Grid() == EmptyGrid()
    {
      var store := InitializeFields();
      var rowViews := InitializeRows(store);
      var columnViews := InitializeColumns(store);
      var boxViews := InitializeBoxes(store);
      cells, rows, columns, boxes := store, rowViews, columnViews, boxViews;
    }

    /** A fresh store of 81 empty cells, written row by row. */
    static method InitializeFields() returns (store: array<int>)
      ensures fresh(store) && store.Length == 81 && store[..] == EmptyGrid()
    {
      store := new int[81];
      for r := 0 to 9
        invariant forall k | 0 <= k < Index(r, 0) :: store[k] == 0
      {
        for c := 0 to 9
          invariant forall k | 0 <= k < Index(r, c) :: store[k] == 0
        {
          store[Index(r, c)] := 0;
        }
      }
    }

    /** Row r is the view of cells (r, 0) .. (r, 8). */
    static method InitializeRows(store: array<int>) returns (rows: seq<Group>)
      ensures |rows| == 9
      ensures forall k | 0 <= k < 9 ::
                rows[k].store == store && rows[k].slots == RowSlots(k) && rows[k].kind == SudokuRow
    {
      rows := [];
      for r := 0 to 9
        invariant |rows| == r
        invariant forall k | 0 <= k < r ::
                    rows[k].store == store && rows[k].slots == RowSlots(k) && rows[k].kind == SudokuRow
      {
        var row := new Group(store, RowSlots(r), SudokuRow);
        rows := rows + [row];
      }
    }

    /** Column c is the view of cells (0, c) .. (8, c), gathered one row at a time. */
    static method InitializeColumns(store: array<int>) returns (columns: seq<Group>)
      ensures |columns| == 9
      ensures forall k | 0 <= k < 9 ::
                columns[k].store == store && columns[k].slots == ColumnSlots(k)
                && columns[k].kind == SudokuColumn
    {
      columns := [];
      for c := 0 to 9
        invariant |columns| == c
        invariant forall k | 0 <= k < c ::
                    columns[k].store == store && columns[k].slots == ColumnSlots(k)
                    && columns[k].kind == SudokuColumn
      {
        var column: seq<int> := [];
        for r := 0 to 9
          invariant |column| == r && forall i | 0 <= i < r :: column[i] == Index(i, c)
        {
          column := column + [Index(r, c)];
        }
        assert column == ColumnSlots(c);
        var g := new Group(store, column, SudokuColumn);
        columns := columns + [g];
      }
    }

    /** Walks every cell once and files its position under its box number, at its place
        in the box: what is filed under box b, in order, is that box's positions. */
    static method FileBoxes() returns (filed: array2<int>)
      ensures fresh(filed) && filed.Length0 == 9 && filed.Length1 == 9
      ensures forall b, p | 0 <= b < 9 && 0 <= p < 9 :: filed[b, p] == BoxSlots(b)[p]
    {
      filed := new int[9, 9];
      for r := 0 to 9
        invariant forall r', c' | 0 <= r' < r && 0 <= c' < 9 ::
                    filed[BoxOf(r', c'), PosInBox(r', c')] == Index(r', c')
      {
        for c := 0 to 9
          invariant forall r', c' | 0 <= r' < r && 0 <= c' < 9 ::
                      filed[BoxOf(r', c'), PosInBox(r', c')] == Index(r', c')
          invariant forall c' | 0 <= c' < c :: filed[BoxOf(r, c'), PosInBox(r, c')] == Index(r, c')
        {
          var boxNumber, inBoxPos := BoxOf(r, c), PosInBox(r, c);
          forall r', c' | 0 <= r' < 9 && 0 <= c' < 9 && (r', c') != (r, c)
            ensures (BoxOf(r', c'), PosInBox(r', c')) != (boxNumber, inBoxPos)
          {
            BoxPlacesDistinct(r', c', r, c);
          }
          filed[boxNumber, inBoxPos] := Index(r, c);
        }
      }
      forall b, p | 0 <= b < 9 && 0 <= p < 9 ensures filed[b, p] == BoxSlots(b)[p] {
        BoxPositions(b, p);
        var r', c' := BoxRow(b, p), BoxCol(b, p);
        assert filed[BoxOf(r', c'), PosInBox(r', c')] == Index(r', c');
      }
    }

    /** Box b is the view of the positions filed under b. */
    static method InitializeBoxes(store: array<int>) returns (boxes: seq<Group>)
      ensures |boxes| == 9
      ensures forall k | 0 <= k < 9 ::
                boxes[k].store == store && boxes[k].slots == BoxSlots(k) && boxes[k].kind == SudokuBox
    {
      var filed := FileBoxes();
      var boxSlots := seq(9, b reads filed requires 0 <= b < 9 =>
                        seq(9, p reads filed requires 0 <= p < 9 => filed[b, p]));
      assert forall b | 0 <= b < 9 :: boxSlots[b] == BoxSlots(b);
      boxes := [];
      for i := 0 to 9
        invariant |boxes| == i
        invariant forall k | 0 <= k < i ::
                    boxes[k].store == store && boxes[k].slots == BoxSlots(k) && boxes[k].kind == SudokuBox
      {
        var g := new Group(store, boxSlots[i], SudokuBox);
        boxes := boxes + [g];
      }
    }

    /** The value of cell (row, col): always 0 or a digit. */
    function Get(row: int, col: int): (v: int)
      reads cells
      requires Valid() && 0 <= row < 9 && 0 <= col < 9
      ensures InRange(v) && v == Grid()[Index(row, col)]
    {
      cells[Index(row, col)]
    }

    /** Row `row`, column `col` and box BoxOf(row, col) at PosInBox(row, col) all read
        cell (row, col): a write through any of them is seen by `Get` and by the others. */
    lemma ViewsShareCells(row: int, col: int)
      requires Valid() && 0 <= row < 9 && 0 <= col < 9
      ensures 0 <= BoxOf(row, col) < 9 && 0 <= PosInBox(row, col) < 9
      ensures rows[row].slots[col] == columns[col].slots[row]
           == boxes[BoxOf(row, col)].slots[PosInBox(row, col)] == Index(row, col)
      ensures rows[row].Wired() && columns[col].Wired() && boxes[BoxOf(row, col)].Wired()
      ensures rows[row].GetFieldValue(col) == columns[col].GetFieldValue(row)
           == boxes[BoxOf(row, col)].GetFieldValue(PosInBox(row, col)) == Get(row, col)
    {
      ViewsShareCell(row, col);
      SlotsInStore(row);
      SlotsInStore(col);
      SlotsInStore(BoxOf(row, col));
    }

    /** View k of each kind sees exactly row, column or box k of the grid. */
    lemma ViewsSeeGroups(k: int)
      requires Valid() && 0 <= k < 9
      ensures rows[k].Wired() && columns[k].Wired() && boxes[k].Wired()
      ensures rows[k].Values() == Row(Grid(), k) && AllInRange(rows[k].Values())
      ensures columns[k].Values() == Column(Grid(), k) && AllInRange(columns[k].Values())
      ensures boxes[k].Values() == Box(Grid(), k) && AllInRange(boxes[k].Values())
    {
      SlotsInStore(k);
      GroupsInRange(Grid(), k);
    }

    /** Writes `val` into cell (row, col) when it is in [0,9]; otherwise fails and changes
        nothing. No other cell changes. */
    method Set(row: int, col: int, val: int) returns (s: Status)
      requires Valid() && 0 <= row < 9 && 0 <= col < 9
      modifies cells
      ensures Valid()
      ensures InRange(val) ==> s == Done && Grid() == old(Grid())[Index(row, col) := val]
      ensures !InRange(val) ==> s == Failed(InvalidValue) && Grid() == old(Grid())
    {
      if !InRange(val) {
        return Failed(InvalidValue);
      }
      cells[Index(row, col)] := val;
      return Done;
    }

    /** A write that, as a final move, is undone and refused when it leaves the board
        illegal; otherwise a plain `Set`. On a legal board a final move of a digit
        succeeds exactly when no other cell of its row, column or box holds it. */
    method SetMove(row: int, col: int, val: int, isFinalMove: bool) returns (s: Status)
      requires Valid() && 0 <= row < 9 && 0 <= col < 9
      modifies cells
      ensures Valid()
      ensures !InRange(val) ==> s == Failed(InvalidValue) && Grid() == old(Grid())
      ensures InRange(val) && isFinalMove && !Legal(old(Grid())[Index(row, col) := val]) ==>
                s == Failed(ImpossibleMove) && Grid() == old(Grid())
      ensures InRange(val) && (!isFinalMove || Legal(old(Grid())[Index(row, col) := val])) ==>
                s == Done && Grid() == old(Grid())[Index(row, col) := val]
      ensures isFinalMove && Legal(old(Grid())) && val != 0 ==>
                (s == Done <==> InRange(val) && !Clashes(old(Grid()), row, col, val))
    {
      if isFinalMove && Legal(Grid()) && val != 0 {
        LegalAfterWrite(Grid(), row, col, val);
      }
      var previousValue := Get(row, col);
      s := Set(row, col, val);
      if s.Failed? {
        return;
      }
      if isFinalMove {
        var ok := CheckBoard();
        if !ok {
          var _ := Set(row, col, previousValue);
          assert Grid() == old(Grid());
          return Failed(ImpossibleMove);
        }
      }
    }

    /** True exactly when all 27 views pass the duplicate-digit rule, i.e. the board is
        legal. */
    method CheckBoard() returns (ok: bool)
      requires Valid()
      ensures ok == Legal(Grid())
    {
      for i := 0 to 9
        invariant forall k | 0 <= k < i :: GroupsOk(Grid(), k)
      {
        ViewsSeeGroups(i);
        var groupOk := rows[i].Verify();
        if groupOk {
          groupOk := columns[i].Verify();
        }
        if groupOk {
          groupOk := boxes[i].Verify();
        }
        if !groupOk {
          assert !GroupsOk(Grid(), i);
          return false;
        }
      }
      return true;
    }

    /** Row r is the view of cells (r, 0) .. (r, 8); an index outside [0,8] fails. */
    function GetRow(r: int): (res: Result<Group>)
      requires Wired()
      ensures res.Ok? <==> 0 <= r < 9
      ensures res.Err? ==> res.error == IndexOutOfBounds
      ensures res.Ok? ==> res.value.store == cells && res.value.kind == SudokuRow
                          && |res.value.slots| == 9
                          && forall c | 0 <= c < 9 :: res.value.slots[c] == Index(r, c)
    {
      if 0 <= r < 9 then Ok(rows[r]) else Err(IndexOutOfBounds)
    }

    /** Column c is the view of cells (0, c) .. (8, c); an index outside [0,8] fails. */
    function GetColumn(c: int): (res: Result<Group>)
      requires Wired()
      ensures res.Ok? <==> 0 <= c < 9
      ensures res.Err? ==> res.error == IndexOutOfBounds
      ensures res.Ok? ==> res.value.store == cells && res.value.kind == SudokuColumn
                          && |res.value.slots| == 9
                          && forall r | 0 <= r < 9 :: res.value.slots[r] == Index(r, c)
    {
      if 0 <= c < 9 then Ok(columns[c]) else Err(IndexOutOfBounds)
    }

    /** The box of (row, col). It fails only when the computed box number is outside
        [0,8]; for a cell of the board it is the box that holds the cell. */
    function GetBox(row: int, col: int): (res: Result<Group>)
      requires Wired()
      ensures res.Ok? <==> 0 <= BoxNumber(row, col) < 9
      ensures res.Err? ==> res.error == IndexOutOfBounds
      ensures res.Ok? ==> res.value.store == cells && res.value.kind == SudokuBox
                          && res.value.slots == BoxSlots(BoxNumber(row, col))
      ensures 0 <= row < 9 && 0 <= col < 9 ==>
                res.Ok? && 0 <= PosInBox(row, col) < 9
                && res.value.slots[PosInBox(row, col)] == Index(row, col)
    {
      BoxNumberOnBoard(row, col);
      var boxIndex := BoxNumber(row, col);
      if 0 <= boxIndex < 9 then Ok(boxes[boxIndex]) else Err(IndexOutOfBounds)
    }

    /** Tries `value` in cell (row, col) and reports whether the board would be legal.
        The trial write is undone by writing 0, so a cell that held a digit is left
        empty; 0 is always accepted without a write, and a value outside [0,9] fails. */
    method IsValidMove(row: int, col: int, value: int) returns (res: Result<bool>)
      requires Valid() && (value != 0 ==> 0 <= row < 9 && 0 <= col < 9)
      modifies cells
      ensures Valid()
      ensures value == 0 ==> res == Ok(true) && Grid() == old(Grid())
      ensures value != 0 && !InRange(value) ==> res == Err(InvalidValue) && Grid() == old(Grid())
      ensures value != 0 && InRange(value) ==>
                res == Ok(Legal(old(Grid())[Index(row, col) := value]))
                && Grid() == old(Grid())[Index(row, col) := 0]
      ensures value != 0 && InRange(value) && Legal(old(Grid())) ==>
                (res == Ok(true) <==> !Clashes(old(Grid()), row, col, value))
    {
      if value != 0 {
        if InRange(value) && Legal(Grid()) {
          LegalAfterWrite(Grid(), row, col, value);
        }
        var s := Set(row, col, value);
        if s.Failed? {
          return Err(s.error);
        }
        var valid := CheckBoard();
        var _ := Set(row, col, 0);
        return Ok(valid);
      }
      return Ok(true);
    }

    /** The same check with the trial write undone by restoring the previous value: the
        board is left as it was. */
    method IsValidMoveRestoring(row: int, col: int, value: int) returns (res: Result<bool>)
      requires Valid() && (value != 0 ==> 0 <= row < 9 && 0 <= col < 9)
      modifies cells
      ensures Valid() && Grid() == old(Grid())
      ensures value == 0 ==> res == Ok(true)
      ensures value != 0 && !InRange(value) ==> res == Err(InvalidValue)
      ensures value != 0 && InRange(value) ==> res == Ok(Legal(old(Grid())[Index(row, col) := value]))
      ensures value != 0 && InRange(value) && Legal(old(Grid())) ==>
                (res == Ok(true) <==> !Clashes(old(Grid()), row, col, value))
    {
      if value != 0 {
        if InRange(value) && Legal(Grid()) {
          LegalAfterWrite(Grid(), row, col, value);
        }
        var previousValue := Get(row, col);
        var s := Set(row, col, value);
        if s.Failed? {
          return Err(s.error);
        }
        var valid := CheckBoard();
        var _ := Set(row, col, previousValue);
        assert Grid() == old(Grid());
        return Ok(valid);
      }
      return Ok(true);
    }

    /** Empties `81 - difficulty.CellsToFill()` filled cells, each chosen by drawing cells
        until a filled one comes up. Only filled cells are emptied; every other cell keeps
        its value. The draws must keep reaching every cell, or the search for a filled cell
        could go on for ever. */
    method RemoveFields(difficulty: Difficulty, draw: nat -> (int, int))
      requires Valid() && DrawsOnBoard(draw) && FairDraws(draw)
      requires Filled(Grid()) >= 81 - difficulty.CellsToFill()
      modifies cells
      ensures Valid()
      ensures Filled(Grid()) == Filled(old(Grid())) - (81 - difficulty.CellsToFill())
      ensures forall k | 0 <= k < 81 :: Grid()[k] == old(Grid())[k] || (old(Grid())[k] != 0 && Grid()[k] == 0)
      ensures Full(old(Grid())) ==> Filled(Grid()) == difficulty.CellsToFill()
    {
      if Full(Grid()) {
        NoEmptyCellIsFull(Grid());
      }
      var cellsToRemove := 81 - difficulty.CellsToFill();
      var n: nat := 0;
      for i := 0 to cellsToRemove
        invariant Valid()
        invariant Filled(Grid()) == Filled(old(Grid())) - i
        invariant forall k | 0 <= k < 81 ::
                    Grid()[k] == old(Grid())[k] || (old(Grid())[k] != 0 && Grid()[k] == 0)
      {
        ghost var g := Grid();
        ghost var target := OtherWitness(g, 0);
        assert DrawnAgain(draw, n, target / 9, target % 9);
        ghost var m: nat :| n <= m && draw(m) == (target / 9, target % 9);
        assert Index(target / 9, target % 9) == target;
        var r, c := draw(n).0, draw(n).1;
        n := n + 1;
        while Get(r, c) == 0
          invariant Grid() == g
          invariant 0 <= r < 9 && 0 <= c < 9 && 1 <= n && (r, c) == draw(n - 1) && n - 1 <= m
          decreases m + 1 - n
        {
          r, c := draw(n).0, draw(n).1;
          n := n + 1;
        }
        var _ := Set(r, c, 0);
        OccurrencesAfterWrite(g, Index(r, c), 0, 0);
      }
    }

    /** A new board with the same cell values in its own store. */
    method Clone() returns (b: Board)
      requires Valid()
      ensures fresh(b) && fresh(b.cells) && b.Valid() && b.Grid() == Grid()
      ensures b.Equals(this) && this.Equals(b)
    {
      b := new Board();
      for r := 0 to 9
        invariant fresh(b.cells) && b.Valid()
        invariant forall k | 0 <= k < Index(r, 0) :: b.cells[k] == cells[k]
      {
        for c := 0 to 9
          invariant fresh(b.cells) && b.Valid()
          invariant forall k | 0 <= k < Index(r, c) :: b.cells[k] == cells[k]
        {
          var _ := b.Set(r, c, Get(r, c));
        }
      }
      assert b.Grid() == Grid();
    }

    /** Boards are equal when every cell holds the same value; null is never equal. */
    function Equals(other: Board?): (eq: bool)
      reads cells, if other == null then {} else {other.cells}
      requires Valid() && (other != null ==> other.Valid())
      ensures eq <==> other != null && forall r, c | 0 <= r < 9 && 0 <= c < 9 :: other.Get(r, c) == Get(r, c)
    {
      if other == null then false
      else
        CellsByCoordinates(cells[..], other.cells[..]);
        assert forall r, c | 0 <= r < 9 && 0 <= c < 9 ::
          Get(r, c) == cells[..][Index(r, c)] && other.Get(r, c) == other.cells[..][Index(r, c)];
        cells[..] == other.cells[..]
    }
  }

  /** Two grids agree when they agree at every (row, column). */
  lemma CellsByCoordinates(g: seq<int>, h: seq<int>)
    requires |g| == 81 && |h| == 81
    ensures g == h <==> forall r, c | 0 <= r < 9 && 0 <= c < 9 :: g[Index(r, c)] == h[Index(r, c)]
  {
    if forall r, c | 0 <= r < 9 && 0 <= c < 9 :: g[Index(r, c)] == h[Index(r, c)] {
      forall k | 0 <= k < 81 ensures g[k] == h[k] {
        assert k == Index(k / 9, k % 9);
      }
    }
  }
}

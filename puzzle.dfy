/** The partial grid the solver is exercised on, and a full legal grid that keeps its
    digits: the puzzle therefore has a legal completion. */
module Puzzles {
  import opened Grids

  /** The given digits of the puzzle, row-major; every other cell is empty. */
  function PuzzleCell(k: int): int {
    match k
    case 5 => 1
    case 15 => 4
    case 20 => 4
    case 26 => 6
    case 31 => 2
    case 33 => 3
    case 35 => 7
    case 42 => 9
    case 45 => 3
    case 46 => 1
    case 48 => 8
    case 49 => 7
    case 59 => 5
    case 60 => 6
    case 64 => 9
    case 75 => 2
    case 76 => 4
    case _ => 0
  }

  function Puzzle(): seq<int> {
    seq(81, PuzzleCell)
  }

  /** A completion of the puzzle, by row and column. */
  function SolutionAt(r: int, c: int): int {
    match r
    case 0 => (match c case 0 => 2 case 1 => 3 case 2 => 5 case 3 => 4 case 4 => 6 case 5 => 1 case 6 => 7 case 7 => 8 case 8 => 9 case _ => 0)
    case 1 => (match c case 0 => 1 case 1 => 6 case 2 => 7 case 3 => 3 case 4 => 8 case 5 => 9 case 6 => 4 case 7 => 2 case 8 => 5 case _ => 0)
    case 2 => (match c case 0 => 9 case 1 => 8 case 2 => 4 case 3 => 7 case 4 => 5 case 5 => 2 case 6 => 1 case 7 => 3 case 8 => 6 case _ => 0)
    case 3 => (match c case 0 => 8 case 1 => 5 case 2 => 6 case 3 => 9 case 4 => 2 case 5 => 4 case 6 => 3 case 7 => 1 case 8 => 7 case _ => 0)
    case 4 => (match c case 0 => 7 case 1 => 4 case 2 => 2 case 3 => 5 case 4 => 1 case 5 => 3 case 6 => 9 case 7 => 6 case 8 => 8 case _ => 0)
    case 5 => (match c case 0 => 3 case 1 => 1 case 2 => 9 case 3 => 8 case 4 => 7 case 5 => 6 case 6 => 2 case 7 => 5 case 8 => 4 case _ => 0)
    case 6 => (match c case 0 => 4 case 1 => 2 case 2 => 8 case 3 => 1 case 4 => 9 case 5 => 5 case 6 => 6 case 7 => 7 case 8 => 3 case _ => 0)
    case 7 => (match c case 0 => 5 case 1 => 9 case 2 => 1 case 3 => 6 case 4 => 3 case 5 => 7 case 6 => 8 case 7 => 4 case 8 => 2 case _ => 0)
    case 8 => (match c case 0 => 6 case 1 => 7 case 2 => 3 case 3 => 2 case 4 => 4 case 5 => 8 case 6 => 5 case 7 => 9 case 8 => 1 case _ => 0)
    case _ => 0
  }

  function Solution(): seq<int> {
    seq(81, k => SolutionAt(k / 9, k % 9))
  }

  lemma SolutionInRange()
    ensures |Solution()| == 81 && AllInRange(Solution())
  {
  }

  lemma SolutionIsFull()
    ensures Full(Solution())
  {
  }

  lemma SolutionKeepsPuzzle()
    ensures Extends(Solution(), Puzzle())
  {
  }

  lemma PuzzleInRange()
    ensures |Puzzle()| == 81 && AllInRange(Puzzle())
  {
  }

  /** Row k, column k and box k of the solution, read off the table. */
  lemma SolutionViews(k: int, p: int)
    requires 0 <= k < 9 && 0 <= p < 9
    ensures Row(Solution(), k)[p] == SolutionAt(k, p)
    ensures Column(Solution(), k)[p] == SolutionAt(p, k)
    ensures Box(Solution(), k)[p] == SolutionAt(BoxRow(k, p), BoxCol(k, p))
  {
    BoxPositions(k, p);
    var r, c := BoxRow(k, p), BoxCol(k, p);
    assert Index(k, p) / 9 == k && Index(k, p) % 9 == p;
    assert Index(p, k) / 9 == p && Index(p, k) % 9 == k;
    assert Index(r, c) / 9 == r && Index(r, c) % 9 == c;
  }

  /** Row k of the solution holds digit d at place p<d>, so no digit twice. */
  lemma SolutionRowDigits(k: int, p1: int, p2: int, p3: int, p4: int, p5: int, p6: int, p7: int, p8: int, p9: int)
    requires 0 <= k < 9
    requires 0 <= p1 < 9 && 0 <= p2 < 9 && 0 <= p3 < 9 && 0 <= p4 < 9 && 0 <= p5 < 9
    requires 0 <= p6 < 9 && 0 <= p7 < 9 && 0 <= p8 < 9 && 0 <= p9 < 9
    requires SolutionAt(k, p1) == 1 && SolutionAt(k, p2) == 2 && SolutionAt(k, p3) == 3
    requires SolutionAt(k, p4) == 4 && SolutionAt(k, p5) == 5 && SolutionAt(k, p6) == 6
    requires SolutionAt(k, p7) == 7 && SolutionAt(k, p8) == 8 && SolutionAt(k, p9) == 9
    ensures NoDuplicateDigit(Row(Solution(), k))
  {
    SolutionInRange();
    GroupsInRange(Solution(), k);
    SolutionViews(k, p1); SolutionViews(k, p2); SolutionViews(k, p3);
    SolutionViews(k, p4); SolutionViews(k, p5); SolutionViews(k, p6);
    SolutionViews(k, p7); SolutionViews(k, p8); SolutionViews(k, p9);
    EveryDigitAt(Row(Solution(), k), p1, p2, p3, p4, p5, p6, p7, p8, p9);
  }

  /** Column k of the solution holds digit d at place p<d>, so no digit twice. */
  lemma SolutionColumnDigits(k: int, p1: int, p2: int, p3: int, p4: int, p5: int, p6: int, p7: int, p8: int, p9: int)
    requires 0 <= k < 9
    requires 0 <= p1 < 9 && 0 <= p2 < 9 && 0 <= p3 < 9 && 0 <= p4 < 9 && 0 <= p5 < 9
    requires 0 <= p6 < 9 && 0 <= p7 < 9 && 0 <= p8 < 9 && 0 <= p9 < 9
    requires SolutionAt(p1, k) == 1 && SolutionAt(p2, k) == 2 && SolutionAt(p3, k) == 3
    requires SolutionAt(p4, k) == 4 && SolutionAt(p5, k) == 5 && SolutionAt(p6, k) == 6
    requires SolutionAt(p7, k) == 7 && SolutionAt(p8, k) == 8 && SolutionAt(p9, k) == 9
    ensures NoDuplicateDigit(Column(Solution(), k))
  {
    SolutionInRange();
    GroupsInRange(Solution(), k);
    SolutionViews(k, p1); SolutionViews(k, p2); SolutionViews(k, p3);
    SolutionViews(k, p4); SolutionViews(k, p5); SolutionViews(k, p6);
    SolutionViews(k, p7); SolutionViews(k, p8); SolutionViews(k, p9);
    EveryDigitAt(Column(Solution(), k), p1, p2, p3, p4, p5, p6, p7, p8, p9);
  }

  /** Box k of the solution holds digit d at place p<d>, so no digit twice. */
  lemma SolutionBoxDigits(k: int, p1: int, p2: int, p3: int, p4: int, p5: int, p6: int, p7: int, p8: int, p9: int)
    requires 0 <= k < 9
    requires 0 <= p1 < 9 && 0 <= p2 < 9 && 0 <= p3 < 9 && 0 <= p4 < 9 && 0 <= p5 < 9
    requires 0 <= p6 < 9 && 0 <= p7 < 9 && 0 <= p8 < 9 && 0 <= p9 < 9
    requires SolutionAt(BoxRow(k, p1), BoxCol(k, p1)) == 1 && SolutionAt(BoxRow(k, p2), BoxCol(k, p2)) == 2
    requires SolutionAt(BoxRow(k, p3), BoxCol(k, p3)) == 3 && SolutionAt(BoxRow(k, p4), BoxCol(k, p4)) == 4
    requires SolutionAt(BoxRow(k, p5), BoxCol(k, p5)) == 5 && SolutionAt(BoxRow(k, p6), BoxCol(k, p6)) == 6
    requires SolutionAt(BoxRow(k, p7), BoxCol(k, p7)) == 7 && SolutionAt(BoxRow(k, p8), BoxCol(k, p8)) == 8
    requires SolutionAt(BoxRow(k, p9), BoxCol(k, p9)) == 9
    ensures NoDuplicateDigit(Box(Solution(), k))
  {
    SolutionInRange();
    GroupsInRange(Solution(), k);
    SolutionViews(k, p1); SolutionViews(k, p2); SolutionViews(k, p3);
    SolutionViews(k, p4); SolutionViews(k, p5); SolutionViews(k, p6);
    SolutionViews(k, p7); SolutionViews(k, p8); SolutionViews(k, p9);
    EveryDigitAt(Box(Solution(), k), p1, p2, p3, p4, p5, p6, p7, p8, p9);
  }

  lemma SolutionGroupsOk0()
    ensures GroupsOk(Solution(), 0)
  {
    SolutionRowDigits(0, 5, 0, 1, 3, 2, 4, 6, 7, 8);
    SolutionColumnDigits(0, 1, 0, 5, 6, 7, 8, 4, 3, 2);
    SolutionBoxDigits(0, 3, 0, 1, 8, 2, 4, 5, 7, 6);
  }

  lemma SolutionGroupsOk1()
    ensures GroupsOk(Solution(), 1)
  {
    SolutionRowDigits(1, 0, 7, 3, 6, 8, 1, 2, 4, 5);
    SolutionColumnDigits(1, 5, 6, 0, 4, 3, 1, 8, 2, 7);
    SolutionBoxDigits(1, 2, 8, 3, 0, 7, 1, 6, 4, 5);
  }

  lemma SolutionGroupsOk2()
    ensures GroupsOk(Solution(), 2)
  {
    SolutionRowDigits(2, 6, 5, 7, 2, 4, 8, 3, 1, 0);
    SolutionColumnDigits(2, 7, 4, 8, 2, 0, 3, 1, 6, 5);
    SolutionBoxDigits(2, 6, 4, 7, 3, 5, 8, 0, 1, 2);
  }

  lemma SolutionGroupsOk3()
    ensures GroupsOk(Solution(), 3)
  {
    SolutionRowDigits(3, 7, 4, 6, 5, 1, 2, 8, 0, 3);
    SolutionColumnDigits(3, 6, 8, 1, 0, 4, 7, 2, 5, 3);
    SolutionBoxDigits(3, 7, 5, 6, 4, 1, 2, 3, 0, 8);
  }

  lemma SolutionGroupsOk4()
    ensures GroupsOk(Solution(), 4)
  {
    SolutionRowDigits(4, 4, 2, 5, 1, 3, 7, 0, 8, 6);
    SolutionColumnDigits(4, 4, 3, 7, 8, 2, 0, 5, 1, 6);
    SolutionBoxDigits(4, 4, 1, 5, 2, 3, 8, 7, 6, 0);
  }

  lemma SolutionGroupsOk5()
    ensures GroupsOk(Solution(), 5)
  {
    SolutionRowDigits(5, 1, 6, 0, 8, 7, 5, 4, 3, 2);
    SolutionColumnDigits(5, 0, 2, 4, 3, 6, 5, 7, 8, 1);
    SolutionBoxDigits(5, 1, 6, 0, 8, 7, 4, 2, 5, 3);
  }

  lemma SolutionGroupsOk6()
    ensures GroupsOk(Solution(), 6)
  {
    SolutionRowDigits(6, 3, 1, 8, 0, 5, 6, 7, 2, 4);
    SolutionColumnDigits(6, 2, 5, 3, 1, 8, 6, 0, 7, 4);
    SolutionBoxDigits(6, 5, 1, 8, 0, 3, 6, 7, 2, 4);
  }

  lemma SolutionGroupsOk7()
    ensures GroupsOk(Solution(), 7)
  {
    SolutionRowDigits(7, 2, 8, 4, 7, 0, 3, 5, 6, 1);
    SolutionColumnDigits(7, 3, 1, 2, 7, 5, 4, 6, 0, 8);
    SolutionBoxDigits(7, 0, 6, 4, 7, 2, 3, 5, 8, 1);
  }

  lemma SolutionGroupsOk8()
    ensures GroupsOk(Solution(), 8)
  {
    SolutionRowDigits(8, 8, 3, 2, 4, 6, 0, 1, 5, 7);
    SolutionColumnDigits(8, 8, 7, 6, 5, 1, 2, 3, 4, 0);
    SolutionBoxDigits(8, 8, 5, 2, 4, 6, 0, 1, 3, 7);
  }

  /** Every row, column and box of the solution holds each digit once. */
  lemma SolutionIsLegal()
    ensures Legal(Solution())
  {
    forall k | 0 <= k < 9 ensures GroupsOk(Solution(), k) {
      if k == 0 {
        SolutionGroupsOk0();
      } else if k == 1 {
        SolutionGroupsOk1();
      } else if k == 2 {
        SolutionGroupsOk2();
      } else if k == 3 {
        SolutionGroupsOk3();
      } else if k == 4 {
        SolutionGroupsOk4();
      } else if k == 5 {
        SolutionGroupsOk5();
      } else if k == 6 {
        SolutionGroupsOk6();
      } else if k == 7 {
        SolutionGroupsOk7();
      } else {
        SolutionGroupsOk8();
      }
    }
  }

  /** The puzzle is not full, and it has a legal completion. */
  lemma PuzzleIsSolvable()
    ensures |Puzzle()| == 81 && AllInRange(Puzzle())
    ensures !Full(Puzzle()) && Solvable(Puzzle())
  {
    PuzzleInRange();
    SolutionIsFull();
    SolutionKeepsPuzzle();
    SolutionIsLegal();
    assert Puzzle()[0] == 0;
  }
}

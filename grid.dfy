/** The 81 cell values of a board as a value, row-major, and the rules the board is
    checked against: the 27 groups (9 rows, 9 columns, 9 boxes) as lists of cell
    positions, the duplicate-digit rule of one group, and legality of the whole grid. */
module Grids {
  import opened Fields

  /** Position of cell (row, col) in the row-major store. */
  function Index(row: int, col: int): int {
    row * 9 + col
  }

  /** The box a cell belongs to, and its place inside that box. */
  function BoxOf(row: int, col: int): int {
    row / 3 * 3 + col / 3
  }

  function PosInBox(row: int, col: int): int {
    row % 3 * 3 + col % 3
  }

  /** The coordinates of position `p` of box `b`. */
  function BoxRow(b: int, p: int): int {
    b / 3 * 3 + p / 3
  }

  function BoxCol(b: int, p: int): int {
    b % 3 * 3 + p % 3
  }

  /** The store positions a row, a column and a box refer to, in view order. */
  function RowSlots(r: int): seq<int> {
    seq(9, c => Index(r, c))
  }

  function ColumnSlots(c: int): seq<int> {
    seq(9, r => Index(r, c))
  }

  function BoxSlots(b: int): seq<int> {
    seq(9, p => Index(BoxRow(b, p), BoxCol(b, p)))
  }

  /** Every position of `slots` is a cell of a store of size `n`. */
  predicate SlotsWithin(slots: seq<int>, n: int) {
    forall p | 0 <= p < |slots| :: 0 <= slots[p] < n
  }

  /** The values a view over `slots` sees in the store `g`. */
  function Gather(g: seq<int>, slots: seq<int>): seq<int>
    requires SlotsWithin(slots, |g|)
  {
    seq(|slots|, p requires 0 <= p < |slots| => g[slots[p]])
  }

  predicate AllInRange(s: seq<int>) {
    forall k | 0 <= k < |s| :: InRange(s[k])
  }

  function EmptyGrid(): seq<int> {
    seq(81, _ => 0)
  }

  // ---------------------------------------------------------------------------
  // The coordinate maps

  /** Row r, column c and box BoxOf(r, c) at PosInBox(r, c) all name cell (r, c). */
  lemma ViewsShareCell(r: int, c: int)
    requires 0 <= r < 9 && 0 <= c < 9
    ensures 0 <= BoxOf(r, c) < 9 && 0 <= PosInBox(r, c) < 9
    ensures RowSlots(r)[c] == Index(r, c)
    ensures ColumnSlots(c)[r] == Index(r, c)
    ensures BoxSlots(BoxOf(r, c))[PosInBox(r, c)] == Index(r, c)
  {
    BoxCoordinates(r, c);
  }

  /** A coordinate in [0,8] splits into a band and an offset, each in [0,2]. */
  lemma SplitCoordinate(x: int)
    requires 0 <= x < 9
    ensures x == x / 3 * 3 + x % 3 && 0 <= x / 3 < 3 && 0 <= x % 3 < 3
  {
  }

  /** A band and an offset in [0,2] are recovered from the coordinate they make. */
  lemma JoinCoordinate(a: int, b: int)
    requires 0 <= a < 3 && 0 <= b < 3
    ensures (a * 3 + b) / 3 == a && (a * 3 + b) % 3 == b
  {
    if a == 0 {
    } else if a == 1 {
    } else {
    }
  }

  lemma BoxCoordinates(r: int, c: int)
    requires 0 <= r < 9 && 0 <= c < 9
    ensures 0 <= BoxOf(r, c) < 9 && 0 <= PosInBox(r, c) < 9
    ensures BoxRow(BoxOf(r, c), PosInBox(r, c)) == r
    ensures BoxCol(BoxOf(r, c), PosInBox(r, c)) == c
  {
    SplitCoordinate(r);
    SplitCoordinate(c);
    JoinCoordinate(r / 3, c / 3);
    JoinCoordinate(r % 3, c % 3);
  }

  /** Distinct cells are filed at distinct places of the boxes. */
  lemma BoxPlacesDistinct(r: int, c: int, r': int, c': int)
    requires 0 <= r < 9 && 0 <= c < 9 && 0 <= r' < 9 && 0 <= c' < 9 && (r, c) != (r', c')
    ensures (BoxOf(r, c), PosInBox(r, c)) != (BoxOf(r', c'), PosInBox(r', c'))
  {
    BoxCoordinates(r, c);
    BoxCoordinates(r', c');
  }

  lemma BoxPositions(b: int, p: int)
    requires 0 <= b < 9 && 0 <= p < 9
    ensures 0 <= BoxRow(b, p) < 9 && 0 <= BoxCol(b, p) < 9
    ensures BoxOf(BoxRow(b, p), BoxCol(b, p)) == b
    ensures PosInBox(BoxRow(b, p), BoxCol(b, p)) == p
  {
    SplitCoordinate(b);
    SplitCoordinate(p);
    JoinCoordinate(b / 3, p / 3);
    JoinCoordinate(b % 3, p % 3);
  }

  /** Every slot list is within the 81-cell store. */
  lemma SlotsInStore(k: int)
    requires 0 <= k < 9
    ensures SlotsWithin(RowSlots(k), 81)
    ensures SlotsWithin(ColumnSlots(k), 81)
    ensures SlotsWithin(BoxSlots(k), 81)
  {
    forall p | 0 <= p < 9 ensures 0 <= BoxRow(k, p) < 9 && 0 <= BoxCol(k, p) < 9 {
      BoxPositions(k, p);
    }
  }

  // ---------------------------------------------------------------------------
  // The duplicate-digit rule and legality

  /** No digit occurs twice in `s`; any number of empty cells (0) is allowed. */
  predicate NoDuplicateDigit(s: seq<int>) {
    forall i, j | 0 <= i < j < |s| :: s[i] != 0 ==> s[i] != s[j]
  }

  /** The values row, column and box `k` of grid `g` see. */
  function Row(g: seq<int>, k: int): seq<int>
    requires |g| == 81 && 0 <= k < 9
  {
    SlotsInStore(k);
    Gather(g, RowSlots(k))
  }

  function Column(g: seq<int>, k: int): seq<int>
    requires |g| == 81 && 0 <= k < 9
  {
    SlotsInStore(k);
    Gather(g, ColumnSlots(k))
  }

  function Box(g: seq<int>, k: int): seq<int>
    requires |g| == 81 && 0 <= k < 9
  {
    SlotsInStore(k);
    Gather(g, BoxSlots(k))
  }

  /** Group number `k` of each kind passes the duplicate-digit rule. */
  predicate GroupsOk(g: seq<int>, k: int)
    requires |g| == 81 && 0 <= k < 9
  {
    NoDuplicateDigit(Row(g, k)) && NoDuplicateDigit(Column(g, k)) && NoDuplicateDigit(Box(g, k))
  }

  /** A legal grid: all 27 groups pass the duplicate-digit rule. */
  predicate Legal(g: seq<int>)
    requires |g| == 81
  {
    forall k | 0 <= k < 9 :: GroupsOk(g, k)
  }

  /** The views of a grid with values in [0,9] see values in [0,9]. */
  lemma GroupsInRange(g: seq<int>, k: int)
    requires |g| == 81 && AllInRange(g) && 0 <= k < 9
    ensures AllInRange(Row(g, k)) && AllInRange(Column(g, k)) && AllInRange(Box(g, k))
  {
    SlotsInStore(k);
  }

  // ---------------------------------------------------------------------------
  // Counting

  /** How often `d` occurs in `s`. */
  function Occurrences(s: seq<int>, d: int): (n: nat)
    ensures n <= |s|
  {
    if |s| == 0 then 0 else Occurrences(s[..|s| - 1], d) + (if s[|s| - 1] == d then 1 else 0)
  }

  /** The number of non-empty cells. */
  function Filled(g: seq<int>): nat {
    |g| - Occurrences(g, 0)
  }

  lemma {:induction false} OccurrencesAfterWrite(s: seq<int>, k: int, v: int, d: int)
    requires 0 <= k < |s|
    ensures Occurrences(s[k := v], d)
         == Occurrences(s, d) - (if s[k] == d then 1 else 0) + (if v == d then 1 else 0)
  {
    var n := |s| - 1;
    if k == n {
      assert s[k := v][..n] == s[..n];
    } else {
      assert s[k := v][..n] == s[..n][k := v];
      OccurrencesAfterWrite(s[..n], k, v, d);
    }
  }

  lemma {:induction false} OccurrenceAt(s: seq<int>, i: int)
    requires 0 <= i < |s|
    ensures Occurrences(s, s[i]) >= 1
  {
    var n := |s| - 1;
    if i < n {
      assert s[..n][i] == s[i];
      OccurrenceAt(s[..n], i);
    }
  }

  lemma {:induction false} TwoOccurrences(s: seq<int>, i: int, j: int)
    requires 0 <= i < j < |s| && s[i] == s[j]
    ensures Occurrences(s, s[i]) >= 2
  {
    var n := |s| - 1;
    assert s[..n][i] == s[i];
    if j == n {
      OccurrenceAt(s[..n], i);
    } else {
      assert s[..n][j] == s[j];
      TwoOccurrences(s[..n], i, j);
    }
  }

  lemma {:induction false} OccurrenceWitness(s: seq<int>, d: int) returns (i: int)
    requires Occurrences(s, d) >= 1
    ensures 0 <= i < |s| && s[i] == d
  {
    var n := |s| - 1;
    if s[n] == d {
      i := n;
    } else {
      i := OccurrenceWitness(s[..n], d);
    }
  }

  lemma {:induction false} RepeatWitness(s: seq<int>, d: int) returns (i: int, j: int)
    requires Occurrences(s, d) >= 2
    ensures 0 <= i < j < |s| && s[i] == d && s[j] == d
  {
    var n := |s| - 1;
    if s[n] == d {
      i := OccurrenceWitness(s[..n], d);
      j := n;
    } else {
      i, j := RepeatWitness(s[..n], d);
    }
  }

  /** A value other than `d` exists whenever `d` does not fill all of `s`. */
  lemma {:induction false} OtherWitness(s: seq<int>, d: int) returns (i: int)
    requires Occurrences(s, d) < |s|
    ensures 0 <= i < |s| && s[i] != d
  {
    var n := |s| - 1;
    if s[n] != d {
      i := n;
    } else {
      i := OtherWitness(s[..n], d);
    }
  }

  /** Counting each digit, as `SudokuGroup.verify` does (and `Groups.Group.Verify` with it),
      decides the duplicate-digit rule for values in [0,9]. */
  lemma CountsDecideDuplicates(s: seq<int>)
    requires AllInRange(s)
    ensures (forall d | 1 <= d <= 9 :: Occurrences(s, d) <= 1) <==> NoDuplicateDigit(s)
  {
    if forall d | 1 <= d <= 9 :: Occurrences(s, d) <= 1 {
      forall i, j | 0 <= i < j < |s| && s[i] != 0 ensures s[i] != s[j] {
        if s[i] == s[j] {
          TwoOccurrences(s, i, j);
        }
      }
    } else {
      var d :| 1 <= d <= 9 && Occurrences(s, d) > 1;
      var i, j := RepeatWitness(s, d);
    }
  }

  /** The occurrences of the values d..9 in `s`, added up. */
  function CountFrom(s: seq<int>, d: int): nat
    decreases 10 - d
  {
    if d > 9 then 0 else Occurrences(s, d) + CountFrom(s, d + 1)
  }

  lemma {:induction false} CountFromSnoc(s: seq<int>, d: int)
    requires |s| > 0
    ensures CountFrom(s, d) == CountFrom(s[..|s| - 1], d) + (if d <= s[|s| - 1] <= 9 then 1 else 0)
    decreases 10 - d
  {
    if d <= 9 {
      CountFromSnoc(s, d + 1);
    }
  }

  /** With values in [0,9], the counts of 0..9 add up to the length. */
  lemma {:induction false} CountsAddUp(s: seq<int>)
    requires AllInRange(s)
    ensures CountFrom(s, 0) == |s|
  {
    if |s| > 0 {
      CountFromSnoc(s, 0);
      CountsAddUp(s[..|s| - 1]);
    }
  }

  lemma {:induction false} CountFromLower(s: seq<int>, d: int)
    requires 1 <= d && forall x | d <= x <= 9 :: Occurrences(s, x) >= 1
    ensures CountFrom(s, d) >= 10 - d
    decreases 10 - d
  {
    if d <= 9 {
      CountFromLower(s, d + 1);
    }
  }

  lemma {:induction false} CountFromWithRepeat(s: seq<int>, d: int, e: int)
    requires 1 <= d <= e <= 9 && forall x | d <= x <= 9 :: Occurrences(s, x) >= 1
    requires Occurrences(s, e) >= 2
    ensures CountFrom(s, d) >= 11 - d
    decreases 10 - d
  {
    if d < e {
      CountFromWithRepeat(s, d + 1, e);
    } else {
      CountFromLower(s, d + 1);
    }
  }

  /** Nine values in [0,9] that include every digit hold each digit once. */
  lemma EveryDigitOnce(s: seq<int>)
    requires |s| == 9 && AllInRange(s) && forall d | 1 <= d <= 9 :: Occurrences(s, d) >= 1
    ensures NoDuplicateDigit(s)
  {
    CountsAddUp(s);
    if e :| 1 <= e <= 9 && Occurrences(s, e) >= 2 {
      CountFromWithRepeat(s, 1, e);
    }
    CountsDecideDuplicates(s);
  }

  /** The same, with digit d found at place p<d>. */
  lemma EveryDigitAt(s: seq<int>, p1: int, p2: int, p3: int, p4: int, p5: int, p6: int, p7: int, p8: int, p9: int)
    requires |s| == 9 && AllInRange(s)
    requires 0 <= p1 < 9 && 0 <= p2 < 9 && 0 <= p3 < 9 && 0 <= p4 < 9 && 0 <= p5 < 9
    requires 0 <= p6 < 9 && 0 <= p7 < 9 && 0 <= p8 < 9 && 0 <= p9 < 9
    requires s[p1] == 1 && s[p2] == 2 && s[p3] == 3 && s[p4] == 4 && s[p5] == 5
    requires s[p6] == 6 && s[p7] == 7 && s[p8] == 8 && s[p9] == 9
    ensures NoDuplicateDigit(s)
  {
    var w := [p1, p2, p3, p4, p5, p6, p7, p8, p9];
    forall d | 1 <= d <= 9 ensures Occurrences(s, d) >= 1 {
      OccurrenceAt(s, w[d - 1]);
    }
    EveryDigitOnce(s);
  }

  /** With values in [0,9], no empty cell means every cell holds a digit. */
  lemma {:induction false} NoEmptyCellIsFull(g: seq<int>)
    requires AllInRange(g)
    ensures Occurrences(g, 0) == 0 <==> Full(g)
  {
    if Occurrences(g, 0) == 0 {
      forall k | 0 <= k < |g| ensures 1 <= g[k] <= 9 {
        if g[k] == 0 {
          OccurrenceAt(g, k);
        }
      }
    } else {
      var k := OccurrenceWitness(g, 0);
    }
  }

  // ---------------------------------------------------------------------------
  // Completions

  /** Every cell holds a digit. */
  predicate Full(g: seq<int>) {
    forall k | 0 <= k < |g| :: 1 <= g[k] <= 9
  }

  /** `h` keeps every digit of `g` (and may fill empty cells). */
  predicate Extends(h: seq<int>, g: seq<int>) {
    |h| == |g| && forall k | 0 <= k < |g| :: g[k] != 0 ==> h[k] == g[k]
  }

  /** Some full, legal grid keeps every digit of `g`. */
  ghost predicate Solvable(g: seq<int>) {
    exists f :: |f| == 81 && Full(f) && Extends(f, g) && Legal(f)
  }

  /** Emptying cells of a legal grid leaves it legal. */
  lemma LegalBelow(f: seq<int>, g: seq<int>)
    requires |f| == 81 && Extends(f, g) && Legal(f)
    ensures Legal(g)
  {
    forall k | 0 <= k < 9 ensures GroupsOk(g, k) {
      assert GroupsOk(f, k);
      SlotsInStore(k);
      NoDuplicateBelow(Row(f, k), Row(g, k));
      NoDuplicateBelow(Column(f, k), Column(g, k));
      NoDuplicateBelow(Box(f, k), Box(g, k));
    }
  }

  lemma NoDuplicateBelow(t: seq<int>, s: seq<int>)
    requires Extends(t, s) && NoDuplicateDigit(t)
    ensures NoDuplicateDigit(s)
  {
  }

  /** An illegal grid has no legal completion. */
  lemma IllegalIsUnsolvable(g: seq<int>)
    requires |g| == 81 && !Legal(g)
    ensures !Solvable(g)
  {
    if Solvable(g) {
      var f :| |f| == 81 && Full(f) && Extends(f, g) && Legal(f);
      LegalBelow(f, g);
    }
  }

  /** `g` with digit `d` written at position `idx`. */
  function WithDigit(g: seq<int>, idx: int, d: int): seq<int>
    requires 0 <= idx < |g|
  {
    g[idx := d]
  }

  /** If no digit in an empty cell leads to a legal completion, nothing does. */
  lemma UnsolvableByEveryDigit(g: seq<int>, idx: int)
    requires |g| == 81 && 0 <= idx < 81 && g[idx] == 0
    requires forall d | 1 <= d <= 9 :: !Solvable(WithDigit(g, idx, d))
    ensures !Solvable(g)
  {
    forall f | |f| == 81 && Full(f) && Extends(f, g) ensures !Legal(f) {
      assert Extends(f, WithDigit(g, idx, f[idx]));
    }
  }

  // ---------------------------------------------------------------------------
  // Writing one cell

  /** Some other cell of row r, of column c or of the box of (r, c) holds v. */
  predicate Clashes(g: seq<int>, r: int, c: int, v: int)
    requires |g| == 81 && 0 <= r < 9 && 0 <= c < 9
  {
    BoxCoordinates(r, c);
    || (exists p | 0 <= p < 9 && p != c :: Row(g, r)[p] == v)
    || (exists p | 0 <= p < 9 && p != r :: Column(g, c)[p] == v)
    || (exists p | 0 <= p < 9 && p != PosInBox(r, c) :: Box(g, BoxOf(r, c))[p] == v)
  }

  /** A group that passes the rule still passes after digit v is written at place q
      exactly when no other place holds v. */
  lemma GroupAfterWrite(s: seq<int>, q: int, v: int)
    requires 0 <= q < |s| && NoDuplicateDigit(s) && v != 0
    ensures NoDuplicateDigit(s[q := v]) <==> forall p | 0 <= p < |s| && p != q :: s[p] != v
  {
    var t := s[q := v];
    if forall p | 0 <= p < |s| && p != q :: s[p] != v {
      forall i, j | 0 <= i < j < |t| && t[i] != 0 ensures t[i] != t[j] {
        if i != q && j != q {
          assert t[i] == s[i] && t[j] == s[j];
        }
      }
    } else {
      var p :| 0 <= p < |s| && p != q && s[p] == v;
      if p < q {
        assert t[p] == v == t[q];
      } else {
        assert t[q] == v == t[p];
      }
    }
  }

  /** A write to cell (r, c) is seen by row r at place c and by no other row. */
  lemma RowAfterWrite(g: seq<int>, r: int, c: int, v: int, k: int)
    requires |g| == 81 && 0 <= r < 9 && 0 <= c < 9 && 0 <= k < 9
    ensures Row(g[Index(r, c) := v], k) == if k == r then Row(g, k)[c := v] else Row(g, k)
  {
  }

  /** A write to cell (r, c) is seen by column c at place r and by no other column. */
  lemma ColumnAfterWrite(g: seq<int>, r: int, c: int, v: int, k: int)
    requires |g| == 81 && 0 <= r < 9 && 0 <= c < 9 && 0 <= k < 9
    ensures Column(g[Index(r, c) := v], k) == if k == c then Column(g, k)[r := v] else Column(g, k)
  {
  }

  /** A write to cell (r, c) is seen by box BoxOf(r, c) at place PosInBox(r, c) and by
      no other box. */
  lemma BoxAfterWrite(g: seq<int>, r: int, c: int, v: int, k: int)
    requires |g| == 81 && 0 <= r < 9 && 0 <= c < 9 && 0 <= k < 9
    ensures 0 <= BoxOf(r, c) < 9 && 0 <= PosInBox(r, c) < 9
    ensures Box(g[Index(r, c) := v], k)
         == if k == BoxOf(r, c) then Box(g, k)[PosInBox(r, c) := v] else Box(g, k)
  {
    BoxCoordinates(r, c);
    var h := g[Index(r, c) := v];
    forall p | 0 <= p < 9
      ensures Box(h, k)[p] == if k == BoxOf(r, c) && p == PosInBox(r, c) then v else Box(g, k)[p]
    {
      BoxPositions(k, p);
      var br, bc := BoxRow(k, p), BoxCol(k, p);
      assert Box(h, k)[p] == h[Index(br, bc)] && Box(g, k)[p] == g[Index(br, bc)];
      assert Index(br, bc) == Index(r, c) <==> br == r && bc == c;
    }
  }

  /** On a legal grid, writing digit v at (r, c) keeps the grid legal exactly when no
      other cell of its row, column or box holds v. */
  lemma LegalAfterWrite(g: seq<int>, r: int, c: int, v: int)
    requires |g| == 81 && Legal(g) && 0 <= r < 9 && 0 <= c < 9 && v != 0
    ensures Legal(g[Index(r, c) := v]) <==> !Clashes(g, r, c, v)
  {
    var h := g[Index(r, c) := v];
    BoxCoordinates(r, c);
    var b, q := BoxOf(r, c), PosInBox(r, c);
    forall k | 0 <= k < 9
      ensures Row(h, k) == if k == r then Row(g, k)[c := v] else Row(g, k)
      ensures Column(h, k) == if k == c then Column(g, k)[r := v] else Column(g, k)
      ensures Box(h, k) == if k == b then Box(g, k)[q := v] else Box(g, k)
    {
      RowAfterWrite(g, r, c, v, k);
      ColumnAfterWrite(g, r, c, v, k);
      BoxAfterWrite(g, r, c, v, k);
    }
    assert GroupsOk(g, r) && GroupsOk(g, c) && GroupsOk(g, b);
    GroupAfterWrite(Row(g, r), c, v);
    GroupAfterWrite(Column(g, c), r, v);
    GroupAfterWrite(Box(g, b), q, v);
    if !Clashes(g, r, c, v) {
      forall k | 0 <= k < 9 ensures GroupsOk(h, k) {
        assert GroupsOk(g, k);
      }
    } else {
      assert !GroupsOk(h, r) || !GroupsOk(h, c) || !GroupsOk(h, b);
    }
  }
}

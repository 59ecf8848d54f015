/** SudokuGroup: a view of nine board cells (a row, a column or a box). A group does not
    own its cells: it names positions of the board's store, so a write through a group is
    a write to the board and every other view of that cell sees it. */
module Groups {
  import opened Outcomes
  import opened Fields
  import opened Grids

  /** The concrete class of a group, which `equals` compares before the cells. */
  datatype Kind = AnyGroup | SudokuRow | SudokuColumn | SudokuBox

  class Group {
    /** The shared cell store and the positions, in view order, this group refers to. */
    const store: array<int>
    const slots: seq<int>
    const kind: Kind

    /** Nine positions, all inside the store. */
    predicate Wired() {
      |slots| == 9 && SlotsWithin(slots, store.Length)
    }

    /** The constructor copies the list of references, not the cells: the new group refers
        to the same store positions it was given. */
    constructor (store: array<int>, slots: seq<int>, kind: Kind)
      ensures this.store == store && this.slots == slots && this.kind == kind
    {
      this.store := store;
      this.slots := slots;
      this.kind := kind;
    }

    /** The values this group sees, in view order. */
    function Values(): seq<int>
      reads store
      requires SlotsWithin(slots, store.Length)
    {
      Gather(store[..], slots)
    }

    /** The value of place `index` is the value of the shared cell it refers to. */
    function GetFieldValue(index: int): (v: int)
      reads store
      requires SlotsWithin(slots, store.Length) && 0 <= index < |slots|
      ensures v == store[slots[index]] && v == Values()[index]
    {
      store[slots[index]]
    }

    /** Writes the shared cell of place `index` when `v` is in [0,9]; otherwise fails and
        changes nothing. */
    method SetFieldValue(index: int, v: int) returns (s: Status)
      requires SlotsWithin(slots, store.Length) && 0 <= index < |slots|
      modifies store
      ensures InRange(v) ==> s == Done && store[..] == old(store[..])[slots[index] := v]
      ensures !InRange(v) ==> s == Failed(InvalidValue) && store[..] == old(store[..])
    {
      if !InRange(v) {
        return Failed(InvalidValue);
      }
      store[slots[index]] := v;
      return Done;
    }

    /** Counts each value in a table indexed by value, then rejects any digit counted
        twice: true exactly when no digit occurs twice among the nine values. */
    method Verify() returns (ok: bool)
      requires Wired() && AllInRange(Values())
      ensures ok <==> NoDuplicateDigit(Values())
    {
      var counts := new int[10](_ => 0);
      var i := 0;
      while i < 9
        invariant 0 <= i <= 9
        invariant forall d | 0 <= d < 10 :: counts[d] == Occurrences(Values()[..i], d)
      {
        var v := GetFieldValue(i);
        assert Values()[..i + 1][..i] == Values()[..i];
        counts[v] := counts[v] + 1;
        i := i + 1;
      }
      assert Values()[..9] == Values();
      CountsDecideDuplicates(Values());
      i := 1;
      while i <= 9
        invariant 1 <= i <= 10
        invariant forall d | 1 <= d < i :: Occurrences(Values(), d) <= 1
      {
        if counts[i] > 1 {
          return false;
        }
        i := i + 1;
      }
      return true;
    }

    /** A shallow copy: a new group over the same cells, of the same kind. */
    method Clone() returns (g: Group)
      ensures fresh(g) && g.store == store && g.slots == slots && g.kind == kind
    {
      g := new Group(store, slots, kind);
    }

    /** Groups are equal when they are of the same kind and see equal values place by
        place; null is never equal. */
    function Equals(other: Group?): (eq: bool)
      reads store, if other == null then {} else {other.store}
      requires SlotsWithin(slots, store.Length)
      requires other != null ==> SlotsWithin(other.slots, other.store.Length)
      ensures eq <==> other != null && other.kind == kind && |other.slots| == |slots|
                      && forall p | 0 <= p < |slots| :: other.GetFieldValue(p) == GetFieldValue(p)
    {
      if other == null || kind != other.kind || |other.slots| != |slots| then false
      else
        assert forall p | 0 <= p < |slots| :: Values()[p] == GetFieldValue(p);
        assert forall p | 0 <= p < |slots| :: other.Values()[p] == other.GetFieldValue(p);
        Values() == other.Values()
    }
  }

  /** Equality of groups is reflexive and symmetric, and a clone (same store, places and
      kind) is equal to its original in both directions. */
  lemma EqualsIsEquivalence(a: Group, b: Group)
    requires SlotsWithin(a.slots, a.store.Length) && SlotsWithin(b.slots, b.store.Length)
    ensures a.Equals(a)
    ensures a.Equals(b) <==> b.Equals(a)
    ensures a.store == b.store && a.slots == b.slots && a.kind == b.kind ==> a.Equals(b)
  {
  }
}

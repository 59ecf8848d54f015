/** SudokuField: one mutable cell holding a digit 1..9, or 0 when the cell is empty. */
module Fields {
  import opened Outcomes

  /** The range every cell write is checked against. */
  predicate InRange(v: int) {
    0 <= v <= 9
  }

  class Field {
    var value: int

    /** The constructor stores its argument as it is: only `SetValue` checks the range. */
    constructor (value: int)
      ensures this.value == value
    {
      this.value := value;
    }

    /** The stored value; reading it changes nothing. */
    function GetValue(): (v: int)
      reads this
      ensures v == value
    {
      value
    }

    /** Stores `v` when it is a digit or 0; otherwise fails and keeps the old value. */
    method SetValue(v: int) returns (s: Status)
      modifies this
      ensures InRange(v) ==> s == Done && GetValue() == v
      ensures !InRange(v) ==> s == Failed(InvalidValue) && value == old(value)
    {
      if v < 0 || v > 9 {
        return Failed(InvalidValue);
      }
      value := v;
      return Done;
    }

    /** A shallow copy: a new field with the same value. */
    method Clone() returns (f: Field)
      ensures fresh(f) && f.value == value
      ensures f.Equals(this) && this.Equals(f)
    {
      f := new Field(value);
    }

    /** Fields are equal exactly when they hold the same value; null is never equal. */
    function Equals(other: Field?): (eq: bool)
      reads this, other
      ensures eq <==> other != null && other.value == value
    {
      other != null && value == other.value
    }

    /** Orders fields by value (-1, 0 or 1, as `Integer.compare`); a null argument fails. */
    function CompareTo(other: Field?): (r: Result<int>)
      reads this, other
      ensures r.Err? <==> other == null
      ensures r.Err? ==> r.error == NullArgument
      ensures r.Ok? ==> -1 <= r.value <= 1
      ensures r.Ok? ==> (r.value < 0 <==> value < other.value)
      ensures r.Ok? ==> (r.value == 0 <==> value == other.value)
    {
      if other == null then Err(NullArgument)
      else Ok(if value < other.value then -1 else if value == other.value then 0 else 1)
    }
  }

  /** `Equals` is an equivalence on non-null fields and agrees with `CompareTo` returning 0;
      `CompareTo` is antisymmetric. */
  lemma EqualsAgreesWithCompareTo(a: Field, b: Field, c: Field)
    ensures a.Equals(a)
    ensures a.Equals(b) <==> b.Equals(a)
    ensures a.Equals(b) && b.Equals(c) ==> a.Equals(c)
    ensures a.CompareTo(b) == Ok(0) <==> a.Equals(b)
    ensures a.CompareTo(b).value == -b.CompareTo(a).value
  {
  }
}

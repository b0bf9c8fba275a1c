/**
 Range<T>: a closed interval [Minimum, Maximum] over a type compared with a
 CompareTo-style function. Construction never checks the order of the bounds,
 so validity is a derived predicate and every query takes it into account.
 */
module Ranges {
  import opened Ordering

  datatype Range<T> = Range(minimum: T, maximum: T)

  /** `new Range<T>(minimum, maximum)`: both bounds stored as given, in either order. */
  function Make<T>(minimum: T, maximum: T): (r: Range<T>)
    ensures r.minimum == minimum && r.maximum == maximum
  {
    Range(minimum, maximum)
  }

  /** `new Range<T>(value)`: a single-point range. */
  function Single<T>(value: T): (r: Range<T>)
    ensures r.minimum == value && r.maximum == value
  {
    Range(value, value)
  }

  /** `Range<T>.Empty`: the zero-initialised struct, holding `default(T)` in both bounds. */
  function Empty<T>(default: T): (r: Range<T>)
    ensures r == Single(default)
  {
    Range(default, default)
  }

  predicate IsValid<T>(r: Range<T>, cmp: (T, T) -> int) {
    Le(cmp, r.minimum, r.maximum)
  }

  predicate ContainsValue<T>(r: Range<T>, value: T, cmp: (T, T) -> int) {
    Le(cmp, r.minimum, value) && Le(cmp, value, r.maximum)
  }

  /** `this.IsInsideRange(outer)`. */
  predicate IsInsideRange<T>(r: Range<T>, outer: Range<T>, cmp: (T, T) -> int) {
    IsValid(r, cmp) && IsValid(outer, cmp) && ContainsValue(outer, r.minimum, cmp) && ContainsValue(outer, r.maximum, cmp)
  }

  /** `this.ContainsRange(inner)`. */
  predicate ContainsRange<T>(r: Range<T>, inner: Range<T>, cmp: (T, T) -> int) {
    IsValid(r, cmp) && IsValid(inner, cmp) && ContainsValue(r, inner.minimum, cmp) && ContainsValue(r, inner.maximum, cmp)
  }

  /** The set of values a range holds, as a ghost set over the whole type. */
  ghost predicate Covers<T(!new)>(outer: Range<T>, inner: Range<T>, cmp: (T, T) -> int) {
    forall v :: ContainsValue(inner, v, cmp) ==> ContainsValue(outer, v, cmp)
  }

  // ---------------------------------------------------------------- lemmas

  /** A single-point range, and so `Empty`, is always valid and holds its value. */
  lemma SingleIsValid<T(!new)>(value: T, cmp: (T, T) -> int)
    requires IsTotalPreorder(cmp)
    ensures IsValid(Single(value), cmp)
    ensures ContainsValue(Single(value), value, cmp)
    ensures IsValid(Empty(value), cmp)
  {
  }

  /** The two-bound constructor does not reorder: `Range(5, 1)` exists and is invalid. */
  lemma InvertedRangeIsInvalid()
    ensures Make(5, 1).minimum == 5 && Make(5, 1).maximum == 1
    ensures !IsValid(Make(5, 1), IntCompare)
  {
  }

  /** Validity is exactly "minimum sorts at or before maximum". */
  lemma ValidIffOrdered<T>(minimum: T, maximum: T, cmp: (T, T) -> int)
    ensures IsValid(Make(minimum, maximum), cmp) <==> cmp(minimum, maximum) <= 0
  {
  }

  /** A range that contains some value is valid: the value witnesses the bound order. */
  lemma ContainingImpliesValid<T(!new)>(r: Range<T>, value: T, cmp: (T, T) -> int)
    requires IsTotalPreorder(cmp)
    requires ContainsValue(r, value, cmp)
    ensures IsValid(r, cmp)
  {
    assert Le(cmp, r.minimum, value) && Le(cmp, value, r.maximum);
  }

  /** An inverted range holds nothing. */
  lemma InvalidContainsNothing<T(!new)>(r: Range<T>, value: T, cmp: (T, T) -> int)
    requires IsTotalPreorder(cmp)
    ensures !IsValid(r, cmp) ==> !ContainsValue(r, value, cmp)
  {
    if ContainsValue(r, value, cmp) {
      ContainingImpliesValid(r, value, cmp);
    }
  }

  /** IsInsideRange is ContainsRange seen from the other side. */
  lemma InsideIsContainsFlipped<T>(a: Range<T>, b: Range<T>, cmp: (T, T) -> int)
    ensures IsInsideRange(a, b, cmp) <==> ContainsRange(b, a, cmp)
  {
  }

  /** ContainsRange rejects an invalid operand on either side. */
  lemma ContainsRangeNeedsValid<T>(outer: Range<T>, inner: Range<T>, cmp: (T, T) -> int)
    ensures !IsValid(outer, cmp) ==> !ContainsRange(outer, inner, cmp)
    ensures !IsValid(inner, cmp) ==> !ContainsRange(outer, inner, cmp)
  {
  }

  /** Every valid range contains itself, and only valid ranges do. */
  lemma ContainsRangeReflexive<T(!new)>(r: Range<T>, cmp: (T, T) -> int)
    requires IsTotalPreorder(cmp)
    ensures ContainsRange(r, r, cmp) <==> IsValid(r, cmp)
  {
  }

  /** Values held by the inner range are held by the outer one. */
  lemma ContainsRangeContainsValue<T(!new)>(outer: Range<T>, inner: Range<T>, value: T, cmp: (T, T) -> int)
    requires IsTotalPreorder(cmp)
    requires ContainsRange(outer, inner, cmp)
    requires ContainsValue(inner, value, cmp)
    ensures ContainsValue(outer, value, cmp)
  {
    assert Le(cmp, outer.minimum, inner.minimum) && Le(cmp, inner.minimum, value);
    assert Le(cmp, value, inner.maximum) && Le(cmp, inner.maximum, outer.maximum);
  }

  lemma ContainsRangeTransitive<T(!new)>(a: Range<T>, b: Range<T>, c: Range<T>, cmp: (T, T) -> int)
    requires IsTotalPreorder(cmp)
    requires ContainsRange(a, b, cmp) && ContainsRange(b, c, cmp)
    ensures ContainsRange(a, c, cmp)
  {
    ContainsRangeContainsValue(a, b, c.minimum, cmp);
    ContainsRangeContainsValue(a, b, c.maximum, cmp);
  }

  /**
   For valid ranges, ContainsRange is exactly inclusion of the sets of values
   they hold: the check on the two bounds is both necessary and sufficient.
   */
  lemma ContainsRangeIffCovers<T(!new)>(outer: Range<T>, inner: Range<T>, cmp: (T, T) -> int)
    requires IsTotalPreorder(cmp)
    requires IsValid(outer, cmp) && IsValid(inner, cmp)
    ensures ContainsRange(outer, inner, cmp) <==> Covers(outer, inner, cmp)
  {
    if ContainsRange(outer, inner, cmp) {
      forall v | ContainsValue(inner, v, cmp)
        ensures ContainsValue(outer, v, cmp)
      {
        ContainsRangeContainsValue(outer, inner, v, cmp);
      }
    }
    if Covers(outer, inner, cmp) {
      assert ContainsValue(inner, inner.minimum, cmp);
      assert ContainsValue(inner, inner.maximum, cmp);
    }
  }
}

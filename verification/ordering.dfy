/**
 Comparison functions in the style of IComparable.CompareTo and IComparer.Compare:
 a negative, zero or positive int for "less", "equal" and "greater".
 */
module Ordering {

  /** `a` sorts at or before `b` under `cmp`, as the library's `CompareTo(..) <= 0` tests. */
  predicate Le<T>(cmp: (T, T) -> int, a: T, b: T) {
    cmp(a, b) <= 0
  }

  /**
   The contract every CompareTo implementation is documented to keep: reflexive,
   sign-antisymmetric and transitive. Ties between distinct values are allowed,
   so this is a total preorder rather than a total order.
   */
  ghost predicate IsTotalPreorder<T(!new)>(cmp: (T, T) -> int) {
    && (forall x :: cmp(x, x) == 0)
    && (forall x, y :: cmp(x, y) <= 0 <==> cmp(y, x) >= 0)
    && (forall x, y, z :: cmp(x, y) <= 0 && cmp(y, z) <= 0 ==> cmp(x, z) <= 0)
  }

  /** Int32.CompareTo: -1, 0 or 1. */
  function IntCompare(a: int, b: int): (r: int)
    ensures r < 0 <==> a < b
    ensures r == 0 <==> a == b
    ensures -1 <= r <= 1
  {
    if a < b then -1 else if a == b then 0 else 1
  }

  lemma IntCompareIsTotalPreorder()
    ensures IsTotalPreorder(IntCompare)
  {
  }

  /** Under a total preorder any two values are comparable one way or the other. */
  lemma Total<T(!new)>(cmp: (T, T) -> int, a: T, b: T)
    requires IsTotalPreorder(cmp)
    ensures Le(cmp, a, b) || Le(cmp, b, a)
  {
  }
}

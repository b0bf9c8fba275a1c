/**
 IndexesOf<T>: reports the positions of a value in a sequence by calling
 Array.IndexOf repeatedly, each time from just after the last position found,
 but always with the caller's original `count` as the window length. The
 result of the lazy iterator is what it yields before it stops, and the
 exception it stops with, if any.
 */
module IndexesOf {
  import opened Wrappers

  /** The lowest position in [lo, hi) holding the value, or -1. */
  function FirstIn<T(==)>(list: seq<T>, value: T, lo: int, hi: int): (r: int)
    requires 0 <= lo && hi <= |list|
    ensures r == -1 <==> forall k :: lo <= k < hi ==> list[k] != value
    ensures r != -1 ==> lo <= r < hi && list[r] == value && forall k :: lo <= k < r ==> list[k] != value
    decreases hi - lo
  {
    if lo >= hi then -1 else if list[lo] == value then lo else FirstIn(list, value, lo + 1, hi)
  }

  /** Array.IndexOf(array, value, startIndex, count): range checks, then the first match in the window. */
  function ArrayIndexOf<T(==)>(list: seq<T>, value: T, startIndex: int, count: int): (r: Result<int>)
    ensures r.Failure? <==> startIndex < 0 || startIndex > |list| || count < 0 || count > |list| - startIndex
    ensures r.Failure? ==> r.error == ArgumentOutOfRange
    ensures r.Success? ==> r.value == FirstIn(list, value, startIndex, startIndex + count)
  {
    if startIndex < 0 || startIndex > |list| then Failure(ArgumentOutOfRange)
    else if count < 0 || count > |list| - startIndex then Failure(ArgumentOutOfRange)
    else Success(FirstIn(list, value, startIndex, startIndex + count))
  }

  /** Every position in [lo, hi) holding the value, in order: what "all the occurrences" means. */
  function Occurrences<T(==)>(list: seq<T>, value: T, lo: nat, hi: nat): (r: seq<nat>)
    requires lo <= hi <= |list|
    ensures forall k :: 0 <= k < |r| ==> lo <= r[k] < hi && list[r[k]] == value
    decreases hi - lo
  {
    if lo == hi then []
    else
      var rest := Occurrences(list, value, lo + 1, hi);
      if list[lo] == value then [lo] + rest else rest
  }

  /** Occurrences misses none. */
  lemma {:induction false} OccurrencesComplete<T>(list: seq<T>, value: T, lo: nat, hi: nat)
    requires lo <= hi <= |list|
    ensures forall k :: lo <= k < hi && list[k] == value ==> k in Occurrences(list, value, lo, hi)
    decreases hi - lo
  {
    if lo < hi {
      OccurrencesComplete(list, value, lo + 1, hi);
      var all := Occurrences(list, value, lo, hi);
      var rest := Occurrences(list, value, lo + 1, hi);
      assert all == (if list[lo] == value then [lo] + rest else rest);
      forall k | lo <= k < hi && list[k] == value
        ensures k in all
      {
        if k > lo {
          assert k in rest;
        }
      }
    }
  }

  /** Occurrences lists the positions in increasing order. */
  lemma {:induction false} OccurrencesIncreasing<T>(list: seq<T>, value: T, lo: nat, hi: nat)
    requires lo <= hi <= |list|
    ensures forall a, b :: 0 <= a < b < |Occurrences(list, value, lo, hi)| ==>
              Occurrences(list, value, lo, hi)[a] < Occurrences(list, value, lo, hi)[b]
    decreases hi - lo
  {
    if lo < hi {
      OccurrencesIncreasing(list, value, lo + 1, hi);
      var all := Occurrences(list, value, lo, hi);
      var rest := Occurrences(list, value, lo + 1, hi);
      if list[lo] == value {
        assert all == [lo] + rest;
        forall a, b | 0 <= a < b < |all|
          ensures all[a] < all[b]
        {
          assert all[b] == rest[b - 1];
          if a > 0 {
            assert all[a] == rest[a - 1];
          }
        }
      } else {
        assert all == rest;
      }
    }
  }

  /**
   The iterator's loop from position `from` on: search the window
   [from, from + count); stop at -1; otherwise report the match and search
   again from the next position with the same `count`.
   */
  function Iterate<T(==)>(list: seq<T>, value: T, from: nat, count: int): (r: Yielded<nat>)
    requires from <= |list|
    ensures forall k :: 0 <= k < |r.items| ==> from <= r.items[k] < |list| && list[r.items[k]] == value
    ensures forall a, b :: 0 <= a < b < |r.items| ==> r.items[a] < r.items[b]
    ensures r.failure.Some? ==> r.failure.value == ArgumentOutOfRange
    decreases |list| - from
  {
    match ArrayIndexOf(list, value, from, count)
    case Failure(e) => Yielded([], Some(e))
    case Success(i) =>
      if i == -1 then Yielded([], None)
      else
        var rest := Iterate(list, value, i + 1, count);
        Yielded([i as nat] + rest.items, rest.failure)
  }

  /** The range checks IndexesOf makes before it searches. */
  predicate ValidWindow(size: nat, startIndex: int, count: int) {
    0 <= startIndex <= size && 0 <= count && startIndex <= size - count
  }

  /**
   IndexesOf(source, value, startIndex, count): the argument checks, then the
   loop. What it reports are occurrences of the value, in order, none skipped,
   starting with the first one in [startIndex, startIndex + count).
   */
  function IndexesOf<T(==)>(list: seq<T>, value: T, startIndex: int, count: int): (r: Yielded<nat>)
    ensures !ValidWindow(|list|, startIndex, count) <==> r == Yielded([], Some(ArgumentOutOfRange))
    ensures forall k :: 0 <= k < |r.items| ==> startIndex <= r.items[k] < |list| && list[r.items[k]] == value
    ensures forall a, b :: 0 <= a < b < |r.items| ==> r.items[a] < r.items[b]
    ensures r.failure.Some? ==> r.failure.value == ArgumentOutOfRange
    ensures ValidWindow(|list|, startIndex, count) ==>
              var i := FirstIn(list, value, startIndex, startIndex + count);
              && (i == -1 <==> r == Yielded([], None))
              && (i != -1 ==> |r.items| > 0 && r.items[0] == i)
              && r.items <= Occurrences(list, value, startIndex, |list|)
  {
    if startIndex < 0 || startIndex > |list| then Yielded([], Some(ArgumentOutOfRange))
    else if count < 0 || startIndex > |list| - count then Yielded([], Some(ArgumentOutOfRange))
    else
      FirstReport(list, value, startIndex, count);
      IteratePrefixOfOccurrences(list, value, startIndex, count);
      Iterate(list, value, startIndex, count)
  }

  /**
   IndexesOf(source, value): the whole sequence as the window. The second
   window always runs past the end, so it reports the first occurrence and then
   throws; with no occurrence it reports nothing and does not throw.
   */
  function IndexesOfAll<T(==)>(list: seq<T>, value: T): (r: Yielded<nat>)
    ensures var i := FirstIn(list, value, 0, |list|);
            r == if i == -1 then Yielded([], None) else Yielded([i as nat], Some(ArgumentOutOfRange))
  {
    var i := FirstIn(list, value, 0, |list|);
    if i != -1 then NextWindow(list, value, 0, |list|, i); IndexesOf(list, value, 0, |list|)
    else IndexesOf(list, value, 0, |list|)
  }

  /** IndexesOf(source, value, startIndex): the rest of the sequence as the window, with the same outcome. */
  function IndexesOfFrom<T(==)>(list: seq<T>, value: T, startIndex: int): (r: Yielded<nat>)
    ensures startIndex < 0 || startIndex > |list| ==> r == Yielded([], Some(ArgumentOutOfRange))
    ensures 0 <= startIndex <= |list| ==>
              var i := FirstIn(list, value, startIndex, |list|);
              r == if i == -1 then Yielded([], None) else Yielded([i as nat], Some(ArgumentOutOfRange))
  {
    if 0 <= startIndex <= |list| && FirstIn(list, value, startIndex, |list|) != -1 then
      NextWindow(list, value, startIndex, |list| - startIndex, FirstIn(list, value, startIndex, |list|));
      IndexesOf(list, value, startIndex, |list| - startIndex)
    else IndexesOf(list, value, startIndex, |list| - startIndex)
  }

  // ---------------------------------------------------------------- lemmas

  /**
   With valid arguments the first report is the first occurrence in
   [startIndex, startIndex + count); no occurrence means nothing is reported
   and nothing is thrown.
   */
  lemma FirstReport<T>(list: seq<T>, value: T, startIndex: nat, count: nat)
    requires startIndex + count <= |list|
    ensures var r := Iterate(list, value, startIndex, count);
            var i := FirstIn(list, value, startIndex, startIndex + count);
            && (i == -1 <==> r == Yielded([], None))
            && (i != -1 ==> |r.items| > 0 && r.items[0] == i)
  {
  }

  /**
   After a report at i the next window is [i + 1, i + 1 + count): when it runs
   past the end the search throws; otherwise its first occurrence is reported
   next, or, when it holds none, the iteration ends there without an error.
   */
  lemma NextWindow<T>(list: seq<T>, value: T, from: nat, count: int, i: nat)
    requires from <= |list|
    requires ArrayIndexOf(list, value, from, count) == Success(i)
    ensures var r := Iterate(list, value, from, count);
            i + 1 + count > |list| ==> r == Yielded([i], Some(ArgumentOutOfRange))
    ensures var r := Iterate(list, value, from, count);
            i + 1 + count <= |list| && FirstIn(list, value, i + 1, i + 1 + count) != -1 ==>
              |r.items| >= 2 && r.items[1] == FirstIn(list, value, i + 1, i + 1 + count)
    ensures var r := Iterate(list, value, from, count);
            i + 1 + count <= |list| && FirstIn(list, value, i + 1, i + 1 + count) == -1 ==>
              r == Yielded([i], None)
  {
    assert ArrayIndexOf(list, value, i + 1, count).Failure? <==> i + 1 + count > |list|;
  }

  /** What is reported is a prefix of all the occurrences from the starting position on: none is skipped. */
  lemma {:induction false} IteratePrefixOfOccurrences<T>(list: seq<T>, value: T, from: nat, count: int)
    requires from <= |list|
    ensures var r := Iterate(list, value, from, count);
            r.items <= Occurrences(list, value, from, |list|)
    decreases |list| - from
  {
    var r := Iterate(list, value, from, count);
    match ArrayIndexOf(list, value, from, count)
    case Failure(e) =>
    case Success(i) =>
      if i != -1 {
        IteratePrefixOfOccurrences(list, value, i + 1, count);
        OccurrencesFirst(list, value, from, i, |list|);
      }
  }

  /** Two equal elements: the first is reported, then the search throws instead of reporting the second. */
  lemma TwoOccurrences<T>(x: T)
    ensures IndexesOfAll([x, x], x) == Yielded([0], Some(ArgumentOutOfRange))
    ensures CorrectedIndexesOf([x, x], x, 0, 2) == Yielded([0, 1], None)
  {
    var list := [x, x];
    assert FirstIn(list, x, 0, 2) == 0;
    CorrectedReportsAll(list, x, 0, 2);
    assert Occurrences(list, x, 2, 2) == [];
    assert Occurrences(list, x, 1, 2) == [1];
    assert Occurrences(list, x, 0, 2) == [0, 1];
  }

  // ---------------------------------------------------------------- corrected

  /** The loop as documented: each new search ends where the caller's window ends. */
  function CorrectedIterate<T(==)>(list: seq<T>, value: T, from: nat, end: nat): (r: Yielded<nat>)
    requires from <= end <= |list|
    decreases end - from
  {
    match ArrayIndexOf(list, value, from, end - from)
    case Failure(e) => Yielded([], Some(e))
    case Success(i) =>
      if i == -1 then Yielded([], None)
      else
        var rest := CorrectedIterate(list, value, i + 1, end);
        Yielded([i as nat] + rest.items, rest.failure)
  }

  /** IndexesOf with the window [startIndex, startIndex + count) kept for every search. */
  function CorrectedIndexesOf<T(==)>(list: seq<T>, value: T, startIndex: int, count: int): (r: Yielded<nat>)
    ensures startIndex < 0 || startIndex > |list| || count < 0 || startIndex > |list| - count <==>
              r == Yielded([], Some(ArgumentOutOfRange))
    ensures !(startIndex < 0 || startIndex > |list| || count < 0 || startIndex > |list| - count) ==>
              r == Yielded(Occurrences(list, value, startIndex, startIndex + count), None)
  {
    if startIndex < 0 || startIndex > |list| then Yielded([], Some(ArgumentOutOfRange))
    else if count < 0 || startIndex > |list| - count then Yielded([], Some(ArgumentOutOfRange))
    else
      CorrectedReportsAll(list, value, startIndex, startIndex + count);
      CorrectedIterate(list, value, startIndex, startIndex + count)
  }

  /** The corrected loop reports exactly the occurrences in its window and never throws. */
  lemma {:induction false} CorrectedReportsAll<T>(list: seq<T>, value: T, from: nat, end: nat)
    requires from <= end <= |list|
    ensures CorrectedIterate(list, value, from, end) == Yielded(Occurrences(list, value, from, end), None)
    decreases end - from
  {
    var i := FirstIn(list, value, from, end);
    if i == -1 {
      OccurrencesNone(list, value, from, end);
    } else {
      CorrectedReportsAll(list, value, i + 1, end);
      OccurrencesFirst(list, value, from, i, end);
    }
  }

  lemma {:induction false} OccurrencesNone<T>(list: seq<T>, value: T, lo: nat, hi: nat)
    requires lo <= hi <= |list|
    requires forall k :: lo <= k < hi ==> list[k] != value
    ensures Occurrences(list, value, lo, hi) == []
    decreases hi - lo
  {
    if lo < hi {
      OccurrencesNone(list, value, lo + 1, hi);
    }
  }

  lemma {:induction false} OccurrencesFirst<T>(list: seq<T>, value: T, lo: nat, i: nat, hi: nat)
    requires lo <= i < hi <= |list| && list[i] == value
    requires forall k :: lo <= k < i ==> list[k] != value
    ensures Occurrences(list, value, lo, hi) == [i] + Occurrences(list, value, i + 1, hi)
    decreases i - lo
  {
    if lo < i {
      OccurrencesFirst(list, value, lo + 1, i, hi);
    }
  }
}

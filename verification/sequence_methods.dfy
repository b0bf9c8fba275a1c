/**
 The LINQ-style sequence extensions: padding, skip/take slicing, the indexed
 dictionary, argmin/argmax under a comparer, membership counting, and the
 random unique enumeration of a dictionary driven by an oracle of choices.
 */
module SequenceMethods {
  import opened Wrappers
  import opened Ordering

  /** Enumerable.Repeat: a negative count is an ArgumentOutOfRangeException, raised at once. */
  function Repeat<T>(element: T, count: int): (r: Result<seq<T>>)
    ensures count < 0 <==> r.Failure?
    ensures r.Failure? ==> r.error == ArgumentOutOfRange
    ensures r.Success? ==> |r.value| == count && forall i :: 0 <= i < |r.value| ==> r.value[i] == element
  {
    if count < 0 then Failure(ArgumentOutOfRange) else Success(seq(count, _ => element))
  }

  /** PrependPadding: `length` copies of the padding element, then the source. */
  function PrependPadding<T>(source: seq<T>, length: int, padding: T): (r: Result<seq<T>>)
    ensures length < 0 ==> r == Failure(ArgumentOutOfRange)
    ensures length >= 0 ==>
              && r.Success? && |r.value| == length + |source|
              && (forall i :: 0 <= i < length ==> r.value[i] == padding)
              && r.value[length..] == source
  {
    var pad :- Repeat(padding, length);
    Success(pad + source)
  }

  /** AppendPadding: the source, then `length` copies of the padding element. */
  function AppendPadding<T>(source: seq<T>, length: int, padding: T): (r: Result<seq<T>>)
    ensures length < 0 ==> r == Failure(ArgumentOutOfRange)
    ensures length >= 0 ==>
              && r.Success? && |r.value| == |source| + length
              && r.value[..|source|] == source
              && (forall i :: |source| <= i < |r.value| ==> r.value[i] == padding)
  {
    var pad :- Repeat(padding, length);
    Success(source + pad)
  }

  /** Padding on both ends does not depend on which end is padded first. */
  lemma PaddingCommutes<T>(source: seq<T>, before: nat, after: nat, padding: T)
    ensures AppendPadding(PrependPadding(source, before, padding).value, after, padding)
         == PrependPadding(AppendPadding(source, after, padding).value, before, padding)
  {
    var a := AppendPadding(PrependPadding(source, before, padding).value, after, padding).value;
    var b := PrependPadding(AppendPadding(source, after, padding).value, before, padding).value;
    assert |a| == |b|;
    forall i | 0 <= i < |a|
      ensures a[i] == b[i]
    {
      if before <= i < before + |source| {
        assert a[i] == a[..before + |source|][i] == source[i - before];
        assert b[i] == b[before..][i - before] == source[i - before];
      }
    }
    assert a == b;
  }

  /** Enumerable.Skip: drops the first `count` elements; a count of zero or less drops nothing. */
  function Skip<T>(source: seq<T>, count: int): (r: seq<T>)
    ensures count <= 0 ==> r == source
    ensures 0 <= count <= |source| ==> r == source[count..]
    ensures count >= |source| ==> r == []
  {
    if count <= 0 || |source| == 0 then source else Skip(source[1..], count - 1)
  }

  /** Enumerable.Take: keeps the first `count` elements; a count of zero or less keeps none. */
  function Take<T>(source: seq<T>, count: int): (r: seq<T>)
    ensures count <= 0 ==> r == []
    ensures 0 <= count <= |source| ==> r == source[..count]
    ensures count >= |source| ==> r == source
  {
    if count <= 0 || |source| == 0 then [] else [source[0]] + Take(source[1..], count - 1)
  }

  /** The slice TakeRange selects: positions clamped into the sequence, the length clamped at zero. */
  function Window(size: nat, position: int, length: int): (w: (nat, nat))
    ensures w.0 <= w.1 <= size
  {
    var lo := if position < 0 then 0 else if position > size then size else position;
    var hi := lo + (if length < 0 then 0 else length);
    (lo, if hi > size then size else hi)
  }

  /** TakeRange: Skip(position) then Take(length), which is one contiguous slice of the source. */
  function TakeRange<T>(source: seq<T>, position: int, length: int): (r: seq<T>)
    ensures var w := Window(|source|, position, length); r == source[w.0..w.1]
  {
    Take(Skip(source, position), length)
  }

  /** Two adjacent windows make up the window that spans both. */
  lemma TakeRangeAdjacent<T>(source: seq<T>, position: nat, a: nat, b: nat)
    ensures TakeRange(source, position, a) + TakeRange(source, position + a, b) == TakeRange(source, position, a + b)
  {
    var w1 := Window(|source|, position, a);
    var w2 := Window(|source|, position + a, b);
    assert w1.1 == w2.0;
    assert source[w1.0..w1.1] + source[w1.1..w2.1] == source[w1.0..w2.1];
  }

  /**
   ToIndexedDictionary: every element keyed by its position. The keys are
   exactly the positions and each maps to the element there.
   */
  method ToIndexedDictionary<T>(source: seq<T>) returns (d: map<int, T>)
    ensures forall i :: i in d <==> 0 <= i < |source|
    ensures forall i :: 0 <= i < |source| ==> d[i] == source[i]
    ensures |d| == |source|
  {
    d := map[];
    var i := 0;
    while i < |source|
      invariant 0 <= i <= |source|
      invariant forall k :: k in d <==> 0 <= k < i
      invariant forall k :: 0 <= k < i ==> d[k] == source[k]
      invariant |d| == i
    {
      d := d[i := source[i]];
      i := i + 1;
    }
  }

  /** `index` is where a stable ascending sort puts its first element: minimal, and no earlier element ties it. */
  ghost predicate IsFirstMinimum<T>(s: seq<T>, cmp: (T, T) -> int, index: int) {
    && 0 <= index < |s|
    && (forall j :: 0 <= j < |s| ==> Le(cmp, s[index], s[j]))
    && (forall j :: 0 <= j < index ==> !Le(cmp, s[j], s[index]))
  }

  /** `index` is where a stable descending sort puts its first element: maximal, and no earlier element ties it. */
  ghost predicate IsFirstMaximum<T>(s: seq<T>, cmp: (T, T) -> int, index: int) {
    && 0 <= index < |s|
    && (forall j :: 0 <= j < |s| ==> Le(cmp, s[j], s[index]))
    && (forall j :: 0 <= j < index ==> !Le(cmp, s[index], s[j]))
  }

  /**
   IndexOfMin: -1 for an empty sequence, else the key of the first entry of
   the indexed dictionary ordered by value. OrderBy is stable, so among equal
   minima the lowest index wins.
   */
  method IndexOfMin<T(!new)>(source: seq<T>, cmp: (T, T) -> int) returns (index: int)
    requires IsTotalPreorder(cmp)
    ensures index == -1 <==> |source| == 0
    ensures |source| > 0 ==> IsFirstMinimum(source, cmp, index)
  {
    if |source| == 0 {
      return -1;
    }
    index := 0;
    var i := 1;
    while i < |source|
      invariant 1 <= i <= |source|
      invariant IsFirstMinimum(source[..i], cmp, index)
    {
      MinStep(source, cmp, index, i);
      if cmp(source[i], source[index]) < 0 {
        index := i;
      }
      i := i + 1;
    }
    assert source[..i] == source;
  }

  /** One step of the scan for the first minimum: a strictly smaller element takes over, a tie does not. */
  lemma MinStep<T(!new)>(s: seq<T>, cmp: (T, T) -> int, index: int, i: nat)
    requires IsTotalPreorder(cmp) && i < |s|
    requires IsFirstMinimum(s[..i], cmp, index)
    ensures IsFirstMinimum(s[..i + 1], cmp, if cmp(s[i], s[index]) < 0 then i else index)
  {
    var q := s[..i + 1];
    if cmp(s[i], s[index]) < 0 {
      assert !Le(cmp, s[index], s[i]);
      forall j | 0 <= j < i + 1
        ensures Le(cmp, s[i], q[j])
      {
        if j < i {
          assert Le(cmp, s[index], s[..i][j]);
        }
      }
      forall j | 0 <= j < i
        ensures !Le(cmp, q[j], s[i])
      {
        assert Le(cmp, s[index], s[..i][j]);
      }
    } else {
      Total(cmp, s[index], s[i]);
      assert q[..i] == s[..i];
    }
  }

  /** IndexOfMax: the mirror image, with OrderByDescending, so again the lowest index among equal maxima. */
  method IndexOfMax<T(!new)>(source: seq<T>, cmp: (T, T) -> int) returns (index: int)
    requires IsTotalPreorder(cmp)
    ensures index == -1 <==> |source| == 0
    ensures |source| > 0 ==> IsFirstMaximum(source, cmp, index)
  {
    if |source| == 0 {
      return -1;
    }
    index := 0;
    var i := 1;
    while i < |source|
      invariant 1 <= i <= |source|
      invariant IsFirstMaximum(source[..i], cmp, index)
    {
      MaxStep(source, cmp, index, i);
      if cmp(source[i], source[index]) > 0 {
        index := i;
      }
      i := i + 1;
    }
    assert source[..i] == source;
  }

  /** One step of the scan for the first maximum: a strictly greater element takes over, a tie does not. */
  lemma MaxStep<T(!new)>(s: seq<T>, cmp: (T, T) -> int, index: int, i: nat)
    requires IsTotalPreorder(cmp) && i < |s|
    requires IsFirstMaximum(s[..i], cmp, index)
    ensures IsFirstMaximum(s[..i + 1], cmp, if cmp(s[i], s[index]) > 0 then i else index)
  {
    var q := s[..i + 1];
    if cmp(s[i], s[index]) > 0 {
      assert !Le(cmp, s[i], s[index]);
      forall j | 0 <= j < i + 1
        ensures Le(cmp, q[j], s[i])
      {
        if j < i {
          assert Le(cmp, s[..i][j], s[index]);
        }
      }
      forall j | 0 <= j < i
        ensures !Le(cmp, s[i], q[j])
      {
        assert Le(cmp, s[..i][j], s[index]);
      }
    } else {
      Total(cmp, s[index], s[i]);
      assert q[..i] == s[..i];
    }
  }

  /** The first minimum is one position: the characterisation leaves no choice. */
  lemma FirstMinimumUnique<T>(s: seq<T>, cmp: (T, T) -> int, a: int, b: int)
    requires IsFirstMinimum(s, cmp, a) && IsFirstMinimum(s, cmp, b)
    ensures a == b
  {
    assert Le(cmp, s[a], s[b]) && Le(cmp, s[b], s[a]);
  }

  /** The first maximum under a comparer is the first minimum under the reversed comparer. */
  lemma FirstMaximumIsReversedMinimum<T>(s: seq<T>, cmp: (T, T) -> int, index: int)
    ensures IsFirstMaximum(s, cmp, index) <==> IsFirstMinimum(s, (a, b) => cmp(b, a), index)
  {
  }

  /** `items.Any(i => cmp(i, x) == 0)`. */
  predicate Matches<T>(items: seq<T>, x: T, cmp: (T, T) -> int) {
    exists i :: 0 <= i < |items| && cmp(items[i], x) == 0
  }

  /**
   CountMany: the number of source elements that compare equal to some item.
   Both overloads are this one, with the element's own CompareTo as `cmp` for
   the first.
   */
  function CountMany<T>(source: seq<T>, items: seq<T>, cmp: (T, T) -> int): (n: nat)
    ensures n <= |source|
    ensures |items| == 0 ==> n == 0
  {
    if |source| == 0 then 0
    else (if Matches(items, source[0], cmp) then 1 else 0) + CountMany(source[1..], items, cmp)
  }

  /** The count is the whole source exactly when every element matches, and zero exactly when none does. */
  lemma {:induction false} CountManyAllOrNone<T>(source: seq<T>, items: seq<T>, cmp: (T, T) -> int)
    ensures CountMany(source, items, cmp) == |source| <==> forall k :: 0 <= k < |source| ==> Matches(items, source[k], cmp)
    ensures CountMany(source, items, cmp) == 0 <==> forall k :: 0 <= k < |source| ==> !Matches(items, source[k], cmp)
  {
    if |source| > 0 {
      CountManyAllOrNone(source[1..], items, cmp);
      assert forall k :: 1 <= k < |source| ==> source[1..][k - 1] == source[k];
    }
  }

  /** Counting is additive over concatenation of sources. */
  lemma {:induction false} CountManyAppend<T>(a: seq<T>, b: seq<T>, items: seq<T>, cmp: (T, T) -> int)
    ensures CountMany(a + b, items, cmp) == CountMany(a, items, cmp) + CountMany(b, items, cmp)
  {
    if |a| > 0 {
      assert (a + b)[1..] == a[1..] + b;
      CountManyAppend(a[1..], b, items, cmp);
    } else {
      assert a + b == b;
    }
  }

  /** The count is the size of the set of matching positions. */
  lemma CountManyIsMatchingPositions<T>(source: seq<T>, items: seq<T>, cmp: (T, T) -> int)
    ensures CountMany(source, items, cmp) == |set k | 0 <= k < |source| && Matches(items, source[k], cmp)|
  {
    CountPrefix(source, items, cmp, |source|);
    assert source[..|source|] == source;
    assert MatchingBelow(source, items, cmp, |source|) == set k | 0 <= k < |source| && Matches(items, source[k], cmp);
  }

  /** The positions below n whose element matches. */
  ghost function MatchingBelow<T>(source: seq<T>, items: seq<T>, cmp: (T, T) -> int, n: nat): (r: set<int>)
    requires n <= |source|
    ensures forall k :: k in r <==> 0 <= k < n && Matches(items, source[k], cmp)
  {
    if n == 0 then {}
    else if Matches(items, source[n - 1], cmp) then MatchingBelow(source, items, cmp, n - 1) + {n - 1}
    else MatchingBelow(source, items, cmp, n - 1)
  }

  lemma {:induction false} CountPrefix<T>(source: seq<T>, items: seq<T>, cmp: (T, T) -> int, n: nat)
    requires n <= |source|
    ensures CountMany(source[..n], items, cmp) == |MatchingBelow(source, items, cmp, n)|
    decreases n
  {
    if n > 0 {
      var x := source[n - 1];
      CountPrefix(source, items, cmp, n - 1);
      assert source[..n] == source[..n - 1] + [x];
      CountManyAppend(source[..n - 1], [x], items, cmp);
      CountManySingle(x, items, cmp);
      assert n - 1 !in MatchingBelow(source, items, cmp, n - 1);
    }
  }

  lemma CountManySingle<T>(x: T, items: seq<T>, cmp: (T, T) -> int)
    ensures CountMany([x], items, cmp) == if Matches(items, x, cmp) then 1 else 0
  {
    assert [x][1..] == [];
  }

  /** Removes the entry at one position, keeping the others in order. */
  function RemoveAt<T>(s: seq<T>, k: nat): (r: seq<T>)
    requires k < |s|
    ensures |r| == |s| - 1
    ensures multiset(r) + multiset{s[k]} == multiset(s)
  {
    assert s == s[..k] + [s[k]] + s[k + 1..];
    s[..k] + s[k + 1..]
  }

  /**
   UniqueRandom: repeatedly picks the entry at a random position among those
   left, yields it and removes it. The dictionary copy keeps its entries in
   insertion order under removal, so it is a sequence here; `choices[j]` is
   the j-th value of RandomProvider.Next(0, remaining).
   */
  method UniqueRandom<K, V>(source: seq<(K, V)>, choices: seq<int>) returns (yielded: seq<(K, V)>)
    requires |choices| >= |source|
    requires forall j :: 0 <= j < |source| ==> 0 <= choices[j] < |source| - j
    ensures |yielded| == |source|
    ensures multiset(yielded) == multiset(source)
  {
    var values := source;
    yielded := [];
    var j := 0;
    while |values| > 0
      invariant j == |yielded| && |values| == |source| - j
      invariant multiset(yielded) + multiset(values) == multiset(source)
    {
      var k := choices[j];
      var entry := values[k];
      values := RemoveAt(values, k);
      yielded := yielded + [entry];
      j := j + 1;
    }
  }

  /** With distinct keys in the source, the yielded entries have distinct keys: no entry comes twice. */
  lemma YieldsDistinctKeys<K, V>(source: seq<(K, V)>, yielded: seq<(K, V)>)
    requires forall a, b :: 0 <= a < b < |source| ==> source[a].0 != source[b].0
    requires multiset(yielded) == multiset(source)
    ensures forall a, b :: 0 <= a < b < |yielded| ==> yielded[a].0 != yielded[b].0
  {
    forall a, b | 0 <= a < b < |yielded|
      ensures yielded[a].0 != yielded[b].0
    {
      if yielded[a].0 == yielded[b].0 {
        assert yielded[a] in multiset(source) && yielded[b] in multiset(source);
        var i :| 0 <= i < |source| && source[i] == yielded[a];
        var j :| 0 <= j < |source| && source[j] == yielded[b];
        if i == j {
          assert yielded[a] == yielded[b];
          DistinctPositionsCount(yielded, a, b);
          SingleOccurrence(source, i);
        }
      }
    }
  }

  /** Two positions holding one value make it occur at least twice. */
  lemma DistinctPositionsCount<T>(s: seq<T>, a: nat, b: nat)
    requires a < b < |s| && s[a] == s[b]
    ensures multiset(s)[s[a]] >= 2
  {
    assert s == s[..a] + [s[a]] + s[a + 1..b] + [s[b]] + s[b + 1..];
  }

  /** In a sequence with distinct keys every entry occurs once. */
  lemma SingleOccurrence<K, V>(s: seq<(K, V)>, i: nat)
    requires i < |s|
    requires forall a, b :: 0 <= a < b < |s| ==> s[a].0 != s[b].0
    ensures multiset(s)[s[i]] == 1
  {
    assert s == s[..i] + [s[i]] + s[i + 1..];
    assert forall a :: 0 <= a < i ==> s[..i][a] != s[i];
    var rest := s[i + 1..];
    assert forall b :: 0 <= b < |rest| ==> rest[b] == s[i + 1 + b];
    assert forall b :: 0 <= b < |rest| ==> rest[b] != s[i];
    assert s[i] !in s[..i] && s[i] !in rest;
  }
}

/**
 Shuffle<T>: the Fisher–Yates shuffle on a copy of the input, yielding each
 element as it is placed at its final position, from the last position down.
 `choices[j]` is the value RandomProvider.Next(n + 1) returns in the j-th
 round, where n = |list| - 1 - j is the position being filled.
 */
module Shuffle {

  /** The random draws are in range: round j picks a position in [0, |list| - 1 - j]. */
  predicate ValidChoices(choices: seq<int>, size: nat, rounds: nat) {
    |choices| >= rounds && forall j :: 0 <= j < rounds ==> 0 <= choices[j] <= size - 1 - j
  }

  /**
   The loop as written: `while (n-- > 1)`, so the round that would fill
   position 0 never runs. It yields |list| - 1 values (none for fewer than two
   elements), the j-th being the final element at position |list| - 1 - j,
   and the element left at position 0 is never yielded.
   */
  method Shuffle<T>(list: seq<T>, choices: seq<int>) returns (yielded: seq<T>, arrangement: seq<T>)
    requires ValidChoices(choices, |list|, if |list| > 1 then |list| - 1 else 0)
    ensures |arrangement| == |list| && multiset(arrangement) == multiset(list)
    ensures |yielded| == if |list| > 1 then |list| - 1 else 0
    ensures forall j :: 0 <= j < |yielded| ==> yielded[j] == arrangement[|list| - 1 - j]
    ensures |list| > 0 ==> multiset(yielded) + multiset{arrangement[0]} == multiset(list)
    ensures |list| > 0 ==> |yielded| < |list|
  {
    arrangement := list;
    var n := |list|;
    yielded := [];
    while n > 1
      invariant 0 <= n <= |list| && (|list| > 0 ==> n >= 1)
      invariant Placed(list, arrangement, yielded, n)
    {
      n := n - 1;
      var k := choices[|list| - 1 - n];
      Round(list, arrangement, yielded, k, n);
      arrangement := Swap(arrangement, k, n);
      yielded := yielded + [arrangement[n]];
    }
    if |list| > 0 {
      assert arrangement == [arrangement[0]] + arrangement[1..];
    }
  }

  /**
   The loop's state before the round that fills position n - 1: the positions
   from n on are final, and the values yielded so far are exactly those, from
   the last position down.
   */
  ghost predicate Placed<T>(list: seq<T>, arrangement: seq<T>, yielded: seq<T>, n: nat) {
    && n <= |list|
    && |arrangement| == |list| && |yielded| == |list| - n
    && multiset(arrangement) == multiset(list)
    && (forall j :: 0 <= j < |yielded| ==> yielded[j] == arrangement[|list| - 1 - j])
    && multiset(yielded) == multiset(arrangement[n..])
  }

  /** One round: exchanging position n with a position at or below it and yielding position n. */
  lemma Round<T>(list: seq<T>, arrangement: seq<T>, yielded: seq<T>, k: nat, n: nat)
    requires k <= n && Placed(list, arrangement, yielded, n + 1)
    ensures Placed(list, Swap(arrangement, k, n), yielded + [Swap(arrangement, k, n)[n]], n)
  {
    var next := Swap(arrangement, k, n);
    Swapped(arrangement, k, n);
    PlacedAt(next, yielded, n);
  }

  /** `s` with positions `k` and `n` exchanged, as the loop body's three assignments leave it. */
  function Swap<T>(s: seq<T>, k: nat, n: nat): (r: seq<T>)
    requires k <= n < |s|
    ensures |r| == |s| && r[n] == s[k] && r[k] == s[n]
    ensures forall i :: 0 <= i < |s| && i != k && i != n ==> r[i] == s[i]
  {
    s[k := s[n]][n := s[k]]
  }

  /**
   After position n is filled, the tail from n is the tail from n + 1 with
   one more element, which is what the round yields.
   */
  lemma PlacedAt<T>(s: seq<T>, yielded: seq<T>, n: nat)
    requires n < |s|
    requires multiset(yielded) == multiset(s[n + 1..])
    ensures multiset(yielded + [s[n]]) == multiset(s[n..])
  {
    assert s[n..] == [s[n]] + s[n + 1..];
  }

  /** Exchanging two positions keeps the multiset and every position above both. */
  lemma Swapped<T>(s: seq<T>, k: nat, n: nat)
    requires k <= n < |s|
    ensures multiset(Swap(s, k, n)) == multiset(s)
    ensures forall i :: n < i < |s| ==> Swap(s, k, n)[i] == s[i]
  {
    var t := s[k := s[n]];
    assert multiset(t) == multiset(s) - multiset{s[k]} + multiset{s[n]};
    assert multiset(t[n := s[k]]) == multiset(t) - multiset{t[n]} + multiset{s[k]};
  }

  /**
   The shuffle the documentation promises, a scrambled list of the original
   items: the loop runs while `n-- > 0`, so the last round fills position 0
   too and every element is yielded.
   */
  method ShuffleFull<T>(list: seq<T>, choices: seq<int>) returns (yielded: seq<T>)
    requires ValidChoices(choices, |list|, |list|)
    ensures |yielded| == |list|
    ensures multiset(yielded) == multiset(list)
  {
    var elements := list;
    var n := |list|;
    yielded := [];
    while n > 0
      invariant 0 <= n <= |list|
      invariant Placed(list, elements, yielded, n)
    {
      n := n - 1;
      var k := choices[|list| - 1 - n];
      Round(list, elements, yielded, k, n);
      elements := Swap(elements, k, n);
      yielded := yielded + [elements[n]];
    }
    assert elements[0..] == elements;
  }

  /** Shuffling two elements yields only one of them. */
  method PairLosesOne() returns (yielded: seq<int>)
    ensures |yielded| == 1 && multiset(yielded) != multiset([1, 2])
  {
    var arrangement;
    yielded, arrangement := Shuffle([1, 2], [0]);
  }
}

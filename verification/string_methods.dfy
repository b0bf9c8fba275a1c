/**
 The string extensions: IndexesOf for a character (the generic search on the
 string's characters), IndexesOf for a substring with ordinal matching, and
 the ordinal CountCharacters.
 */
module StringMethods {
  import opened Wrappers
  import IndexesOf
  import SequenceMethods

  // ---------------------------------------------------------------- IndexesOf(char)

  /**
   IndexesOf(source, value, startIndex, count) for a character.
   String.IndexOf(char, startIndex, count) makes the same range checks as
   Array.IndexOf, so this is the generic search on the characters.
   */
  function IndexesOfChar(s: string, c: char, startIndex: int, count: int): (r: Yielded<nat>)
    ensures !IndexesOf.ValidWindow(|s|, startIndex, count) <==> r == Yielded([], Some(ArgumentOutOfRange))
    ensures forall k :: 0 <= k < |r.items| ==> startIndex <= r.items[k] < |s| && s[r.items[k]] == c
    ensures forall a, b :: 0 <= a < b < |r.items| ==> r.items[a] < r.items[b]
    ensures IndexesOf.ValidWindow(|s|, startIndex, count) ==>
              var i := IndexesOf.FirstIn(s, c, startIndex, startIndex + count);
              && (i == -1 <==> r == Yielded([], None))
              && (i != -1 ==> |r.items| > 0 && r.items[0] == i)
  {
    IndexesOf.IndexesOf(s, c, startIndex, count)
  }

  /** IndexesOf(source, value) for a character: the first occurrence, then the out-of-range second search. */
  function IndexesOfCharAll(s: string, c: char): (r: Yielded<nat>)
    ensures var i := IndexesOf.FirstIn(s, c, 0, |s|);
            r == if i == -1 then Yielded([], None) else Yielded([i as nat], Some(ArgumentOutOfRange))
  {
    IndexesOf.IndexesOfAll(s, c)
  }

  /** IndexesOf(source, value, startIndex) for a character, with count = |s| - startIndex. */
  function IndexesOfCharFrom(s: string, c: char, startIndex: int): (r: Yielded<nat>)
    ensures startIndex < 0 || startIndex > |s| ==> r == Yielded([], Some(ArgumentOutOfRange))
    ensures 0 <= startIndex <= |s| ==>
              var i := IndexesOf.FirstIn(s, c, startIndex, |s|);
              r == if i == -1 then Yielded([], None) else Yielded([i as nat], Some(ArgumentOutOfRange))
  {
    IndexesOf.IndexesOfFrom(s, c, startIndex)
  }

  // ---------------------------------------------------------------- IndexesOf(string)

  /** `v` occurs in `s` at position j. */
  predicate MatchAt(s: string, v: string, j: int) {
    0 <= j && j + |v| <= |s| && s[j..j + |v|] == v
  }

  /** No occurrence lies wholly inside [lo, hi). */
  ghost predicate NoMatchIn(s: string, v: string, lo: int, hi: int) {
    forall j :: lo <= j && j + |v| <= hi ==> !MatchAt(s, v, j)
  }

  /** No occurrence starts in [lo, until). */
  ghost predicate NoMatchBefore(s: string, v: string, lo: int, until: int) {
    forall j :: lo <= j < until ==> !MatchAt(s, v, j)
  }

  /**
   The ordinal String.IndexOf(value, startIndex, count) on a valid window: the
   first position in [lo, hi) where the whole of `v` fits and matches, or -1.
   An empty `v` is found at `lo`.
   */
  function FirstMatch(s: string, v: string, lo: nat, hi: nat): (r: int)
    requires lo <= hi <= |s|
    ensures r == -1 <==> NoMatchIn(s, v, lo, hi)
    ensures r != -1 ==> lo <= r && r + |v| <= hi && MatchAt(s, v, r) && NoMatchBefore(s, v, lo, r)
    decreases hi - lo
  {
    if lo + |v| > hi then -1
    else if s[lo..lo + |v|] == v then assert MatchAt(s, v, lo); lo
    else FirstMatch(s, v, lo + 1, hi)
  }

  /** String.IndexOf(value, startIndex, count, comparisonType) with ordinal comparison, with its argument checks. */
  function StringIndexOf(s: string, value: string, startIndex: int, count: int): (r: Result<int>)
    ensures r.Failure? <==> !IndexesOf.ValidWindow(|s|, startIndex, count)
    ensures r.Failure? ==> r.error == ArgumentOutOfRange
    ensures r.Success? ==> r.value == FirstMatch(s, value, startIndex, startIndex + count)
  {
    if startIndex < 0 || startIndex > |s| then Failure(ArgumentOutOfRange)
    else if count < 0 || startIndex > |s| - count then Failure(ArgumentOutOfRange)
    else Success(FirstMatch(s, value, startIndex, startIndex + count))
  }

  /**
   Leftmost non-overlapping matches of `v` lying in [lo, hi): each match is
   the first one at or after the end of the previous, and after the last there
   is none.
   */
  ghost predicate Greedy(s: string, v: string, items: seq<nat>, lo: int, hi: int)
    decreases |items|
  {
    if |items| == 0 then NoMatchIn(s, v, lo, hi)
    else
      && lo <= items[0] && items[0] + |v| <= hi && MatchAt(s, v, items[0])
      && NoMatchBefore(s, v, lo, items[0])
      && Greedy(s, v, items[1..], items[0] + |v|, hi)
  }

  /** The leftmost non-overlapping matches are one list: Greedy leaves no choice. */
  lemma {:induction false} GreedyUnique(s: string, v: string, a: seq<nat>, b: seq<nat>, lo: int, hi: int)
    requires |v| > 0
    requires Greedy(s, v, a, lo, hi) && Greedy(s, v, b, lo, hi)
    ensures a == b
    decreases |a|
  {
    if |a| > 0 && |b| > 0 {
      GreedyUnique(s, v, a[1..], b[1..], a[0] + |v|, hi);
      assert a == [a[0]] + a[1..] && b == [b[0]] + b[1..];
    }
  }

  /**
   The loop: the search after a match at i starts at i + |value| with count
   `count - i - |value|`, so every search ends at the original `count`, used
   as an absolute position. Only the first search can fail, when it starts
   beyond that end.
   */
  function StringIterate(s: string, v: string, from: nat, end: int): (r: Yielded<nat>)
    requires (|v| > 0 || end < from) && from <= |s| && end <= |s|
    ensures r.failure.Some? <==> end < from
    ensures r.failure.Some? ==> r == Yielded([], Some(ArgumentOutOfRange))
    ensures r.failure.None? ==> Greedy(s, v, r.items, from, end)
    decreases |s| - from
  {
    match StringIndexOf(s, v, from, end - from)
    case Failure(e) => Yielded([], Some(e))
    case Success(i) =>
      if i == -1 then Yielded([], None)
      else
        var rest := StringIterate(s, v, i + |v|, end);
        Yielded([i as nat] + rest.items, rest.failure)
  }

  /**
   IndexesOf(source, value, startIndex, count, comparisonType), ordinal. A
   null value and the range checks fail first; then the matches are those in
   [startIndex, count), and a startIndex beyond count fails the first search.
   */
  function StringIndexesOf(s: string, value: Option<string>, startIndex: int, count: int): (r: Yielded<nat>)
    requires value == Some("") ==> !IndexesOf.ValidWindow(|s|, startIndex, count) || startIndex > count
    ensures value.None? ==> r == Yielded([], Some(ArgumentNull))
    ensures value.Some? && !IndexesOf.ValidWindow(|s|, startIndex, count) ==> r == Yielded([], Some(ArgumentOutOfRange))
    ensures value.Some? && IndexesOf.ValidWindow(|s|, startIndex, count) && startIndex > count ==>
              r == Yielded([], Some(ArgumentOutOfRange))
    ensures value.Some? && IndexesOf.ValidWindow(|s|, startIndex, count) && startIndex <= count ==>
              r.failure.None? && Greedy(s, value.value, r.items, startIndex, count)
  {
    match value
    case None => Yielded([], Some(ArgumentNull))
    case Some(v) =>
      if startIndex < 0 || startIndex > |s| then Yielded([], Some(ArgumentOutOfRange))
      else if count < 0 || startIndex > |s| - count then Yielded([], Some(ArgumentOutOfRange))
      else StringIterate(s, v, startIndex, count)
  }

  /**
   IndexesOf(source, value, startIndex[, comparisonType]): count is
   |s| - startIndex, which as an end position cuts the search at |s| - startIndex,
   and fails outright once 2·startIndex > |s|.
   */
  function StringIndexesOfFrom(s: string, value: Option<string>, startIndex: int): (r: Yielded<nat>)
    requires value == Some("") ==> startIndex < 0 || 2 * startIndex > |s|
    ensures value.None? ==> r == Yielded([], Some(ArgumentNull))
    ensures value.Some? && (startIndex < 0 || startIndex > |s|) ==> r == Yielded([], Some(ArgumentOutOfRange))
    ensures value.Some? && 0 <= startIndex <= |s| && 2 * startIndex > |s| ==> r == Yielded([], Some(ArgumentOutOfRange))
    ensures value.Some? && 0 <= startIndex && 2 * startIndex <= |s| ==>
              r.failure.None? && Greedy(s, value.value, r.items, startIndex, |s| - startIndex)
  {
    StringIndexesOf(s, value, startIndex, |s| - startIndex)
  }

  /** IndexesOf(source, value[, comparisonType]): the whole string, which is searched correctly. */
  function StringIndexesOfAll(s: string, value: Option<string>): (r: Yielded<nat>)
    requires value.Some? ==> |value.value| > 0
    ensures value.None? ==> r == Yielded([], Some(ArgumentNull))
    ensures value.Some? ==> r.failure.None? && Greedy(s, value.value, r.items, 0, |s|)
  {
    StringIndexesOf(s, value, 0, |s|)
  }

  /** The search as documented: every search ends at startIndex + count. */
  function CorrectedStringIndexesOf(s: string, value: Option<string>, startIndex: int, count: int): (r: Yielded<nat>)
    requires value == Some("") ==> !IndexesOf.ValidWindow(|s|, startIndex, count)
    ensures value.None? ==> r == Yielded([], Some(ArgumentNull))
    ensures value.Some? && !IndexesOf.ValidWindow(|s|, startIndex, count) ==> r == Yielded([], Some(ArgumentOutOfRange))
    ensures value.Some? && IndexesOf.ValidWindow(|s|, startIndex, count) ==>
              r.failure.None? && Greedy(s, value.value, r.items, startIndex, startIndex + count)
  {
    match value
    case None => Yielded([], Some(ArgumentNull))
    case Some(v) =>
      if startIndex < 0 || startIndex > |s| then Yielded([], Some(ArgumentOutOfRange))
      else if count < 0 || startIndex > |s| - count then Yielded([], Some(ArgumentOutOfRange))
      else StringIterate(s, v, startIndex, startIndex + count)
  }

  /** Searching "abab" for "b" from 3 fails as written; the documented window reports 3. */
  lemma StartPastHalf()
    ensures StringIndexesOfFrom("abab", Some("b"), 3) == Yielded([], Some(ArgumentOutOfRange))
    ensures CorrectedStringIndexesOf("abab", Some("b"), 3, 1) == Yielded([3], None)
  {
    var r := CorrectedStringIndexesOf("abab", Some("b"), 3, 1);
    assert MatchAt("abab", "b", 3);
    assert Greedy("abab", "b", [3], 3, 4);
    GreedyUnique("abab", "b", r.items, [3], 3, 4);
  }

  /** Searching "aaaa" for "a" in two positions from 1 stops at position 2 as written; the documented window reports 1 and 2. */
  lemma CountAsEnd()
    ensures StringIndexesOf("aaaa", Some("a"), 1, 2) == Yielded([1], None)
    ensures CorrectedStringIndexesOf("aaaa", Some("a"), 1, 2) == Yielded([1, 2], None)
  {
    var r := StringIndexesOf("aaaa", Some("a"), 1, 2);
    assert MatchAt("aaaa", "a", 1);
    var one: seq<nat> := [1];
    assert one[1..] == [];
    assert Greedy("aaaa", "a", [1], 1, 2);
    GreedyUnique("aaaa", "a", r.items, [1], 1, 2);
    var c := CorrectedStringIndexesOf("aaaa", Some("a"), 1, 2);
    assert MatchAt("aaaa", "a", 2);
    var two: seq<nat> := [1, 2];
    assert two[1..] == [2];
    assert two[1..][1..] == [];
    assert Greedy("aaaa", "a", two, 1, 3);
    GreedyUnique("aaaa", "a", c.items, [1, 2], 1, 3);
  }

  /**
   An empty value ends the search only where the first search fails: with
   start 2 and count 1 that search is given a negative count, and so is the
   startIndex overload on "ab" from 2.
   */
  lemma EmptyValuePastCount()
    ensures StringIndexesOf("abc", Some(""), 2, 1) == Yielded([], Some(ArgumentOutOfRange))
    ensures StringIndexesOfFrom("ab", Some(""), 2) == Yielded([], Some(ArgumentOutOfRange))
  {
  }

  /** Searching "aa" for 'a' reports 0 and then fails as written; the documented window reports 0 and 1. */
  lemma CharPairLosesSecond()
    ensures IndexesOfCharAll("aa", 'a') == Yielded([0], Some(ArgumentOutOfRange))
    ensures IndexesOf.CorrectedIndexesOf("aa", 'a', 0, 2) == Yielded([0, 1], None)
  {
    IndexesOf.TwoOccurrences('a');
    assert "aa" == ['a', 'a'];
  }

  // ---------------------------------------------------------------- CountCharacters

  /** String.CompareOrdinal of two one-character strings: the sign of the code difference. */
  function OrdinalCompare(a: char, b: char): (r: int)
    ensures r == 0 <==> a == b
  {
    if a < b then -1 else if a == b then 0 else 1
  }

  /**
   CountCharacters(source, characters), ordinal: the number of positions
   whose character is one of `characters`.
   */
  function CountCharacters(s: string, characters: seq<char>): (n: nat)
    ensures n == |set k | 0 <= k < |s| && s[k] in characters|
    ensures n <= |s|
    ensures |characters| == 0 ==> n == 0
  {
    assert forall x :: SequenceMethods.Matches(characters, x, OrdinalCompare) <==> x in characters by {
      forall x
        ensures SequenceMethods.Matches(characters, x, OrdinalCompare) <==> x in characters
      {
        if x in characters {
          var i :| 0 <= i < |characters| && characters[i] == x;
          assert OrdinalCompare(characters[i], x) == 0;
        }
      }
    }
    SequenceMethods.CountManyIsMatchingPositions(s, characters, OrdinalCompare);
    assert (set k | 0 <= k < |s| && SequenceMethods.Matches(characters, s[k], OrdinalCompare))
        == (set k | 0 <= k < |s| && s[k] in characters);
    SequenceMethods.CountMany(s, characters, OrdinalCompare)
  }

  /** Counting is additive over concatenation. */
  lemma CountCharactersAppend(a: string, b: string, characters: seq<char>)
    ensures CountCharacters(a + b, characters) == CountCharacters(a, characters) + CountCharacters(b, characters)
  {
    SequenceMethods.CountManyAppend(a, b, characters, OrdinalCompare);
  }
}

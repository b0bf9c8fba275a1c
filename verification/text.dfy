/**
 String helpers shared by the two converters: String.Split with a one-character
 separator and StringSplitOptions.None, String.Join, and String.Trim with the
 whitespace set of Char.IsWhiteSpace. A `char` is a Unicode scalar value, so a
 .NET string is modelled position for position only when it holds no surrogate
 code units.
 */
module Text {

  /** The part of CultureInfo the converters read: TextInfo.ListSeparator, one character here. */
  datatype Culture = Culture(listSeparator: char)

  /** Number of positions of `s` holding `c`. */
  function CountChar(s: string, c: char): (n: nat)
    ensures n <= |s|
    ensures n == 0 <==> c !in s
  {
    if |s| == 0 then 0 else (if s[0] == c then 1 else 0) + CountChar(s[1..], c)
  }

  lemma CountCharAppend(a: string, b: string, c: char)
    ensures CountChar(a + b, c) == CountChar(a, c) + CountChar(b, c)
  {
    if |a| > 0 {
      assert (a + b)[1..] == a[1..] + b;
      CountCharAppend(a[1..], b, c);
    } else {
      assert a + b == b;
    }
  }

  /** String.Join(sep, parts). */
  function Join(parts: seq<string>, sep: char): (s: string)
    ensures |parts| == 1 ==> s == parts[0]
  {
    if |parts| == 0 then ""
    else if |parts| == 1 then parts[0]
    else parts[0] + [sep] + Join(parts[1..], sep)
  }

  /** `s.Split(new[] { sep }, StringSplitOptions.None)`: every separator splits, empty parts kept. */
  function Split(s: string, sep: char): (parts: seq<string>)
    ensures |parts| >= 1
    ensures forall i :: 0 <= i < |parts| ==> sep !in parts[i]
  {
    if |s| == 0 then [""]
    else
      var rest := Split(s[1..], sep);
      if s[0] == sep then [""] + rest
      else [[s[0]] + rest[0]] + rest[1..]
  }

  /** Split and Join are inverse: joining the parts restores the text. */
  lemma {:induction false} JoinSplit(s: string, sep: char)
    ensures Join(Split(s, sep), sep) == s
  {
    if |s| > 0 {
      var rest := Split(s[1..], sep);
      JoinSplit(s[1..], sep);
      if s[0] == sep {
        assert Split(s, sep) == [""] + rest;
        assert ([""] + rest)[1..] == rest;
      } else {
        var parts := [[s[0]] + rest[0]] + rest[1..];
        assert parts[1..] == rest[1..];
        if |rest| > 1 {
          assert Join(rest, sep) == rest[0] + [sep] + Join(rest[1..], sep);
        }
      }
    }
  }

  /** Split yields one part more than there are separators. */
  lemma {:induction false} SplitCount(s: string, sep: char)
    ensures |Split(s, sep)| == CountChar(s, sep) + 1
  {
    if |s| > 0 {
      SplitCount(s[1..], sep);
    }
  }

  /** Splitting the join of separator-free parts restores the parts. */
  lemma {:induction false} SplitJoin(parts: seq<string>, sep: char)
    requires |parts| >= 1
    requires forall i :: 0 <= i < |parts| ==> sep !in parts[i]
    ensures Split(Join(parts, sep), sep) == parts
  {
    if |parts| == 1 {
      SplitNoSep(parts[0], sep);
    } else {
      SplitJoin(parts[1..], sep);
      SplitPrefix(parts[0], Join(parts[1..], sep), sep);
      assert [parts[0]] + parts[1..] == parts;
    }
  }

  /** Text without the separator is one part. */
  lemma {:induction false} SplitNoSep(s: string, sep: char)
    requires sep !in s
    ensures Split(s, sep) == [s]
  {
    if |s| > 0 {
      SplitNoSep(s[1..], sep);
      assert [s[0]] + s[1..] == s;
    }
  }

  /** A separator-free head followed by a separator starts a new part. */
  lemma {:induction false} SplitPrefix(head: string, tail: string, sep: char)
    requires sep !in head
    ensures Split(head + [sep] + tail, sep) == [head] + Split(tail, sep)
  {
    if |head| == 0 {
      assert head + [sep] + tail == [sep] + tail;
      assert ([sep] + tail)[1..] == tail;
    } else {
      var s := head + [sep] + tail;
      assert s[0] == head[0];
      assert s[1..] == head[1..] + [sep] + tail;
      SplitPrefix(head[1..], tail, sep);
      assert [head[0]] + head[1..] == head;
    }
  }

  /** A single character other than the separator is one part. */
  lemma SplitSingle(c: char, sep: char)
    requires c != sep
    ensures Split([c], sep) == [[c]]
  {
    assert [c][1..] == "";
    assert [c] + "" == [c];
  }

  /** Appending a non-separator character extends the last part. */
  lemma {:induction false} SplitSnoc(s: string, c: char, sep: char)
    requires c != sep
    ensures Split(s + [c], sep) == ExtendLast(Split(s, sep), c)
  {
    if |s| == 0 {
      SplitSingle(c, sep);
      assert s + [c] == [c];
    } else {
      var t := s + [c];
      var rest := Split(s[1..], sep);
      assert t[0] == s[0] && t[1..] == s[1..] + [c];
      SplitSnoc(s[1..], c, sep);
      if s[0] == sep {
        ExtendLastCons("", rest, c);
      } else {
        ExtendLastHead(s[0], rest, c);
      }
    }
  }

  /** `parts` with `c` appended to its last part. */
  function ExtendLast(parts: seq<string>, c: char): (r: seq<string>)
    requires |parts| >= 1
    ensures |r| == |parts| && r[|r| - 1] == parts[|parts| - 1] + [c]
    ensures forall i :: 0 <= i < |parts| - 1 ==> r[i] == parts[i]
  {
    parts[..|parts| - 1] + [parts[|parts| - 1] + [c]]
  }

  lemma ExtendLastCons(h: string, rest: seq<string>, c: char)
    requires |rest| >= 1
    ensures ExtendLast([h] + rest, c) == [h] + ExtendLast(rest, c)
  {
    assert ([h] + rest)[..|rest|] == [h] + rest[..|rest| - 1];
  }

  lemma ExtendLastHead(x: char, rest: seq<string>, c: char)
    requires |rest| >= 1
    ensures var e := ExtendLast(rest, c); ExtendLast([[x] + rest[0]] + rest[1..], c) == [[x] + e[0]] + e[1..]
  {
    var e := ExtendLast(rest, c);
    var p := [[x] + rest[0]] + rest[1..];
    if |rest| == 1 {
      assert [x] + (rest[0] + [c]) == [x] + rest[0] + [c];
    } else {
      assert p[..|p| - 1] == [[x] + rest[0]] + rest[1..|rest| - 1];
      assert e[1..] == rest[1..|rest| - 1] + [rest[|rest| - 1] + [c]];
    }
  }

  /** Appending a separator closes the last part and opens an empty one. */
  lemma {:induction false} SplitSnocSep(s: string, sep: char)
    ensures Split(s + [sep], sep) == Split(s, sep) + [""]
  {
    if |s| == 0 {
      var t := s + [sep];
      assert t[1..] == "";
      assert Split(t[1..], sep) == [""];
    } else {
      assert (s + [sep])[1..] == s[1..] + [sep];
      SplitSnocSep(s[1..], sep);
      var rest := Split(s[1..], sep);
      if s[0] != sep {
        assert ([[s[0]] + rest[0]] + rest[1..]) + [""] == [[s[0]] + rest[0]] + (rest + [""])[1..];
      }
    }
  }

  /** Splitting creates no characters: one absent from the text is absent from every part. */
  lemma {:induction false} SplitPartsLack(s: string, sep: char, c: char)
    requires c !in s
    ensures forall i :: 0 <= i < |Split(s, sep)| ==> c !in Split(s, sep)[i]
  {
    if |s| > 0 {
      assert c !in s[1..] by {
        assert forall k :: 0 <= k < |s| - 1 ==> s[1..][k] == s[k + 1];
      }
      SplitPartsLack(s[1..], sep, c);
    }
  }

  /**
   Char.IsWhiteSpace: the Unicode space separators, the line and paragraph
   separators, U+0009 to U+000D, U+0085 and U+00A0.
   */
  predicate IsWhiteSpace(c: char) {
    || c == ' ' || ('\t' <= c <= '\r') || c == '\U{0085}' || c == '\U{00A0}'
    || c == '\U{1680}' || ('\U{2000}' <= c <= '\U{200A}') || c == '\U{2028}' || c == '\U{2029}'
    || c == '\U{202F}' || c == '\U{205F}' || c == '\U{3000}'
  }

  function TrimStart(s: string): (r: string)
    ensures |r| <= |s| && r == s[|s| - |r|..]
    ensures |r| > 0 ==> !IsWhiteSpace(r[0])
    ensures forall i :: 0 <= i < |s| - |r| ==> IsWhiteSpace(s[i])
  {
    if |s| > 0 && IsWhiteSpace(s[0]) then TrimStart(s[1..]) else s
  }

  function TrimEnd(s: string): (r: string)
    ensures |r| <= |s| && r == s[..|r|]
    ensures |r| > 0 ==> !IsWhiteSpace(r[|r| - 1])
    ensures forall i :: |r| <= i < |s| ==> IsWhiteSpace(s[i])
  {
    if |s| > 0 && IsWhiteSpace(s[|s| - 1]) then TrimEnd(s[..|s| - 1]) else s
  }

  /** `r` is the part of `s` from position `a` on, with only whitespace before it and after it. */
  ghost predicate StripsTo(s: string, a: int, r: string) {
    && 0 <= a <= |s| - |r| && r == s[a..a + |r|]
    && (forall i :: 0 <= i < a ==> IsWhiteSpace(s[i]))
    && (forall i :: a + |r| <= i < |s| ==> IsWhiteSpace(s[i]))
  }

  /** String.Trim: strips leading and trailing whitespace and keeps the middle intact. */
  function Trim(s: string): (r: string)
    ensures |r| <= |s|
    ensures |r| > 0 ==> !IsWhiteSpace(r[0]) && !IsWhiteSpace(r[|r| - 1])
    ensures exists a :: StripsTo(s, a, r)
  {
    var t := TrimStart(s);
    StripsBoth(s, t, TrimEnd(t));
    TrimEnd(t)
  }

  /** Leading whitespace cut off by TrimStart and trailing whitespace cut off by TrimEnd leave a middle part of the text. */
  lemma StripsBoth(s: string, t: string, r: string)
    requires |t| <= |s| && t == s[|s| - |t|..]
    requires forall i :: 0 <= i < |s| - |t| ==> IsWhiteSpace(s[i])
    requires |r| <= |t| && r == t[..|r|]
    requires forall i :: |r| <= i < |t| ==> IsWhiteSpace(t[i])
    ensures StripsTo(s, |s| - |t|, r)
  {
    var a := |s| - |t|;
    forall i | a + |r| <= i < |s|
      ensures IsWhiteSpace(s[i])
    {
      assert s[i] == t[i - a];
    }
  }

  /** Text already free of outer whitespace is left unchanged by Trim. */
  lemma TrimIdentity(s: string)
    requires |s| > 0 ==> !IsWhiteSpace(s[0]) && !IsWhiteSpace(s[|s| - 1])
    ensures Trim(s) == s
  {
  }

  /** Trim removes whitespace only: text that is all whitespace trims to empty, and only such text. */
  lemma TrimEmptyIffAllWhiteSpace(s: string)
    ensures |Trim(s)| == 0 <==> forall i :: 0 <= i < |s| ==> IsWhiteSpace(s[i])
  {
    var a := TrimStart(s);
    if |a| > 0 {
      assert !IsWhiteSpace(s[|s| - |a|]);
    }
  }
}

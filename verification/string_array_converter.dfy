/**
 StringArrayConverter: a list of strings written as one separator-delimited line.

 Reading runs the .NET pattern `(?<=SEP|^)((?:.*?(?:\\.)?)*)(?=SEP|$)` in
 single-line mode over the text and removes one level of backslash escaping from
 every match. The pattern is rendered here as the scanner .NET's backtracking
 engine actually performs:
 - a match may start only at the beginning of the text or right after a separator;
 - from there, a backslash and the character after it are consumed together, and
   the match stops at the first other position that is followed by a separator,
   by the end of the text, or by a newline that is the text's last character;
 - after an empty match the scan resumes one position further on.
 Writing escapes every separator inside a field with a backslash and joins the
 fields with the separator; backslashes themselves are never escaped.
 */
module StringArrayConverter {
  import opened Wrappers
  import opened Text

  /** The untyped `object` a TypeConverter receives. */
  datatype Obj = Null | Str(text: string) | StrArray(fields: seq<string>) | Other

  /** The destination `Type` of ConvertTo; `NullType` is a null reference. */
  datatype Destination = NullType | StringType | OtherType

  /** A null culture means the invariant culture, whose list separator is ",". */
  function SeparatorOf(culture: Option<Culture>): (sep: char)
    ensures culture.None? ==> sep == ','
    ensures culture.Some? ==> sep == culture.value.listSeparator
  {
    match culture
    case None => ','
    case Some(c) => c.listSeparator
  }

  // ------------------------------------------------------------ the scanner

  /** `(?<=SEP|^)` holds at position `q`. */
  predicate LookbehindAt(s: string, sep: char, q: nat) {
    q == 0 || (q <= |s| && s[q - 1] == sep)
  }

  /** `(?=SEP|$)` holds at position `q`; `$` also matches before a final newline. */
  predicate LookaheadAt(s: string, sep: char, q: nat) {
    q == |s| || (q < |s| && s[q] == sep) || (q + 1 == |s| && s[q] == '\n')
  }

  /** Where the match body that starts at `q` ends. */
  function FieldEnd(s: string, sep: char, q: nat): (e: nat)
    requires q <= |s|
    ensures q <= e <= |s|
    ensures LookaheadAt(s, sep, e)
    decreases |s| - q
  {
    if q + 1 < |s| && s[q] == '\\' then FieldEnd(s, sep, q + 2)
    else if LookaheadAt(s, sep, q) then q
    else FieldEnd(s, sep, q + 1)
  }

  /** Regex.Matches from scan position `p`: the raw (still escaped) fields. */
  function Matches(s: string, sep: char, p: nat): seq<string>
    requires p <= |s| + 1
    decreases |s| + 1 - p
  {
    if p > |s| then []
    else if !LookbehindAt(s, sep, p) then Matches(s, sep, p + 1)
    else
      var e := FieldEnd(s, sep, p);
      [s[p..e]] + Matches(s, sep, if e == p then p + 1 else e)
  }

  /** `Regex.Replace(x, @"\\(.?)", "$1")`: every backslash and the character after it become that character. */
  function Unescape(x: string): (r: string)
    ensures |r| <= |x|
    ensures '\\' !in x ==> r == x
  {
    if |x| == 0 then ""
    else if x[0] == '\\' then (if |x| == 1 then "" else [x[1]] + Unescape(x[2..]))
    else [x[0]] + Unescape(x[1..])
  }

  function MapUnescape(raw: seq<string>): (r: seq<string>)
    ensures |r| == |raw|
    ensures forall i :: 0 <= i < |r| ==> r[i] == Unescape(raw[i])
  {
    seq(|raw|, i requires 0 <= i < |raw| => Unescape(raw[i]))
  }

  /** The fields read from a text: nothing for "", otherwise the unescaped matches. */
  function Parse(s: string, sep: char): seq<string> {
    if |s| == 0 then [] else MapUnescape(Matches(s, sep, 0))
  }

  /** `x.Replace(sep, @"\" + sep)`. */
  function Escape(f: string, sep: char): (r: string)
    ensures |r| == |f| + CountChar(f, sep)
    ensures |f| > 0 ==> r[|r| - 1] == f[|f| - 1]
  {
    if |f| == 0 then ""
    else (if f[0] == sep then ['\\', sep] else [f[0]]) + Escape(f[1..], sep)
  }

  function MapEscape(fields: seq<string>, sep: char): (r: seq<string>)
    ensures |r| == |fields|
    ensures forall i :: 0 <= i < |r| ==> r[i] == Escape(fields[i], sep)
  {
    seq(|fields|, i requires 0 <= i < |fields| => Escape(fields[i], sep))
  }

  /** The text written for a list of fields. */
  function Format(fields: seq<string>, sep: char): string {
    Join(MapEscape(fields, sep), sep)
  }

  // ------------------------------------------------------------ the converter

  /** ConvertFrom: only a string can be read; "" gives no fields; no trimming. */
  function ConvertFrom(culture: Option<Culture>, value: Obj): (r: Result<seq<string>>)
    ensures !value.Str? ==> r == Failure(NotSupported)
    ensures value == Str("") ==> r == Success([])
    ensures value.Str? ==> r.Success?
  {
    match value
    case Str(s) => Success(Parse(s, SeparatorOf(culture)))
    case _ => Failure(NotSupported)
  }

  /**
   ConvertTo: only to String; a null value gives ""; anything but a string
   array fails the cast. Any other destination goes to GetConvertToException,
   which names the destination type in its NotSupportedException message; for
   a null destination that reading of the type's name is a NullReferenceException.
   */
  function ConvertTo(culture: Option<Culture>, value: Obj, destination: Destination): (r: Result<string>)
    ensures destination == NullType ==> r == Failure(NullReference)
    ensures destination == OtherType ==> r == Failure(NotSupported)
    ensures destination == StringType && value == Null ==> r == Success("")
    ensures destination == StringType && value.StrArray? ==> r.Success?
    ensures destination == StringType && (value.Str? || value.Other?) ==> r == Failure(InvalidCast)
  {
    if destination == NullType then Failure(NullReference)
    else if destination == OtherType then Failure(NotSupported)
    else
      match value
      case Null => Success("")
      case StrArray(fields) => Success(Format(fields, SeparatorOf(culture)))
      case _ => Failure(InvalidCast)
  }

  // ------------------------------------------------------------ raw fields

  /**
   A raw field made only of ordinary characters (neither a backslash nor the
   separator) and escaped separators.
   */
  predicate PlainUnits(e: string, sep: char)
    decreases |e|
  {
    || |e| == 0
    || (e[0] != '\\' && e[0] != sep && PlainUnits(e[1..], sep))
    || (|e| >= 2 && e[0] == '\\' && e[1] == sep && PlainUnits(e[2..], sep))
  }

  predicate NotEndingWith(e: string, c: char) {
    |e| == 0 || e[|e| - 1] != c
  }

  /** What `$` does to the last field: a final newline is left out of the match. */
  function DropFinalNewline(e: string): (r: string)
    ensures r <= e
  {
    if |e| > 0 && e[|e| - 1] == '\n' then e[..|e| - 1] else e
  }

  /** The match body started at a raw field stops right after it (before a final newline). */
  lemma {:induction false} FieldEndOfRaw(s: string, sep: char, p: nat, e: string)
    requires sep != '\\' && sep != '\n'
    requires p + |e| <= |s| && s[p..p + |e|] == e
    requires PlainUnits(e, sep)
    requires p + |e| == |s| || s[p + |e|] == sep
    ensures FieldEnd(s, sep, p) == p + |e| - (if p + |e| == |s| && |e| > 0 && e[|e| - 1] == '\n' then 1 else 0)
    decreases |e|
  {
    if |e| == 0 {
    } else if e[0] != '\\' && e[0] != sep && PlainUnits(e[1..], sep) {
      assert s[p] == e[0];
      assert s[p + 1..p + |e|] == e[1..];
      if p + 1 == |s| && s[p] == '\n' {
      } else {
        FieldEndOfRaw(s, sep, p + 1, e[1..]);
      }
    } else {
      assert s[p] == e[0] && s[p + 1] == e[1];
      assert s[p + 2..p + |e|] == e[2..];
      FieldEndOfRaw(s, sep, p + 2, e[2..]);
    }
  }

  /** Scanning the last raw field: one match, the field shorn of a final newline. */
  lemma MatchesOfLastRaw(s: string, sep: char, p: nat, e: string)
    requires sep != '\\' && sep != '\n'
    requires p <= |s| && LookbehindAt(s, sep, p)
    requires s[p..] == e
    requires PlainUnits(e, sep) && NotEndingWith(e, sep) && NotEndingWith(DropFinalNewline(e), sep)
    ensures Matches(s, sep, p) == [DropFinalNewline(e)]
  {
    LastRawBounds(s, sep, p, e);
    MatchAt(s, sep, p);
  }

  /** At a position where the lookbehind holds the scan finds a match, and goes on from its end. */
  lemma MatchAt(s: string, sep: char, p: nat)
    requires p <= |s| && LookbehindAt(s, sep, p)
    ensures var f := FieldEnd(s, sep, p); Matches(s, sep, p) == [s[p..f]] + Matches(s, sep, if f == p then p + 1 else f)
  {
  }

  /**
   The match body at the last raw field ends where the field, shorn of a final
   newline, ends, and no separator follows it.
   */
  lemma LastRawBounds(s: string, sep: char, p: nat, e: string)
    requires sep != '\\' && sep != '\n'
    requires p <= |s| && s[p..] == e
    requires PlainUnits(e, sep) && NotEndingWith(e, sep) && NotEndingWith(DropFinalNewline(e), sep)
    ensures var d := DropFinalNewline(e); var f := p + |d|;
      && FieldEnd(s, sep, p) == f && s[p..f] == d
      && Matches(s, sep, if f == p then p + 1 else f) == []
  {
    assert |s| == p + |e|;
    assert s[p..p + |e|] == e;
    FieldEndOfRaw(s, sep, p, e);
    var d := DropFinalNewline(e);
    var f := p + |d|;
    assert s[p..f] == d;
    NoMatchAfterLast(s, sep, p, e);
  }

  /** Past the last raw field the scan finds nothing more. */
  lemma NoMatchAfterLast(s: string, sep: char, p: nat, e: string)
    requires p <= |s| && s[p..] == e
    requires NotEndingWith(e, sep) && NotEndingWith(DropFinalNewline(e), sep)
    ensures var f := p + |DropFinalNewline(e)|; Matches(s, sep, if f == p then p + 1 else f) == []
  {
    var f := p + |DropFinalNewline(e)|;
    NoLookbehindAfterLast(s, sep, p, e);
    NothingAfterLast(s, sep, if f == p then p + 1 else f);
  }

  /** Past the last raw field's start, only its end could follow a separator, and it does not. */
  lemma NoLookbehindAfterLast(s: string, sep: char, p: nat, e: string)
    requires p <= |s| && s[p..] == e
    requires NotEndingWith(e, sep) && NotEndingWith(DropFinalNewline(e), sep)
    ensures var f := p + |DropFinalNewline(e)|;
      forall k :: (if f == p then p + 1 else f) <= k <= |s| ==> !LookbehindAt(s, sep, k)
  {
    var d := DropFinalNewline(e);
    var f := p + |d|;
    forall k | (if f == p then p + 1 else f) <= k <= |s|
      ensures !LookbehindAt(s, sep, k)
    {
      if k == |s| {
        assert s[k - 1] == e[|e| - 1];
      } else {
        assert k == f && s[k - 1] == d[|d| - 1];
      }
    }
  }

  /** Once the scan passes the last match nothing more is found. */
  lemma NothingAfterLast(s: string, sep: char, q: nat)
    requires q <= |s| + 1
    requires forall k :: q <= k <= |s| ==> !LookbehindAt(s, sep, k)
    ensures Matches(s, sep, q) == []
    decreases |s| + 1 - q
  {
    if q <= |s| {
      NothingAfterLast(s, sep, q + 1);
    }
  }

  /** Scanning a raw field followed by a separator: one match, then the scan goes on past the separator. */
  lemma MatchesOfInnerRaw(s: string, sep: char, p: nat, e: string)
    requires sep != '\\' && sep != '\n'
    requires p + |e| < |s| && LookbehindAt(s, sep, p)
    requires s[p..p + |e|] == e && s[p + |e|] == sep
    requires PlainUnits(e, sep) && NotEndingWith(e, sep)
    ensures Matches(s, sep, p) == [e] + Matches(s, sep, p + |e| + 1)
  {
    var f := p + |e|;
    InnerRawEnd(s, sep, p, e);
    MatchAt(s, sep, p);
    if |e| > 0 {
      SkipAt(s, sep, f);
    }
  }

  /** The match body at an inner raw field ends at the separator after it, where no match starts. */
  lemma InnerRawEnd(s: string, sep: char, p: nat, e: string)
    requires sep != '\\' && sep != '\n'
    requires p + |e| < |s|
    requires s[p..p + |e|] == e && s[p + |e|] == sep
    requires PlainUnits(e, sep) && NotEndingWith(e, sep)
    ensures FieldEnd(s, sep, p) == p + |e|
    ensures |e| > 0 ==> !LookbehindAt(s, sep, p + |e|)
  {
    FieldEndOfRaw(s, sep, p, e);
    if |e| > 0 {
      assert s[p + |e| - 1] == e[|e| - 1];
    }
  }

  /** Where the lookbehind fails the scan moves on by one position. */
  lemma SkipAt(s: string, sep: char, q: nat)
    requires q <= |s| && !LookbehindAt(s, sep, q)
    ensures Matches(s, sep, q) == Matches(s, sep, q + 1)
  {
  }

  /**
   A list of raw fields that scans back unchanged: every field is plain units
   not ending with the separator (an escaped one there would let the lookbehind
   start an extra match), and the last still does not once a final newline is shed.
   */
  predicate RawFields(raw: seq<string>, sep: char)
    decreases |raw|
  {
    && |raw| >= 1
    && PlainUnits(raw[0], sep) && NotEndingWith(raw[0], sep)
    && (if |raw| == 1 then NotEndingWith(DropFinalNewline(raw[0]), sep) else RawFields(raw[1..], sep))
  }

  /** RawFields, field by field. */
  lemma {:induction false} RawFieldsOfEach(raw: seq<string>, sep: char)
    requires |raw| >= 1
    requires forall i :: 0 <= i < |raw| ==> PlainUnits(raw[i], sep) && NotEndingWith(raw[i], sep)
    requires NotEndingWith(DropFinalNewline(raw[|raw| - 1]), sep)
    ensures RawFields(raw, sep)
    decreases |raw|
  {
    if |raw| > 1 {
      assert raw[1..][|raw| - 2] == raw[|raw| - 1];
      RawFieldsOfEach(raw[1..], sep);
    }
  }

  lemma RawFieldsTail(raw: seq<string>, sep: char)
    requires |raw| >= 2 && RawFields(raw, sep)
    ensures PlainUnits(raw[0], sep) && NotEndingWith(raw[0], sep)
    ensures RawFields(raw[1..], sep)
  {
  }

  /** In a join of two or more parts, the first part is followed by the separator and the join of the rest. */
  lemma JoinedFirst(s: string, sep: char, p: nat, raw: seq<string>)
    requires |raw| >= 2 && p <= |s| && s[p..] == Join(raw, sep)
    ensures p + |raw[0]| < |s| && s[p + |raw[0]|] == sep
    ensures s[p..p + |raw[0]|] == raw[0] && s[p + |raw[0]| + 1..] == Join(raw[1..], sep)
  {
    var e := raw[0];
    var rest := Join(raw[1..], sep);
    assert s[p..] == e + [sep] + rest;
    assert s[p..][..|e|] == e;
    assert s[p..][|e| + 1..] == rest;
  }

  /**
   Scanning text made of raw fields joined by the separator yields exactly those
   fields, the last one shorn of a final newline.
   */
  lemma {:induction false} MatchesOfRaw(s: string, sep: char, p: nat, raw: seq<string>)
    requires sep != '\\' && sep != '\n'
    requires p <= |s| && LookbehindAt(s, sep, p)
    requires s[p..] == Join(raw, sep)
    requires RawFields(raw, sep)
    ensures Scan(s, sep, p) == ShedFinalNewline(raw)
    decreases |raw|
  {
    var e := raw[0];
    if |raw| == 1 {
      assert s[p..] == e;
      ScanOfLastRaw(s, sep, p, e);
    } else {
      var tail := raw[1..];
      var q := p + |e| + 1;
      MatchesOfRawStep(s, sep, p, raw);
      ScanOfInnerRaw(s, sep, p, e);
      MatchesOfRaw(s, sep, q, tail);
      assert raw == [e] + tail;
      ShedFinalNewlineCons(e, tail);
    }
  }

  function Scan(s: string, sep: char, p: nat): seq<string>
    requires p <= |s| + 1
  {
    Matches(s, sep, p)
  }

  lemma ScanOfInnerRaw(s: string, sep: char, p: nat, e: string)
    requires sep != '\\' && sep != '\n'
    requires p + |e| < |s| && LookbehindAt(s, sep, p)
    requires s[p..p + |e|] == e && s[p + |e|] == sep
    requires PlainUnits(e, sep) && NotEndingWith(e, sep)
    ensures Scan(s, sep, p) == [e] + Scan(s, sep, p + |e| + 1)
  {
    MatchesOfInnerRaw(s, sep, p, e);
  }

  lemma ScanOfLastRaw(s: string, sep: char, p: nat, e: string)
    requires sep != '\\' && sep != '\n'
    requires p <= |s| && LookbehindAt(s, sep, p)
    requires s[p..] == e
    requires PlainUnits(e, sep) && NotEndingWith(e, sep) && NotEndingWith(DropFinalNewline(e), sep)
    ensures Scan(s, sep, p) == [DropFinalNewline(e)]
  {
    MatchesOfLastRaw(s, sep, p, e);
  }

  /**
   The first of two or more raw fields is a raw field followed by the
   separator, and the join of the remaining raw fields starts after it.
   */
  lemma MatchesOfRawStep(s: string, sep: char, p: nat, raw: seq<string>)
    requires sep != '\\' && sep != '\n'
    requires p <= |s| && LookbehindAt(s, sep, p)
    requires s[p..] == Join(raw, sep)
    requires |raw| >= 2 && RawFields(raw, sep)
    ensures var q := p + |raw[0]| + 1;
      && q <= |s| && LookbehindAt(s, sep, q)
      && s[q..] == Join(raw[1..], sep) && RawFields(raw[1..], sep)
      && s[p..q - 1] == raw[0] && s[q - 1] == sep
      && PlainUnits(raw[0], sep) && NotEndingWith(raw[0], sep)
  {
    JoinedFirst(s, sep, p, raw);
    RawFieldsTail(raw, sep);
  }

  /** The fields a scan of raw fields yields: the same fields, the last one shorn of a final newline. */
  function ShedFinalNewline(raw: seq<string>): (r: seq<string>)
    requires |raw| >= 1
    ensures |r| == |raw| && r[|r| - 1] == DropFinalNewline(raw[|raw| - 1])
    ensures forall i :: 0 <= i < |raw| - 1 ==> r[i] == raw[i]
  {
    raw[..|raw| - 1] + [DropFinalNewline(raw[|raw| - 1])]
  }

  /** Only the last field is affected, so a leading field passes through. */
  lemma ShedFinalNewlineCons(e: string, tail: seq<string>)
    requires |tail| >= 1
    ensures ShedFinalNewline([e] + tail) == [e] + ShedFinalNewline(tail)
  {
    var raw := [e] + tail;
    assert raw[..|raw| - 1] == [e] + tail[..|tail| - 1];
  }

  // ------------------------------------------------------------ escaping

  lemma {:induction false} EscapeIsPlainUnits(f: string, sep: char)
    requires sep != '\\' && '\\' !in f
    ensures PlainUnits(Escape(f, sep), sep)
    decreases |f|
  {
    if |f| > 0 {
      EscapeIsPlainUnits(f[1..], sep);
      var e := Escape(f, sep);
      if f[0] == sep {
        assert e[2..] == Escape(f[1..], sep);
      } else {
        assert e[1..] == Escape(f[1..], sep);
      }
    }
  }

  /** Unescaping undoes escaping for fields without backslashes. */
  lemma {:induction false} UnescapeEscape(f: string, sep: char)
    requires sep != '\\' && '\\' !in f
    ensures Unescape(Escape(f, sep)) == f
    decreases |f|
  {
    if |f| > 0 {
      UnescapeFirst(f, sep);
      UnescapeEscape(f[1..], sep);
      assert Unescape(Escape(f, sep)) == [f[0]] + f[1..] == f;
    }
  }

  /** Unescaping an escaped text gives back its first character, then the unescaped rest. */
  lemma UnescapeFirst(f: string, sep: char)
    requires sep != '\\' && |f| > 0 && f[0] != '\\'
    ensures Unescape(Escape(f, sep)) == [f[0]] + Unescape(Escape(f[1..], sep))
  {
    var e := Escape(f, sep);
    var r := Escape(f[1..], sep);
    if f[0] == sep {
      assert e == ['\\', sep] + r && e[2..] == r;
    } else {
      assert e == [f[0]] + r && e[1..] == r;
    }
  }

  /** The conditions under which reading back a written list restores it. */
  predicate RoundTrips(fields: seq<string>, sep: char) {
    && fields != [""]
    && (forall i :: 0 <= i < |fields| ==> '\\' !in fields[i] && NotEndingWith(fields[i], sep))
    && (|fields| > 0 ==> NotEndingWith(fields[|fields| - 1], '\n'))
  }

  /** The escaped fields of a list meeting RoundTrips are raw fields that scan back unchanged. */
  lemma EscapedAreRaw(fields: seq<string>, sep: char)
    requires sep != '\\' && |fields| > 0 && RoundTrips(fields, sep)
    ensures RawFields(MapEscape(fields, sep), sep)
    ensures NotEndingWith(MapEscape(fields, sep)[|fields| - 1], '\n')
  {
    var raw := MapEscape(fields, sep);
    forall i | 0 <= i < |raw|
      ensures PlainUnits(raw[i], sep) && NotEndingWith(raw[i], sep)
    {
      EscapeIsPlainUnits(fields[i], sep);
    }
    assert DropFinalNewline(raw[|raw| - 1]) == raw[|raw| - 1];
    RawFieldsOfEach(raw, sep);
  }

  /** Unescaping every escaped field gives the fields back. */
  lemma UnescapeAll(fields: seq<string>, sep: char)
    requires sep != '\\' && forall i :: 0 <= i < |fields| ==> '\\' !in fields[i]
    ensures MapUnescape(MapEscape(fields, sep)) == fields
  {
    forall i | 0 <= i < |fields|
      ensures Unescape(MapEscape(fields, sep)[i]) == fields[i]
    {
      UnescapeEscape(fields[i], sep);
    }
  }

  /** Reading back what was written restores the fields, under RoundTrips. */
  lemma ParseFormat(fields: seq<string>, sep: char)
    requires sep != '\\' && sep != '\n'
    requires RoundTrips(fields, sep)
    ensures Parse(Format(fields, sep), sep) == fields
  {
    if |fields| > 0 {
      var raw := MapEscape(fields, sep);
      var s := Format(fields, sep);
      assert s == Join(raw, sep);
      FormatNotEmpty(fields, sep);
      EscapedAreRaw(fields, sep);
      ParseOfRaw(s, sep, raw);
      UnescapeAll(fields, sep);
      assert Parse(s, sep) == MapUnescape(raw) == fields;
    } else {
      assert Format(fields, sep) == "";
    }
  }

  /** Reading a non-empty join of raw fields unescapes each field, the last shorn of a final newline. */
  lemma ScanOfRaw(s: string, sep: char, raw: seq<string>)
    requires sep != '\\' && sep != '\n'
    requires |s| > 0 && s == Join(raw, sep) && RawFields(raw, sep)
    ensures Parse(s, sep) == MapUnescape(ShedFinalNewline(raw))
  {
    assert s[0..] == s;
    MatchesOfRaw(s, sep, 0, raw);
    assert Parse(s, sep) == MapUnescape(Matches(s, sep, 0)) == MapUnescape(Scan(s, sep, 0)) == MapUnescape(ShedFinalNewline(raw));
  }

  /** Hence, when the last raw field does not end with a newline, reading unescapes each field. */
  lemma ParseOfRaw(s: string, sep: char, raw: seq<string>)
    requires sep != '\\' && sep != '\n'
    requires |s| > 0 && s == Join(raw, sep) && RawFields(raw, sep)
    requires NotEndingWith(raw[|raw| - 1], '\n')
    ensures Parse(s, sep) == MapUnescape(raw)
  {
    ScanOfRaw(s, sep, raw);
    ShedNothing(raw);
  }

  lemma ShedNothing(raw: seq<string>)
    requires |raw| >= 1 && NotEndingWith(raw[|raw| - 1], '\n')
    ensures ShedFinalNewline(raw) == raw
  {
    assert raw[..|raw| - 1] + [raw[|raw| - 1]] == raw;
  }

  /** A list meeting RoundTrips, other than the empty list, is written as a non-empty text. */
  lemma FormatNotEmpty(fields: seq<string>, sep: char)
    requires |fields| > 0 && RoundTrips(fields, sep)
    ensures |Format(fields, sep)| > 0
  {
    var raw := MapEscape(fields, sep);
    if |fields| == 1 {
      assert |fields[0]| > 0;
    } else {
      assert Join(raw, sep) == raw[0] + [sep] + Join(raw[1..], sep);
    }
  }

  /** The converter-level round trip: ConvertFrom(ConvertTo(fields)) == fields under RoundTrips. */
  lemma ConvertRoundTrip(culture: Option<Culture>, fields: seq<string>)
    requires SeparatorOf(culture) != '\\' && SeparatorOf(culture) != '\n'
    requires RoundTrips(fields, SeparatorOf(culture))
    ensures ConvertTo(culture, StrArray(fields), StringType).Success?
    ensures ConvertFrom(culture, Str(ConvertTo(culture, StrArray(fields), StringType).value)) == Success(fields)
  {
    ParseFormat(fields, SeparatorOf(culture));
  }

  // ------------------------------------------------------------ text without escapes

  lemma {:induction false} PlainUnitsOfPlain(e: string, sep: char)
    requires '\\' !in e && sep !in e
    ensures PlainUnits(e, sep)
    decreases |e|
  {
    if |e| > 0 {
      assert '\\' !in e[1..] && sep !in e[1..] by {
        assert forall k :: 0 <= k < |e| - 1 ==> e[1..][k] == e[k + 1];
      }
      PlainUnitsOfPlain(e[1..], sep);
    }
  }

  /** Splitting the text and then shedding a final newline from the last part is splitting the shorter text. */
  lemma SplitDropFinalNewline(s: string, sep: char)
    requires |s| > 0 && sep != '\n'
    ensures var raw := Split(s, sep);
      ShedFinalNewline(raw) == Split(DropFinalNewline(s), sep)
  {
    var t := s[..|s| - 1];
    var c := s[|s| - 1];
    assert s == t + [c];
    if c == sep {
      SplitSnocSep(t, sep);
      AdjustLastEmpty(Split(t, sep));
    } else {
      SplitSnoc(t, c, sep);
      AdjustLastSnoc(Split(t, sep), c);
    }
  }

  lemma AdjustLastEmpty(P: seq<string>)
    ensures var raw := P + [""]; ShedFinalNewline(raw) == raw
  {
  }

  lemma AdjustLastSnoc(P: seq<string>, c: char)
    requires |P| > 0
    ensures var raw := P[..|P| - 1] + [P[|P| - 1] + [c]];
      ShedFinalNewline(raw) == (if c == '\n' then P else raw)
  {
    var raw := P[..|P| - 1] + [P[|P| - 1] + [c]];
    assert raw[..|raw| - 1] == P[..|P| - 1];
    if c == '\n' {
      assert DropFinalNewline(raw[|raw| - 1]) == P[|P| - 1];
      assert P[..|P| - 1] + [P[|P| - 1]] == P;
    }
  }

  /**
   Text without backslashes is split at every separator, empty fields included;
   only a final newline is lost, to the `$` of the pattern.
   */
  lemma ParseWithoutEscapes(s: string, sep: char)
    requires sep != '\\' && sep != '\n'
    requires '\\' !in s
    ensures Parse(s, sep) == (if |s| == 0 then [] else Split(DropFinalNewline(s), sep))
  {
    if |s| > 0 {
      var raw := Split(s, sep);
      var lines := Split(DropFinalNewline(s), sep);
      JoinSplit(s, sep);
      SplitIsRaw(s, sep);
      ScanOfRaw(s, sep, raw);
      SplitDropFinalNewline(s, sep);
      assert ShedFinalNewline(raw) == lines;
      UnescapePlain(lines, DropFinalNewline(s), sep);
      assert Parse(s, sep) == MapUnescape(lines) == lines;
    }
  }

  /** The parts of text without backslashes are raw fields. */
  lemma SplitIsRaw(s: string, sep: char)
    requires sep != '\\' && '\\' !in s
    ensures RawFields(Split(s, sep), sep)
  {
    var raw := Split(s, sep);
    SplitPartsLack(s, sep, '\\');
    forall i | 0 <= i < |raw|
      ensures PlainUnits(raw[i], sep) && NotEndingWith(raw[i], sep)
    {
      PlainUnitsOfPlain(raw[i], sep);
    }
    assert sep !in DropFinalNewline(raw[|raw| - 1]);
    RawFieldsOfEach(raw, sep);
  }

  /** Unescaping leaves the parts of text without backslashes unchanged. */
  lemma UnescapePlain(parts: seq<string>, d: string, sep: char)
    requires '\\' !in d && parts == Split(d, sep)
    ensures MapUnescape(parts) == parts
  {
    SplitPartsLack(d, sep, '\\');
  }

  /** Hence the number of fields of such text is one more than its number of separators. */
  lemma ParseCountWithoutEscapes(s: string, sep: char)
    requires sep != '\\' && sep != '\n'
    requires |s| > 0 && '\\' !in s
    ensures |Parse(s, sep)| == CountChar(DropFinalNewline(s), sep) + 1
  {
    ParseWithoutEscapes(s, sep);
    SplitCount(DropFinalNewline(s), sep);
  }

  // ------------------------------------------------------------ worked cases

  lemma SplitFourDigits(sep: char)
    requires sep !in "1234"
    ensures Split(['1', sep, '2', sep, '3', sep, '4'], sep) == ["1", "2", "3", "4"]
  {
    SplitNoSep("4", sep);
    assert ['3', sep, '4'] == "3" + [sep] + "4";
    SplitPrefix("3", "4", sep);
    assert ['2', sep, '3', sep, '4'] == "2" + [sep] + ['3', sep, '4'];
    SplitPrefix("2", ['3', sep, '4'], sep);
    assert ['1', sep, '2', sep, '3', sep, '4'] == "1" + [sep] + ['2', sep, '3', sep, '4'];
    SplitPrefix("1", ['2', sep, '3', sep, '4'], sep);
  }

  lemma ParseFourDigits(sep: char)
    requires sep != '\\' && sep != '\n' && sep !in "1234"
    ensures Parse(['1', sep, '2', sep, '3', sep, '4'], sep) == ["1", "2", "3", "4"]
  {
    var s := ['1', sep, '2', sep, '3', sep, '4'];
    assert '\\' !in s;
    ParseWithoutEscapes(s, sep);
    assert DropFinalNewline(s) == s;
    SplitFourDigits(sep);
  }

  lemma ParseOneField()
    ensures Parse("1,2,3,4", ';') == ["1,2,3,4"]
  {
    var s := "1,2,3,4";
    assert '\\' !in s && ';' !in s;
    ParseWithoutEscapes(s, ';');
    assert DropFinalNewline(s) == s;
    SplitNoSep(s, ';');
  }

  /** The same text read under a ";" culture and under the invariant (",") culture. */
  lemma CultureAwareness()
    ensures ConvertFrom(Some(Culture(';')), Str("1,2,3,4")) == Success(["1,2,3,4"])
    ensures ConvertFrom(Some(Culture(';')), Str("1;2;3;4")) == Success(["1", "2", "3", "4"])
    ensures ConvertFrom(None, Str("1,2,3,4")) == Success(["1", "2", "3", "4"])
  {
    ParseOneField();
    ParseFourDigits(';');
    assert "1;2;3;4" == ['1', ';', '2', ';', '3', ';', '4'];
    ParseFourDigits(',');
    assert "1,2,3,4" == ['1', ',', '2', ',', '3', ',', '4'];
  }

  /** No trimming: a blank text is one blank field. */
  lemma BlankIsOneField(sep: char)
    requires sep != '\\' && sep != '\n' && sep != ' '
    ensures Parse(" ", sep) == [" "]
  {
    ParseWithoutEscapes(" ", sep);
    SplitNoSep(" ", sep);
  }

  lemma EscapeDigitSepDigit(a: char, sep: char, b: char)
    requires a != sep && b != sep
    ensures Escape([a, sep, b], sep) == [a, '\\', sep, b]
  {
    assert [a, sep, b][1..] == [sep, b];
    assert [sep, b][1..] == [b];
    assert Escape([b], sep) == [b];
  }

  lemma ParseEscapedPairs(sep: char)
    requires sep != '\\' && sep != '\n' && sep !in "1234"
    ensures Parse(['1', '\\', sep, '2', sep, '3', '\\', sep, '4'], sep) == [['1', sep, '2'], ['3', sep, '4']]
  {
    var fields := [['1', sep, '2'], ['3', sep, '4']];
    EscapeDigitSepDigit('1', sep, '2');
    EscapeDigitSepDigit('3', sep, '4');
    assert MapEscape(fields, sep) == [['1', '\\', sep, '2'], ['3', '\\', sep, '4']];
    assert Format(fields, sep) == ['1', '\\', sep, '2', sep, '3', '\\', sep, '4'];
    ParseFormat(fields, sep);
  }

  /** An escaped separator does not split and loses its backslash. */
  lemma EscapedSeparators()
    ensures Parse("1\\;2;3\\;4", ';') == ["1;2", "3;4"]
    ensures Parse("1\\,2,3\\,4", ',') == ["1,2", "3,4"]
  {
    ParseEscapedPairs(';');
    assert "1\\;2;3\\;4" == ['1', '\\', ';', '2', ';', '3', '\\', ';', '4'];
    ParseEscapedPairs(',');
    assert "1\\,2,3\\,4" == ['1', '\\', ',', '2', ',', '3', '\\', ',', '4'];
  }

  /** A field ending in an escaped separator is followed by an extra empty field. */
  lemma TrailingEscapedSeparator()
    ensures Parse("a\\;", ';') == ["a;", ""]
  {
    var s := "a\\;";
    assert s[2] == ';' && s[1] == '\\' && s[0] == 'a';
    assert FieldEnd(s, ';', 3) == 3;
    assert FieldEnd(s, ';', 1) == 3;
    assert FieldEnd(s, ';', 0) == 3;
    assert Matches(s, ';', 4) == [];
    assert LookbehindAt(s, ';', 3);
    assert s[3..3] == "";
    assert Matches(s, ';', 3) == [""] + Matches(s, ';', 4);
    assert s[0..3] == s;
    assert Matches(s, ';', 0) == [s] + Matches(s, ';', 3);
    assert Unescape(s[1..]) == ";" by {
      assert s[1..][2..] == "";
    }
    assert Unescape(s) == "a;";
    assert Parse(s, ';') == MapUnescape([s, ""]);
  }

  /** A backslash before an ordinary character is consumed all the same. */
  lemma BackslashIsConsumed()
    ensures Parse("a\\b", ';') == ["ab"]
  {
    var s := "a\\b";
    assert s[2] == 'b' && s[1] == '\\' && s[0] == 'a';
    assert FieldEnd(s, ';', 3) == 3;
    assert FieldEnd(s, ';', 1) == 3;
    assert FieldEnd(s, ';', 0) == 3;
    assert Matches(s, ';', 4) == [];
    assert !LookbehindAt(s, ';', 3);
    assert Matches(s, ';', 3) == [];
    assert s[0..3] == s;
    assert Matches(s, ';', 0) == [s] + Matches(s, ';', 3);
    assert Unescape(s[1..]) == "b" by {
      assert s[1..][2..] == "";
    }
    assert Unescape(s) == "ab";
    assert Parse(s, ';') == MapUnescape([s]);
  }

  /**
   Where the round trip fails: a single empty field is written as "" and read back
   as no field; a backslash is taken for an escape; a field ending in the
   separator is followed by an extra empty field; a final newline is lost.
   */
  lemma RoundTripLosses()
    ensures Parse(Format([""], ';'), ';') == []
    ensures Parse(Format(["a\\b"], ';'), ';') == ["ab"]
    ensures Parse(Format(["a;"], ';'), ';') == ["a;", ""]
    ensures Parse(Format(["a\n"], ';'), ';') == ["a"]
  {
    assert Escape("a\\b"[2..], ';') == "b";
    assert Escape("a\\b"[1..], ';') == "\\b";
    assert Format(["a\\b"], ';') == "a\\b";
    BackslashIsConsumed();
    assert Escape("a;"[1..], ';') == "\\;";
    assert Format(["a;"], ';') == "a\\;";
    TrailingEscapedSeparator();
    assert Escape("a\n"[1..], ';') == "\n";
    assert Format(["a\n"], ';') == "a\n";
    ParseWithoutEscapes("a\n", ';');
    SplitNoSep("a", ';');
  }
}

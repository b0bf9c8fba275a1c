/**
 RangeConverter<T>: the text form of a Range<T>, "minimum<sep> maximum", where
 <sep> is the culture's list separator. Reading trims the text, splits it at
 every separator (no escapes) and needs exactly two parts; each part goes to the
 element converter of T, which is a parameter here (`parse`, `format`).
 */
module RangeConverter {
  import opened Wrappers
  import opened Text
  import opened Ranges

  /** The untyped `object` handed to the converter. */
  datatype Value<T> =
    | NullValue
    | TextValue(text: string)
    | RangeValue(range: Range<T>)
    | OtherValue(display: string)  // any other object, with what its ToString() returns

  /** The destination `Type` of ConvertTo; `NullType` is a null reference. */
  datatype Destination = NullType | StringType | InstanceDescriptorType | OtherType

  /** What ConvertTo returns: a string, or an InstanceDescriptor naming the two-bound constructor. */
  datatype Converted<T> = TextOut(text: string) | Descriptor(minimum: T, maximum: T)

  /** A property value handed to CreateInstance. */
  datatype Property<T> = NullProperty | OfT(value: T) | OfOtherType

  /**
   The two-field read of an already trimmed, non-blank text: exactly one
   separator, then each part parsed as it stands, the first one first.
   */
  function ParseBounds<T>(c: Culture, t: string, parse: (Culture, string) -> Result<T>): (r: Result<Range<T>>)
    ensures CountChar(t, c.listSeparator) != 1 ==> r == Failure(Argument)
    ensures CountChar(t, c.listSeparator) == 1 ==> |Split(t, c.listSeparator)| == 2
    ensures r.Success? ==>
              var parts := Split(t, c.listSeparator);
              && t == parts[0] + [c.listSeparator] + parts[1]
              && parse(c, parts[0]) == Success(r.value.minimum)
              && parse(c, parts[1]) == Success(r.value.maximum)
  {
    var parts := Split(t, c.listSeparator);
    SplitCount(t, c.listSeparator);
    JoinSplit(t, c.listSeparator);
    if |parts| != 2 then Failure(Argument)
    else
      var minimum :- parse(c, parts[0]);
      var maximum :- parse(c, parts[1]);
      Success(Make(minimum, maximum))
  }

  /**
   ConvertFrom. Only a string is read; a blank one gives null (None); a null
   culture fails when its separator is looked up.
   */
  function ConvertFrom<T>(culture: Option<Culture>, value: Value<T>, parse: (Culture, string) -> Result<T>): (r: Result<Option<Range<T>>>)
    ensures !value.TextValue? ==> r == Failure(NotSupported)
    ensures value.TextValue? && |Trim(value.text)| == 0 ==> r == Success(None)
    ensures value.TextValue? && |Trim(value.text)| > 0 && culture.None? ==> r == Failure(NullReference)
    ensures value.TextValue? && |Trim(value.text)| > 0 && culture.Some? ==>
              r == ParseBounds(culture.value, Trim(value.text), parse).MapSome()
  {
    match value
    case TextValue(s) =>
      var t := Trim(s);
      if |t| == 0 then Success(None)
      else if culture.None? then Failure(NullReference)
      else
        var bounds :- ParseBounds(culture.value, t, parse);
        Success(Some(bounds))
    case _ => Failure(NotSupported)
  }

  /** The text written for a range: the two bounds joined by the separator and a space. */
  function FormatRange<T>(c: Culture, r: Range<T>, format: (Culture, T) -> string): (text: string)
    ensures |text| == |format(c, r.minimum)| + 2 + |format(c, r.maximum)|
    ensures text[|format(c, r.minimum)|] == c.listSeparator && text[|format(c, r.minimum)| + 1] == ' '
    ensures text[..|format(c, r.minimum)|] == format(c, r.minimum)
    ensures text[|format(c, r.minimum)| + 2..] == format(c, r.maximum)
  {
    format(c, r.minimum) + [c.listSeparator, ' '] + format(c, r.maximum)
  }

  /**
   ConvertTo. A null destination type is rejected first. A range becomes text
   (under the current culture when none is given) or an InstanceDescriptor; any
   other value falls to the base TypeConverter, which only produces strings.
   */
  function ConvertTo<T>(culture: Option<Culture>, current: Culture, value: Value<T>, destination: Destination,
                        format: (Culture, T) -> string): (r: Result<Converted<T>>)
    ensures destination == NullType ==> r == Failure(ArgumentNull)
    ensures value.RangeValue? && destination == StringType ==>
              r == Success(TextOut(FormatRange(if culture.None? then current else culture.value, value.range, format)))
    ensures value.RangeValue? && destination == InstanceDescriptorType ==>
              r == Success(Descriptor(value.range.minimum, value.range.maximum))
    ensures destination == OtherType ==> r == Failure(NotSupported)
    ensures !value.RangeValue? && destination == InstanceDescriptorType ==> r == Failure(NotSupported)
    ensures value == NullValue && destination == StringType ==> r == Success(TextOut(""))
  {
    if destination == NullType then Failure(ArgumentNull)
    else match value
      case RangeValue(range) =>
        if destination == StringType then
          var c := if culture.None? then current else culture.value;
          Success(TextOut(FormatRange(c, range, format)))
        else if destination == InstanceDescriptorType then
          Success(Descriptor(range.minimum, range.maximum))
        else Failure(NotSupported)
      case _ => BaseConvertTo(value, destination)
  }

  /**
   TypeConverter.ConvertTo: null becomes "", any other object its ToString();
   only to String. ConvertTo answers every request for a range itself, so a
   range never reaches this function; Range.ToString's "[min, max]" text is
   not modelled and the empty text stands in for it.
   */
  function BaseConvertTo<T>(value: Value<T>, destination: Destination): (r: Result<Converted<T>>)
    ensures destination != StringType ==> r == Failure(NotSupported)
    ensures destination == StringType ==> r.Success? && r.value.TextOut?
  {
    if destination != StringType then Failure(NotSupported)
    else match value
      case NullValue => Success(TextOut(""))
      case TextValue(s) => Success(TextOut(s))
      case RangeValue(range) => Success(TextOut(""))
      case OtherValue(display) => Success(TextOut(display))
  }

  /**
   CreateInstance: builds a range from the "Minimum" and "Maximum" property
   values; a missing key reads as null, and null or a value of another type is
   an ArgumentException.
   */
  function CreateInstance<T>(propertyValues: Option<map<string, Property<T>>>): (r: Result<Range<T>>)
    ensures propertyValues.None? ==> r == Failure(ArgumentNull)
    ensures r.Success? <==>
              && propertyValues.Some?
              && "Minimum" in propertyValues.value && propertyValues.value["Minimum"].OfT?
              && "Maximum" in propertyValues.value && propertyValues.value["Maximum"].OfT?
    ensures propertyValues.Some? && r.Failure? ==> r.error == Argument
    ensures r.Success? ==>
              r.value.minimum == propertyValues.value["Minimum"].value &&
              r.value.maximum == propertyValues.value["Maximum"].value
  {
    match propertyValues
    case None => Failure(ArgumentNull)
    case Some(m) =>
      var minimum := if "Minimum" in m then m["Minimum"] else NullProperty;
      var maximum := if "Maximum" in m then m["Maximum"] else NullProperty;
      if !minimum.OfT? || !maximum.OfT? then Failure(Argument)
      else Success(Make(minimum.value, maximum.value))
  }

  // ---------------------------------------------------------------- lemmas

  /** Two separator-free parts around one separator are read as those two parts. */
  lemma ParseBoundsOfParts<T>(c: Culture, a: string, b: string, parse: (Culture, string) -> Result<T>)
    requires c.listSeparator !in a && c.listSeparator !in b
    ensures parse(c, a).Success? && parse(c, b).Success? ==>
              ParseBounds(c, a + [c.listSeparator] + b, parse) == Success(Make(parse(c, a).value, parse(c, b).value))
    ensures parse(c, a).Failure? ==> ParseBounds(c, a + [c.listSeparator] + b, parse) == Failure(parse(c, a).error)
    ensures parse(c, a).Success? && parse(c, b).Failure? ==>
              ParseBounds(c, a + [c.listSeparator] + b, parse) == Failure(parse(c, b).error)
  {
    SplitPrefix(a, b, c.listSeparator);
    SplitNoSep(b, c.listSeparator);
    assert Split(a + [c.listSeparator] + b, c.listSeparator) == [a, b];
  }

  /** The conditions under which reading back a written range restores it. */
  ghost predicate RoundTrips<T>(c: Culture, r: Range<T>, parse: (Culture, string) -> Result<T>, format: (Culture, T) -> string) {
    var lo := format(c, r.minimum);
    var hi := format(c, r.maximum);
    && !IsWhiteSpace(c.listSeparator)
    && c.listSeparator !in lo && c.listSeparator !in hi
    && (|lo| > 0 ==> !IsWhiteSpace(lo[0]))
    && |hi| > 0 && !IsWhiteSpace(hi[|hi| - 1])
    && parse(c, lo) == Success(r.minimum)
    && parse(c, [' '] + hi) == Success(r.maximum)
  }

  /** Written text has no outer whitespace when its bounds and the separator have none. */
  lemma FormattedIsTrimmed<T>(c: Culture, r: Range<T>, parse: (Culture, string) -> Result<T>, format: (Culture, T) -> string)
    requires RoundTrips(c, r, parse, format)
    ensures Trim(FormatRange(c, r, format)) == FormatRange(c, r, format)
  {
    var lo := format(c, r.minimum);
    var hi := format(c, r.maximum);
    var text := FormatRange(c, r, format);
    assert text[0] == (if |lo| > 0 then lo[0] else c.listSeparator);
    assert text[|text| - 1] == hi[|hi| - 1];
    TrimIdentity(text);
  }

  /** The two parts of written text are the two formatted bounds, the second with its leading space. */
  lemma FormattedParses<T>(c: Culture, r: Range<T>, parse: (Culture, string) -> Result<T>, format: (Culture, T) -> string)
    requires RoundTrips(c, r, parse, format)
    ensures ParseBounds(c, FormatRange(c, r, format), parse) == Success(r)
  {
    var lo := format(c, r.minimum);
    var hi := format(c, r.maximum);
    assert FormatRange(c, r, format) == lo + [c.listSeparator] + ([' '] + hi);
    assert c.listSeparator !in [' '] + hi;
    ParseBoundsOfParts(c, lo, [' '] + hi, parse);
  }

  /**
   Reading back what was written restores the range, provided the element
   converter reads its own output (the maximum with the space the writer puts in
   front of it) and the bound texts hold no separator and no outer whitespace.
   */
  lemma ConvertRoundTrip<T>(c: Culture, current: Culture, culture: Option<Culture>, r: Range<T>,
                                parse: (Culture, string) -> Result<T>, format: (Culture, T) -> string)
    requires culture == Some(c) || (culture.None? && current == c)
    requires RoundTrips(c, r, parse, format)
    ensures ConvertTo(culture, current, RangeValue(r), StringType, format) == Success(TextOut(FormatRange(c, r, format)))
    ensures ConvertFrom(Some(c), TextValue(FormatRange(c, r, format)), parse) == Success(Some(r))
  {
    ReadsFormatted(c, r, parse, format);
  }

  /** Written text, read back with the culture it was written in, is the range. */
  lemma ReadsFormatted<T>(c: Culture, r: Range<T>, parse: (Culture, string) -> Result<T>, format: (Culture, T) -> string)
    requires RoundTrips(c, r, parse, format)
    ensures ConvertFrom(Some(c), TextValue(FormatRange(c, r, format)), parse) == Success(Some(r))
  {
    var text := FormatRange(c, r, format);
    FormattedIsTrimmed(c, r, parse, format);
    FormattedParses(c, r, parse, format);
    assert |Trim(text)| == |text| > 0;
    assert ConvertFrom(Some(c), TextValue(text), parse) == ParseBounds(c, text, parse).MapSome() == Success(Some(r));
  }

  /** Trimmed text made of two separator-free parts is read as those parts, each parsed as it stands. */
  lemma ReadsTwoParts<T>(c: Culture, a: string, b: string, parse: (Culture, string) -> Result<T>)
    requires c.listSeparator !in a && c.listSeparator !in b
    requires Trim(a + [c.listSeparator] + b) == a + [c.listSeparator] + b
    ensures parse(c, a).Success? && parse(c, b).Success? ==>
              ConvertFrom(Some(c), TextValue(a + [c.listSeparator] + b), parse)
              == Success(Some(Make(parse(c, a).value, parse(c, b).value)))
    ensures parse(c, a).Success? && parse(c, b).Failure? ==>
              ConvertFrom(Some(c), TextValue(a + [c.listSeparator] + b), parse) == Failure(parse(c, b).error)
  {
    ParseBoundsOfParts(c, a, b, parse);
  }

  /** The bounds are not put in order: text whose first bound is the larger reads as a range that is not valid. */
  lemma NoOrderCheck(c: Culture, a: string, b: string, parse: (Culture, string) -> Result<int>, x: int, y: int)
    requires c.listSeparator !in a && c.listSeparator !in b
    requires Trim(a + [c.listSeparator] + b) == a + [c.listSeparator] + b
    requires parse(c, a) == Success(x) && parse(c, b) == Success(y) && y < x
    ensures ConvertFrom(Some(c), TextValue(a + [c.listSeparator] + b), parse) == Success(Some(Make(x, y)))
    ensures !IsValid(Make(x, y), Ordering.IntCompare)
  {
    ReadsTwoParts(c, a, b, parse);
  }

  /**
   The parts are not trimmed: when the second part begins with a blank, that
   blank reaches the element parser, so a parser that rejects blanks fails the
   whole conversion ("5; 1" with separator ';').
   */
  lemma PartsNotTrimmed<T>(c: Culture, a: string, b: string, parse: (Culture, string) -> Result<T>)
    requires c.listSeparator !in a && c.listSeparator !in b
    requires |a| > 0 && !IsWhiteSpace(a[0])
    requires |b| > 1 && IsWhiteSpace(b[0]) && !IsWhiteSpace(b[|b| - 1])
    requires parse(c, a).Success? && parse(c, b).Failure?
    ensures ConvertFrom(Some(c), TextValue(a + [c.listSeparator] + b), parse) == Failure(parse(c, b).error)
  {
    var t := a + [c.listSeparator] + b;
    assert t[0] == a[0] && t[|t| - 1] == b[|b| - 1];
    TrimIdentity(t);
    ReadsTwoParts(c, a, b, parse);
  }

  /** Text with no separator, or with two, is rejected. */
  lemma WrongFieldCount<T>(c: Culture, s: string, parse: (Culture, string) -> Result<T>)
    requires |Trim(s)| > 0 && CountChar(Trim(s), c.listSeparator) != 1
    ensures ConvertFrom(Some(c), TextValue(s), parse) == Failure(Argument)
  {
  }
}

# ExtensionLib core in Dafny

A model of the pure core of ExtensionLib, a small C# library of extension
methods and type converters. It covers the following parts:

- `Range<T>`, a closed interval whose bounds are not kept in order by its
  constructors;
- `StringArrayConverter`, which writes a list of strings as one
  separator-delimited line with backslash escaping and reads such a line back
  with a .NET regular expression;
- `RangeConverter<T>`, which writes a range as two formatted bounds and reads it
  back by trimming and splitting;
- the four `GetBytes<T>` overloads, which fold a byte sequence into an unsigned
  integer, in either byte order;
- the sequence extensions: padding, `TakeRange`, the indexed dictionary,
  `IndexOfMin`/`IndexOfMax`, `CountMany` and `UniqueRandom`;
- the `IndexesOf` searches, over generic sequences, over characters and over
  substrings, plus the ordinal `CountCharacters`;
- the Fisher–Yates `Shuffle`.

Everything is modelled on immutable values. Strings are `seq<char>`, one
Dafny `char` per .NET character; a Dafny `char` is a Unicode scalar value. Errors
are a `Result` carrying the .NET exception kind. A lazy iterator is modelled
as what it yields before it stops, plus the exception it stops with, if any.

The library's outside inputs become parameters:

- the element comparison, `IComparable<T>.CompareTo`, is an `int`-valued
  function assumed to be a total preorder;
- the element codec, `TypeConverter.ConvertFromString`/`ConvertToString`, is a
  pair of functions;
- the culture is its list separator, a single character;
- `BitConverter.IsLittleEndian` is a boolean;
- `RandomProvider` is an oracle: a sequence of the values it returns.

Modules follow the source files: `Ranges`, `StringArrayConverter`,
`RangeConverter`, `ByteArithmetic`, `SequenceMethods`, `IndexesOf`,
`StringMethods` and `Shuffle`. Three shared modules support them: `Wrappers`
(Result, Option and the iterator outcome), `Ordering` (the comparer) and
`Text` (String.Split, String.Join and String.Trim with their laws).

The regular expression `StringArrayConverter` reads with is rendered as the
scanner that .NET's backtracking engine actually performs:

- a match starts only at the start of the text or right after a separator;
- a backslash is consumed together with the character after it;
- a match ends before the first separator, at the end of the text, or before a
  final newline;
- after an empty match the scan moves on by one position.

Three consequences are proved, and all of them are real behaviour of the
pattern:

- an escaped separator at the end of a field is followed by an extra empty
  field;
- a final newline is lost;
- a backslash before any character is consumed.

## Model

| member | source | states |
|---|---|---|
| Ranges.Make | ExtensionLib/Range.cs:46-50 | The two-bound constructor stores both bounds exactly as given, in either order. |
| Ranges.Single | ExtensionLib/Range.cs:56-60 | The one-value constructor sets both bounds to the value. |
| Ranges.SingleIsValid | ExtensionLib/Range.cs:56-60 | A single-point range, and so `Empty`, is valid and contains its value. |
| Ranges.InvertedRangeIsInvalid | ExtensionLib/Range.cs:46-50 | `Range(5, 1)` exists with its bounds unswapped, and it is not valid. |
| Ranges.ValidIffOrdered | ExtensionLib/Range.cs:82 | A range is valid exactly when its minimum compares at or below its maximum. |
| Ranges.ContainingImpliesValid | ExtensionLib/Range.cs:89-92 | A range that contains any value is valid. |
| Ranges.InvalidContainsNothing | ExtensionLib/Range.cs:89-92 | A range that is not valid contains no value. |
| Ranges.InsideIsContainsFlipped | ExtensionLib/Range.cs:99-112 | `a.IsInsideRange(b)` holds exactly when `b.ContainsRange(a)` does. |
| Ranges.ContainsRangeNeedsValid | ExtensionLib/Range.cs:109-112 | ContainsRange is false when either range is not valid. |
| Ranges.ContainsRangeReflexive | ExtensionLib/Range.cs:109-112 | A range contains itself exactly when it is valid. |
| Ranges.ContainsRangeContainsValue | ExtensionLib/Range.cs:89-112 | Every value of the inner range is a value of the outer range. |
| Ranges.ContainsRangeTransitive | ExtensionLib/Range.cs:109-112 | Range containment is transitive. |
| Ranges.ContainsRangeIffCovers | ExtensionLib/Range.cs:109-112 | For valid ranges, ContainsRange holds exactly when every value of the inner range is a value of the outer one. |
| RangeConverter.ParseBounds | ExtensionLib/RangeConverter.cs:77-84 | Text without exactly one separator is an ArgumentException. Otherwise the two parts are parsed as they stand, and the range holds the parsed bounds in order. |
| RangeConverter.ConvertFrom | ExtensionLib/RangeConverter.cs:69-85 | Only text can be read. Blank text gives null. A null culture fails. Other text is trimmed and read with the culture's separator. |
| RangeConverter.FormatRange | ExtensionLib/RangeConverter.cs:110-114 | The written text is the formatted minimum, the separator, a space, and the formatted maximum. |
| RangeConverter.ConvertTo | ExtensionLib/RangeConverter.cs:97-125 | A null destination is an ArgumentNullException. A range asked for as String is written as FormatRange under the given culture, or the current one when none is given. A range asked for as an InstanceDescriptor becomes one naming its two bounds. Everything else falls to the base converter: null becomes "", and any other destination is NotSupported. |
| RangeConverter.BaseConvertTo | ExtensionLib/RangeConverter.cs:124 | The base converter produces only strings, and fails with NotSupported for any other destination. |
| RangeConverter.CreateInstance | ExtensionLib/RangeConverter.cs:135-146 | A null dictionary is an ArgumentNullException. A missing, null or mistyped bound is an ArgumentException. Otherwise the result is the range of the two bounds. |
| RangeConverter.ParseBoundsOfParts | ExtensionLib/RangeConverter.cs:77-84 | Two separator-free parts around one separator read as the parsed parts, and the first parse failure is reported. |
| RangeConverter.FormattedIsTrimmed | ExtensionLib/RangeConverter.cs:74-75 | Under the round-trip conditions, written text is unchanged by the Trim in ConvertFrom. |
| RangeConverter.FormattedParses | ExtensionLib/RangeConverter.cs:77-84 | Under the round-trip conditions, written text splits and parses back to the range. |
| RangeConverter.ReadsFormatted | ExtensionLib/RangeConverter.cs:69-85 | Reading back written text, in the culture it was written in, gives the range. |
| RangeConverter.ConvertRoundTrip | ExtensionLib/RangeConverter.cs:69-125 | ConvertFrom(ConvertTo(r)) is r when the bounds format without separators or outer whitespace and parse back, the second one after a leading space. |
| RangeConverter.ReadsTwoParts | ExtensionLib/RangeConverter.cs:74-84 | Trimmed text of two separator-free parts is read by parsing each part, and a failure of either parse is reported. |
| RangeConverter.NoOrderCheck | ExtensionLib/RangeConverter.cs:81-84 | Text whose first bound is the larger is read as a range that is not valid. |
| RangeConverter.PartsNotTrimmed | ExtensionLib/RangeConverter.cs:77-84 | The parts are not trimmed individually: a second part with leading whitespace goes to the parser as it stands, and its parse failure fails the read. |
| RangeConverter.WrongFieldCount | ExtensionLib/RangeConverter.cs:77-79 | Non-blank text without a separator, or with two or more, is an ArgumentException. |
| ByteArithmetic.Reverse | ExtensionLib/ByteArithmetic.cs:97-98 | The reversal has the same length, with position i holding the element from the mirrored position. |
| ByteArithmetic.Step | ExtensionLib/ByteArithmetic.cs:101-102 | One fold step: the accumulated value shifted by a byte plus the new byte, an overflow when that exceeds T. |
| ByteArithmetic.Aggregate | ExtensionLib/ByteArithmetic.cs:100-102 | A fold result is always within T's range, and its only failure is an overflow. |
| ByteArithmetic.GetBytes | ExtensionLib/ByteArithmetic.cs:87-103 | A null source is an ArgumentNullException. An empty source is an InvalidOperationException. A single byte gives itself. Every result fits in T. |
| ByteArithmetic.GetBytesRange | ExtensionLib/ByteArithmetic.cs:42-45 | The position/length overload reads the TakeRange window in the given order. |
| ByteArithmetic.GetBytesNative | ExtensionLib/ByteArithmetic.cs:72-75 | The overload without an order reads in the platform's byte order. |
| ByteArithmetic.GetBytesRangeNative | ExtensionLib/ByteArithmetic.cs:58-61 | The position/length overload without an order reads the TakeRange window in the platform's order. |
| ByteArithmetic.AggregateNarrow | ExtensionLib/ByteArithmetic.cs:100-102 | For T narrower than 64 bits, the fold gives the big-endian value Σ b[i]·256^(n-1-i) when it fits, and an overflow otherwise. |
| ByteArithmetic.AggregateWide | ExtensionLib/ByteArithmetic.cs:100-102 | For UInt64, the fold never fails and gives the big-endian value modulo 2^64. |
| ByteArithmetic.ShiftModulo | ExtensionLib/ByteArithmetic.cs:101 | The unchecked 64-bit shift followed by the add is the exact step reduced modulo 2^64. |
| ByteArithmetic.LittleEndianIsReversed | ExtensionLib/ByteArithmetic.cs:97-98 | Reading bytes least significant first is reading the reversed bytes most significant first. |
| ByteArithmetic.GetBytesMeetsExpected | ExtensionLib/ByteArithmetic.cs:87-103 | For every type, order and byte sequence, GetBytes equals the positional reading of the bytes, with overflow or 2^64 wrap-around. |
| ByteArithmetic.LittleEndianReadsReversed | ExtensionLib/ByteArithmetic.cs:96-98 | GetBytes in little-endian order is GetBytes of the reversed input in big-endian order. |
| ByteArithmetic.LittleEndianBytesRoundTrip | ExtensionLibTests/ByteArithmeticTestUnit.cs:32-34 | The low bytes of a value that fits, least significant first, read back as the value. |
| ByteArithmetic.NativeRoundTrip | ExtensionLibTests/ByteArithmeticTestUnit.cs:32-34 | Any UInt32 written by BitConverter on a little-endian machine reads back as itself. |
| ByteArithmetic.LengthBytes | ExtensionLibTests/ByteArithmeticTestUnit.cs:36-40 | {0x68,0x2a,0x08,0x00} reads as 0x00082a68, and {0x00,0x68,0x2a,0x08} as 0x082a6800, on a little-endian machine. |
| ByteArithmetic.WideKeepsLowEight | ExtensionLib/ByteArithmetic.cs:100-102 | For UInt64, a source of eight or more bytes reads as its last eight bytes. |
| ByteArithmetic.NarrowRejectsLong | ExtensionLib/ByteArithmetic.cs:100-102 | A narrower T overflows on more bytes than its width when the leading byte is not zero. |
| SequenceMethods.Repeat | ExtensionLib/ExtensionMethods/SequenceMethods.cs:38 | A negative count is an ArgumentOutOfRangeException. Otherwise the result is `count` copies of the element. |
| SequenceMethods.PrependPadding | ExtensionLib/ExtensionMethods/SequenceMethods.cs:36-39 | A negative length fails. Otherwise the result is `length` padding elements followed by the source. |
| SequenceMethods.AppendPadding | ExtensionLib/ExtensionMethods/SequenceMethods.cs:49-52 | A negative length fails. Otherwise the result is the source followed by `length` padding elements. |
| SequenceMethods.PaddingCommutes | ExtensionLib/ExtensionMethods/SequenceMethods.cs:36-52 | Padding both ends gives the same sequence whichever end is padded first. |
| SequenceMethods.Skip | ExtensionLib/ExtensionMethods/SequenceMethods.cs:166 | Skip drops the first `count` elements. A count at or below zero drops nothing, and one past the end drops everything. |
| SequenceMethods.Take | ExtensionLib/ExtensionMethods/SequenceMethods.cs:166 | Take keeps the first `count` elements. A count at or below zero keeps none, and one past the end keeps everything. |
| SequenceMethods.TakeRange | ExtensionLib/ExtensionMethods/SequenceMethods.cs:164-167 | TakeRange is the one contiguous slice between the clamped position and the clamped position plus the clamped length. |
| SequenceMethods.TakeRangeAdjacent | ExtensionLib/ExtensionMethods/SequenceMethods.cs:164-167 | Two adjacent windows concatenate to the window spanning both. |
| SequenceMethods.ToIndexedDictionary | ExtensionLib/ExtensionMethods/SequenceMethods.cs:122-128 | The keys are exactly 0 to \|s\|-1, and each key maps to the element at that position. |
| SequenceMethods.IndexOfMin | ExtensionLib/ExtensionMethods/SequenceMethods.cs:81-93 | The result is -1 exactly for an empty source. Otherwise it is the index a stable ascending sort puts first: a minimum with no earlier element tying it. |
| SequenceMethods.IndexOfMax | ExtensionLib/ExtensionMethods/SequenceMethods.cs:102-114 | The result is -1 exactly for an empty source. Otherwise it is the index a stable descending sort puts first: a maximum with no earlier element tying it. |
| SequenceMethods.FirstMinimumUnique | ExtensionLib/ExtensionMethods/SequenceMethods.cs:86-92 | The position IndexOfMin characterises is unique. |
| SequenceMethods.FirstMaximumIsReversedMinimum | ExtensionLib/ExtensionMethods/SequenceMethods.cs:102-114 | The first maximum under a comparer is the first minimum under the reversed comparer. |
| SequenceMethods.CountMany | ExtensionLib/ExtensionMethods/SequenceMethods.cs:137-153 | The count is at most \|source\|, and zero when there are no items. |
| SequenceMethods.CountManyAllOrNone | ExtensionLib/ExtensionMethods/SequenceMethods.cs:139 | The count is \|source\| exactly when every element matches an item, and 0 exactly when none does. |
| SequenceMethods.CountManyAppend | ExtensionLib/ExtensionMethods/SequenceMethods.cs:139 | Counting is additive over concatenated sources. |
| SequenceMethods.CountManyIsMatchingPositions | ExtensionLib/ExtensionMethods/SequenceMethods.cs:137-153 | The count is the number of source positions whose element compares equal to some item. |
| SequenceMethods.CountManySingle | ExtensionLib/ExtensionMethods/SequenceMethods.cs:152 | A one-element source counts 1 exactly when the element matches an item. |
| SequenceMethods.UniqueRandom | ExtensionLib/ExtensionMethods/SequenceMethods.cs:61-72 | For every oracle with draws in [0, remaining), every entry is yielded exactly once: the output is a permutation of the source. |
| SequenceMethods.YieldsDistinctKeys | ExtensionLib/ExtensionMethods/SequenceMethods.cs:61-72 | The output of a dictionary, whose keys are distinct, repeats no key. |
| IndexesOf.ArrayIndexOf | ExtensionLib/ExtensionMethods/IndexesOf.cs:81 | Array.IndexOf fails on a window outside the array. Otherwise it finds the first occurrence in the window, or -1. |
| IndexesOf.Iterate | ExtensionLib/ExtensionMethods/IndexesOf.cs:81-82 | Every reported index holds the value and lies at or after the start. Reports are strictly increasing. The only failure is ArgumentOutOfRange. |
| IndexesOf.IndexesOf | ExtensionLib/ExtensionMethods/IndexesOf.cs:71-83 | A bad startIndex or count fails before anything is yielded. Otherwise the first report is the first occurrence in the window, with no occurrence meaning an empty, successful result, and the reports are a prefix of all occurrences from startIndex on. |
| IndexesOf.IndexesOfAll | ExtensionLib/ExtensionMethods/IndexesOf.cs:38-42 | The whole-sequence overload reports the first occurrence and then fails with ArgumentOutOfRange. With no occurrence it reports nothing and does not fail. |
| IndexesOf.IndexesOfFrom | ExtensionLib/ExtensionMethods/IndexesOf.cs:54-58 | The startIndex overload fails on a bad start. Otherwise it reports the first occurrence from the start and then fails, or reports nothing. |
| IndexesOf.FirstReport | ExtensionLib/ExtensionMethods/IndexesOf.cs:81 | The first search covers [startIndex, startIndex + count). |
| IndexesOf.NextWindow | ExtensionLib/ExtensionMethods/IndexesOf.cs:81 | After a report at i, the next search keeps the original count, so it fails when i + 1 + count passes the end; otherwise it reports that window's first occurrence, or ends without error when the window holds none. |
| IndexesOf.IteratePrefixOfOccurrences | ExtensionLib/ExtensionMethods/IndexesOf.cs:81-82 | The reports are a prefix of the occurrences from the starting position on, so none is skipped. |
| IndexesOf.TwoOccurrences | ExtensionLib/ExtensionMethods/IndexesOf.cs:38-42 | On two equal elements the whole-sequence search reports only position 0 and then fails, where the documented search reports 0 and 1. |
| IndexesOf.CorrectedIndexesOf | ExtensionLib/ExtensionMethods/IndexesOf.cs:71-83 | The documented search: argument failures as in the source, and otherwise exactly the occurrences in [startIndex, startIndex + count), with no failure. |
| IndexesOf.CorrectedReportsAll | ExtensionLib/ExtensionMethods/IndexesOf.cs:71-83 | The corrected loop reports exactly the occurrences in its window and never fails. |
| StringMethods.IndexesOfChar | ExtensionLib/ExtensionMethods/StringMethods.cs:68-79 | The character search makes the same argument checks as the generic search. Reports hold the character and increase. The first report is the first occurrence in the window. |
| StringMethods.IndexesOfCharAll | ExtensionLib/ExtensionMethods/StringMethods.cs:39-42 | The whole-string character search reports the first occurrence and then fails, or reports nothing. |
| StringMethods.IndexesOfCharFrom | ExtensionLib/ExtensionMethods/StringMethods.cs:53-56 | The startIndex character search fails on a bad start. Otherwise it reports the first occurrence from the start and then fails, or reports nothing. |
| StringMethods.StringIndexOf | ExtensionLib/ExtensionMethods/StringMethods.cs:172 | String.IndexOf with a start and a count fails outside the string. Otherwise it finds the first ordinal match lying wholly in the window, or -1. |
| StringMethods.GreedyUnique | ExtensionLib/ExtensionMethods/StringMethods.cs:172 | The leftmost non-overlapping matches within bounds form one determined list. |
| StringMethods.StringIterate | ExtensionLib/ExtensionMethods/StringMethods.cs:172-173 | The loop fails exactly when its end lies before its start. Otherwise it reports the leftmost non-overlapping matches between the start and the end. |
| StringMethods.StringIndexesOf | ExtensionLib/ExtensionMethods/StringMethods.cs:161-174 | A null value fails with ArgumentNullException. Bad ranges fail. A startIndex past count fails. Otherwise the reports are the non-overlapping matches in [startIndex, count), with count taken as an end position. |
| StringMethods.StringIndexesOfFrom | ExtensionLib/ExtensionMethods/StringMethods.cs:91-94 | The startIndex overloads fail whenever 2·startIndex > \|s\|. Otherwise they search only up to \|s\| - startIndex. |
| StringMethods.StringIndexesOfAll | ExtensionLib/ExtensionMethods/StringMethods.cs:133-136 | The whole-string overloads report exactly the non-overlapping matches in the string. |
| StringMethods.CorrectedStringIndexesOf | ExtensionLib/ExtensionMethods/StringMethods.cs:161-174 | The documented search reports the non-overlapping matches in [startIndex, startIndex + count), with no failure past the argument checks. |
| StringMethods.StartPastHalf | ExtensionLib/ExtensionMethods/StringMethods.cs:91-94 | Searching "abab" for "b" from 3 fails as written, where the documented window reports 3. |
| StringMethods.EmptyValuePastCount | ExtensionLib/ExtensionMethods/StringMethods.cs:172 | An empty value with startIndex past count ends at once: the first search gets a negative count and throws, and so does the startIndex overload on "ab" from 2. |
| StringMethods.CountAsEnd | ExtensionLib/ExtensionMethods/StringMethods.cs:172 | Searching "aaaa" for "a" with start 1 and count 2 reports only 1 as written, where the documented window reports 1 and 2. |
| StringMethods.CharPairLosesSecond | ExtensionLib/ExtensionMethods/StringMethods.cs:39-42 | Searching "aa" for 'a' over the whole string reports 0 and then fails as written, where the documented window reports 0 and 1. |
| StringMethods.OrdinalCompare | ExtensionLib/ExtensionMethods/StringMethods.cs:199 | An ordinal comparison of one-character strings is zero exactly for equal characters. |
| StringMethods.CountCharacters | ExtensionLib/ExtensionMethods/StringMethods.cs:197-200 | The count is the number of positions holding one of the characters. It is at most \|s\|, and zero for no characters. |
| StringMethods.CountCharactersAppend | ExtensionLib/ExtensionMethods/StringMethods.cs:197-200 | Counting is additive over concatenation. |
| Shuffle.Shuffle | ExtensionLib/ExtensionMethods/Shuffle.cs:35-47 | The working copy stays a permutation of the input. max(L-1, 0) values are yielded, the j-th being the final element at position L-1-j. The yielded values plus the element left at position 0 make up the input. |
| Shuffle.Round | ExtensionLib/ExtensionMethods/Shuffle.cs:41-45 | One swap with a draw in [0, n] keeps the permutation, fixes position n, and yields it. |
| Shuffle.Swap | ExtensionLib/ExtensionMethods/Shuffle.cs:42-44 | The three assignments exchange positions k and n and leave every other position alone. |
| Shuffle.ShuffleFull | ExtensionLib/ExtensionMethods/Shuffle.cs:30-46 | The shuffle the documentation promises yields every input element exactly once. |
| Shuffle.PairLosesOne | ExtensionLib/ExtensionMethods/Shuffle.cs:38-46 | Shuffling [1, 2] yields a single value, which is not a permutation of the input. |
| StringArrayConverter.SeparatorOf | ExtensionLib/StringArrayConverter.cs:65 | A null culture means the invariant culture's separator ",". |
| StringArrayConverter.FieldEnd | ExtensionLib/StringArrayConverter.cs:68 | A match body ends at or after its start, at a position where the lookahead (separator, end, or final newline) holds. |
| StringArrayConverter.Unescape | ExtensionLib/StringArrayConverter.cs:71 | Unescaping never lengthens a field and leaves a field without backslashes unchanged. |
| StringArrayConverter.Escape | ExtensionLib/StringArrayConverter.cs:96 | Escaping adds one character per separator in the field and keeps its last character. |
| StringArrayConverter.ConvertFrom | ExtensionLib/StringArrayConverter.cs:56-75 | Anything but a string is NotSupported. "" gives no fields. Every other string is read successfully. |
| StringArrayConverter.ConvertTo | ExtensionLib/StringArrayConverter.cs:87-97 | A destination other than String is NotSupported, and a null destination fails with NullReferenceException because the base exception reads the type's name. Null gives "". A string array is written. Any other object fails the cast. |
| StringArrayConverter.MatchesOfRaw | ExtensionLib/StringArrayConverter.cs:66-70 | Scanning the join of raw fields matches each field in turn, with only the last one losing a final newline. |
| StringArrayConverter.ScanOfRaw | ExtensionLib/StringArrayConverter.cs:66-72 | Reading a non-empty join of raw fields gives each field unescaped, the last one shorn of a final newline. |
| StringArrayConverter.ParseOfRaw | ExtensionLib/StringArrayConverter.cs:66-72 | When the last raw field does not end with a newline, reading gives exactly the unescaped fields. |
| StringArrayConverter.UnescapeEscape | ExtensionLib/StringArrayConverter.cs:71 | Unescaping undoes escaping for a field without backslashes. |
| StringArrayConverter.EscapedAreRaw | ExtensionLib/StringArrayConverter.cs:96 | The escaped fields of a list meeting the round-trip conditions are fields the scanner reads back whole. |
| StringArrayConverter.UnescapeAll | ExtensionLib/StringArrayConverter.cs:71 | Unescaping every escaped field gives the fields back. |
| StringArrayConverter.ParseFormat | ExtensionLib/StringArrayConverter.cs:62-96 | Reading written text gives the fields back when no field has a backslash or ends with the separator, the last does not end with a newline, and the list is not [""]. |
| StringArrayConverter.FormatNotEmpty | ExtensionLib/StringArrayConverter.cs:94-96 | A non-empty list meeting the round-trip conditions is written as non-empty text, so it escapes the "" shortcut. |
| StringArrayConverter.ConvertRoundTrip | ExtensionLib/StringArrayConverter.cs:56-97 | ConvertFrom(ConvertTo(F)) is F under the round-trip conditions, with a null culture meaning ",". |
| StringArrayConverter.ParseWithoutEscapes | ExtensionLib/StringArrayConverter.cs:66-72 | Text without backslashes reads as String.Split at every separator, after a final newline is dropped. |
| StringArrayConverter.ParseCountWithoutEscapes | ExtensionLib/StringArrayConverter.cs:66-72 | Such text has one field more than it has separators. |
| StringArrayConverter.ParseFourDigits | ExtensionLibTests/StringArrayConverterTestUnit.cs:35-42 | "1;2;3;4", with any separator, reads as the four digits. |
| StringArrayConverter.ParseOneField | ExtensionLibTests/StringArrayConverterTestUnit.cs:35-42 | "1,2,3,4" under ";" is one field. |
| StringArrayConverter.CultureAwareness | ExtensionLibTests/StringArrayConverterTestUnit.cs:35-42 | Under ";", "1,2,3,4" is one field and "1;2;3;4" is four. The invariant culture reads "1,2,3,4" as four. |
| StringArrayConverter.BlankIsOneField | ExtensionLib/StringArrayConverter.cs:62-72 | There is no trimming: " " is one field " ". |
| StringArrayConverter.ParseEscapedPairs | ExtensionLib/StringArrayConverter.cs:66-72 | `1\S2S3\S4` reads as `1S2` and `3S4` for every separator S. |
| StringArrayConverter.EscapedSeparators | ExtensionLibTests/StringArrayConverterTestUnit.cs:67-70 | `1\;2;3\;4` under ";" and `1\,2,3\,4` under "," both read as two fields with the separators kept. |
| StringArrayConverter.TrailingEscapedSeparator | ExtensionLib/StringArrayConverter.cs:68 | A field ending in an escaped separator is followed by an extra empty field: `a\;` reads as ["a;", ""]. |
| StringArrayConverter.BackslashIsConsumed | ExtensionLib/StringArrayConverter.cs:71 | A backslash before an ordinary character is dropped: `a\b` reads as "ab". |
| StringArrayConverter.RoundTripLosses | ExtensionLib/StringArrayConverter.cs:62-96 | Each round-trip condition is needed: [""], a backslash, a trailing separator and a final newline each come back changed. |
| Text.Split | ExtensionLib/RangeConverter.cs:77 | String.Split gives at least one part, and no part contains the separator. |
| Text.SplitCount | ExtensionLib/RangeConverter.cs:77-79 | Splitting gives one part more than there are separators. |
| Text.JoinSplit | ExtensionLib/RangeConverter.cs:77 | Joining the parts of a split restores the text. |
| Text.SplitJoin | ExtensionLib/StringArrayConverter.cs:96 | Splitting a join of separator-free parts restores the parts. |
| Text.Trim | ExtensionLib/RangeConverter.cs:74 | Trim gives the middle part of the text: whitespace is removed only at the two ends, and the result begins and ends with a non-whitespace character. |
| Text.TrimIdentity | ExtensionLib/RangeConverter.cs:74 | Text without outer whitespace is unchanged by Trim. |
| Text.TrimEmptyIffAllWhiteSpace | ExtensionLib/RangeConverter.cs:74-75 | Text trims to empty, and so reads as null, exactly when it is all whitespace. |

## Left out

- `Range.Union`, `Range.Intersect` and `MathHelper.DoubleComparer` are not modelled. The ranges tests call them, but their definitions are not among the sources, so they are not part of this model.
- `Range<double>` with NaN or infinities is not modelled: NaN breaks the total order every range property rests on. Bounds compare through a comparer assumed to be a total preorder.
- ArrayEnumerator, ImmutableStack and IStack are not part of this model.
- MathHelper and ColorHelper are not modelled; they are floating-point arithmetic.
- JoinFormat is not modelled; it wraps String.Join/String.Format formatting whose behaviour lives in the framework.
- SocketMethods is not modelled (socket I/O), and neither is ControlStyleHelper (WinForms reflection).
- RangeConverter: `CanConvertFrom`, `CanConvertTo`, `GetProperties`, `GetCreateInstanceSupported` and `TypeDescriptor.GetConverter` are reflection. The element converter is a parse function and a format function passed in. The InstanceDescriptor result is kept abstract: it records only that the two-bound constructor is named.
- Cultures are reduced to their list separator, and that separator is one character. .NET list separators are strings, and the RangeConverter split and the StringArrayConverter pattern would then work on several characters.
- Culture-sensitive comparison is not modelled. This covers the `StringComparison` and `CultureInfo` overloads of IndexesOf, and the CountCharacters overloads at ExtensionLib/ExtensionMethods/StringMethods.cs:185-188, 210-213 and 224-227. Matching is ordinal throughout.
- StringMethods.StringIndexesOf: an empty `value` is excluded only where the source reports startIndex forever, that is a valid window with startIndex <= count; a non-terminating iterator has no finite outcome to model. With startIndex > count the first search throws, and that case is modelled. StringMethods.StringIndexesOfFrom excludes the matching case (an empty value with 0 <= 2·startIndex <= |s|), and StringMethods.StringIndexesOfAll, which always loops on an empty value, requires a non-empty one.
- Text is modelled as strings without surrogate code units. .NET counts a surrogate pair as two positions in String.Length, IndexOf, the IndexesOf windows and CountCharacters, and a lone surrogate has no Dafny `char`.
- StringArrayConverter.ConvertTo: the ArgumentNullException its documentation promises for a null destination type is not modelled. The code passes a null destination to GetConvertToException, and the model follows the code.
- A null `source` for the extension methods is not modelled: sequences and strings are values here. The ArgumentNullException for a null source follows from the first check of each method. A null string inside the array StringArrayConverter writes is left out too.
- `RandomProvider` is not part of this model. Its draws are an oracle sequence with the bounds the calls request.
- SequenceMethods.UniqueRandom: the dictionary's key order is modelled as the order of the source entries. .NET does not specify how `Keys.ElementAt` orders the keys, and the permutation property does not depend on it.
- The timing of lazy iterators is not modelled. Argument checks in the iterator methods run on the first `MoveNext`, not at the call, and the model records only what is yielded and the exception the iteration ends with.
- `BitConverter.IsLittleEndian` is a parameter, and so is the platform byte order.
- `GetBytes` with a signed or non-integral T is not modelled. T ranges over Byte, UInt16, UInt32 and UInt64.

## Findings

| source | as written | input that shows it | evidently intended | confidence | as-written member | corrected member |
|---|---|---|---|---|---|---|
| ExtensionLib/ExtensionMethods/IndexesOf.cs:81 | Each search after a report at i covers [i+1, i+1+count), with the original count. | IndexesOf([x, x], x) reports 0, then throws ArgumentOutOfRangeException. | Every occurrence in [startIndex, startIndex+count) is reported, and nothing is thrown. | not executed | IndexesOf.TwoOccurrences | IndexesOf.CorrectedIndexesOf |
| ExtensionLib/ExtensionMethods/StringMethods.cs:77 | The character search repeats the same window arithmetic. | Searching "aa" for 'a' over the whole string reports 0, then throws. | Every occurrence of the character in the window is reported. | not executed | StringMethods.CharPairLosesSecond | IndexesOf.CorrectedIndexesOf |
| ExtensionLib/ExtensionMethods/StringMethods.cs:172 | `count - i - value.Length` treats count as an end position, not a length. | IndexesOf("aaaa", "a", 1, 2) reports only 1, and IndexesOf("abab", "b", 3) throws. | The matches in [startIndex, startIndex+count) are reported. | not executed | StringMethods.CountAsEnd | StringMethods.CorrectedStringIndexesOf |
| ExtensionLib/ExtensionMethods/Shuffle.cs:39 | `while (n-- > 1)` skips the round for position 0, whose element is never yielded. | Shuffling [1, 2] yields one value. | A scrambled list of all the original items, with each element yielded once. | not executed | Shuffle.PairLosesOne | Shuffle.ShuffleFull |

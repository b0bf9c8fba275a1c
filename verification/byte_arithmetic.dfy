/**
 ByteArithmetic.GetBytes<T>: reads a run of bytes as an unsigned integer of
 type T. The bytes are taken most significant first (after reversing them for
 little-endian order) and folded with `(x << 8) + b` in 64-bit arithmetic,
 converting back to T after every step, which is checked for T narrower than
 64 bits and leaves the 64-bit shift to drop its high bits.
 */
module ByteArithmetic {
  import opened Wrappers
  import SequenceMethods

  newtype byte = x: int | 0 <= x < 256

  /** The order in which bytes are handled. */
  datatype ByteOrder = LittleEndian | BigEndian

  /** The unsigned integer types T may be. */
  datatype Unsigned = Byte | UInt16 | UInt32 | UInt64

  const TwoTo56: nat := 0x100_0000_0000_0000
  const TwoTo64: nat := 0x1_0000_0000_0000_0000

  function MaxValue(t: Unsigned): (m: nat)
    ensures 255 <= m < TwoTo64
    ensures t != UInt64 ==> m < TwoTo56
  {
    match t
    case Byte => 0xFF
    case UInt16 => 0xFFFF
    case UInt32 => 0xFFFF_FFFF
    case UInt64 => 0xFFFF_FFFF_FFFF_FFFF
  }

  function Pow256(n: nat): (p: nat)
    ensures p >= 1
  {
    if n == 0 then 1 else 256 * Pow256(n - 1)
  }

  /** The number the bytes denote, most significant first, the sum of b[i]·256^(n-1-i): the reference reading of big-endian order. */
  function BigEndianValue(bytes: seq<byte>): (v: nat)
  {
    if |bytes| == 0 then 0 else bytes[0] as nat * Pow256(|bytes| - 1) + BigEndianValue(bytes[1..])
  }

  /** The number the bytes denote, least significant first: the reference reading of little-endian order. */
  function LittleEndianValue(bytes: seq<byte>): (v: nat)
  {
    if |bytes| == 0 then 0 else bytes[0] as nat + 256 * LittleEndianValue(bytes[1..])
  }

  /** Enumerable.Reverse. */
  function Reverse<T>(s: seq<T>): (r: seq<T>)
    ensures |r| == |s|
    ensures forall i :: 0 <= i < |s| ==> r[i] == s[|s| - 1 - i]
  {
    if |s| == 0 then [] else Reverse(s[1..]) + [s[0]]
  }

  /**
   One step of the Aggregate: widen to UInt64, shift left by eight (the high
   eight bits fall off), add the byte, and convert back to T, which overflows
   when the value exceeds T's maximum.
   */
  function Step(t: Unsigned, x: nat, b: byte): (r: Result<nat>)
    ensures r.Success? ==> r.value <= MaxValue(t)
    ensures r.Failure? ==> r.error == Overflow
    ensures x < TwoTo56 ==> (r.Success? <==> x * 256 + b as nat <= MaxValue(t))
    ensures x < TwoTo56 && r.Success? ==> r.value == x * 256 + b as nat
  {
    var shifted := (x % TwoTo56) * 256;
    var v := shifted + b as nat;
    if v > MaxValue(t) then Failure(Overflow) else Success(v)
  }

  /** `Aggregate` over a non-empty sequence: the first element is the seed, then Step with each of the rest in turn. */
  function Aggregate(t: Unsigned, items: seq<byte>): (r: Result<nat>)
    requires |items| > 0
    ensures r.Success? ==> r.value <= MaxValue(t)
    ensures r.Failure? ==> r.error == Overflow
  {
    if |items| == 1 then Success(items[0] as nat)
    else
      var x :- Aggregate(t, items[..|items| - 1]);
      Step(t, x, items[|items| - 1])
  }

  /** GetBytes(source, endianness), the overload the others call. */
  function GetBytes(t: Unsigned, source: Option<seq<byte>>, order: ByteOrder): (r: Result<nat>)
    ensures source.None? ==> r == Failure(ArgumentNull)
    ensures source.Some? && |source.value| == 0 ==> r == Failure(InvalidOperation)
    ensures source.Some? && |source.value| == 1 ==> r == Success(source.value[0] as nat)
    ensures r.Success? ==> r.value <= MaxValue(t)
  {
    match source
    case None => Failure(ArgumentNull)
    case Some(items) =>
      if |items| == 0 then Failure(InvalidOperation)
      else
        var ordered := if order == LittleEndian then Reverse(items) else items;
        Aggregate(t, ordered)
  }

  /** GetBytes(source, position, length, endianness): the same on TakeRange(position, length). */
  function GetBytesRange(t: Unsigned, source: Option<seq<byte>>, position: int, length: int, order: ByteOrder): (r: Result<nat>)
    ensures source.None? ==> r == Failure(ArgumentNull)
    ensures source.Some? ==> r == Expected(t, SequenceMethods.TakeRange(source.value, position, length), order)
  {
    match source
    case None => Failure(ArgumentNull)
    case Some(items) =>
      GetBytesMeetsExpected(t, SequenceMethods.TakeRange(items, position, length), order);
      GetBytes(t, Some(SequenceMethods.TakeRange(items, position, length)), order)
  }

  /** The platform's order: BitConverter.IsLittleEndian is a parameter. */
  function PlatformOrder(isLittleEndian: bool): ByteOrder {
    if isLittleEndian then LittleEndian else BigEndian
  }

  /** GetBytes(source): the platform's byte order. */
  function GetBytesNative(t: Unsigned, source: Option<seq<byte>>, isLittleEndian: bool): (r: Result<nat>)
    ensures source.None? ==> r == Failure(ArgumentNull)
    ensures source.Some? ==> r == Expected(t, source.value, PlatformOrder(isLittleEndian))
  {
    match source
    case None => Failure(ArgumentNull)
    case Some(items) =>
      GetBytesMeetsExpected(t, items, PlatformOrder(isLittleEndian));
      GetBytes(t, source, PlatformOrder(isLittleEndian))
  }

  /** GetBytes(source, position, length): TakeRange, then the platform's byte order. */
  function GetBytesRangeNative(t: Unsigned, source: Option<seq<byte>>, position: int, length: int, isLittleEndian: bool): (r: Result<nat>)
    ensures source.None? ==> r == Failure(ArgumentNull)
    ensures source.Some? ==>
              r == Expected(t, SequenceMethods.TakeRange(source.value, position, length), PlatformOrder(isLittleEndian))
  {
    match source
    case None => Failure(ArgumentNull)
    case Some(items) =>
      GetBytesNative(t, Some(SequenceMethods.TakeRange(items, position, length)), isLittleEndian)
  }

  // ---------------------------------------------------------------- reference

  /**
   What the bytes mean, independently of the fold: no bytes is an error; the
   number they denote in the given order, which a 64-bit T reduces modulo 2^64
   and a narrower T rejects when it does not fit.
   */
  function Expected(t: Unsigned, bytes: seq<byte>, order: ByteOrder): Result<nat> {
    if |bytes| == 0 then Failure(InvalidOperation)
    else
      var v := if order == LittleEndian then LittleEndianValue(bytes) else BigEndianValue(bytes);
      if t == UInt64 then Success(v % TwoTo64)
      else if v <= MaxValue(t) then Success(v)
      else Failure(Overflow)
  }

  /** For T narrower than 64 bits the fold is exact until it overflows, and it overflows exactly when the value does not fit. */
  lemma {:induction false} AggregateNarrow(t: Unsigned, items: seq<byte>)
    requires t != UInt64 && |items| > 0
    ensures Aggregate(t, items) == if BigEndianValue(items) <= MaxValue(t) then Success(BigEndianValue(items)) else Failure(Overflow)
  {
    if |items| > 1 {
      var init := items[..|items| - 1];
      assert init[..|init| - 1] == items[..|items| - 2];
      AggregateNarrow(t, init);
      assert items == init + [items[|items| - 1]];
      BigEndianSnoc(init, items[|items| - 1]);
    } else {
      assert items[..0] == [];
    }
  }

  /** Dropping the multiples of 2^56 before the shift drops the multiples of 2^64 after it. */
  lemma ShiftModulo(y: nat, b: byte)
    ensures ((y % TwoTo64) % TwoTo56) * 256 + b as nat == (y * 256 + b as nat) % TwoTo64
  {
    var q := y / TwoTo56;
    var low := y % TwoTo56;
    var p := y / TwoTo64;
    assert y == q * TwoTo56 + low;
    assert y % TwoTo64 == (q - 256 * p) * TwoTo56 + low;
    ModUnique(y % TwoTo64, TwoTo56, q - 256 * p, low);
    assert y * 256 + b as nat == q * TwoTo64 + (low * 256 + b as nat);
    ModUnique(y * 256 + b as nat, TwoTo64, q, low * 256 + b as nat);
  }

  /** Euclidean division is unique: a quotient and an in-range remainder that rebuild n are n / m and n % m. */
  lemma ModUnique(n: int, m: int, q: int, r: int)
    requires m > 0 && n == q * m + r && 0 <= r < m
    ensures n % m == r && n / m == q
  {
    var q0 := n / m;
    var r0 := n % m;
    assert n == q0 * m + r0;
    assert (q - q0) * m == r0 - r;
    ZeroMultiple(q - q0, m);
  }

  /** The only multiple of m strictly between -m and m is zero. */
  lemma ZeroMultiple(k: int, m: int)
    requires m > 0 && -m < k * m < m
    ensures k == 0
  {
    if k >= 1 {
      MulMono(1, k, m);
      assert false;
    } else if k <= -1 {
      assert false;
    }
  }

  /** For T = UInt64 the fold never fails and gives the value modulo 2^64. */
  lemma {:induction false} AggregateWide(items: seq<byte>)
    requires |items| > 0
    ensures Aggregate(UInt64, items) == Success(BigEndianValue(items) % TwoTo64)
  {
    if |items| > 1 {
      var init := items[..|items| - 1];
      AggregateWide(init);
      var b := items[|items| - 1];
      ShiftModulo(BigEndianValue(init), b);
      assert items == init + [b];
      BigEndianSnoc(init, b);
    } else {
      assert items[..0] == [];
    }
  }

  /** Appending a byte shifts the big-endian value by one byte. */
  lemma {:induction false} BigEndianSnoc(s: seq<byte>, b: byte)
    ensures BigEndianValue(s + [b]) == BigEndianValue(s) * 256 + b as nat
  {
    if |s| > 0 {
      var h := s[0] as nat;
      var p := Pow256(|s| - 1);
      var r := BigEndianValue(s[1..]);
      assert (s + [b])[1..] == s[1..] + [b];
      assert BigEndianValue(s + [b]) == h * Pow256(|s|) + BigEndianValue(s[1..] + [b]);
      BigEndianSnoc(s[1..], b);
      assert Pow256(|s|) == 256 * p;
      ShiftDistributes(h, p, r);
    } else {
      assert [b][1..] == [];
    }
  }

  lemma ShiftDistributes(h: nat, p: nat, r: nat)
    ensures h * (256 * p) + r * 256 == (h * p + r) * 256
  {
  }

  /** Reading little-endian is reading the reversed bytes big-endian. */
  lemma {:induction false} LittleEndianIsReversed(bytes: seq<byte>)
    ensures LittleEndianValue(bytes) == BigEndianValue(Reverse(bytes))
  {
    if |bytes| > 0 {
      LittleEndianIsReversed(bytes[1..]);
      assert Reverse(bytes) == Reverse(bytes[1..]) + [bytes[0]];
      BigEndianSnoc(Reverse(bytes[1..]), bytes[0]);
    }
  }

  /** GetBytes computes the reference reading, for every type, order and byte sequence. */
  lemma GetBytesMeetsExpected(t: Unsigned, bytes: seq<byte>, order: ByteOrder)
    ensures GetBytes(t, Some(bytes), order) == Expected(t, bytes, order)
  {
    if |bytes| > 0 {
      var ordered := if order == LittleEndian then Reverse(bytes) else bytes;
      LittleEndianIsReversed(bytes);
      if t == UInt64 {
        AggregateWide(ordered);
      } else {
        AggregateNarrow(t, ordered);
      }
    }
  }

  /** Reading little-endian is reading the reversed input big-endian. */
  lemma LittleEndianReadsReversed(t: Unsigned, bytes: seq<byte>)
    ensures GetBytes(t, Some(bytes), LittleEndian) == GetBytes(t, Some(Reverse(bytes)), BigEndian)
  {
    GetBytesMeetsExpected(t, bytes, LittleEndian);
    GetBytesMeetsExpected(t, Reverse(bytes), BigEndian);
    LittleEndianIsReversed(bytes);
  }

  /** BitConverter.GetBytes on a little-endian machine: the low `count` bytes, least significant first. */
  function LittleEndianBytes(v: nat, count: nat): (bytes: seq<byte>)
    ensures |bytes| == count
  {
    if count == 0 then [] else [(v % 256) as byte] + LittleEndianBytes(v / 256, count - 1)
  }

  /** Little-endian bytes of a value that fits read back as the value. */
  lemma {:induction false} LittleEndianBytesRoundTrip(v: nat, count: nat)
    requires v < Pow256(count)
    ensures LittleEndianValue(LittleEndianBytes(v, count)) == v
  {
    if count > 0 {
      LittleEndianBytesRoundTrip(v / 256, count - 1);
    }
  }

  /** A UInt32 written by BitConverter on a little-endian machine reads back as itself. */
  lemma NativeRoundTrip(v: nat)
    requires v <= MaxValue(UInt32)
    ensures GetBytesNative(UInt32, Some(LittleEndianBytes(v, 4)), true) == Success(v)
  {
    assert Pow256(4) == MaxValue(UInt32) + 1;
    LittleEndianBytesRoundTrip(v, 4);
  }

  /** Two byte strings read on a little-endian machine as UInt32. */
  lemma LengthBytes()
    ensures GetBytesNative(UInt32, Some([0x68, 0x2a, 0x08, 0x00]), true) == Success(0x00082a68)
    ensures GetBytesNative(UInt32, Some([0x00, 0x68, 0x2a, 0x08]), true) == Success(0x082a6800)
  {
    assert LittleEndianValue([0x68, 0x2a, 0x08, 0x00]) == 0x00082a68;
    assert LittleEndianValue([0x00, 0x68, 0x2a, 0x08]) == 0x082a6800;
  }

  /** The size of T in bytes. */
  function Width(t: Unsigned): (w: nat)
    ensures MaxValue(t) == Pow256(w) - 1
  {
    match t
    case Byte => 1
    case UInt16 => 2
    case UInt32 => 4
    case UInt64 => PowEight(); 8
  }

  lemma PowEight()
    ensures Pow256(8) == TwoTo64
  {
    assert Pow256(4) == 0x1_0000_0000;
    assert Pow256(8) == Pow256(4) * Pow256(4) by {
      PowAdd(4, 4);
    }
  }

  lemma {:induction false} PowAdd(m: nat, n: nat)
    ensures Pow256(m + n) == Pow256(m) * Pow256(n)
    decreases m
  {
    if m > 0 {
      var a := Pow256(m - 1);
      var b := Pow256(n);
      PowAdd(m - 1, n);
      ScaleProduct(a, b);
      assert Pow256(m + n) == 256 * Pow256(m - 1 + n) == 256 * (a * b) == (256 * a) * b == Pow256(m) * b;
    }
  }

  lemma ScaleProduct(a: nat, b: nat)
    ensures 256 * (a * b) == (256 * a) * b
  {
  }

  /** Bytes read big-endian are fewer than 256 to the power of their count. */
  lemma {:induction false} BigEndianBound(bytes: seq<byte>)
    ensures BigEndianValue(bytes) < Pow256(|bytes|)
  {
    if |bytes| > 0 {
      BigEndianBound(bytes[1..]);
      DigitBound(bytes[0] as nat, Pow256(|bytes| - 1), BigEndianValue(bytes[1..]));
    }
  }

  lemma DigitBound(h: nat, p: nat, r: nat)
    requires h < 256 && r < p
    ensures h * p + r < 256 * p
  {
    MulMono(h, 255, p);
  }

  lemma MulMono(a: nat, b: nat, c: nat)
    requires a <= b
    ensures a * c <= b * c
  {
  }

  /** Big-endian reading of a concatenation: the first part shifted past the second. */
  lemma {:induction false} BigEndianAppend(a: seq<byte>, c: seq<byte>)
    ensures BigEndianValue(a + c) == BigEndianValue(a) * Pow256(|c|) + BigEndianValue(c)
  {
    if |a| == 0 {
      assert a + c == c;
    } else {
      var h := a[0] as nat;
      var p := Pow256(|a| - 1);
      var q := Pow256(|c|);
      var r := BigEndianValue(a[1..]);
      assert (a + c)[1..] == a[1..] + c;
      assert |a + c| - 1 == (|a| - 1) + |c|;
      BigEndianAppend(a[1..], c);
      PowAdd(|a| - 1, |c|);
      assert BigEndianValue(a + c) == h * Pow256((|a| - 1) + |c|) + BigEndianValue(a[1..] + c);
      ShiftedSum(h, p, q, r, BigEndianValue(c));
    }
  }

  lemma ShiftedSum(h: nat, p: nat, q: nat, r: nat, z: nat)
    ensures h * (p * q) + (r * q + z) == (h * p + r) * q + z
  {
    assert h * (p * q) == (h * p) * q;
  }

  /**
   A UInt64 reading keeps the last eight bytes: the shift drops whatever was
   read before them.
   */
  lemma WideKeepsLowEight(bytes: seq<byte>)
    requires |bytes| >= 8
    ensures GetBytes(UInt64, Some(bytes), BigEndian) == Success(BigEndianValue(bytes[|bytes| - 8..]))
  {
    var high := bytes[..|bytes| - 8];
    var low := bytes[|bytes| - 8..];
    assert bytes == high + low;
    BigEndianAppend(high, low);
    BigEndianBound(low);
    PowEight();
    GetBytesMeetsExpected(UInt64, bytes, BigEndian);
    ModUnique(BigEndianValue(bytes), TwoTo64, BigEndianValue(high), BigEndianValue(low));
  }

  /** A narrower T rejects more bytes than it has, once the first of them is not zero. */
  lemma NarrowRejectsLong(t: Unsigned, bytes: seq<byte>)
    requires t != UInt64 && |bytes| > Width(t) && bytes[0] != 0
    ensures GetBytes(t, Some(bytes), BigEndian) == Failure(Overflow)
  {
    GetBytesMeetsExpected(t, bytes, BigEndian);
    var p := Pow256(|bytes| - 1);
    PowAdd(Width(t), |bytes| - 1 - Width(t));
    MulMono(1, Pow256(|bytes| - 1 - Width(t)), Pow256(Width(t)));
    MulMono(1, bytes[0] as nat, p);
    assert BigEndianValue(bytes) >= bytes[0] as nat * p;
  }
}

/**
 * The nine integer type descriptors (Int8 .. Xint32): their constant attributes, the
 * byte-level getter and setter a DataView applies for each, and the validation and
 * conversion functions built on truncation.
 */
module NumericTypes {
  import opened Wrappers
  import opened Bytes
  import JsBits

  /** The byte order for multibyte numerical types. */
  datatype Endianness = Big | Little

  datatype Signedness = Signed | Unsigned | Agnostic

  /** What the library throws, as distinct failures. */
  datatype Error =
    | OutOfBounds     // RangeError: the span is outside the bounds of the ByteArray
    | InvalidValue    // RangeError: the value is not representable by the type
    | EmptyValues     // Error: a multi-value set was given no values
    | ViewOutOfRange  // RangeError raised by the underlying DataView or typed array itself

  datatype NumericType = Xint8 | Xint16 | Xint32 | Int8 | Int16 | Int32 | Uint8 | Uint16 | Uint32
  {
    function Name(): string
    {
      match this
      case Xint8 => "Xint8"
      case Xint16 => "Xint16"
      case Xint32 => "Xint32"
      case Int8 => "Int8"
      case Int16 => "Int16"
      case Int32 => "Int32"
      case Uint8 => "Uint8"
      case Uint16 => "Uint16"
      case Uint32 => "Uint32"
    }

    function Sign(): Signedness
    {
      match this
      case Xint8 | Xint16 | Xint32 => Agnostic
      case Int8 | Int16 | Int32 => Signed
      case Uint8 | Uint16 | Uint32 => Unsigned
    }

    /** The number of bits used to represent a value. */
    function BitSize(): nat
    {
      match this
      case Xint8 | Int8 | Uint8 => 8
      case Xint16 | Int16 | Uint16 => 16
      case Xint32 | Int32 | Uint32 => 32
    }

    /** The number of bytes required to store a value: `bitSize >>> 3`. */
    function ByteSize(): nat
    {
      BitSize() / 8
    }

    /** The smallest value representable by this type. */
    function Min(): int
    {
      match this
      case Xint8 => -0x80
      case Xint16 => -0x8000
      case Xint32 => -0x8000_0000
      case Int8 => -0x80
      case Int16 => -0x8000
      case Int32 => -0x8000_0000
      case Uint8 | Uint16 | Uint32 => 0
    }

    /** The largest value representable by this type. */
    function Max(): int
    {
      match this
      case Xint8 => 0xFF
      case Xint16 => 0xFFFF
      case Xint32 => 0xFFFF_FFFF
      case Int8 => 0x7F
      case Int16 => 0x7FFF
      case Int32 => 0x7FFF_FFFF
      case Uint8 => 0xFF
      case Uint16 => 0xFFFF
      case Uint32 => 0xFFFF_FFFF
    }

    function Mask(): nat
    {
      match this
      case Xint8 | Int8 | Uint8 => 0xFF
      case Xint16 | Int16 | Uint16 => 0xFFFF
      case Xint32 | Int32 | Uint32 => 0xFFFF_FFFF
    }

    /** The sign-agnostic type of the same width; an agnostic type is its own. */
    function AgnosticType(): NumericType
    {
      match this
      case Xint8 | Int8 | Uint8 => Xint8
      case Xint16 | Int16 | Uint16 => Xint16
      case Xint32 | Int32 | Uint32 => Xint32
    }

    /**
     * The bit pattern a DataView setter stores for the value: setIntN and setUintN
     * both reduce it modulo 2^bitSize.
     */
    function Pattern(value: int): (u: nat)
      ensures u <= Mask()
    {
      value % (Mask() + 1)
    }

    /**
     * How the DataView getter reads a bit pattern: as two's complement for the signed
     * types and as an unsigned number otherwise (the agnostic types read with getUint).
     */
    function Reading(u: nat): int
    {
      if Sign() == Signed && u > Max() then u - (Mask() + 1) else u
    }

    /** The bytes the DataView setter writes: the value's bit pattern in the given order. */
    function Encode(value: int, endian: Endianness): (bs: seq<byte>)
      ensures |bs| == ByteSize()
    {
      var bytes := ToBigEndian(Pattern(value), ByteSize());
      if endian == Little then Reverse(bytes) else bytes
    }

    /** The value the DataView getter reads from bytes in the given order. */
    function Decode(bs: seq<byte>, endian: Endianness): int
      requires |bs| == ByteSize()
    {
      Reading(FromBigEndian(if endian == Little then Reverse(bs) else bs))
    }

    /**
     * Converts the value to this type by truncating bits. A concrete type stores the
     * value through its setter and reads it back through its getter; the byte layout
     * in between cancels (NumericTypeFacts.TruncateIsSetterGetter), so this is the
     * getter's reading of the setter's bit pattern. An agnostic type truncates a
     * negative value as its signed sibling and any other value as its unsigned one.
     */
    function Truncate(value: int): int
      decreases if Sign() == Agnostic then 1 else 0
    {
      match this
      case Xint8 => if value < 0 then Int8.Truncate(value) else Uint8.Truncate(value)
      case Xint16 => if value < 0 then Int16.Truncate(value) else Uint16.Truncate(value)
      case Xint32 => if value < 0 then Int32.Truncate(value) else Uint32.Truncate(value)
      case _ => Reading(Pattern(value))
    }

    /** True if the given value is representable by this type. */
    predicate Test(value: int)
    {
      Truncate(value) == value
    }

    /** Fails with a value error when the given value is not representable. */
    function Ensure(value: int): Outcome<Error>
    {
      if Test(value) then Pass else Fail(InvalidValue)
    }

    /** Reinterprets the bits of the value as this type (Int8.from(0xFF) is -1). */
    function From(value: int): Result<int, Error>
    {
      match AgnosticType().Ensure(value)
      case Fail(e) => Failure(e)
      case Pass => Success(Truncate(value))
    }

    /** The bytes of the value in the given order. */
    function ToArray(value: int, endian: Endianness): Result<seq<byte>, Error>
    {
      match Ensure(value)
      case Fail(e) => Failure(e)
      case Pass => Success(Encode(value, endian))
    }

    /**
     * `((value & mask) >>> 0).toString(16)`, left-padded from "00000000" with
     * `substr(8 - byteSize * 2 + hex.length)`.
     */
    function Hex(value: int): Result<string, Error>
    {
      match Ensure(value)
      case Fail(e) => Failure(e)
      case Pass => Success(PadHex(JsBits.ToUint32(JsBits.And(value, Mask())), ByteSize()))
    }
  }

  const HexPadding: string := "00000000"

  /** `x.toString(16)` left-padded from "00000000" with `substr(8 - byteSize * 2 + hex.length)`. */
  function PadHex(x: nat, byteSize: nat): string
  {
    var hex := ToHexString(x);
    Substr(HexPadding, 8 - byteSize * 2 + |hex|) + hex
  }

  /** `s.substr(start)`: a negative start counts from the end; past the end gives "". */
  function Substr(s: string, start: int): string
  {
    var from := if start < 0 then (if |s| + start < 0 then 0 else |s| + start) else start;
    if from >= |s| then "" else s[from..]
  }

  function HexDigit(d: nat): char
    requires d < 16
  {
    "0123456789abcdef"[d]
  }

  /** `x.toString(16)`: lowercase hexadecimal digits without leading zeros. */
  function ToHexString(x: nat): string
  {
    if x < 16 then [HexDigit(x)] else ToHexString(x / 16) + [HexDigit(x % 16)]
  }

  function DigitValue(c: char): nat
  {
    if '0' <= c <= '9' then (c - '0') as nat
    else if 'a' <= c <= 'f' then (c - 'a') as nat + 10
    else 0
  }

  /** The number a string of hexadecimal digits denotes. */
  function HexValue(s: string): nat
  {
    if s == [] then 0 else HexValue(s[..|s| - 1]) * 16 + DigitValue(s[|s| - 1])
  }

  predicate IsLowerHex(s: string)
  {
    forall i :: 0 <= i < |s| ==> s[i] in "0123456789abcdef"
  }
}

/** What the descriptors' conversions compute, proved against two's complement. */
module NumericTypeFacts {
  import opened Wrappers
  import opened Bytes
  import opened NumericTypes
  import JsBits

  /** 2^bitSize, the number of distinct bit patterns of a type. */
  function Modulus(t: NumericType): nat
  {
    t.Mask() + 1
  }

  lemma ModulusIsPow256(t: NumericType)
    ensures Modulus(t) == Pow256(t.ByteSize())
  {
    Pow256Values();
  }

  /** Two numbers congruent modulo m that lie in one window of width m are equal. */
  lemma CongruentInWindow(a: int, b: int, lo: int, m: int)
    requires m > 0 && lo <= a < lo + m && lo <= b < lo + m
    requires (a - b) % m == 0
    ensures a == b
  {
    var q := (a - b) / m;
    assert a - lo == m * q + (b - lo);
    JsBits.DivModUnique(a - lo, m, q, b - lo);
    JsBits.DivModUnique(a - lo, m, 0, a - lo);
  }

  /** The getter reads back the bit pattern the setter wrote, in either byte order. */
  lemma DecodeEncode(t: NumericType, value: int, endian: Endianness)
    ensures t.Decode(t.Encode(value, endian), endian) == t.Reading(t.Pattern(value))
  {
    var u := t.Pattern(value);
    var bytes := ToBigEndian(u, t.ByteSize());
    assert FromBigEndian(bytes) == u by {
      ModulusIsPow256(t);
      FromToBigEndian(u, t.ByteSize());
    }
    if endian == Little {
      ReverseReverse(bytes);
    }
  }

  /**
   * The source's default truncation, setter then getter on a scratch view, is what
   * Truncate computes for the concrete types.
   */
  lemma TruncateIsSetterGetter(t: NumericType, value: int, endian: Endianness)
    requires t.Sign() != Agnostic
    ensures t.Truncate(value) == t.Decode(t.Encode(value, endian), endian)
  {
    DecodeEncode(t, value, endian);
  }

  /**
   * Every truncation is two's-complement reduction: the result is a value of the
   * type and differs from the input by a multiple of 2^bitSize.
   */
  lemma TruncateSpec(t: NumericType, value: int)
    ensures t.Min() <= t.Truncate(value) <= t.Max()
    ensures (value - t.Truncate(value)) % Modulus(t) == 0
  {
    match t
    case Xint8 => if value < 0 { ConcreteTruncateSpec(Int8, value); } else { ConcreteTruncateSpec(Uint8, value); }
    case Xint16 => if value < 0 { ConcreteTruncateSpec(Int16, value); } else { ConcreteTruncateSpec(Uint16, value); }
    case Xint32 => if value < 0 { ConcreteTruncateSpec(Int32, value); } else { ConcreteTruncateSpec(Uint32, value); }
    case _ => ConcreteTruncateSpec(t, value);
  }

  lemma ConcreteTruncateSpec(t: NumericType, value: int)
    requires t.Sign() != Agnostic
    ensures t.Min() <= t.Truncate(value) <= t.Max()
    ensures (value - t.Truncate(value)) % Modulus(t) == 0
  {
    JsBits.LowDigitCongruent(value, Modulus(t), t.Pattern(value), t.Truncate(value));
  }

  /** A value of a concrete type truncates to itself. */
  lemma ConcreteTruncateFixes(t: NumericType, value: int)
    requires t.Sign() != Agnostic && t.Min() <= value <= t.Max()
    ensures t.Truncate(value) == value
  {
    TruncateSpec(t, value);
    CongruentInWindow(value, t.Truncate(value), t.Min(), Modulus(t));
  }

  /** `test` accepts exactly the values in [min, max]. */
  lemma TestIffInRange(t: NumericType, value: int)
    ensures t.Test(value) <==> t.Min() <= value <= t.Max()
  {
    TruncateSpec(t, value);
    if t.Min() <= value <= t.Max() {
      match t
      case Xint8 => if value < 0 { ConcreteTruncateFixes(Int8, value); } else { ConcreteTruncateFixes(Uint8, value); }
      case Xint16 => if value < 0 { ConcreteTruncateFixes(Int16, value); } else { ConcreteTruncateFixes(Uint16, value); }
      case Xint32 => if value < 0 { ConcreteTruncateFixes(Int32, value); } else { ConcreteTruncateFixes(Uint32, value); }
      case _ => ConcreteTruncateFixes(t, value);
    }
  }

  /** `ensure` fails, with a value error, exactly when `test` rejects the value. */
  lemma EnsureIffTest(t: NumericType, value: int)
    ensures t.Ensure(value) == Fail(InvalidValue) <==> !(t.Min() <= value <= t.Max())
    ensures t.Ensure(value) == Pass <==> t.Min() <= value <= t.Max()
  {
    assert t.Test(value) <==> t.Min() <= value <= t.Max() by { TestIffInRange(t, value); }
  }

  /**
   * `from` accepts the range of the agnostic type of the same width and returns the
   * type's reading of the value's bits.
   */
  lemma FromSpec(t: NumericType, value: int)
    ensures t.From(value).Success? <==> (t.AgnosticType().Min() <= value <= t.AgnosticType().Max())
    ensures t.From(value).Failure? ==> t.From(value).error == InvalidValue
    ensures t.From(value).Success? ==>
              var r := t.From(value).value;
              t.Min() <= r <= t.Max() && (value - r) % Modulus(t) == 0
  {
    var a := t.AgnosticType();
    if a.Min() <= value <= a.Max() {
      FromAccepts(t, value);
      TruncateSpec(t, value);
    } else {
      FromRejects(t, value);
    }
  }

  lemma FromAccepts(t: NumericType, value: int)
    requires t.AgnosticType().Min() <= value <= t.AgnosticType().Max()
    ensures t.From(value) == Success(t.Truncate(value))
  {
    EnsureIffTest(t.AgnosticType(), value);
  }

  lemma FromRejects(t: NumericType, value: int)
    requires !(t.AgnosticType().Min() <= value <= t.AgnosticType().Max())
    ensures t.From(value) == Failure(InvalidValue)
  {
    EnsureIffTest(t.AgnosticType(), value);
  }

  /** For example Int8.from(0xFF) is -1 and Uint8.from(-1) is 0xFF. */
  lemma FromExamples()
    ensures Int8.From(0xFF) == Success(-1)
    ensures Uint8.From(-1) == Success(0xFF)
    ensures Int16.From(0x1_0000).Failure?
  {
    FromInt8Example();
    FromUint8Example();
    FromSpec(Int16, 0x1_0000);
  }

  lemma FromInt8Example()
    ensures Int8.From(0xFF) == Success(-1)
  {
    assert Xint8.Ensure(0xFF) == Pass by { TestIffInRange(Xint8, 0xFF); }
    ConcreteTruncateSpec(Int8, 0xFF);
    ByteResidue(0xFF, Int8.Truncate(0xFF), -0x80, -1);
  }

  lemma FromUint8Example()
    ensures Uint8.From(-1) == Success(0xFF)
  {
    assert Xint8.Ensure(-1) == Pass by { TestIffInRange(Xint8, -1); }
    ConcreteTruncateSpec(Uint8, -1);
    ByteResidue(-1, Uint8.Truncate(-1), 0, 0xFF);
  }

  /** The one value in a window of 256 that is congruent to v modulo 2^8. */
  lemma ByteResidue(v: int, r: int, lo: int, expected: int)
    requires lo <= r < lo + 0x100 && lo <= expected < lo + 0x100
    requires (v - r) % 0x100 == 0 && (v - expected) % 0x100 == 0
    ensures r == expected
  {
    var q, p := (v - r) / 0x100, (v - expected) / 0x100;
    assert v - r == 0x100 * q && v - expected == 0x100 * p;
  }

  /**
   * The getter returns what the setter stored, for a value of the type: the value
   * itself for a concrete type, and its unsigned reading for an agnostic one.
   */
  lemma SetterGetterRoundTrip(t: NumericType, value: int, endian: Endianness)
    requires t.Min() <= value <= t.Max()
    ensures t.Decode(t.Encode(value, endian), endian)
              == if t.Sign() == Agnostic && value < 0 then value + Modulus(t) else value
  {
    DecodeEncode(t, value, endian);
    var m := Modulus(t);
    if value < 0 {
      JsBits.DivModUnique(value, m, -1, value + m);
    } else {
      JsBits.DivModUnique(value, m, 0, value);
    }
  }

  /** The setter restores bytes the getter read. */
  lemma GetterSetterRoundTrip(t: NumericType, bs: seq<byte>, endian: Endianness)
    requires |bs| == t.ByteSize()
    ensures t.Encode(t.Decode(bs, endian), endian) == bs
  {
    var ordered := if endian == Little then Reverse(bs) else bs;
    var u := FromBigEndian(ordered);
    assert u <= t.Mask() && ToBigEndian(u, t.ByteSize()) == ordered by {
      ToFromBigEndian(ordered);
      ModulusIsPow256(t);
    }
    PatternOfReading(t, u);
    if endian == Little {
      ReverseReverse(bs);
    }
  }

  /** The setter stores again the bit pattern the getter read. */
  lemma PatternOfReading(t: NumericType, u: nat)
    requires u <= t.Mask()
    ensures t.Pattern(t.Reading(u)) == u
  {
    var m, r := Modulus(t), t.Reading(u);
    if r == (u as int) - m {
      JsBits.DivModUnique(r, m, -1, u);
    } else {
      JsBits.DivModUnique(r, m, 0, u);
    }
  }

  /** `toArray` validates, then gives the setter's bytes. */
  lemma ToArraySpec(t: NumericType, value: int, endian: Endianness)
    ensures t.ToArray(value, endian).Success? <==> t.Min() <= value <= t.Max()
    ensures t.ToArray(value, endian).Failure? ==> t.ToArray(value, endian).error == InvalidValue
    ensures t.ToArray(value, endian).Success? ==>
              var bs := t.ToArray(value, endian).value;
              |bs| == t.ByteSize() && t.Decode(bs, endian) == t.Decode(t.Encode(value, Big), Big)
  {
    if t.Min() <= value <= t.Max() {
      assert t.Ensure(value) == Pass by { EnsureIffTest(t, value); }
      assert t.ToArray(value, endian) == Success(t.Encode(value, endian));
      SetterGetterRoundTrip(t, value, endian);
      SetterGetterRoundTrip(t, value, Big);
    } else {
      assert t.Ensure(value) == Fail(InvalidValue) by { EnsureIffTest(t, value); }
    }
  }

  // ---------------------------------------------------------------------------
  // hex

  function Pow16(n: nat): (r: nat)
    ensures r >= 1
  {
    if n == 0 then 1 else 16 * Pow16(n - 1)
  }

  lemma HexModulus(t: NumericType)
    ensures Modulus(t) == Pow16(2 * t.ByteSize())
  {
    assert Pow16(2) == 0x100;
    assert Pow16(4) == 0x1_0000;
    assert Pow16(6) == 0x100_0000;
    assert Pow16(8) == 0x1_0000_0000;
  }

  lemma {:induction false} ToHexStringSpec(x: nat)
    ensures |ToHexString(x)| >= 1 && IsLowerHex(ToHexString(x))
    ensures HexValue(ToHexString(x)) == x
  {
    var s := ToHexString(x);
    if x < 16 {
      HexDigitValue(x);
    } else {
      ToHexStringSpec(x / 16);
      HexDigitValue(x % 16);
      assert s[..|s| - 1] == ToHexString(x / 16);
      assert forall i :: 0 <= i < |s| - 1 ==> s[i] == s[..|s| - 1][i];
    }
  }

  lemma HexDigitValue(d: nat)
    requires d < 16
    ensures HexDigit(d) in "0123456789abcdef" && DigitValue(HexDigit(d)) == d
  {
  }

  lemma {:induction false} ToHexStringLength(x: nat, n: nat)
    requires n >= 1 && x < Pow16(n)
    ensures |ToHexString(x)| <= n
  {
    if x >= 16 {
      assert n >= 2;
      ToHexStringLength(x / 16, n - 1);
    }
  }

  predicate AllZeros(s: string)
  {
    forall i :: 0 <= i < |s| ==> s[i] == '0'
  }

  /** Leading zeros do not change the number a string of digits denotes. */
  lemma {:induction false} LeadingZeros(z: string, s: string)
    requires AllZeros(z)
    ensures HexValue(z + s) == HexValue(s)
  {
    if s == [] {
      assert z + s == z;
      if z != [] {
        assert z[..|z| - 1] + [] == z[..|z| - 1];
        LeadingZeros(z[..|z| - 1], []);
      }
    } else {
      assert (z + s)[..|z + s| - 1] == z + s[..|s| - 1];
      LeadingZeros(z, s[..|s| - 1]);
    }
  }

  /** `(value & mask) >>> 0` is the value reduced modulo 2^bitSize. */
  lemma MaskedValue(t: NumericType, value: int)
    ensures JsBits.ToUint32(JsBits.And(value, t.Mask())) == value % Modulus(t)
  {
    var m := t.Mask();
    if m == 0xFF {
      MaskedByte(value);
    } else if m == 0xFFFF {
      MaskedHalfWord(value);
    } else {
      MaskedWord(value);
    }
  }

  lemma MaskedByte(value: int)
    ensures JsBits.ToUint32(JsBits.And(value, 0xFF)) == value % 0x100
  {
    JsBits.AndByteMask(value);
  }

  lemma MaskedHalfWord(value: int)
    ensures JsBits.ToUint32(JsBits.And(value, 0xFFFF)) == value % 0x1_0000
  {
    JsBits.AndHalfWordMask(value);
  }

  lemma MaskedWord(value: int)
    ensures JsBits.ToUint32(JsBits.And(value, 0xFFFF_FFFF)) == value % 0x1_0000_0000
  {
    JsBits.AndWordMask(value);
  }

  /**
   * `hex` fails exactly when `ensure` does; otherwise it gives exactly 2 * byteSize
   * lowercase hexadecimal digits denoting the value's bit pattern.
   */
  lemma HexSpec(t: NumericType, value: int)
    ensures t.Hex(value).Success? <==> t.Min() <= value <= t.Max()
    ensures t.Hex(value).Failure? ==> t.Hex(value).error == InvalidValue
    ensures t.Hex(value).Success? ==>
              var s := t.Hex(value).value;
              |s| == 2 * t.ByteSize() && IsLowerHex(s) && HexValue(s) == value % Modulus(t)
  {
    if t.Min() <= value <= t.Max() {
      HexAccepts(t, value);
      HexModulus(t);
      PadHexSpec(value % Modulus(t), t.ByteSize());
    } else {
      HexRejects(t, value);
    }
  }

  lemma HexAccepts(t: NumericType, value: int)
    requires t.Min() <= value <= t.Max()
    ensures t.Hex(value) == Success(PadHex(value % Modulus(t), t.ByteSize()))
  {
    EnsureIffTest(t, value);
    MaskedValue(t, value);
  }

  lemma HexRejects(t: NumericType, value: int)
    requires !(t.Min() <= value <= t.Max())
    ensures t.Hex(value) == Failure(InvalidValue)
  {
    EnsureIffTest(t, value);
  }

  /** A number below 16^(2n) padded to 2n lowercase digits, which denote the number. */
  lemma PadHexSpec(x: nat, n: nat)
    requires 1 <= n <= 4 && x < Pow16(2 * n)
    ensures var s := PadHex(x, n);
            |s| == 2 * n && IsLowerHex(s) && HexValue(s) == x
  {
    var hex := ToHexString(x);
    ToHexStringSpec(x);
    ToHexStringLength(x, 2 * n);
    var pad := Substr(HexPadding, 8 - n * 2 + |hex|);
    PaddingZeros(8 - n * 2 + |hex|);
    LeadingZeros(pad, hex);
    var s := pad + hex;
    forall i | 0 <= i < |s|
      ensures s[i] in "0123456789abcdef"
    {
      if i < |pad| {
        assert s[i] == '0';
      } else {
        assert s[i] == hex[i - |pad|];
      }
    }
  }

  lemma PaddingZeros(start: int)
    requires 0 < start <= 8
    ensures |Substr(HexPadding, start)| == 8 - start && AllZeros(Substr(HexPadding, start))
  {
    if start < 8 {
      assert Substr(HexPadding, start) == HexPadding[start..];
    }
  }

  /** Truncation at the source's worked examples. */
  lemma TruncateExamples()
    ensures Int16.Truncate(-1) == -1
    ensures Uint16.Truncate(-1) == 0xFFFF
    ensures Xint16.Truncate(-1) == -1
    ensures Xint16.Truncate(0xFFFF) == 0xFFFF
  {
    TruncateSpec(Uint16, -1);
    CongruentInWindow(Uint16.Truncate(-1), 0xFFFF, 0, 0x1_0000);
    ConcreteTruncateFixes(Int16, -1);
    ConcreteTruncateFixes(Uint16, 0xFFFF);
  }
}

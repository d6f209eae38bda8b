/**
 * The free conversion functions and range predicates of the library's table-driven
 * type module: each truncation is one JavaScript 32-bit operator expression, and the
 * Min/Max/ByteSize/BitSize tables give the bounds of each integer kind.
 */
module Types {
  import JsBits

  /** The integer kinds that the tables are indexed by. */
  datatype Kind = Int8 | Int16 | Int32 | Int54 | Uint8 | Uint16 | Uint32 | Xint8 | Xint16 | Xint32

  datatype Signedness = Agnostic | Unsigned | Signed

  /** The largest value of each kind (the `Max` table). */
  function Max(k: Kind): int
  {
    match k
    case Int8 => 0x7F
    case Int16 => 0x7FFF
    case Int32 => 0x7FFF_FFFF
    case Int54 => 0x1F_FFFF_FFFF_FFFF
    case Uint8 => 0xFF
    case Uint16 => 0xFFFF
    case Uint32 => 0xFFFF_FFFF
    case Xint8 => 0xFF
    case Xint16 => 0xFFFF
    case Xint32 => 0xFFFF_FFFF
  }

  /** The smallest value of each kind (the `Min` table). */
  function Min(k: Kind): int
  {
    match k
    case Int8 => -0x80
    case Int16 => -0x8000
    case Int32 => -0x8000_0000
    case Int54 => -0x1F_FFFF_FFFF_FFFF
    case Uint8 => 0
    case Uint16 => 0
    case Uint32 => 0
    case Xint8 => -0x80
    case Xint16 => -0x8000
    case Xint32 => -0x8000_0000
  }

  /** The storage size of each kind in bytes (the `ByteSize` table). */
  function ByteSize(k: Kind): nat
  {
    match k
    case Int8 => 1
    case Int16 => 2
    case Int32 => 4
    case Int54 => 8
    case Uint8 => 1
    case Uint16 => 2
    case Uint32 => 4
    case Xint8 => 1
    case Xint16 => 2
    case Xint32 => 4
  }

  /** The width of each kind in bits (the `BitSize` table). */
  function BitSize(k: Kind): nat
  {
    match k
    case Int8 => 8
    case Int16 => 16
    case Int32 => 32
    case Int54 => 54
    case Uint8 => 8
    case Uint16 => 16
    case Uint32 => 32
    case Xint8 => 8
    case Xint16 => 16
    case Xint32 => 32
  }

  /** The signedness each kind is described with. */
  function SignednessOf(k: Kind): Signedness
  {
    match k
    case Int8 | Int16 | Int32 | Int54 => Signed
    case Uint8 | Uint16 | Uint32 => Unsigned
    case Xint8 | Xint16 | Xint32 => Agnostic
  }

  // ---------------------------------------------------------------------------
  // Truncations

  /** `value << 24 >> 24` */
  function ToInt8(value: int): int
  {
    JsBits.ShiftRight(JsBits.ShiftLeft(value, 24), 24)
  }

  /** `value << 16 >> 16` */
  function ToInt16(value: int): int
  {
    JsBits.ShiftRight(JsBits.ShiftLeft(value, 16), 16)
  }

  /** `value | 0` */
  function ToInt32(value: int): int
  {
    JsBits.Or(value, 0)
  }

  /** `value & Max.uint8` */
  function ToUint8(value: int): int
  {
    JsBits.And(value, Max(Uint8))
  }

  /** `value & Max.uint16` */
  function ToUint16(value: int): int
  {
    JsBits.And(value, Max(Uint16))
  }

  /** `value >>> 0` */
  function ToUint32(value: int): int
  {
    JsBits.ShiftRightUnsigned(value, 0)
  }

  // ---------------------------------------------------------------------------
  // Range predicates

  predicate IsInt8(value: int)
  {
    Min(Int8) <= value <= Max(Int8) && IsInt32(value)
  }

  predicate IsInt16(value: int)
  {
    Min(Int16) <= value <= Max(Int16) && IsInt32(value)
  }

  predicate IsInt32(value: int)
  {
    JsBits.Or(value, 0) == value
  }

  predicate IsUint8(value: int)
  {
    ToUint8(value) == value
  }

  predicate IsUint16(value: int)
  {
    ToUint16(value) == value
  }

  predicate IsUint32(value: int)
  {
    ToUint32(value) == value
  }

  predicate IsXint8(value: int)
  {
    Min(Int8) <= value <= Max(Uint8) && IsInt32(value)
  }

  predicate IsXint16(value: int)
  {
    Min(Int16) <= value <= Max(Uint16) && IsInt32(value)
  }

  predicate IsXint32(value: int)
  {
    IsInt32(value) || IsUint32(value)
  }

  // ---------------------------------------------------------------------------
  // What the truncations compute

  /** `toInt8` keeps the low 8 bits and sign-extends them. */
  lemma ToInt8Spec(value: int)
    ensures -0x80 <= ToInt8(value) <= 0x7F
    ensures (value - ToInt8(value)) % 0x100 == 0
  {
    JsBits.SignExtend8(value);
  }

  /** `toInt16` keeps the low 16 bits and sign-extends them. */
  lemma ToInt16Spec(value: int)
    ensures -0x8000 <= ToInt16(value) <= 0x7FFF
    ensures (value - ToInt16(value)) % 0x1_0000 == 0
  {
    JsBits.SignExtend16(value);
  }

  /** `toInt32` wraps to the signed 32-bit range. */
  lemma ToInt32Spec(value: int)
    ensures -0x8000_0000 <= ToInt32(value) <= 0x7FFF_FFFF
    ensures (value - ToInt32(value)) % 0x1_0000_0000 == 0
  {
    JsBits.OrZero(value);
  }

  /** `toUint8` and `toUint16` keep the low 8 and 16 bits. */
  lemma ToUintSpec(value: int)
    ensures ToUint8(value) == value % 0x100
    ensures ToUint16(value) == value % 0x1_0000
  {
    JsBits.AndByteMask(value);
    JsBits.AndHalfWordMask(value);
  }

  /** `toUint32` is the residue modulo 2^32. */
  lemma ToUint32Spec(value: int)
    ensures 0 <= ToUint32(value) <= 0xFFFF_FFFF
    ensures ToUint32(value) == value % 0x1_0000_0000
  {
  }

  /** `isInt32` accepts exactly the signed 32-bit range. */
  lemma IsInt32Range(value: int)
    ensures IsInt32(value) <==> -0x8000_0000 <= value <= 0x7FFF_FFFF
  {
    JsBits.OrZero(value);
  }

  /** The range predicate of each kind (Int54's IEEE-754 test is not modelled). */
  predicate Accepts(k: Kind, value: int)
    requires k != Int54
  {
    match k
    case Int8 => IsInt8(value)
    case Int16 => IsInt16(value)
    case Int32 => IsInt32(value)
    case Uint8 => IsUint8(value)
    case Uint16 => IsUint16(value)
    case Uint32 => IsUint32(value)
    case Xint8 => IsXint8(value)
    case Xint16 => IsXint16(value)
    case Xint32 => IsXint32(value)
  }

  /** Each predicate accepts exactly the closed range [Min, Max] of its kind. */
  lemma PredicateRange(k: Kind, value: int)
    requires k != Int54
    ensures Accepts(k, value) <==> Min(k) <= value <= Max(k)
  {
    match k
    case Int8 => SignedRange(value, -0x80, 0x7F);
    case Int16 => SignedRange(value, -0x8000, 0x7FFF);
    case Int32 => IsInt32Range(value);
    case Uint8 => Uint8Range(value);
    case Uint16 => Uint16Range(value);
    case Uint32 => ToUint32Spec(value);
    case Xint8 => SignedRange(value, -0x80, 0xFF);
    case Xint16 => SignedRange(value, -0x8000, 0xFFFF);
    case Xint32 => IsInt32Range(value); ToUint32Spec(value);
  }

  /** A bounds test conjoined with `isInt32` is the bounds test alone when they lie inside the int32 range. */
  lemma SignedRange(value: int, lo: int, hi: int)
    requires -0x8000_0000 <= lo && hi <= 0x7FFF_FFFF
    ensures (lo <= value <= hi && IsInt32(value)) <==> lo <= value <= hi
  {
    IsInt32Range(value);
  }

  lemma Uint8Range(value: int)
    ensures IsUint8(value) <==> 0 <= value <= 0xFF
  {
    JsBits.AndByteMask(value);
    if 0 <= value <= 0xFF {
      JsBits.DivModUnique(value, 0x100, 0, value);
    }
  }

  lemma Uint16Range(value: int)
    ensures IsUint16(value) <==> 0 <= value <= 0xFFFF
  {
    JsBits.AndHalfWordMask(value);
    if 0 <= value <= 0xFFFF {
      JsBits.DivModUnique(value, 0x1_0000, 0, value);
    }
  }

  lemma Uint32Range(value: int)
    ensures IsUint32(value) <==> 0 <= value <= 0xFFFF_FFFF
  {
    if 0 <= value <= 0xFFFF_FFFF {
      JsBits.DivModUnique(value, JsBits.TwoTo32, 0, value);
    }
  }

  /**
   * The tables agree with two's complement: signed and agnostic kinds start at
   * -2^(N-1), unsigned kinds at 0; unsigned and agnostic kinds end at 2^N - 1,
   * signed kinds at 2^(N-1) - 1; and every kind is a whole number of bytes.
   */
  lemma {:induction false} TablesAreTwosComplement(k: Kind)
    requires k != Int54
    ensures BitSize(k) == 8 * ByteSize(k)
    ensures Min(k) == if SignednessOf(k) == Unsigned then 0 else -(JsBits.Pow2(BitSize(k) - 1) as int)
    ensures Max(k) == if SignednessOf(k) == Signed then JsBits.Pow2(BitSize(k) - 1) - 1
                      else JsBits.Pow2(BitSize(k)) - 1
  {
    JsBits.Pow2Values();
    assert JsBits.Pow2(7) == 0x80 && JsBits.Pow2(15) == 0x8000;
  }

  /** Each predicate accepts its kind's Min and Max and rejects Min - 1 and Max + 1. */
  lemma PredicateBoundaries(k: Kind)
    requires k != Int54
    ensures Accepts(k, Min(k)) && Accepts(k, Max(k))
    ensures !Accepts(k, Min(k) - 1) && !Accepts(k, Max(k) + 1)
  {
    PredicateRange(k, Min(k));
    PredicateRange(k, Max(k));
    PredicateRange(k, Min(k) - 1);
    PredicateRange(k, Max(k) + 1);
  }
}

/**
 * The standalone 16-bit signed codec: truncation by shifting the value up to the top of
 * a 32-bit word and arithmetically back down, and little- and big-endian reads and
 * writes of two bytes in a `Uint8Array`, one element at a time.
 */
module Int16Codec {
  import opened Bytes
  import JsBits
  import NumericTypes
  import NumericTypeFacts
  import NumericTypeBase

  /** The 16-bit signed type of the DataView-based codec, against which this one is compared. */
  const DataViewInt16: NumericTypes.NumericType := NumericTypes.NumericType.Int16

  /** `super(Signedness.Signed, 16, -0x8000, 0x7FFF)` */
  const Int16Type: NumericTypeBase.Descriptor := NumericTypeBase.Descriptor(NumericTypes.Signed, 16, -0x8000, 0x7FFF)

  /** `(value << 16) >> 16`: the low 16 bits of the value, sign-extended. */
  function Truncate(value: int): (r: int)
    ensures -0x8000 <= r <= 0x7FFF
    ensures (value - r) % 0x1_0000 == 0
  {
    JsBits.SignExtend16(value);
    JsBits.ShiftRight(JsBits.ShiftLeft(value, 16), 16)
  }

  /** A `Uint8Array` element read: an index outside the array reads `undefined`, which is 0 to `|` and `<<`. */
  function At(bytes: seq<byte>, i: int): byte
  {
    if 0 <= i < |bytes| then bytes[i] else 0
  }

  /** A `Uint8Array` element store: the value modulo 2^8; a store outside the array is ignored. */
  function Store(bytes: seq<byte>, i: int, value: int): (r: seq<byte>)
    ensures |r| == |bytes|
    ensures forall j :: 0 <= j < |bytes| && j != i ==> r[j] == bytes[j]
  {
    if 0 <= i < |bytes| then bytes[i := value % 0x100] else bytes
  }

  /** `getLE`: the low byte at the offset, the high byte after it. */
  function GetLE(bytes: seq<byte>, offset: int): (r: int)
    ensures -0x8000 <= r <= 0x7FFF
  {
    Truncate(JsBits.Or(At(bytes, offset), JsBits.ShiftLeft(At(bytes, offset + 1), 8)))
  }

  /** `getBE`: the high byte at the offset, the low byte after it. */
  function GetBE(bytes: seq<byte>, offset: int): (r: int)
    ensures -0x8000 <= r <= 0x7FFF
  {
    Truncate(JsBits.Or(JsBits.ShiftLeft(At(bytes, offset), 8), At(bytes, offset + 1)))
  }

  /** The bytes after `setLE`: only the two elements at the offset and after it can change. */
  function StoredLE(bytes: seq<byte>, offset: int, value: int): (r: seq<byte>)
    ensures |r| == |bytes|
    ensures forall i :: 0 <= i < |bytes| && i != offset && i != offset + 1 ==> r[i] == bytes[i]
  {
    Store(Store(bytes, offset, value), offset + 1, JsBits.ShiftRight(value, 8))
  }

  /** The bytes after `setBE`: only the two elements at the offset and after it can change. */
  function StoredBE(bytes: seq<byte>, offset: int, value: int): (r: seq<byte>)
    ensures |r| == |bytes|
    ensures forall i :: 0 <= i < |bytes| && i != offset && i != offset + 1 ==> r[i] == bytes[i]
  {
    Store(Store(bytes, offset, JsBits.ShiftRight(value, 8)), offset + 1, value)
  }

  /** `setLE`: stores the value, then its arithmetic shift right by 8, at consecutive indices. */
  method SetLE(bytes: array<byte>, offset: int, value: int)
    modifies bytes
    ensures bytes[..] == StoredLE(old(bytes[..]), offset, value)
  {
    var at := offset;
    if 0 <= at < bytes.Length {
      bytes[at] := value % 0x100;
    }
    at := at + 1;
    if 0 <= at < bytes.Length {
      bytes[at] := JsBits.ShiftRight(value, 8) % 0x100;
    }
  }

  /** `setBE`: stores the value's arithmetic shift right by 8, then the value, at consecutive indices. */
  method SetBE(bytes: array<byte>, offset: int, value: int)
    modifies bytes
    ensures bytes[..] == StoredBE(old(bytes[..]), offset, value)
  {
    var at := offset;
    if 0 <= at < bytes.Length {
      bytes[at] := JsBits.ShiftRight(value, 8) % 0x100;
    }
    at := at + 1;
    if 0 <= at < bytes.Length {
      bytes[at] := value % 0x100;
    }
  }

  // ---------------------------------------------------------------------------
  // Facts

  /** The constructed type is signed, 16 bits wide, two bytes long, with the int16 bounds. */
  lemma Int16TypeShape()
    ensures Int16Type.signedness == NumericTypes.Signed && Int16Type.bitSize == 16
    ensures Int16Type.ByteSize() == 2 && Int16Type.AlignmentMask() == 1
    ensures Int16Type.minValue == -0x8000 && Int16Type.maxValue == 0x7FFF
    ensures Int16Type.minValue == DataViewInt16.Min() && Int16Type.maxValue == DataViewInt16.Max()
  {
    NumericTypeBase.StandardSizes(NumericTypes.Signed, -0x8000, 0x7FFF);
  }

  /** Truncation agrees with storing into an `Int16Array` and reading back. */
  lemma TruncateIsInt16ArrayStore(value: int)
    ensures Truncate(value) == DataViewInt16.Truncate(value)
  {
    var a, b := Truncate(value), DataViewInt16.Truncate(value);
    NumericTypeFacts.ConcreteTruncateSpec(DataViewInt16, value);
    assert NumericTypeFacts.Modulus(DataViewInt16) == 0x1_0000;
    var m := 0x1_0000;
    var qa, qb := (value - a) / m, (value - b) / m;
    assert value - a == m * qa && value - b == m * qb;
    assert a - b == m * (qb - qa);
    JsBits.DivModUnique(a - b, m, qb - qa, 0);
    NumericTypeFacts.CongruentInWindow(a, b, -0x8000, m);
  }

  /** A value in the int16 range truncates to itself. */
  lemma TruncateFixes(value: int)
    requires -0x8000 <= value <= 0x7FFF
    ensures Truncate(value) == value
  {
    NumericTypeFacts.CongruentInWindow(value, Truncate(value), -0x8000, 0x1_0000);
  }

  /** `test` accepts exactly the int16 range, and `ensure` throws exactly outside it. */
  lemma TestIffInRange(value: int)
    ensures NumericTypeBase.Test(Truncate, value) <==> -0x8000 <= value <= 0x7FFF
    ensures NumericTypeBase.Ensure(Truncate, value).Pass? <==> -0x8000 <= value <= 0x7FFF
  {
    if -0x8000 <= value <= 0x7FFF {
      TruncateFixes(value);
    }
  }

  /** The byte `value >> 8` stores is bits 8 to 15 of the value. */
  lemma HighByte(value: int)
    ensures JsBits.ShiftRight(value, 8) % 0x100 == (value / 0x100) % 0x100
  {
    JsBits.Pow2Values();
    assert JsBits.ShiftCount(8) == 8;
    var t := JsBits.ToInt32(value);
    var q := value / JsBits.TwoTo32;
    var c := if t == JsBits.ToUint32(value) then q else q + 1;
    assert t == value - JsBits.TwoTo32 * c;
    var s := t / 0x100;
    assert value == 0x100 * (s + 0x100_0000 * c) + t % 0x100;
    JsBits.DivModUnique(value, 0x100, s + 0x100_0000 * c, t % 0x100);
    JsBits.DivModUnique(value / 0x100, 0x100, s / 0x100 + 0x1_0000 * c, s % 0x100);
  }

  /** Bits 8 to 15 of the value's 16-bit pattern are bits 8 to 15 of the value. */
  lemma MiddleByte(value: int)
    ensures ((value % 0x1_0000) / 0x100) % 0x100 == (value / 0x100) % 0x100
  {
    var q, p := value / 0x1_0000, value % 0x1_0000;
    var a, b := p / 0x100, p % 0x100;
    assert value == 0x100 * (0x100 * q + a) + b;
    JsBits.DivModUnique(value, 0x100, 0x100 * q + a, b);
    JsBits.DivModUnique(0x100 * q + a, 0x100, q, a);
  }

  /**
   * `setLE` writes the low byte at the offset and the high byte after it, and these are
   * the bytes `DataView.setInt16` writes in little-endian order.
   */
  lemma StoredLELayout(bytes: seq<byte>, offset: int, value: int)
    requires 0 <= offset && offset + 2 <= |bytes|
    ensures StoredLE(bytes, offset, value)[offset] == value % 0x100
    ensures StoredLE(bytes, offset, value)[offset + 1] == (value / 0x100) % 0x100
    ensures StoredLE(bytes, offset, value)[offset..offset + 2] == DataViewInt16.Encode(value, NumericTypes.Little)
  {
    HighByte(value);
    MiddleByte(value);
    Uint16Digits(value);
  }

  /**
   * `setBE` writes the high byte at the offset and the low byte after it: the bytes of
   * `setLE` reversed, and those `DataView.setInt16` writes in big-endian order.
   */
  lemma StoredBELayout(bytes: seq<byte>, offset: int, value: int)
    requires 0 <= offset && offset + 2 <= |bytes|
    ensures StoredBE(bytes, offset, value)[offset] == (value / 0x100) % 0x100
    ensures StoredBE(bytes, offset, value)[offset + 1] == value % 0x100
    ensures StoredBE(bytes, offset, value)[offset..offset + 2] == Reverse(StoredLE(bytes, offset, value)[offset..offset + 2])
    ensures StoredBE(bytes, offset, value)[offset..offset + 2] == DataViewInt16.Encode(value, NumericTypes.Big)
  {
    HighByte(value);
    MiddleByte(value);
    Uint16Digits(value);
  }

  /** The big-endian digits of a value's 16-bit pattern. */
  lemma Uint16Digits(value: int)
    ensures DataViewInt16.Encode(value, NumericTypes.Big)
            == [((value % 0x1_0000) / 0x100) % 0x100, value % 0x100]
    ensures DataViewInt16.Encode(value, NumericTypes.Little)
            == [value % 0x100, ((value % 0x1_0000) / 0x100) % 0x100]
  {
    var p := value % 0x1_0000;
    assert DataViewInt16.Pattern(value) == p;
    assert p % 0x100 == value % 0x100 by {
      JsBits.DivModUnique(value, 0x100, 0x100 * (value / 0x1_0000) + p / 0x100, p % 0x100);
    }
    assert ToBigEndian(p, 2) == [(p / 0x100) % 0x100, p % 0x100];
  }

  /** `y << 8` on a byte is multiplication by 256. */
  lemma ShiftByteLeft(hi: int)
    requires 0 <= hi < 0x100
    ensures JsBits.ShiftLeft(hi, 8) == hi * 0x100
  {
    JsBits.Pow2Values();
    assert JsBits.ShiftCount(8) == 8;
    JsBits.DivModUnique(hi, JsBits.TwoTo32, 0, hi);
    var w := hi * 0x100;
    assert 0 <= w < 0x8000_0000;
    JsBits.DivModUnique(w, JsBits.TwoTo32, 0, w);
  }

  /** Or-ing a byte into a multiple of 256 below 2^16 is addition, in either operand order. */
  lemma OrIntoHighByte(lo: int, hi: int)
    requires 0 <= lo < 0x100 && 0 <= hi < 0x100
    ensures JsBits.Or(lo, hi * 0x100) == lo + hi * 0x100
    ensures JsBits.Or(hi * 0x100, lo) == lo + hi * 0x100
  {
    var w := hi * 0x100;
    assert 0 <= w < 0x1_0000;
    JsBits.DivModUnique(lo, JsBits.TwoTo32, 0, lo);
    JsBits.DivModUnique(w, JsBits.TwoTo32, 0, w);
    assert JsBits.OrNat(lo, w) == lo + w by {
      JsBits.Pow2Values();
      JsBits.OrDisjoint(lo, hi, 8);
    }
    OrNatCommutes(lo, w);
    JsBits.DivModUnique(lo + w, JsBits.TwoTo32, 0, lo + w);
  }

  lemma {:induction false} OrNatCommutes(a: nat, b: nat)
    ensures JsBits.OrNat(a, b) == JsBits.OrNat(b, a)
    decreases a
  {
    if a != 0 && b != 0 {
      OrNatCommutes(a / 2, b / 2);
    }
  }

  /** Within 16 bits, the truncation is the two's-complement reading. */
  lemma TruncateUint16(u: nat)
    requires u < 0x1_0000
    ensures Truncate(u) == DataViewInt16.Reading(u)
  {
    TruncateIsInt16ArrayStore(u);
    JsBits.DivModUnique(u, 0x1_0000, 0, u);
    assert DataViewInt16.Pattern(u) == u;
  }

  /** Two bytes, most significant first, read as an unsigned number. */
  lemma TwoDigits(hi: byte, lo: byte)
    ensures FromBigEndian([hi, lo]) == (hi as int) * 0x100 + lo
  {
    assert FromBigEndian([hi]) == hi by {
      assert [hi][..0] == [];
    }
    assert [hi, lo][..1] == [hi];
  }

  /** `getLE` reads what `DataView.getInt16` reads in little-endian order. */
  lemma GetLEIsGetInt16(bytes: seq<byte>, offset: int)
    requires 0 <= offset && offset + 2 <= |bytes|
    ensures GetLE(bytes, offset) == DataViewInt16.Decode(bytes[offset..offset + 2], NumericTypes.Little)
  {
    var lo: int, hi: int := bytes[offset], bytes[offset + 1];
    var u := lo + hi * 0x100;
    assert JsBits.Or(At(bytes, offset), JsBits.ShiftLeft(At(bytes, offset + 1), 8)) == u by {
      ShiftByteLeft(hi);
      OrIntoHighByte(lo, hi);
    }
    assert DataViewInt16.Decode(bytes[offset..offset + 2], NumericTypes.Little) == DataViewInt16.Reading(u) by {
      var bs := bytes[offset..offset + 2];
      assert Reverse(bs) == [bytes[offset + 1], bytes[offset]];
      TwoDigits(bytes[offset + 1], bytes[offset]);
    }
    TruncateUint16(u);
  }

  /** `getBE` reads what `DataView.getInt16` reads in big-endian order. */
  lemma GetBEIsGetInt16(bytes: seq<byte>, offset: int)
    requires 0 <= offset && offset + 2 <= |bytes|
    ensures GetBE(bytes, offset) == DataViewInt16.Decode(bytes[offset..offset + 2], NumericTypes.Big)
  {
    var hi: int, lo: int := bytes[offset], bytes[offset + 1];
    var u := lo + hi * 0x100;
    assert JsBits.Or(JsBits.ShiftLeft(At(bytes, offset), 8), At(bytes, offset + 1)) == u by {
      ShiftByteLeft(hi);
      OrIntoHighByte(lo, hi);
    }
    assert DataViewInt16.Decode(bytes[offset..offset + 2], NumericTypes.Big) == DataViewInt16.Reading(u) by {
      assert bytes[offset..offset + 2] == [bytes[offset], bytes[offset + 1]];
      TwoDigits(bytes[offset], bytes[offset + 1]);
    }
    TruncateUint16(u);
  }

  /** Reading back what `setLE` wrote gives the truncated value. */
  lemma GetSetLE(bytes: seq<byte>, offset: int, value: int)
    requires 0 <= offset && offset + 2 <= |bytes|
    ensures GetLE(StoredLE(bytes, offset, value), offset) == Truncate(value)
  {
    var stored := StoredLE(bytes, offset, value);
    StoredLELayout(bytes, offset, value);
    GetLEIsGetInt16(stored, offset);
    NumericTypeFacts.TruncateIsSetterGetter(DataViewInt16, value, NumericTypes.Little);
    TruncateIsInt16ArrayStore(value);
  }

  /** Reading back what `setBE` wrote gives the truncated value. */
  lemma GetSetBE(bytes: seq<byte>, offset: int, value: int)
    requires 0 <= offset && offset + 2 <= |bytes|
    ensures GetBE(StoredBE(bytes, offset, value), offset) == Truncate(value)
  {
    var stored := StoredBE(bytes, offset, value);
    StoredBELayout(bytes, offset, value);
    GetBEIsGetInt16(stored, offset);
    NumericTypeFacts.TruncateIsSetterGetter(DataViewInt16, value, NumericTypes.Big);
    TruncateIsInt16ArrayStore(value);
  }
}

/**
 * The abstract numeric-type base class of the standalone codecs: a descriptor whose
 * byte size and alignment mask are derived from its bit size, the alignment helpers
 * built from JavaScript's 32-bit operators, and `test`/`ensure` in terms of the
 * truncation a subclass supplies.
 */
module NumericTypeBase {
  import opened Wrappers
  import JsBits
  import opened NumericTypes

  /** The readonly fields set by the constructor. */
  datatype Descriptor = Descriptor(signedness: Signedness, bitSize: nat, minValue: int, maxValue: int)
  {
    /** `(bitSize + 7) >>> 3`: the number of whole bytes that hold `bitSize` bits. */
    function ByteSize(): (r: int)
      ensures bitSize + 7 < JsBits.TwoTo32 ==> 0 <= r && bitSize <= 8 * r < bitSize + 8
    {
      var x := bitSize + 7;
      assert JsBits.ShiftCount(3) == 3 && JsBits.Pow2(3) == 8;
      assert x < JsBits.TwoTo32 ==> JsBits.ToUint32(x) == x by {
        if x < JsBits.TwoTo32 {
          JsBits.DivModUnique(x, JsBits.TwoTo32, 0, x);
        }
      }
      JsBits.ShiftRightUnsigned(x, 3)
    }

    /** `byteSize - 1` */
    function AlignmentMask(): int
    {
      ByteSize() - 1
    }

    /** `(byteOffset & alignmentMask) === 0` */
    predicate IsAligned(offset: int)
    {
      JsBits.And(offset, AlignmentMask()) == 0
    }

    /** `((byteOffset + n) >>> n) << n` with `n` the alignment mask, as written. */
    function Align(offset: int): int
    {
      var n := AlignmentMask();
      JsBits.ShiftLeft(JsBits.ShiftRightUnsigned(offset + n, n), n)
    }

    /** The base-2 logarithm of the byte size, the shift count `align` evidently intends. */
    function AlignmentShift(): nat
    {
      Log2(ByteSize())
    }

    /** `align` with the shift count corrected to the logarithm of the byte size. */
    function AlignUp(offset: int): int
    {
      var n := AlignmentMask();
      JsBits.ShiftLeft(JsBits.ShiftRightUnsigned(offset + n, AlignmentShift()), AlignmentShift())
    }
  }

  function Log2(n: int): nat
    decreases n
  {
    if n <= 1 then 0 else 1 + Log2(n / 2)
  }

  /** The byte sizes for which alignment masks make sense. */
  predicate PowerOfTwoSize(d: Descriptor)
  {
    d.ByteSize() == 1 || d.ByteSize() == 2 || d.ByteSize() == 4
  }

  /** `test`: the value is one of the type's values exactly when truncation keeps it. */
  predicate Test(truncate: int -> int, value: int)
  {
    truncate(value) == value
  }

  /** `ensure`: throws when truncation would change the value, and otherwise does nothing. */
  function Ensure(truncate: int -> int, value: int): (r: Outcome<Error>)
    ensures r == Pass <==> Test(truncate, value)
    ensures r.Fail? ==> r.error == InvalidValue
  {
    if truncate(value) != value then Fail(InvalidValue) else Pass
  }

  // ---------------------------------------------------------------------------
  // Facts

  /** The byte sizes of the 8-, 16- and 32-bit types and their masks. */
  lemma StandardSizes(s: Signedness, lo: int, hi: int)
    ensures Descriptor(s, 8, lo, hi).ByteSize() == 1 && Descriptor(s, 8, lo, hi).AlignmentMask() == 0
    ensures Descriptor(s, 16, lo, hi).ByteSize() == 2 && Descriptor(s, 16, lo, hi).AlignmentMask() == 1
    ensures Descriptor(s, 32, lo, hi).ByteSize() == 4 && Descriptor(s, 32, lo, hi).AlignmentMask() == 3
  {
    assert JsBits.Pow2(3) == 8;
  }

  /** Reducing modulo 2^32 does not change the residue modulo 1, 2 or 4. */
  lemma Uint32SmallResidue(x: int, m: nat)
    requires m == 1 || m == 2 || m == 4
    ensures JsBits.ToUint32(x) % m == x % m
  {
    var u, q := JsBits.ToUint32(x), x / JsBits.TwoTo32;
    assert x == JsBits.TwoTo32 * q + u;
    var k := JsBits.TwoTo32 / m;
    assert JsBits.TwoTo32 == m * k;
    JsBits.DivModUnique(x, m, k * q + u / m, u % m);
  }

  /** For byte sizes 1, 2 and 4, `isAligned` holds exactly for the multiples of the byte size. */
  lemma IsAlignedIffMultiple(d: Descriptor, offset: int)
    requires PowerOfTwoSize(d)
    ensures d.IsAligned(offset) <==> offset % d.ByteSize() == 0
  {
    var size := d.ByteSize();
    var m := d.AlignmentMask();
    if size == 1 {
      MaskedResidue(offset, m, 1, 0);
    } else if size == 2 {
      MaskedResidue(offset, m, 2, 1);
    } else {
      assert JsBits.Pow2(2) == 4;
      MaskedResidue(offset, m, 4, 2);
    }
  }

  /** Anding with a small mask of low one-bits gives the residue modulo the next power of two. */
  lemma MaskedResidue(x: int, m: int, p: nat, k: nat)
    requires m + 1 == p && JsBits.Pow2(k) == p && 1 <= p <= 4
    ensures JsBits.And(x, m) == x % p
  {
    var u := JsBits.ToUint32(x);
    JsBits.DivModUnique(m, JsBits.TwoTo32, 0, m);
    JsBits.AndLowMask(u, k);
    var a := JsBits.AndNat(u, m);
    JsBits.DivModUnique(a, JsBits.TwoTo32, 0, a);
    Uint32SmallResidue(x, p);
  }

  /** Shifting a non-negative 31-bit value right and back left by k clears its k low bits. */
  lemma ShiftsRoundDown(x: int, k: nat, p: nat)
    requires 0 <= x < 0x8000_0000 && k <= 3 && JsBits.Pow2(k) == p
    ensures JsBits.ShiftLeft(JsBits.ShiftRightUnsigned(x, k), k) == (x / p) * p
  {
    JsBits.DivModUnique(x, JsBits.TwoTo32, 0, x);
    assert JsBits.ShiftCount(k) == k by {
      JsBits.DivModUnique(k, JsBits.TwoTo32, 0, k);
      JsBits.DivModUnique(k, 32, 0, k);
    }
    var q := x / p;
    var w := q * p;
    assert 0 <= q <= x && 0 <= w <= x by {
      if k == 0 {
        assert p == 1;
      } else if k == 1 {
        assert p == 2;
      } else if k == 2 {
        assert p == 4;
      } else {
        assert p == 8;
      }
    }
    assert JsBits.ShiftRightUnsigned(x, k) == q;
    JsBits.DivModUnique(q, JsBits.TwoTo32, 0, q);
    assert JsBits.ShiftLeft(q, k) == JsBits.ToInt32(w);
    JsBits.DivModUnique(w, JsBits.TwoTo32, 0, w);
  }

  /** Rounding `x + p - 1` down to a multiple of p rounds x up to one, and keeps multiples. */
  lemma RoundUp(x: int, p: nat)
    requires 0 <= x && (p == 1 || p == 2 || p == 4)
    ensures var r := ((x + p - 1) / p) * p;
            r % p == 0 && x <= r < x + p && (x % p == 0 ==> r == x)
  {
  }

  /** `align` is the identity for a one-byte type on non-negative 31-bit offsets. */
  lemma AlignSingleByte(d: Descriptor, offset: int)
    requires d.ByteSize() == 1 && 0 <= offset < 0x8000_0000
    ensures d.Align(offset) == offset
  {
    ShiftsRoundDown(offset, 0, 1);
  }

  /** `align` rounds up to an even offset for a two-byte type, as intended. */
  lemma AlignTwoBytes(d: Descriptor, offset: int)
    requires d.ByteSize() == 2 && 0 <= offset && offset + 1 < 0x8000_0000
    ensures d.Align(offset) == offset + offset % 2
  {
    var r := ((offset + 1) / 2) * 2;
    assert r == offset + offset % 2;
    assert d.Align(offset) == r by {
      ShiftsRoundDown(offset + 1, 1, 2);
    }
  }

  /** For one- and two-byte types, `align` as written agrees with the corrected one. */
  lemma AlignAgrees(d: Descriptor, offset: int)
    requires (d.ByteSize() == 1 || d.ByteSize() == 2) && 0 <= offset && offset + 1 < 0x8000_0000
    ensures d.Align(offset) == d.AlignUp(offset)
  {
    AlignUpRounds(d, offset);
    if d.ByteSize() == 1 {
      AlignSingleByte(d, offset);
    } else {
      AlignTwoBytes(d, offset);
    }
  }

  /**
   * `align` as written on a four-byte type: the shift count is the mask 3, so the offset
   * plus 3 is rounded down to a multiple of 8. An already aligned offset 4 becomes 0, and
   * so does 1, which `align` was meant to round up to 4.
   */
  lemma AlignFourBytesAsWritten(d: Descriptor)
    requires d.ByteSize() == 4
    ensures d.IsAligned(4) && d.Align(4) == 0
    ensures d.Align(1) == 0 && d.AlignUp(1) == 4
  {
    IsAlignedIffMultiple(d, 4);
    assert d.AlignmentShift() == 2;
    assert JsBits.Pow2(3) == 8;
    ShiftsRoundDown(7, 3, 8);
    ShiftsRoundDown(4, 3, 8);
    ShiftsRoundDown(4, 2, 4);
  }

  /**
   * The corrected `align` rounds up to the next multiple of the byte size, which it
   * leaves unchanged, for byte sizes 1, 2 and 4.
   */
  lemma AlignUpSpec(d: Descriptor, offset: int)
    requires PowerOfTwoSize(d) && 0 <= offset && offset + d.AlignmentMask() < 0x8000_0000
    ensures var r := d.AlignUp(offset);
            r % d.ByteSize() == 0 && offset <= r < offset + d.ByteSize() && d.IsAligned(r)
    ensures d.IsAligned(offset) ==> d.AlignUp(offset) == offset
  {
    var size := d.ByteSize();
    var r := ((offset + size - 1) / size) * size;
    RoundUp(offset, size);
    IsAlignedIffMultiple(d, r);
    IsAlignedIffMultiple(d, offset);
    AlignUpRounds(d, offset);
  }

  /** The corrected `align` is the round-up computed by division. */
  lemma AlignUpRounds(d: Descriptor, offset: int)
    requires PowerOfTwoSize(d) && 0 <= offset && offset + d.AlignmentMask() < 0x8000_0000
    ensures d.AlignUp(offset) == ((offset + d.ByteSize() - 1) / d.ByteSize()) * d.ByteSize()
  {
    if d.ByteSize() == 1 {
      assert d.AlignmentShift() == 0;
      ShiftsRoundDown(offset, 0, 1);
    } else if d.ByteSize() == 2 {
      assert d.AlignmentShift() == 1;
      ShiftsRoundDown(offset + 1, 1, 2);
    } else {
      assert d.AlignmentShift() == 2 && JsBits.Pow2(2) == 4;
      ShiftsRoundDown(offset + 3, 2, 4);
    }
  }
}

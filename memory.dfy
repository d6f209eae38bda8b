/**
 * The byte store behind a binary array: a `Uint8Array`, 16- and 32-bit word views of it
 * that are made once and then kept, and `resize`, which swaps in a new zeroed buffer
 * holding a copy of the old bytes.
 */
module Memories {
  import opened Bytes
  import JsBits
  import ByteArrays
  import NumericTypeBase

  /** `buffer.byteLength & ~1` resolved as the end index of `slice(0, end)`: the bytes the 16-bit view copies. */
  function HalfWordBytes(byteLength: nat): (r: nat)
    ensures r <= byteLength
  {
    ByteArrays.RelativeIndex(JsBits.And(byteLength, JsBits.Not(1)), byteLength)
  }

  /** `buffer.byteLength & ~3` resolved as the end index of `slice(0, end)`: the bytes the 32-bit view copies. */
  function WordBytes(byteLength: nat): (r: nat)
    ensures r <= byteLength
  {
    ByteArrays.RelativeIndex(JsBits.And(byteLength, JsBits.Not(3)), byteLength)
  }

  /**
   * The bytes after `resize(newCapacity)`: a new buffer of that length whose first
   * `min(newCapacity, oldCapacity)` bytes are copied from the old one, the rest zero.
   */
  function Resized(bytes: seq<byte>, newCapacity: nat): (r: seq<byte>)
    ensures |r| == newCapacity
  {
    var kept := if newCapacity < |bytes| then newCapacity else |bytes|;
    bytes[..kept] + ByteArrays.Zeros(newCapacity - kept)
  }

  /** A fresh copy of the first `n` bytes: `slice` on the underlying buffer. */
  method CopyPrefix(bytes: array<byte>, n: nat) returns (r: array<byte>)
    requires n <= bytes.Length
    ensures fresh(r) && r[..] == bytes[..n]
  {
    r := new byte[n](_ => 0);
    forall i | 0 <= i < n {
      r[i] := bytes[i];
    }
  }

  class Memory {
    /** The byte view: the constructor's array, or the one the last `resize` made. */
    var x8: array<byte>
    /** The cached 16-bit view, `null` while it has not been made (`undefined`). */
    var x16: array?<byte>
    /** The cached 32-bit view, `null` while it has not been made (`undefined`). */
    var x32: array?<byte>

    /** The word views are copies of the bytes, never the byte array itself. */
    ghost predicate Valid()
      reads this
    {
      x16 != x8 && x32 != x8
    }

    /** Wraps the given bytes; no word view exists yet. */
    constructor(bytes: array<byte>)
      ensures Valid() && x8 == bytes && x16 == null && x32 == null
    {
      x8 := bytes;
      x16 := null;
      x32 := null;
    }

    /** `get x16`: on first use, a copy of the bytes up to an even length; afterwards the same view. */
    method X16() returns (r: array<byte>)
      requires Valid()
      modifies this
      ensures Valid() && x16 == r && x8 == old(x8) && x32 == old(x32)
      ensures old(x16) != null ==> r == old(x16)
      ensures old(x16) == null ==> fresh(r) && r[..] == x8[..HalfWordBytes(x8.Length)]
    {
      if x16 == null {
        x16 := CopyPrefix(x8, HalfWordBytes(x8.Length));
      }
      r := x16;
    }

    /** `get x32`: on first use, a copy of the bytes up to a multiple of four; afterwards the same view. */
    method X32() returns (r: array<byte>)
      requires Valid()
      modifies this
      ensures Valid() && x32 == r && x8 == old(x8) && x16 == old(x16)
      ensures old(x32) != null ==> r == old(x32)
      ensures old(x32) == null ==> fresh(r) && r[..] == x8[..WordBytes(x8.Length)]
    {
      if x32 == null {
        x32 := CopyPrefix(x8, WordBytes(x8.Length));
      }
      r := x32;
    }

    /**
     * `resize(newCapacity)`: drops the 16-bit view (the 32-bit one is kept as it was) and
     * replaces the bytes by a new zeroed buffer into which the old prefix is copied.
     */
    method Resize(newCapacity: nat)
      requires Valid()
      modifies this
      ensures Valid() && fresh(x8) && x16 == null && x32 == old(x32)
      ensures x8[..] == Resized(old(x8[..]), newCapacity)
    {
      var oldCapacity := x8.Length;
      x16 := null;
      var oldBytes := x8;
      x8 := new byte[newCapacity](_ => 0);
      var kept := if newCapacity < oldCapacity then newCapacity else oldCapacity;
      ByteArrays.SetBytes(x8, oldBytes[..kept], 0);
      assert x8[..] == Resized(oldBytes[..], newCapacity) by {
        assert ByteArrays.Zeros(newCapacity)[kept..] == ByteArrays.Zeros(newCapacity - kept);
      }
    }
  }

  // ---------------------------------------------------------------------------
  // Facts

  /** `~1` is the 32-bit pattern with every bit but the lowest set. */
  lemma NotMasks()
    ensures JsBits.ToUint32(JsBits.Not(1)) == JsBits.TwoTo32 - 2
    ensures JsBits.ToUint32(JsBits.Not(3)) == JsBits.TwoTo32 - 4
  {
    JsBits.DivModUnique(1, JsBits.TwoTo32, 0, 1);
    JsBits.DivModUnique(3, JsBits.TwoTo32, 0, 3);
    JsBits.DivModUnique(-2, JsBits.TwoTo32, -1, JsBits.TwoTo32 - 2);
    JsBits.DivModUnique(-4, JsBits.TwoTo32, -1, JsBits.TwoTo32 - 4);
  }

  /**
   * For buffers shorter than 2^31 bytes, the 16-bit view covers the length rounded down
   * to an even number, which is what `(length >>> 1) << 1` computes.
   */
  lemma HalfWordBytesRoundDown(byteLength: nat)
    requires byteLength < 0x8000_0000
    ensures HalfWordBytes(byteLength) == byteLength - byteLength % 2
    ensures HalfWordBytes(byteLength) == JsBits.ShiftLeft(JsBits.ShiftRightUnsigned(byteLength, 1), 1)
  {
    ClearedLowBits(byteLength, 1, 2);
    ResolvedInside(JsBits.And(byteLength, JsBits.Not(1)), byteLength);
    assert JsBits.Pow2(1) == 2;
    NumericTypeBase.ShiftsRoundDown(byteLength, 1, 2);
  }

  /** `len & ~1` and `len & ~3` clear the low bits of a length below 2^31. */
  lemma ClearedLowBits(byteLength: nat, mask: int, p: nat)
    requires byteLength < 0x8000_0000 && ((mask == 1 && p == 2) || (mask == 3 && p == 4))
    ensures JsBits.And(byteLength, JsBits.Not(mask)) == byteLength - byteLength % p
  {
    var r := byteLength - byteLength % p;
    NotMasks();
    JsBits.DivModUnique(byteLength, JsBits.TwoTo32, 0, byteLength);
    if mask == 1 {
      JsBits.ClearLowestBit(byteLength);
    } else {
      JsBits.ClearLowestTwoBits(byteLength);
    }
    JsBits.DivModUnique(r, JsBits.TwoTo32, 0, r);
  }

  /** An index already inside the buffer resolves to itself. */
  lemma ResolvedInside(x: int, length: nat)
    requires 0 <= x <= length
    ensures ByteArrays.RelativeIndex(x, length) == x
  {
  }

  /**
   * For buffers shorter than 2^31 bytes, the 32-bit view covers the length rounded down
   * to a multiple of four, which is what `(length >>> 2) << 2` computes.
   */
  lemma WordBytesRoundDown(byteLength: nat)
    requires byteLength < 0x8000_0000
    ensures WordBytes(byteLength) == byteLength - byteLength % 4
    ensures WordBytes(byteLength) == JsBits.ShiftLeft(JsBits.ShiftRightUnsigned(byteLength, 2), 2)
  {
    ClearedLowBits(byteLength, 3, 4);
    ResolvedInside(JsBits.And(byteLength, JsBits.Not(3)), byteLength);
    assert JsBits.Pow2(2) == 4;
    NumericTypeBase.ShiftsRoundDown(byteLength, 2, 4);
  }

  /** Resizing keeps the bytes both buffers have and zeroes the rest. */
  lemma ResizedBytes(bytes: seq<byte>, newCapacity: nat)
    ensures forall i :: 0 <= i < newCapacity ==>
              Resized(bytes, newCapacity)[i] == if i < |bytes| then bytes[i] else 0
  {
  }

  /** Growing and then shrinking back to the old capacity gives the old bytes. */
  lemma GrowThenShrink(bytes: seq<byte>, newCapacity: nat)
    requires |bytes| <= newCapacity
    ensures Resized(Resized(bytes, newCapacity), |bytes|) == bytes
  {
    var grown := Resized(bytes, newCapacity);
    assert grown[..|bytes|] == bytes;
  }

  /** Two resizes are one resize to the second capacity when the first did not cut below it. */
  lemma ResizeTwice(bytes: seq<byte>, first: nat, second: nat)
    requires second <= first
    ensures Resized(Resized(bytes, first), second) == Resized(bytes, second)
  {
    var once, twice := Resized(bytes, first), Resized(bytes, second);
    ResizedBytes(bytes, first);
    ResizedBytes(bytes, second);
    ResizedBytes(once, second);
    assert forall i :: 0 <= i < second ==> Resized(once, second)[i] == twice[i];
  }
}

/**
 * ByteArray: a growable byte buffer whose storage length is its capacity, with a byte
 * length, an endianness, and typed get, set, push and splice.
 *
 * The pure functions describe the storage after each operation as a sequence; the
 * methods of class ByteArray do the work on an array and are proved against them.
 */
module ByteArrays {
  import opened Wrappers
  import opened Bytes
  import opened NumericTypes
  import NumericTypeFacts

  /** The capacity of a new ByteArray. */
  const DefaultCapacity: nat := 8

  /** `n` zero bytes: the contents of a newly allocated Uint8Array. */
  function Zeros(n: nat): (r: seq<byte>)
    ensures |r| == n
  {
    seq(n, _ => 0)
  }

  /** The bytes `Uint8Array.prototype.set` stores for numbers: each one modulo 256. */
  function ToUint8(values: seq<int>): (r: seq<byte>)
    ensures |r| == |values| && forall i :: 0 <= i < |values| ==> r[i] == values[i] % 0x100
  {
    seq(|values|, i requires 0 <= i < |values| => values[i] % 0x100)
  }

  // ---------------------------------------------------------------------------
  // Storage as a sequence

  /** The storage after `set(bytes, offset)`: the bytes from `offset` on are replaced. */
  function Overwrite(s: seq<byte>, offset: nat, bytes: seq<byte>): (r: seq<byte>)
    requires offset + |bytes| <= |s|
    ensures |r| == |s| && r[offset..offset + |bytes|] == bytes
  {
    s[..offset] + bytes + s[offset + |bytes|..]
  }

  /** A write changes the bytes it covers and no others. */
  lemma OverwriteIndex(s: seq<byte>, offset: nat, bytes: seq<byte>)
    requires offset + |bytes| <= |s|
    ensures forall i :: 0 <= i < |s| ==>
              Overwrite(s, offset, bytes)[i] == if offset <= i < offset + |bytes| then bytes[i - offset] else s[i]
  {
  }

  /** Writing right after a prefix appends to that prefix. */
  lemma OverwritePrefix(s: seq<byte>, offset: nat, bytes: seq<byte>)
    requires offset + |bytes| <= |s|
    ensures Overwrite(s, offset, bytes)[..offset + |bytes|] == s[..offset] + bytes
  {
  }

  /** Writing nothing changes nothing. */
  lemma OverwriteNothing(s: seq<byte>, offset: nat)
    requires offset <= |s|
    ensures Overwrite(s, offset, []) == s
  {
    assert s[..offset] + s[offset..] == s;
  }

  /** Two writes side by side are one write of their concatenation. */
  lemma OverwriteAdjacent(s: seq<byte>, offset: nat, a: seq<byte>, b: seq<byte>)
    requires offset + |a| + |b| <= |s|
    ensures Overwrite(Overwrite(s, offset, a), offset + |a|, b) == Overwrite(s, offset, a + b)
  {
    var first := Overwrite(s, offset, a);
    var lhs, rhs := Overwrite(first, offset + |a|, b), Overwrite(s, offset, a + b);
    OverwriteIndex(s, offset, a);
    OverwriteIndex(first, offset + |a|, b);
    OverwriteIndex(s, offset, a + b);
    assert forall i :: 0 <= i < |s| ==> lhs[i] == rhs[i];
  }

  /** The bytes after removing `deleted` bytes at `start` and inserting `inserted` there. */
  function Spliced(bytes: seq<byte>, start: nat, deleted: nat, inserted: seq<byte>): (r: seq<byte>)
    requires start + deleted <= |bytes|
    ensures |r| == |bytes| - deleted + |inserted|
  {
    bytes[..start] + inserted + bytes[start + deleted..]
  }

  /** Splicing the deleted bytes back in over the inserted ones restores the original. */
  lemma SplicedUndo(bytes: seq<byte>, start: nat, deleted: nat, inserted: seq<byte>)
    requires start + deleted <= |bytes|
    ensures Spliced(Spliced(bytes, start, deleted, inserted), start, |inserted|, bytes[start..start + deleted]) == bytes
  {
    var once := Spliced(bytes, start, deleted, inserted);
    assert once[..start] == bytes[..start];
    assert once[start + |inserted|..] == bytes[start + deleted..];
    assert bytes[..start] + bytes[start..start + deleted] + bytes[start + deleted..] == bytes;
  }

  /** A splice that deletes and inserts nothing leaves the bytes as they are. */
  lemma SplicedNothing(bytes: seq<byte>, start: nat)
    requires start <= |bytes|
    ensures Spliced(bytes, start, 0, []) == bytes
  {
    assert bytes[..start] + bytes[start..] == bytes;
  }

  /**
   * How much the capacity grows to make room for `needed` more bytes: nothing when
   * they fit, else the shortfall but at least the current capacity.
   */
  function CapacityIncrease(capacity: nat, byteLength: nat, needed: int): (r: nat)
    ensures r == 0 <==> needed <= capacity - byteLength
    ensures r > 0 ==> byteLength + needed <= capacity + r
    ensures r > 0 ==> capacity <= r
    ensures r > 0 ==> capacity + r == 2 * capacity || capacity + r == byteLength + needed
  {
    var increase := needed - (capacity - byteLength);
    if increase <= 0 then 0
    else if increase < capacity then capacity
    else increase
  }

  /**
   * The storage after `ensureCapacity(needed)`: unchanged when the bytes fit, otherwise
   * a larger zeroed buffer into which the first `byteLength` bytes are copied.
   */
  function Reserve(storage: seq<byte>, byteLength: nat, needed: int): (r: seq<byte>)
    requires byteLength <= |storage|
    ensures |r| == |storage| + CapacityIncrease(|storage|, byteLength, needed)
    ensures r[..byteLength] == storage[..byteLength]
    ensures byteLength + needed <= |r|
    ensures |r| == |storage| ==> r == storage
  {
    var increase := CapacityIncrease(|storage|, byteLength, needed);
    if increase == 0 then storage
    else storage[..byteLength] + Zeros(|storage| + increase - byteLength)
  }

  /**
   * The storage after `splice`: the spliced bytes, followed on the in-place path by what
   * the old storage held from there on, and on the growth path by zeros.
   */
  function SpliceStorage(storage: seq<byte>, byteLength: nat, start: nat, deleted: nat, inserted: seq<byte>): (r: seq<byte>)
    requires byteLength <= |storage| && start + deleted <= byteLength
    ensures |r| == |storage| + CapacityIncrease(|storage|, byteLength, |inserted| - deleted)
    ensures r[..byteLength - deleted + |inserted|] == Spliced(storage[..byteLength], start, deleted, inserted)
  {
    var spliced := Spliced(storage[..byteLength], start, deleted, inserted);
    var increase := CapacityIncrease(|storage|, byteLength, |inserted| - deleted);
    if increase > 0 then spliced + Zeros(|storage| + increase - |spliced|)
    else spliced + storage[|spliced|..]
  }

  /**
   * What the write loop of `set` and `push` does with each value: the bytes the setter
   * writes for it, or None where `ensure` rejects it.
   */
  function Staged(t: NumericType, values: seq<int>, endian: Endianness): (r: seq<Option<seq<byte>>>)
    ensures |r| == |values| && Sized(r, t.ByteSize())
  {
    seq(|values|, i requires 0 <= i < |values| => Entry(t, values[i], endian))
  }

  /** The bytes the setter writes for one value, or None where `ensure` rejects it. */
  function Entry(t: NumericType, value: int, endian: Endianness): Option<seq<byte>>
  {
    if t.Test(value) then Some(t.Encode(value, endian)) else None
  }

  /** Every staged write is `size` bytes long. */
  ghost predicate Sized(staged: seq<Option<seq<byte>>>, size: nat)
  {
    forall i :: 0 <= i < |staged| && staged[i].Some? ==> |staged[i].value| == size
  }

  /** The bytes of the staged writes one after another. */
  function Concat(staged: seq<Option<seq<byte>>>, size: nat): (r: seq<byte>)
    requires Sized(staged, size)
    ensures |r| <= |staged| * size
    decreases |staged|
  {
    if staged == [] then []
    else
      SlotStep(|staged| - 1, size);
      (if staged[0].Some? then staged[0].value else []) + Concat(staged[1..], size)
  }

  /** With every write staged, the concatenation fills all the slots. */
  lemma {:induction false} ConcatLength(staged: seq<Option<seq<byte>>>, size: nat)
    requires Sized(staged, size) && forall i :: 0 <= i < |staged| ==> staged[i].Some?
    ensures |Concat(staged, size)| == |staged| * size
    decreases |staged|
  {
    if staged != [] {
      SlotStep(|staged| - 1, size);
      var rest := staged[1..];
      assert forall j :: 0 <= j < |rest| ==> rest[j] == staged[j + 1];
      ConcatLength(rest, size);
    }
  }

  /** With every write staged, slot `i` of the concatenation holds the `i`-th write. */
  lemma {:induction false} ConcatSlot(staged: seq<Option<seq<byte>>>, size: nat, i: nat)
    requires Sized(staged, size) && forall j :: 0 <= j < |staged| ==> staged[j].Some?
    requires i < |staged|
    ensures (i + 1) * size <= |Concat(staged, size)|
    ensures Concat(staged, size)[i * size..(i + 1) * size] == staged[i].value
    decreases i
  {
    ConcatLength(staged, size);
    SlotStep(i, size);
    SlotStep(|staged| - 1, size);
    MulMonotonic(i + 1, |staged|, size);
    var rest := staged[1..];
    assert forall j :: 0 <= j < |rest| ==> rest[j] == staged[j + 1];
    if i > 0 {
      ConcatSlot(rest, size, i - 1);
      SlotStep(i - 1, size);
    }
  }

  lemma MulMonotonic(a: nat, b: nat, c: nat)
    requires a <= b
    ensures a * c <= b * c
  {
  }

  /**
   * The storage and outcome of the write loop of a multi-value `set` or `push`: each value
   * is validated and then written at the next offset, so a value that fails leaves the
   * earlier ones written. A negative offset makes the DataView reject the first write.
   */
  function WriteAll(storage: seq<byte>, size: nat, offset: int, staged: seq<Option<seq<byte>>>)
    : (r: (seq<byte>, Outcome<Error>))
    requires Sized(staged, size) && offset + |staged| * size <= |storage|
    ensures |r.0| == |storage|
    decreases |staged|
  {
    if staged == [] then (storage, Pass)
    else if staged[0].None? then (storage, Fail(InvalidValue))
    else if offset < 0 then (storage, Fail(ViewOutOfRange))
    else
      SlotStep(|staged| - 1, size);
      WriteAll(Overwrite(storage, offset, staged[0].value), size, offset + size, staged[1..])
  }

  lemma SlotStep(k: nat, size: nat)
    ensures (k + 1) * size == k * size + size
  {
  }

  /** The write loop passes exactly when every value is valid and the offset is not negative. */
  lemma {:induction false} WriteAllPasses(storage: seq<byte>, size: nat, offset: int, staged: seq<Option<seq<byte>>>)
    requires Sized(staged, size) && offset + |staged| * size <= |storage|
    ensures (WriteAll(storage, size, offset, staged).1 == Pass)
              <==> (staged == [] || (0 <= offset && forall i :: 0 <= i < |staged| ==> staged[i].Some?))
    decreases |staged|
  {
    if staged != [] && staged[0].Some? && 0 <= offset {
      SlotStep(|staged| - 1, size);
      WriteAllPasses(Overwrite(storage, offset, staged[0].value), size, offset + size, staged[1..]);
      assert forall i :: 1 <= i < |staged| ==> staged[i] == staged[1..][i - 1];
    }
  }

  /** When the write loop passes, it has written the values' bytes one after another. */
  lemma {:induction false} WriteAllWrites(storage: seq<byte>, size: nat, offset: int, staged: seq<Option<seq<byte>>>)
    requires Sized(staged, size) && 0 <= offset && offset + |staged| * size <= |storage|
    requires WriteAll(storage, size, offset, staged).1 == Pass
    ensures WriteAll(storage, size, offset, staged).0 == Overwrite(storage, offset, Concat(staged, size))
    decreases |staged|
  {
    if staged == [] {
      OverwriteNothing(storage, offset);
    } else {
      SlotStep(|staged| - 1, size);
      var first := staged[0].value;
      WriteAllWrites(Overwrite(storage, offset, first), size, offset + size, staged[1..]);
      OverwriteAdjacent(storage, offset, first, Concat(staged[1..], size));
    }
  }

  /**
   * The growth path of `splice`: the prefix, the inserted bytes and the suffix written
   * into a new zeroed storage give the spliced bytes followed by zeros.
   */
  lemma GrowingSplice(storage: seq<byte>, byteLength: nat, start: nat, deleted: nat, inserted: seq<byte>, capacity: nat)
    requires byteLength <= |storage| && start + deleted <= byteLength
    requires CapacityIncrease(|storage|, byteLength, |inserted| - deleted) > 0
    requires capacity == |storage| + CapacityIncrease(|storage|, byteLength, |inserted| - deleted)
    ensures Overwrite(Overwrite(Overwrite(Zeros(capacity), 0, storage[..byteLength][..start]), start, inserted),
                      start + |inserted|, storage[..byteLength][start + deleted..])
            == SpliceStorage(storage, byteLength, start, deleted, inserted)
  {
    var prefixed := Overwrite(Zeros(capacity), 0, storage[..byteLength][..start]);
    var filled := Overwrite(prefixed, start, inserted);
    var result := Overwrite(filled, start + |inserted|, storage[..byteLength][start + deleted..]);
    var expected := SpliceStorage(storage, byteLength, start, deleted, inserted);
    OverwriteIndex(Zeros(capacity), 0, storage[..byteLength][..start]);
    OverwriteIndex(prefixed, start, inserted);
    OverwriteIndex(filled, start + |inserted|, storage[..byteLength][start + deleted..]);
    assert forall i :: 0 <= i < capacity ==> result[i] == expected[i];
  }

  /**
   * The in-place path of `splice`: moving the suffix to just after the insertion and
   * then writing the inserted bytes gives the spliced bytes followed by the old storage.
   */
  lemma InPlaceSplice(storage: seq<byte>, byteLength: nat, start: nat, deleted: nat, inserted: seq<byte>)
    requires byteLength <= |storage| && start + deleted <= byteLength
    requires CapacityIncrease(|storage|, byteLength, |inserted| - deleted) == 0
    ensures Overwrite(Overwrite(storage, start + |inserted|, storage[start + deleted..byteLength]), start, inserted)
            == SpliceStorage(storage, byteLength, start, deleted, inserted)
  {
    var suffix := storage[start + deleted..byteLength];
    var end := byteLength - deleted + |inserted|;
    var moved := Overwrite(storage, start + |inserted|, suffix);
    assert moved[..start] == storage[..start];
    assert moved[start + |inserted|..] == suffix + storage[end..];
    assert Overwrite(moved, start, inserted) == storage[..start] + inserted + suffix + storage[end..];
  }

  // ---------------------------------------------------------------------------
  // Reading

  /**
   * `get(type, offset)`: the bounds check on the end of the span, then the DataView
   * getter, which itself rejects a negative offset.
   */
  function ReadAt(storage: seq<byte>, byteLength: nat, t: NumericType, offset: int, endian: Endianness)
    : (r: Result<int, Error>)
    requires byteLength <= |storage|
    ensures r.Success? <==> 0 <= offset && offset + t.ByteSize() <= byteLength
    ensures offset + t.ByteSize() > byteLength ==> r == Failure(OutOfBounds)
    ensures r.Success? ==> t.Min() <= r.value <= t.Max()
  {
    if offset + t.ByteSize() > byteLength then Failure(OutOfBounds)
    else if offset < 0 then Failure(ViewOutOfRange)
    else
      var bs := storage[offset..offset + t.ByteSize()];
      DecodeRange(t, bs, endian);
      Success(t.Decode(bs, endian))
  }

  /** Whatever the bytes, the getter's reading lies in the type's range. */
  lemma DecodeRange(t: NumericType, bs: seq<byte>, endian: Endianness)
    requires |bs| == t.ByteSize()
    ensures t.Min() <= t.Decode(bs, endian) <= t.Max()
  {
    var ordered := if endian == Little then Reverse(bs) else bs;
    var u := FromBigEndian(ordered);
    assert u <= t.Mask() by {
      ToFromBigEndian(ordered);
      NumericTypeFacts.ModulusIsPow256(t);
    }
    ReadingRange(t, u);
  }

  lemma ReadingRange(t: NumericType, u: nat)
    requires u <= t.Mask()
    ensures t.Min() <= t.Reading(u) <= t.Max()
  {
  }

  /**
   * What `get` returns after a valid value was stored: the value itself, except that an
   * agnostic type, read as unsigned, returns a negative value's unsigned twin.
   */
  function ReadBack(t: NumericType, value: int): int
  {
    if t.Sign() == Agnostic && value < 0 then value + NumericTypeFacts.Modulus(t) else value
  }

  /** Reading where a valid value was just written gives the value back. */
  lemma ReadAfterWrite(storage: seq<byte>, byteLength: nat, t: NumericType, offset: nat, value: int, endian: Endianness)
    requires byteLength <= |storage| && offset + t.ByteSize() <= byteLength
    requires t.Test(value)
    ensures ReadAt(Overwrite(storage, offset, t.Encode(value, endian)), byteLength, t, offset, endian)
              == Success(ReadBack(t, value))
  {
    ReadEncoded(Overwrite(storage, offset, t.Encode(value, endian)), byteLength, t, offset, value, endian);
  }

  /** Reading where the setter's bytes for a valid value are stored gives the value back. */
  lemma ReadEncoded(storage: seq<byte>, byteLength: nat, t: NumericType, offset: nat, value: int, endian: Endianness)
    requires byteLength <= |storage| && offset + t.ByteSize() <= byteLength
    requires t.Test(value) && storage[offset..offset + t.ByteSize()] == t.Encode(value, endian)
    ensures ReadAt(storage, byteLength, t, offset, endian) == Success(ReadBack(t, value))
  {
    NumericTypeFacts.TestIffInRange(t, value);
    NumericTypeFacts.SetterGetterRoundTrip(t, value, endian);
  }

  /** Writing the concatenated staged writes puts the `i`-th one in slot `i`. */
  lemma OverwriteSlot(storage: seq<byte>, offset: nat, staged: seq<Option<seq<byte>>>, size: nat, i: nat)
    requires Sized(staged, size) && forall j :: 0 <= j < |staged| ==> staged[j].Some?
    requires offset + |staged| * size <= |storage| && i < |staged|
    ensures offset + i * size + size <= |storage|
    ensures Overwrite(storage, offset, Concat(staged, size))[offset + i * size..offset + i * size + size]
            == staged[i].value
  {
    SlotBounds(|staged|, size, i);
    ConcatSlot(staged, size, i);
    var bytes := Concat(staged, size);
    var written := Overwrite(storage, offset, bytes);
    var lo := i * size;
    assert written[offset..offset + |bytes|] == bytes;
    assert written[offset + lo..offset + lo + size] == written[offset..offset + |bytes|][lo..lo + size];
  }

  /** After all of several valid values were written, each reads back from its own slot. */
  lemma ReadAllWritten(storage: seq<byte>, written: seq<byte>, byteLength: nat, t: NumericType, offset: nat,
                       values: seq<int>, endian: Endianness)
    requires byteLength <= |storage| && offset + |values| * t.ByteSize() <= byteLength
    requires forall j :: 0 <= j < |values| ==> t.Test(values[j])
    requires written == Overwrite(storage, offset, Concat(Staged(t, values, endian), t.ByteSize()))
    ensures forall i :: 0 <= i < |values| ==>
              ReadAt(written, byteLength, t, offset + i * t.ByteSize(), endian) == Success(ReadBack(t, values[i]))
  {
    forall i | 0 <= i < |values|
      ensures ReadAt(written, byteLength, t, offset + i * t.ByteSize(), endian) == Success(ReadBack(t, values[i]))
    {
      ReadWrittenSlot(storage, byteLength, t, offset, values, endian, i);
    }
  }

  /** The value written to slot `i` reads back from there. */
  lemma ReadWrittenSlot(storage: seq<byte>, byteLength: nat, t: NumericType, offset: nat, values: seq<int>,
                        endian: Endianness, i: nat)
    requires byteLength <= |storage| && offset + |values| * t.ByteSize() <= byteLength
    requires forall j :: 0 <= j < |values| ==> t.Test(values[j])
    requires i < |values|
    ensures ReadAt(Overwrite(storage, offset, Concat(Staged(t, values, endian), t.ByteSize())), byteLength,
                   t, offset + i * t.ByteSize(), endian)
            == Success(ReadBack(t, values[i]))
  {
    var size := t.ByteSize();
    var staged := Staged(t, values, endian);
    StagedAll(t, values, endian);
    StagedSlot(t, values, endian, i);
    SlotBounds(|values|, size, i);
    OverwriteSlot(storage, offset, staged, size, i);
    ReadEncoded(Overwrite(storage, offset, Concat(staged, size)), byteLength, t, offset + i * size, values[i], endian);
  }

  /** The `i`-th staged write of a valid value holds the setter's bytes for it. */
  lemma StagedSlot(t: NumericType, values: seq<int>, endian: Endianness, i: nat)
    requires i < |values| && t.Test(values[i])
    ensures Staged(t, values, endian)[i] == Some(t.Encode(values[i], endian))
  {
    assert Staged(t, values, endian)[i] == Entry(t, values[i], endian);
  }

  /** Slot `i` of `n` slots of `size` bytes lies within the `n * size` bytes. */
  lemma SlotBounds(n: nat, size: nat, i: nat)
    requires i < n
    ensures 0 <= i * size && i * size + size <= n * size
  {
    SlotStep(i, size);
    MulMonotonic(0, i, size);
    MulMonotonic(i + 1, n, size);
  }

  /** The write loop over staged values passes exactly when every value is valid. */
  lemma StagedWritePasses(storage: seq<byte>, t: NumericType, offset: nat, values: seq<int>, endian: Endianness)
    requires offset + |values| * t.ByteSize() <= |storage|
    ensures (WriteAll(storage, t.ByteSize(), offset, Staged(t, values, endian)).1 == Pass)
            <==> (forall i :: 0 <= i < |values| ==> t.Test(values[i]))
  {
    WriteAllPasses(storage, t.ByteSize(), offset, Staged(t, values, endian));
    StagedAll(t, values, endian);
  }

  /** The staged writes all go ahead exactly when every value is valid. */
  lemma StagedAll(t: NumericType, values: seq<int>, endian: Endianness)
    ensures (forall i :: 0 <= i < |values| ==> Staged(t, values, endian)[i].Some?)
            <==> (forall i :: 0 <= i < |values| ==> t.Test(values[i]))
  {
    var staged := Staged(t, values, endian);
    assert forall i :: 0 <= i < |values| ==> staged[i] == Entry(t, values[i], endian);
  }

  /** A write leaves every value that does not share a byte with it as it was. */
  lemma ReadBesideWrite(storage: seq<byte>, byteLength: nat, t: NumericType, offset: int,
                        at: nat, bytes: seq<byte>, endian: Endianness)
    requires byteLength <= |storage| && at + |bytes| <= |storage|
    requires offset + t.ByteSize() <= at || at + |bytes| <= offset
    ensures ReadAt(Overwrite(storage, at, bytes), byteLength, t, offset, endian)
              == ReadAt(storage, byteLength, t, offset, endian)
  {
    var size := t.ByteSize();
    if 0 <= offset && offset + size <= byteLength {
      var written := Overwrite(storage, at, bytes);
      if offset + size <= at {
        assert written[..at] == storage[..at];
        assert written[offset..offset + size] == written[..at][offset..offset + size];
      } else {
        var end := at + |bytes|;
        assert written[end..] == storage[end..];
        assert written[offset..offset + size] == written[end..][offset - end..offset + size - end];
      }
      ReadSameBytes(written, storage, byteLength, t, offset, endian);
    }
  }

  /** A read depends only on the bytes it covers. */
  lemma ReadSameBytes(s: seq<byte>, s': seq<byte>, byteLength: nat, t: NumericType, offset: nat, endian: Endianness)
    requires byteLength <= |s| && byteLength <= |s'| && offset + t.ByteSize() <= byteLength
    requires s[offset..offset + t.ByteSize()] == s'[offset..offset + t.ByteSize()]
    ensures ReadAt(s, byteLength, t, offset, endian) == ReadAt(s', byteLength, t, offset, endian)
  {
  }

  /** `Array.prototype.slice` index resolution: a negative index counts from the end; clamped. */
  function RelativeIndex(x: int, length: nat): (r: nat)
    ensures r <= length
    ensures 0 <= x <= length ==> r == x
    ensures -(length as int) <= x < 0 ==> r == length + x
    ensures x < -(length as int) ==> r == 0
    ensures length < x ==> r == length
  {
    if x < 0 then (if length + x < 0 then 0 else length + x)
    else if x > length then length
    else x
  }

  /** `slice(start, end)`: the bytes between the resolved start and end indices, if any. */
  function Slice(s: seq<byte>, start: int, end: int): (r: seq<byte>)
    ensures 0 <= start <= end <= |s| ==> r == s[start..end]
    ensures 0 <= end <= start ==> r == []
    ensures |r| <= |s|
    ensures var from, to := RelativeIndex(start, |s|), RelativeIndex(end, |s|);
            |r| == (if from < to then to - from else 0) &&
            forall i :: 0 <= i < |r| ==> r[i] == s[from + i]
  {
    var from, to := RelativeIndex(start, |s|), RelativeIndex(end, |s|);
    if from < to then s[from..to] else []
  }

  // ---------------------------------------------------------------------------
  // Array helpers

  /** `Uint8Array.prototype.set(bytes, offset)`, copying element by element. */
  method SetBytes(a: array<byte>, bytes: seq<byte>, offset: nat)
    requires offset + |bytes| <= a.Length
    modifies a
    ensures a[..] == Overwrite(old(a[..]), offset, bytes)
  {
    var i := 0;
    while i < |bytes|
      invariant 0 <= i <= |bytes|
      invariant forall j :: 0 <= j < a.Length ==>
                  a[j] == if offset <= j < offset + i then bytes[j - offset] else old(a[j])
    {
      a[offset + i] := bytes[i];
      i := i + 1;
    }
    OverwriteIndex(old(a[..]), offset, bytes);
    assert forall j :: 0 <= j < a.Length ==> a[..][j] == Overwrite(old(a[..]), offset, bytes)[j];
  }

  /**
   * `Uint8Array.prototype.copyWithin(target, start, end)`: moves `a[start..end]` to
   * `target`, copying backwards when the ranges overlap with the target above the source.
   */
  method CopyWithin(a: array<byte>, target: nat, start: nat, end: nat)
    requires start <= end <= a.Length && target + (end - start) <= a.Length
    modifies a
    ensures a[..] == Overwrite(old(a[..]), target, old(a[start..end]))
  {
    var count := end - start;
    ghost var moved := a[start..end];
    if start < target < start + count {
      var k := count;
      while k > 0
        invariant 0 <= k <= count
        invariant forall j :: 0 <= j < a.Length ==>
                    a[j] == if target + k <= j < target + count then moved[j - target] else old(a[j])
      {
        k := k - 1;
        a[target + k] := a[start + k];
      }
    } else {
      var i := 0;
      while i < count
        invariant 0 <= i <= count
        invariant forall j :: 0 <= j < a.Length ==>
                    a[j] == if target <= j < target + i then moved[j - target] else old(a[j])
      {
        a[target + i] := a[start + i];
        i := i + 1;
      }
    }
    OverwriteIndex(old(a[..]), target, moved);
    assert forall j :: 0 <= j < a.Length ==> a[..][j] == Overwrite(old(a[..]), target, moved)[j];
  }

  /**
   * The growth path of `splice`: a new zeroed storage of the given capacity into which the
   * prefix, the inserted bytes and the suffix of the old bytes in use are copied.
   */
  method SplicedCopy(oldBytes: seq<byte>, start: nat, deleted: nat, inserted: seq<byte>, capacity: nat)
    returns (a: array<byte>)
    requires start + deleted <= |oldBytes| && |oldBytes| - deleted + |inserted| <= capacity
    ensures fresh(a)
    ensures a[..] == Overwrite(Overwrite(Overwrite(Zeros(capacity), 0, oldBytes[..start]), start, inserted),
                               start + |inserted|, oldBytes[start + deleted..])
  {
    a := new byte[capacity](_ => 0);
    assert a[..] == Zeros(capacity);
    if start > 0 {
      SetBytes(a, oldBytes[..start], 0);
    } else {
      OverwriteNothing(a[..], 0);
    }
    ghost var prefixed := a[..];
    SetBytes(a, inserted, start);
    ghost var filled := a[..];
    if start + deleted < |oldBytes| {
      SetBytes(a, oldBytes[start + deleted..], start + |inserted|);
    } else {
      OverwriteNothing(a[..], start + |inserted|);
    }
  }

  /**
   * The in-place path of `splice`: moves the suffix to just after the insertion with
   * `copyWithin`, then writes the inserted bytes.
   */
  method SpliceInPlace(a: array<byte>, byteLength: nat, start: nat, deleted: nat, inserted: seq<byte>)
    requires byteLength <= a.Length && start + deleted <= byteLength
    requires byteLength - deleted + |inserted| <= a.Length
    modifies a
    ensures a[..] == Overwrite(Overwrite(old(a[..]), start + |inserted|, old(a[start + deleted..byteLength])), start, inserted)
  {
    ghost var suffix := a[start + deleted..byteLength];
    ghost var storage := a[..];
    if start + deleted < byteLength {
      CopyWithin(a, start + |inserted|, start + deleted, byteLength);
    } else {
      OverwriteNothing(storage, start + |inserted|);
    }
    ghost var moved := a[..];
    assert moved == Overwrite(storage, start + |inserted|, suffix);
    SetBytes(a, inserted, start);
  }

  /**
   * The write loop of a multi-value `set` or `push`: for each value in turn, stops with a
   * value error if `ensure` rejected it, lets the DataView reject a negative offset, and
   * otherwise writes the setter's bytes and moves on by the type's size.
   */
  method WriteEntries(a: array<byte>, size: nat, offset: int, staged: seq<Option<seq<byte>>>)
    returns (r: Outcome<Error>)
    requires Sized(staged, size) && offset + |staged| * size <= a.Length
    modifies a
    ensures (a[..], r) == WriteAll(old(a[..]), size, offset, staged)
  {
    var i, at := 0, offset;
    while i < |staged|
      invariant 0 <= i <= |staged|
      invariant at + |staged[i..]| * size <= a.Length
      invariant WriteAll(a[..], size, at, staged[i..]) == WriteAll(old(a[..]), size, offset, staged)
    {
      ghost var current := a[..];
      assert staged[i..][0] == staged[i] && staged[i..][1..] == staged[i + 1..];
      if staged[i].None? {
        return Fail(InvalidValue);
      }
      if at < 0 {
        return Fail(ViewOutOfRange);
      }
      SetBytes(a, staged[i].value, at);
      assert WriteAll(current, size, at, staged[i..]) == WriteAll(a[..], size, at + size, staged[i + 1..]) by {
        SlotStep(|staged| - i - 1, size);
      }
      i, at := i + 1, at + size;
    }
    r := Pass;
  }

  // ---------------------------------------------------------------------------
  // The buffer

  class ByteArray {
    /** The byte order used by get, set and push; callers may change it at any time. */
    var endianness: Endianness
    /** The number of bytes in use: a prefix of the storage. */
    var byteLength: nat
    /** The storage; its length is the capacity. */
    var buffer: array<byte>

    ghost predicate Valid()
      reads this
    {
      byteLength <= buffer.Length
    }

    /** The bytes in use. */
    function Contents(): seq<byte>
      reads this, buffer
      requires Valid()
    {
      buffer[..byteLength]
    }

    function ByteCapacity(): nat
      reads this
    {
      buffer.Length
    }

    /** An empty ByteArray with the default capacity. */
    constructor(endianness: Endianness)
      ensures Valid() && fresh(buffer)
      ensures this.endianness == endianness && byteLength == 0
      ensures buffer[..] == Zeros(DefaultCapacity)
    {
      this.endianness := endianness;
      byteLength := 0;
      buffer := new byte[DefaultCapacity](_ => 0);
    }

    /** Grows the storage, if needed, so that `needed` more bytes fit after the bytes in use. */
    method EnsureCapacity(needed: int)
      requires Valid()
      modifies this
      ensures Valid() && byteLength == old(byteLength) && endianness == old(endianness)
      ensures buffer == old(buffer) || fresh(buffer)
      ensures CapacityIncrease(old(buffer.Length), old(byteLength), needed) == 0 ==> buffer == old(buffer)
      ensures buffer[..] == Reserve(old(buffer[..]), old(byteLength), needed)
    {
      var increase := CapacityIncrease(buffer.Length, byteLength, needed);
      if increase <= 0 {
        return;
      }
      var oldBytes := buffer[..byteLength];
      ghost var storage := buffer[..];
      buffer := new byte[buffer.Length + increase](_ => 0);
      assert buffer[..] == Zeros(buffer.Length);
      SetBytes(buffer, oldBytes, 0);
      assert buffer[..] == Reserve(storage, byteLength, needed) by {
        assert Zeros(buffer.Length)[byteLength..] == Zeros(buffer.Length - byteLength);
      }
    }

    /** The value of the type at the offset, read in this array's byte order. */
    function Get(t: NumericType, offset: int): (r: Result<int, Error>)
      reads this, buffer
      requires Valid()
      ensures r.Success? <==> 0 <= offset && offset + t.ByteSize() <= byteLength
      ensures offset + t.ByteSize() > byteLength ==> r == Failure(OutOfBounds)
      ensures r.Success? ==> t.Min() <= r.value <= t.Max()
    {
      ReadAt(buffer[..], byteLength, t, offset, endianness)
    }

    /**
     * Stores one value: the bounds check, then validation of the value, then the
     * DataView setter, which rejects a negative offset.
     */
    method Set(t: NumericType, offset: int, value: int) returns (r: Outcome<Error>)
      requires Valid()
      modifies buffer
      ensures offset + t.ByteSize() > byteLength ==> r == Fail(OutOfBounds)
      ensures offset + t.ByteSize() <= byteLength && !t.Test(value) ==> r == Fail(InvalidValue)
      ensures offset + t.ByteSize() <= byteLength && t.Test(value) && offset < 0 ==> r == Fail(ViewOutOfRange)
      ensures 0 <= offset && offset + t.ByteSize() <= byteLength && t.Test(value) ==> r == Pass
      ensures r.Fail? ==> buffer[..] == old(buffer[..])
      ensures r.Pass? ==> 0 <= offset && buffer[..] == Overwrite(old(buffer[..]), offset, t.Encode(value, endianness))
      ensures r.Pass? ==> Get(t, offset) == Success(ReadBack(t, value))
    {
      if offset + t.ByteSize() > byteLength {
        return Fail(OutOfBounds);
      }
      var ensured := t.Ensure(value);
      if ensured.Fail? {
        return ensured;
      }
      if offset < 0 {
        return Fail(ViewOutOfRange);
      }
      SetBytes(buffer, t.Encode(value, endianness), offset);
      ReadAfterWrite(old(buffer[..]), byteLength, t, offset, value, endianness);
      r := Pass;
    }

    /**
     * Stores several values from the offset on: fails on an empty sequence, then checks
     * the bounds of the whole span, then validates and writes the values one at a time.
     */
    method SetMany(t: NumericType, offset: int, values: seq<int>) returns (r: Outcome<Error>)
      requires Valid()
      modifies buffer
      ensures values == [] ==> r == Fail(EmptyValues) && buffer[..] == old(buffer[..])
      ensures values != [] && offset + |values| * t.ByteSize() > byteLength ==>
                r == Fail(OutOfBounds) && buffer[..] == old(buffer[..])
      ensures values != [] && offset + |values| * t.ByteSize() <= byteLength ==>
                (buffer[..], r) == WriteAll(old(buffer[..]), t.ByteSize(), offset, Staged(t, values, endianness))
      ensures values != [] && offset + |values| * t.ByteSize() <= byteLength ==>
                (r == Pass <==> 0 <= offset && forall i :: 0 <= i < |values| ==> t.Test(values[i]))
      ensures r.Pass? ==> buffer[..] == Overwrite(old(buffer[..]), offset, Concat(Staged(t, values, endianness), t.ByteSize()))
    {
      if |values| < 1 {
        return Fail(EmptyValues);
      }
      if offset + |values| * t.ByteSize() > byteLength {
        return Fail(OutOfBounds);
      }
      var staged := Staged(t, values, endianness);
      ghost var storage := buffer[..];
      r := WriteEntries(buffer, t.ByteSize(), offset, staged);
      WriteAllPasses(storage, t.ByteSize(), offset, staged);
      StagedAll(t, values, endianness);
      if r.Pass? {
        WriteAllWrites(storage, t.ByteSize(), offset, staged);
      }
    }

    /**
     * Appends one value: makes room for it first, even when the value then turns out
     * to be invalid, and only then validates and writes it after the bytes in use.
     */
    method Push(t: NumericType, value: int) returns (r: Outcome<Error>)
      requires Valid()
      modifies this, buffer
      ensures Valid() && endianness == old(endianness)
      ensures buffer == old(buffer) || fresh(buffer)
      ensures var reserved := Reserve(old(buffer[..]), old(byteLength), t.ByteSize());
              if t.Test(value) then
                r == Pass && byteLength == old(byteLength) + t.ByteSize()
                && buffer[..] == Overwrite(reserved, old(byteLength), t.Encode(value, endianness))
              else
                r == Fail(InvalidValue) && byteLength == old(byteLength) && buffer[..] == reserved
      ensures r.Pass? ==> Contents() == old(Contents()) + t.Encode(value, endianness)
      ensures r.Pass? ==> Get(t, old(byteLength)) == Success(ReadBack(t, value))
    {
      EnsureCapacity(t.ByteSize());
      var ensured := t.Ensure(value);
      if ensured.Fail? {
        return ensured;
      }
      ghost var reserved := buffer[..];
      SetBytes(buffer, t.Encode(value, endianness), byteLength);
      ReadAfterWrite(reserved, byteLength + t.ByteSize(), t, byteLength, value, endianness);
      byteLength := byteLength + t.ByteSize();
      r := Pass;
    }

    /**
     * Appends several values: makes room for all of them, writes them one at a time
     * after the bytes in use, and extends the byte length only once all are written.
     */
    method PushMany(t: NumericType, values: seq<int>) returns (r: Outcome<Error>)
      requires Valid()
      modifies this, buffer
      ensures Valid() && endianness == old(endianness)
      ensures buffer == old(buffer) || fresh(buffer)
      ensures var reserved := Reserve(old(buffer[..]), old(byteLength), |values| * t.ByteSize());
              (buffer[..], r) == WriteAll(reserved, t.ByteSize(), old(byteLength), Staged(t, values, endianness))
      ensures byteLength == if r.Pass? then old(byteLength) + |values| * t.ByteSize() else old(byteLength)
      ensures r == Pass <==> forall i :: 0 <= i < |values| ==> t.Test(values[i])
      ensures r.Pass? ==> Contents() == old(Contents()) + Concat(Staged(t, values, endianness), t.ByteSize())
      ensures values == [] ==> byteLength == old(byteLength) && buffer == old(buffer)
    {
      EnsureCapacity(|values| * t.ByteSize());
      r := Append(t, values);
    }

    /** The writing half of `PushMany`, once there is room for all the values. */
    method Append(t: NumericType, values: seq<int>) returns (r: Outcome<Error>)
      requires Valid() && byteLength + |values| * t.ByteSize() <= buffer.Length
      modifies this, buffer
      ensures Valid() && endianness == old(endianness) && buffer == old(buffer)
      ensures (buffer[..], r) == WriteAll(old(buffer[..]), t.ByteSize(), old(byteLength), Staged(t, values, endianness))
      ensures byteLength == if r.Pass? then old(byteLength) + |values| * t.ByteSize() else old(byteLength)
      ensures r == Pass <==> forall i :: 0 <= i < |values| ==> t.Test(values[i])
      ensures r.Pass? ==> Contents() == old(Contents()) + Concat(Staged(t, values, endianness), t.ByteSize())
    {
      ghost var before := Contents();
      var size := t.ByteSize();
      var total := |values| * size;
      var staged := Staged(t, values, endianness);
      ghost var storage := buffer[..];
      r := WriteEntries(buffer, size, byteLength, staged);
      assert r == Pass <==> forall i :: 0 <= i < |values| ==> t.Test(values[i]) by {
        StagedWritePasses(storage, t, byteLength, values, endianness);
      }
      if r.Pass? {
        assert buffer[..byteLength + total] == before + Concat(staged, size) by {
          WriteAllWrites(storage, size, byteLength, staged);
          StagedAll(t, values, endianness);
          ConcatLength(staged, size);
          OverwritePrefix(storage, byteLength, Concat(staged, size));
        }
        byteLength := byteLength + total;
      }
    }

    /**
     * Removes `deleted` bytes at `start` and inserts the bytes of `inserted` there. When
     * the result does not fit, it is assembled in a new, larger storage; otherwise the
     * suffix is moved in place and the inserted bytes are written over the gap.
     */
    method Splice(start: nat, deleted: nat, inserted: seq<int>) returns (r: Outcome<Error>)
      requires Valid()
      modifies this, buffer
      ensures Valid() && endianness == old(endianness)
      ensures buffer == old(buffer) || fresh(buffer)
      ensures start + deleted > old(byteLength) ==>
                r == Fail(OutOfBounds) && byteLength == old(byteLength) && buffer[..] == old(buffer[..])
      ensures start + deleted <= old(byteLength) ==>
                r == Pass && byteLength == old(byteLength) - deleted + |inserted|
                && buffer[..] == SpliceStorage(old(buffer[..]), old(byteLength), start, deleted, ToUint8(inserted))
      ensures r.Pass? ==> Contents() == Spliced(old(Contents()), start, deleted, ToUint8(inserted))
    {
      if start + deleted > byteLength {
        return Fail(OutOfBounds);
      }
      var bytes := ToUint8(inserted);
      var increase := CapacityIncrease(buffer.Length, byteLength, |bytes| - deleted);
      if increase > 0 {
        buffer := SplicedCopy(buffer[..byteLength], start, deleted, bytes, buffer.Length + increase);
        assert buffer[..] == SpliceStorage(old(buffer[..]), byteLength, start, deleted, bytes) by {
          GrowingSplice(old(buffer[..]), byteLength, start, deleted, bytes, buffer.Length);
        }
      } else {
        SpliceInPlace(buffer, byteLength, start, deleted, bytes);
        InPlaceSplice(old(buffer[..]), byteLength, start, deleted, bytes);
      }
      byteLength := byteLength + |bytes| - deleted;
      r := Pass;
    }

    /**
     * `toUint8Array(start = 0, end = byteLength)`: a copy of the storage from `start` up
     * to the index `end`. The second argument is an end index, not a length, and the
     * slice is taken over the whole storage, so it may reach past the bytes in use.
     */
    function ToUint8Array(start: Option<int>, end: Option<int>): (r: seq<byte>)
      reads this, buffer
      requires Valid()
      ensures start == None && end == None ==> r == Contents()
      ensures start.Some? && end.Some? && 0 <= start.value <= end.value <= buffer.Length ==>
                r == buffer[start.value..end.value]
      ensures start.Some? && end.Some? && 0 <= end.value <= start.value ==> r == []
      ensures start.Some? && end.None? && 0 <= start.value <= byteLength ==> r == buffer[start.value..byteLength]
      ensures start.Some? && end.None? && -(buffer.Length as int) <= start.value < 0 && buffer.Length + start.value <= byteLength ==>
                r == buffer[buffer.Length + start.value..byteLength]
      ensures start.None? && end.Some? && 0 <= end.value <= buffer.Length ==> r == buffer[..end.value]
      ensures |r| <= buffer.Length
    {
      Slice(buffer[..], if start.Some? then start.value else 0, if end.Some? then end.value else byteLength)
    }
  }
  /**
   * Pushing bytes into a new ByteArray: the first eight fit in the default capacity, the
   * ninth doubles it to sixteen, and the bytes pushed so far are kept.
   */
  method GrowthExample() returns (a: ByteArray)
    ensures a.Valid() && a.byteLength == 9 && a.ByteCapacity() == 16
    ensures a.Contents() == [1, 2, 3, 4, 5, 6, 7, 8, 9]
  {
    a := new ByteArray(Big);
    var i := 1;
    while i <= 8
      invariant 1 <= i <= 9 && fresh(a) && fresh(a.buffer)
      invariant a.Valid() && a.ByteCapacity() == 8 && a.byteLength == i - 1
      invariant a.Contents() == Counting(i - 1)
    {
      PushByte(a, i);
      i := i + 1;
    }
    PushByte(a, 9);
    assert Counting(9) == [1, 2, 3, 4, 5, 6, 7, 8, 9];
  }

  /** The bytes 1, 2, ..., n. */
  function Counting(n: nat): seq<int>
  {
    seq(n, j => j + 1)
  }

  /** Pushes one byte `value` with `Uint8`, growing the storage exactly when it is full. */
  method PushByte(a: ByteArray, value: int)
    requires a.Valid() && 1 <= value < 0x100
    requires a.Contents() == Counting(value - 1)
    modifies a, a.buffer
    ensures a.Valid() && a.byteLength == old(a.byteLength) + 1
    ensures a.Contents() == Counting(value)
    ensures a.buffer == old(a.buffer) || fresh(a.buffer)
    ensures old(a.byteLength) < old(a.ByteCapacity()) ==> a.ByteCapacity() == old(a.ByteCapacity())
    ensures 0 < old(a.byteLength) == old(a.ByteCapacity()) ==> a.ByteCapacity() == 2 * old(a.ByteCapacity())
  {
    ByteEncoding(value, a.endianness);
    ghost var before := a.buffer[..];
    ghost var len := a.byteLength;
    var r := a.Push(Uint8, value);
    assert Counting(value - 1) + [value] == Counting(value);
    assert a.buffer.Length == |a.buffer[..]| == |before| + CapacityIncrease(|before|, len, 1);
  }

  /** A byte is a valid Uint8 and is stored as itself in either byte order. */
  lemma ByteEncoding(value: int, endian: Endianness)
    requires 0 <= value < 0x100
    ensures Uint8.Test(value) && Uint8.ByteSize() == 1 && Uint8.Encode(value, endian) == [value]
  {
    NumericTypeFacts.TestIffInRange(Uint8, value);
    assert ToBigEndian(value, 1) == [value];
  }
}

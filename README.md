# lobyte in Dafny

This project is a verified model of lobyte, a small TypeScript library for binary data.
It models five parts of the library:

- **`ByteArray`.** A growable byte buffer with typed `get`, `set`, `push`, `splice` and
  `toUint8Array`. Capacity grows by the larger of the current capacity and the shortfall.
- **The nine numeric type descriptors** (`Int8` … `Uint32`, `Xint8` … `Xint32`). Each one
  truncates, tests, ensures, converts (`from`), serialises (`toArray`) and formats (`hex`).
- **The integer helpers of `types.ts`.** The `Min`/`Max`/`ByteSize`/`BitSize` tables, the
  `toInt8` … `toUint32` truncations and the `isInt8` … `isXint32` range predicates.
- **The standalone codec layer.** This is the abstract `NumericType` of `numeric-type.ts`
  (byte size, alignment mask, `isAligned`, `align`, `test`, `ensure`) and its `Int16Type`,
  which does truncation and little- and big-endian two-byte access by hand.
- **`Memory` and `BinaryArray`.** `Memory` is a byte buffer with cached 16- and 32-bit
  views and `resize`. `BinaryArray` is the base class whose `ensureCapacity` grows a
  `Memory`.

## How the model is organised

- JavaScript numbers are `int`. The 32-bit operators (`|`, `&`, `~`, `<<`, `>>`, `>>>`)
  are modelled exactly in `JsBits`: each operand is reduced modulo 2^32, shift counts
  modulo 32.
- Typed-array elements are modelled as `byte`. A `Uint8Array` store keeps the value
  modulo 256.
- The `DataView` getters and setters are modelled as functions:
  - `NumericType.Encode` gives the setter's bytes, the value modulo 2^bitSize in the
    requested byte order;
  - `NumericType.Decode` reads bytes back, as two's complement for the signed types and
    unsigned otherwise.
- The default `truncate` stores a value through the setter and reads it back through the
  getter. For the concrete types, `NumericTypeFacts.TruncateIsSetterGetter` proves that
  round trip equals the two's-complement reading.
- Errors are values:
  - `OutOfBounds`: the library's bounds check;
  - `InvalidValue`: `ensure`;
  - `EmptyValues`: an empty multi-value `set`;
  - `ViewOutOfRange`: the `DataView`'s own error for a negative offset.
- `ByteArray`, `Memory` and `BinaryArray` are classes. Their storage is a Dafny `array`
  that is replaced on growth. Each method is proved against a function on sequences
  (`Reserve`, `SpliceStorage`, `WriteAll`, `Resized`). Those functions carry the lemmas.

The model follows the code on these points. Some of them are easy to misread from a
name alone: the second parameter of `toUint8Array` (src/index.ts:387) is called
`byteLength` but is an end index.

- **`boundsCheck` checks only the end of the span.** A negative offset therefore passes
  it and is rejected by the `DataView`, which is `ViewOutOfRange` in the model.
- **The second argument of `toUint8Array` is an end index, not a length.** The slice is
  also taken over the whole storage, so it can include bytes past `byteLength`.
- **`Memory.resize` clears the 16-bit view but keeps the cached 32-bit view.** The model
  keeps this behaviour.
- **`NumericType.byteSize` in `index.ts` is `bitSize >>> 3`.** The standalone base class
  uses `(bitSize + 7) >>> 3`. The two agree on 8, 16 and 32 bits.

## Model

| member | source | states |
|---|---|---|
| Types.ToInt8Spec | src/types.ts:66 | `value << 24 >> 24` lies in [-0x80, 0x7F] and is congruent to the value modulo 2^8 |
| Types.ToInt16Spec | src/types.ts:67 | `value << 16 >> 16` lies in [-0x8000, 0x7FFF] and is congruent to the value modulo 2^16 |
| Types.ToInt32Spec | src/types.ts:68 | `value \| 0` lies in the signed 32-bit range and is congruent to the value modulo 2^32 |
| Types.ToUintSpec | src/types.ts:69-70 | `value & 0xFF` and `value & 0xFFFF` are the residues modulo 2^8 and 2^16 |
| Types.ToUint32Spec | src/types.ts:71 | `value >>> 0` is the residue modulo 2^32, in [0, 0xFFFFFFFF] |
| Types.IsInt32Range | src/types.ts:75 | `isInt32` holds exactly on [-2^31, 2^31 - 1] |
| Types.Uint8Range | src/types.ts:77 | `isUint8` holds exactly on [0, 0xFF] |
| Types.Uint16Range | src/types.ts:78 | `isUint16` holds exactly on [0, 0xFFFF] |
| Types.Uint32Range | src/types.ts:79 | `isUint32` (`value >>> 0 === value`) holds exactly on [0, 0xFFFF_FFFF] |
| Types.SignedRange | src/types.ts:73-74 | a bounds test joined with `isInt32` is the bounds test alone when the bounds are inside the int32 range |
| Types.PredicateRange | src/types.ts:73-82 | every range predicate accepts exactly [Min, Max] of its kind; `isXint32` is `isInt32` or `isUint32` |
| Types.TablesAreTwosComplement | src/types.ts:14-64 | the tables are two's complement: signed and agnostic minimum -2^(N-1), unsigned minimum 0, signed maximum 2^(N-1)-1, other maxima 2^N-1, bit size 8 × byte size |
| Types.PredicateBoundaries | test/types.spec.ts:38-55 | every predicate accepts Min and Max and rejects Min - 1 and Max + 1 |
| NumericTypes.NumericType.Pattern | src/index.ts:51-52 | the setter stores a bit pattern of at most bitSize bits |
| NumericTypes.NumericType.Encode | src/index.ts:51-52 | the setter writes exactly byteSize bytes |
| NumericTypeFacts.DecodeEncode | src/index.ts:57-60 | the getter reads back the bit pattern the setter stored, in either byte order |
| NumericTypeFacts.TruncateIsSetterGetter | src/index.ts:57-60 | for a concrete type, the default `truncate` (setter, then getter) is the two's-complement reading of the value's low bits |
| NumericTypeFacts.TruncateSpec | src/index.ts:57-60 | every truncation, the agnostic ones included, lies in [min, max] and differs from the input by a multiple of 2^bitSize |
| NumericTypeFacts.ConcreteTruncateSpec | src/index.ts:159-239 | the same for the six concrete types |
| NumericTypeFacts.ConcreteTruncateFixes | src/index.ts:159-239 | a value of a concrete type truncates to itself |
| NumericTypeFacts.TestIffInRange | src/index.ts:68-70 | `test(v)` holds exactly when min <= v <= max |
| NumericTypeFacts.EnsureIffTest | src/index.ts:84-90 | `ensure` fails with a value error exactly when v is outside [min, max], and passes otherwise |
| NumericTypeFacts.FromSpec | src/index.ts:77-81 | `from` succeeds exactly on the agnostic type's range, fails with a value error otherwise, and returns a value of the type congruent to the input |
| NumericTypeFacts.FromAccepts | src/index.ts:77-81 | inside the agnostic range, `from` is `truncate` |
| NumericTypeFacts.FromRejects | src/index.ts:77-81 | outside the agnostic range, `from` fails with a value error |
| NumericTypeFacts.FromExamples | src/index.ts:72-76 | `Int8.from(0xFF)` is -1, `Uint8.from(-1)` is 0xFF, `Int16.from(0x10000)` fails |
| NumericTypeFacts.FromInt8Example | src/index.ts:73 | `Int8.from(0xFF)` is -1 |
| NumericTypeFacts.FromUint8Example | src/index.ts:77-81 | `Uint8.from(-1)` is 0xFF |
| NumericTypeFacts.SetterGetterRoundTrip | src/index.ts:49-52 | for a value of the type, the getter returns what the setter stored; for an agnostic type and a negative value it returns the unsigned twin |
| NumericTypeFacts.GetterSetterRoundTrip | src/index.ts:49-52 | storing what the getter read gives back the same bytes |
| NumericTypeFacts.PatternOfReading | src/index.ts:49-52 | the setter stores again the bit pattern the getter read |
| NumericTypeFacts.ToArraySpec | src/index.ts:93-97 | `toArray` succeeds exactly on [min, max] and returns byteSize bytes that read back, in the requested order, as the big-endian bytes of the value do |
| NumericTypeFacts.MaskedValue | src/index.ts:101 | `(value & mask) >>> 0` is the value modulo 2^bitSize |
| NumericTypeFacts.ToHexStringSpec | src/index.ts:101 | `toString(16)` gives at least one lowercase hex digit, and the digits denote the number |
| NumericTypeFacts.PadHexSpec | src/index.ts:102 | the padding gives exactly 2 × byteSize lowercase digits that denote the same number |
| NumericTypeFacts.HexSpec | src/index.ts:99-103 | `hex` fails exactly when `ensure` does; otherwise it returns 2 × byteSize lowercase digits of the value's bit pattern |
| NumericTypeFacts.HexAccepts | src/index.ts:99-103 | for a value of the type, `hex` is the padded hex of the value modulo 2^bitSize |
| NumericTypeFacts.HexRejects | src/index.ts:99-103 | outside [min, max], `hex` fails with a value error |
| NumericTypeFacts.TruncateExamples | src/index.ts:119-138 | `Int16.truncate(-1)` is -1, `Uint16.truncate(-1)` is 0xFFFF, `Xint16` routes -1 to the signed and 0xFFFF to the unsigned sibling |
| ByteArrays.ToUint8 | src/index.ts:278 | storing numbers into a `Uint8Array` keeps each one modulo 256 |
| ByteArrays.Overwrite | src/index.ts:274 | `set(bytes, offset)` keeps the length and puts the bytes at the offset |
| ByteArrays.OverwriteIndex | src/index.ts:274 | a write changes exactly the indices it covers |
| ByteArrays.OverwriteAdjacent | src/index.ts:322-326 | two writes side by side are one write of both |
| ByteArrays.Spliced | src/index.ts:257-296 | the spliced bytes have length len - deleted + inserted |
| ByteArrays.SplicedUndo | src/index.ts:257-296 | splicing the deleted bytes back over the inserted ones restores the original |
| ByteArrays.SplicedNothing | src/index.ts:257-296 | a splice that deletes and inserts nothing changes nothing |
| ByteArrays.CapacityIncrease | src/index.ts:404-414 | the increase is 0 exactly when the needed bytes fit; otherwise they fit afterwards and the capacity at least doubles |
| ByteArrays.Reserve | src/index.ts:416-425 | after `ensureCapacity` the capacity has grown by the increase, the needed bytes fit, and the bytes in use are kept |
| ByteArrays.SpliceStorage | src/index.ts:257-296 | after `splice`, the bytes in use are the spliced bytes, whichever path was taken |
| ByteArrays.GrowingSplice | src/index.ts:265-284 | the growth path's three copies into new zeroed storage give the spliced storage |
| ByteArrays.InPlaceSplice | src/index.ts:285-293 | the in-place path (`copyWithin` of the suffix, then `set`) gives the spliced storage |
| ByteArrays.WriteAll | src/index.ts:322-326 | the write loop keeps the length of the storage |
| ByteArrays.WriteAllPasses | src/index.ts:322-326 | the loop passes exactly when every value is valid and the offset is not negative |
| ByteArrays.WriteAllWrites | src/index.ts:322-326 | when the loop passes, it has written the values' bytes one after the other from the offset |
| ByteArrays.StagedWritePasses | src/index.ts:340-347 | writing after the bytes in use passes exactly when every value is valid |
| ByteArrays.ReadAt | src/index.ts:299-302 | `get` succeeds exactly when 0 <= offset and offset + byteSize <= byteLength, fails with the bounds error past the end, and returns a value of the type |
| ByteArrays.ReadAfterWrite | src/index.ts:308-310 | reading where a valid value was just set gives the value back, or its unsigned twin for an agnostic type |
| ByteArrays.ReadEncoded | src/index.ts:299-302 | reading where the setter's bytes for a valid value lie gives the value back |
| ByteArrays.ReadAllWritten | src/index.ts:322-326 | after a multi-value write, the i-th value reads back at offset + i × byteSize |
| ByteArrays.ReadBesideWrite | src/index.ts:310 | a write leaves every value that does not share a byte with it unchanged |
| ByteArrays.RelativeIndex | src/index.ts:388 | `slice` index resolution: an index inside is kept, a negative one counts back from the length, and both ends are clamped to [0, length] |
| ByteArrays.Slice | src/index.ts:388 | `slice(start, end)` is the bytes between the resolved indices, element by element, and empty when the resolved end is not after the resolved start |
| ByteArrays.SetBytes | src/index.ts:274 | `Uint8Array.set` on an array leaves exactly `Overwrite` of the old contents |
| ByteArrays.CopyWithin | src/index.ts:288 | `copyWithin` moves the old bytes of the source range to the target, even when the ranges overlap |
| ByteArrays.SplicedCopy | src/index.ts:265-284 | the growth path's new storage holds the prefix, the inserted bytes and the suffix over zeros |
| ByteArrays.SpliceInPlace | src/index.ts:285-293 | the in-place path moves the suffix, then writes the inserted bytes |
| ByteArrays.WriteEntries | src/index.ts:322-326 | the write loop on the array does what `WriteAll` describes: it stops at the first invalid value, keeping the earlier writes |
| ByteArrays.ByteArray.constructor | src/index.ts:249-251 | a new array is empty with the default capacity of 8 zero bytes |
| ByteArrays.ByteArray.EnsureCapacity | src/index.ts:416-425 | the storage becomes `Reserve` of the old one; byteLength is unchanged; the storage is replaced only when it grows |
| ByteArrays.ByteArray.Get | src/index.ts:299-302 | the bounds check (src/index.ts:396-402), then the getter in the array's byte order |
| ByteArrays.ByteArray.Set | src/index.ts:305-311 | bounds error, value error or view error in that order, with no change on failure; a valid value at a non-negative offset whose span fits passes, its setter's bytes are at the offset and it reads back |
| ByteArrays.ByteArray.SetMany | src/index.ts:312-327 | an empty sequence fails; a span past byteLength fails with no change; otherwise the storage is `WriteAll` of the values; it passes exactly when the offset is not negative and every value is valid |
| ByteArrays.ByteArray.Push | src/index.ts:333-337 | capacity is reserved first; a valid value is appended and byteLength grows by byteSize; an invalid one fails after the growth |
| ByteArrays.ByteArray.PushMany | src/index.ts:339-347 | capacity for all values is reserved, the values are written after the bytes in use, and byteLength grows by n × byteSize only when all were valid; pushing none changes nothing |
| ByteArrays.ByteArray.Append | src/index.ts:341-347 | the write loop and the final byteLength update of the multi-value `push` |
| ByteArrays.ByteArray.Splice | src/index.ts:257-296 | fails unless start + deleted <= byteLength; otherwise the contents become prefix, inserted bytes, suffix, and byteLength becomes len + inserted - deleted |
| ByteArrays.ByteArray.ToUint8Array | src/index.ts:387-389 | with no arguments, the bytes in use; with only `start`, the storage from `start` (or from `length + start` when negative) up to byteLength; with only `end`, the storage before `end`; with both in order, the storage between them; empty when `end <= start` |
| ByteArrays.GrowthExample | test/array.ts:146-161 | eight one-byte pushes keep capacity 8; the ninth makes it 16 and keeps all nine bytes |
| ByteArrays.PushByte | test/array.ts:148-151 | one Uint8 push after the bytes 1..value-1 leaves the bytes 1..value, grows byteLength by one, keeps the capacity while there is room and doubles it when full |
| NumericTypeBase.Descriptor.ByteSize | src/numeric-type.ts:27 | `(bitSize + 7) >>> 3` is the least number of bytes that hold bitSize bits |
| NumericTypeBase.StandardSizes | src/numeric-type.ts:27-28 | 8, 16 and 32 bits give byte sizes 1, 2, 4 and alignment masks 0, 1, 3 |
| NumericTypeBase.IsAlignedIffMultiple | src/numeric-type.ts:31-33 | for byte sizes 1, 2 and 4, `isAligned` holds exactly for multiples of the byte size |
| NumericTypeBase.Ensure | src/numeric-type.ts:48-52 | `ensure` throws exactly when `test` is false, and otherwise does nothing |
| NumericTypeBase.AlignSingleByte | src/numeric-type.ts:35-38 | for byte size 1, `align` is the identity |
| NumericTypeBase.AlignTwoBytes | src/numeric-type.ts:35-38 | for byte size 2, `align` rounds up to an even offset |
| NumericTypeBase.AlignAgrees | src/numeric-type.ts:35-38 | for byte sizes 1 and 2, `align` as written equals the corrected `AlignUp` |
| NumericTypeBase.AlignFourBytesAsWritten | src/numeric-type.ts:35-38 | for byte size 4, `align(4)` is 0 although 4 is aligned, and `align(1)` is 0 where `AlignUp(1)` is 4 |
| NumericTypeBase.AlignUpSpec | src/numeric-type.ts:35-38 | the corrected `align` returns an aligned multiple of the byte size in [offset, offset + byteSize) and keeps aligned offsets |
| NumericTypeBase.AlignUpRounds | src/numeric-type.ts:35-38 | the corrected `align` is the round-up computed by division |
| Int16Codec.Int16TypeShape | src/int16.ts:4-6 | the type is signed, 16 bits, byte size 2, mask 1, range [-0x8000, 0x7FFF] |
| Int16Codec.Truncate | src/int16.ts:8-12 | `(value << 16) >> 16` lies in [-0x8000, 0x7FFF] and is congruent to the value modulo 2^16 |
| Int16Codec.TruncateIsInt16ArrayStore | test/int16.spec.ts:10-13 | the truncation equals storing into an `Int16Array` and reading back |
| Int16Codec.TruncateFixes | src/int16.ts:8-12 | a value in range truncates to itself |
| Int16Codec.TestIffInRange | src/numeric-type.ts:46-52 | `test` and `ensure` of the Int16 type accept exactly [-0x8000, 0x7FFF] |
| Int16Codec.Store | src/int16.ts:20-23 | a `Uint8Array` element store changes at most that element |
| Int16Codec.GetLE | src/int16.ts:14-18 | `getLE` returns a value in the int16 range |
| Int16Codec.GetBE | src/int16.ts:25-29 | `getBE` returns a value in the int16 range |
| Int16Codec.StoredLE | src/int16.ts:20-23 | `setLE` changes no element other than those at the offset and after it |
| Int16Codec.StoredBE | src/int16.ts:31-34 | `setBE` changes no element other than those at the offset and after it |
| Int16Codec.SetLE | src/int16.ts:20-23 | the array after `setLE` is `StoredLE` of the old one |
| Int16Codec.SetBE | src/int16.ts:31-34 | the array after `setBE` is `StoredBE` of the old one |
| Int16Codec.HighByte | src/int16.ts:22 | the byte stored for `value >> 8` is bits 8 to 15 of the value |
| Int16Codec.StoredLELayout | test/int16.spec.ts:15-24 | `setLE` writes the low byte at the offset and the high byte after it: the bytes of `DataView.setInt16` in little-endian order |
| Int16Codec.StoredBELayout | test/int16.spec.ts:37-46 | `setBE` writes the high byte first: the reverse of `setLE`'s bytes, and the bytes of `DataView.setInt16` in big-endian order |
| Int16Codec.ShiftByteLeft | src/int16.ts:17 | `byte << 8` is multiplication by 256 |
| Int16Codec.OrIntoHighByte | src/int16.ts:16-17 | or-ing a byte into a shifted byte is addition, in either operand order |
| Int16Codec.GetLEIsGetInt16 | test/int16.spec.ts:26-35 | `getLE` reads what `DataView.getInt16` reads in little-endian order |
| Int16Codec.GetBEIsGetInt16 | test/int16.spec.ts:48-57 | `getBE` reads what `DataView.getInt16` reads in big-endian order |
| Int16Codec.GetSetLE | src/int16.ts:14-23 | `getLE` after `setLE` at the same offset returns `truncate(value)` |
| Int16Codec.GetSetBE | src/int16.ts:25-34 | `getBE` after `setBE` at the same offset returns `truncate(value)` |
| Memories.HalfWordBytes | src/memory.ts:15 | the 16-bit view covers no more than the bytes |
| Memories.WordBytes | src/memory.ts:24 | the 32-bit view covers no more than the bytes |
| Memories.Resized | src/memory.ts:30-36 | the buffer after `resize` has exactly the new capacity |
| Memories.CopyPrefix | src/memory.ts:15 | `buffer.slice(0, n)` is a fresh copy of the first n bytes |
| Memories.Memory.constructor | src/memory.ts:6-8 | `x8` is the given array and no word view exists yet |
| Memories.Memory.X16 | src/memory.ts:12-19 | the first call makes a fresh copy of the bytes up to `len & ~1`; later calls return the same view |
| Memories.Memory.X32 | src/memory.ts:21-28 | the first call makes a fresh copy of the bytes up to `len & ~3`; later calls return the same view |
| Memories.Memory.Resize | src/memory.ts:30-36 | x8 becomes a fresh buffer holding `Resized` of the old bytes; the 16-bit view is dropped; the 32-bit view is kept |
| Memories.NotMasks | src/memory.ts:15 | `~1` and `~3` are the 32-bit masks clearing the lowest one and two bits |
| Memories.HalfWordBytesRoundDown | test/memory.spec.ts:6-12 | below 2^31 bytes, the 16-bit view covers the length rounded down to even, `(len >>> 1) << 1` |
| Memories.WordBytesRoundDown | test/memory.spec.ts:6-12 | below 2^31 bytes, the 32-bit view covers the length rounded down to a multiple of 4, `(len >>> 2) << 2` |
| Memories.ResizedBytes | src/memory.ts:30-36 | `resize` keeps the first min(old, new) bytes and zeroes the rest |
| Memories.GrowThenShrink | src/memory.ts:30-36 | growing and then shrinking back to the old capacity restores the old bytes |
| Memories.ResizeTwice | src/memory.ts:30-36 | resizing to a capacity and then to a smaller one is one resize to the smaller |
| BinaryArrays.BinaryArray.constructor | src/binary-array.ts:14-17 | a new array owns a 4-byte zeroed `Memory` with no word views, and byteLength 0 |
| BinaryArrays.BinaryArray.EnsureCapacity | src/binary-array.ts:21-33 | the memory is unchanged when the needed bytes fit; otherwise it is resized to the new capacity, keeping its bytes; the 32-bit view is untouched |
| BinaryArrays.SameGrowthAsByteArray | src/binary-array.ts:21-33 | the new capacity is the old one plus `ByteArray`'s capacity increase for the same capacity, length and need |
| BinaryArrays.GrowthBounds | src/binary-array.ts:30-32 | growth happens exactly when the bytes do not fit; afterwards they fit and the capacity has at least doubled |
| BinaryArrays.GrowthKeepsBytes | src/binary-array.ts:32 | growth keeps every byte the memory held |

## Left out

- Non-integer, NaN, infinite, `undefined` and string inputs. All numbers are integers, and
  rejection of non-integers by the typed arrays is outside the model.
- `isInt54` (src/types.ts:76). It is IEEE-754 safe-integer semantics.
- `Endianness.Machine` (src/numeric-type.ts:12-14). It depends on the host CPU's byte order.
- The `typedArray` field of the descriptors. No operation uses it.
- The `DataView` and scratch view objects. The getters and setters are functions over
  byte sequences.
- The exact text of error messages. Errors are distinct variants.
- `NumericType.name` and the other readonly fields are data.
- `hex` is proved for all values. Worked string examples such as `Int16.hex(11) == "000b"`
  are not stated.
- ByteArrays.ByteArray.Splice: start and deleted count are `nat`. With negative or
  non-integer arguments the source leaves index resolution to `slice`, `copyWithin` and
  `set`, which the model does not follow.
- ByteArrays.ByteArray.SetMany: the per-value read-back after a multi-value `set` or
  `push` is stated by the lemma `ByteArrays.ReadAllWritten` rather than in the methods'
  contracts.
- ByteArrays.ByteArray.PushMany: the same read-back is stated by `ByteArrays.ReadAllWritten`.
- ByteArrays.WriteEntries: the loop is given each value's validity and bytes, computed
  beforehand by `Staged`. It does not call `ensure` and the setter inside the loop; the
  writes, their order and the stopping point are the same.
- Memories.Memory.X16: the word values of the 16- and 32-bit views depend on the host's
  byte order. The views are modelled as copies of the bytes they cover.
- Memories.Memory.X32: the same holds for the 32-bit view.
- Memories.Memory.Resize: a negative or non-integer capacity makes `new Uint8Array` throw.
  The capacity is a `nat`.
- Memories.HalfWordBytesRoundDown: stated for buffers below 2^31 bytes. Above that,
  `len & ~1` is negative and `slice` counts it from the end.
- Memories.WordBytesRoundDown: the same 2^31 bound.
- The underlying `ArrayBuffer` of a `Memory` is taken to be exactly the bytes of `x8`. A
  `Uint8Array` that views only part of a larger buffer is not modelled.
- NumericTypeBase.IsAlignedIffMultiple: stated for byte sizes 1, 2 and 4, the ones the
  codecs have.
- NumericTypeBase.AlignSingleByte: stated for offsets in [0, 2^31). There `>>>` and `<<`
  cannot wrap.
- NumericTypeBase.AlignTwoBytes: the same offset bound.
- NumericTypeBase.AlignUpSpec: the same offset bound.
- The abstract `getLE`/`setLE`/`getBE`/`setBE` of numeric-type.ts are modelled for
  `Int16Type`. It is the only subclass in the source.

## Findings

| source | as written | input that shows it | evidently intended | confidence | as-written member | corrected member |
|---|---|---|---|---|---|---|
| src/numeric-type.ts:35-38 | `align` shifts by the alignment mask `n = byteSize - 1`, so for byteSize 4 it shifts by 3 and rounds `offset + 3` down to a multiple of 8 | a 4-byte type: `align(4)` is 0 although 4 is aligned, and `align(1)` is 0 | shift by log2(byteSize): round up to the next multiple of the byte size, which for sizes 1 and 2 is what the code already does | medium, not executed (no 4-byte subclass exists in the source) | NumericTypeBase.AlignFourBytesAsWritten | NumericTypeBase.AlignUpSpec |

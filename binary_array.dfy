/**
 * The base class of the Memory-backed arrays: a byte length over a `Memory` that starts
 * with four bytes and grows by the same rule as ByteArray.
 */
module BinaryArrays {
  import opened Bytes
  import opened NumericTypes
  import ByteArrays
  import Memories

  /** The capacity of the memory a new BinaryArray starts with. */
  const InitialCapacity: nat := 4

  /**
   * The capacity after `ensureCapacity(bytesNeeded)`: unchanged when the bytes fit after
   * the bytes in use, otherwise the old capacity plus the larger of itself and the shortfall.
   */
  function NewCapacity(capacity: nat, byteLength: nat, bytesNeeded: int): (r: nat)
  {
    var delta := bytesNeeded - (capacity - byteLength);
    if delta <= 0 then capacity
    else capacity + (if capacity < delta then delta else capacity)
  }

  class BinaryArray {
    const memory: Memories.Memory
    var byteLength: nat
    var endianness: Endianness

    ghost predicate Valid()
      reads this, memory
    {
      memory.Valid()
    }

    function ByteCapacity(): nat
      reads this, memory
    {
      memory.x8.Length
    }

    /** Four zero bytes of memory, none of them in use. */
    constructor(endianness: Endianness)
      ensures Valid() && fresh(memory) && fresh(memory.x8)
      ensures memory.x8[..] == ByteArrays.Zeros(InitialCapacity) && memory.x16 == null && memory.x32 == null
      ensures byteLength == 0 && this.endianness == endianness
    {
      var bytes := new byte[InitialCapacity](_ => 0);
      memory := new Memories.Memory(bytes);
      byteLength := 0;
      this.endianness := endianness;
    }

    /** Resizes the memory when fewer than `bytesNeeded` bytes are free after the bytes in use. */
    method EnsureCapacity(bytesNeeded: int)
      requires Valid()
      modifies memory
      ensures Valid() && memory.x32 == old(memory.x32)
      ensures NewCapacity(old(ByteCapacity()), byteLength, bytesNeeded) == old(ByteCapacity()) ==>
                memory.x8 == old(memory.x8) && memory.x16 == old(memory.x16)
      ensures NewCapacity(old(ByteCapacity()), byteLength, bytesNeeded) != old(ByteCapacity()) ==>
                fresh(memory.x8) && memory.x16 == null
      ensures memory.x8[..] == Memories.Resized(old(memory.x8[..]), NewCapacity(old(ByteCapacity()), byteLength, bytesNeeded))
    {
      var oldCapacity := ByteCapacity();
      var bytesAvailable := oldCapacity - byteLength;
      var delta := bytesNeeded - bytesAvailable;
      if delta <= 0 {
        assert memory.x8[..] == Memories.Resized(memory.x8[..], oldCapacity);
        return;
      }
      var increase := if oldCapacity < delta then delta else oldCapacity;
      var newCapacity := oldCapacity + increase;
      memory.Resize(newCapacity);
    }
  }

  // ---------------------------------------------------------------------------
  // Facts

  /** The growth is ByteArray's capacity increase for the same capacity, length and need. */
  lemma SameGrowthAsByteArray(capacity: nat, byteLength: nat, bytesNeeded: int)
    ensures NewCapacity(capacity, byteLength, bytesNeeded)
            == capacity + ByteArrays.CapacityIncrease(capacity, byteLength, bytesNeeded)
  {
  }

  /**
   * After growing, the needed bytes fit after the bytes in use and the capacity has at
   * least doubled; no growth happens exactly when they already fit.
   */
  lemma GrowthBounds(capacity: nat, byteLength: nat, bytesNeeded: int)
    ensures var c := NewCapacity(capacity, byteLength, bytesNeeded);
            (c == capacity <==> bytesNeeded <= capacity - byteLength) &&
            byteLength + bytesNeeded <= c &&
            (c != capacity ==> 2 * capacity <= c)
  {
    SameGrowthAsByteArray(capacity, byteLength, bytesNeeded);
  }

  /** Growing keeps every byte the memory held. */
  lemma GrowthKeepsBytes(bytes: seq<byte>, byteLength: nat, bytesNeeded: int)
    ensures var grown := Memories.Resized(bytes, NewCapacity(|bytes|, byteLength, bytesNeeded));
            |bytes| <= |grown| && grown[..|bytes|] == bytes
  {
    GrowthBounds(|bytes|, byteLength, bytesNeeded);
    Memories.ResizedBytes(bytes, NewCapacity(|bytes|, byteLength, bytesNeeded));
  }
}

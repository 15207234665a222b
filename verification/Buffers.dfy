/** The slot stack and the byte ring of kernel/buffer. */
module Buffers {
  import opened Arithmetic
  import opened Allocator

  /** struct kbuffer_stack: the slots themselves live in the buffer of the owner; a slot pointer is its
      index and NULL is None. */
  class Stack {
    const capacity: nat
    var len: nat

    constructor (capacity: nat)
      ensures this.capacity == capacity && len == 0
    {
      this.capacity := capacity;
      len := 0;
    }

    method Full() returns (full: bool)
      ensures full <==> len == capacity
    {
      return len == capacity;
    }

    method Peek() returns (slot: Option<nat>)
      ensures slot == if len == 0 then None else Some(len - 1)
    {
      if len == 0 {
        return None;
      }
      return Some(len - 1);
    }

    method Alloc() returns (slot: Option<nat>)
      requires len <= capacity
      modifies this
      ensures len == if old(len) == capacity then old(len) else old(len) + 1
      ensures slot == if old(len) == capacity then None else Some(old(len))
    {
      var full := Full();
      if full {
        return None;
      }
      len := len + 1;
      slot := Peek();
    }

    method Free()
      modifies this
      ensures len == if old(len) == 0 then 0 else old(len) - 1
    {
      if len > 0 {
        len := len - 1;
      }
    }
  }

  type Byte = b: int | 0 <= b < 256

  /** x % capacity for an index that ran over the end at most once. */
  function Wrap(x: nat, capacity: nat): nat {
    if x < capacity then x else x - capacity
  }

  lemma ModIsWrap(x: nat, capacity: nat)
    requires capacity > 0 && x < 2 * capacity
    ensures x % capacity == Wrap(x, capacity)
  {
    DivUnique(x, capacity, if x < capacity then 0 else 1, Wrap(x, capacity));
  }

  ghost function RingBytes(bytes: seq<Byte>, readIdx: nat, size: nat): (r: seq<Byte>)
    requires readIdx < |bytes| && size <= |bytes|
    ensures |r| == size && forall i :: 0 <= i < size ==> r[i] == bytes[Wrap(readIdx + i, |bytes|)]
  {
    seq(size, i requires 0 <= i < size => bytes[Wrap(readIdx + i, |bytes|)])
  }

  lemma RingAppend(bytes: seq<Byte>, bytes': seq<Byte>, readIdx: nat, size: nat, c: Byte)
    requires readIdx < |bytes| && size < |bytes| && bytes' == bytes[Wrap(readIdx + size, |bytes|) := c]
    ensures RingBytes(bytes', readIdx, size + 1) == RingBytes(bytes, readIdx, size) + [c]
  {
    var now, before := RingBytes(bytes', readIdx, size + 1), RingBytes(bytes, readIdx, size);
    forall i | 0 <= i < size
      ensures now[i] == before[i]
    {
      assert Wrap(readIdx + i, |bytes|) != Wrap(readIdx + size, |bytes|);
    }
  }

  lemma RingDrop(bytes: seq<Byte>, readIdx: nat, size: nat, k: nat)
    requires readIdx < |bytes| && k <= size <= |bytes|
    ensures RingBytes(bytes, Wrap(readIdx + k, |bytes|), size - k) == RingBytes(bytes, readIdx, size)[k..]
    ensures size > 0 ==> RingBytes(bytes, readIdx, size)[0] == bytes[readIdx]
  {
    var from := Wrap(readIdx + k, |bytes|);
    var now, before := RingBytes(bytes, from, size - k), RingBytes(bytes, readIdx, size);
    forall i | 0 <= i < size - k
      ensures now[i] == before[k + i]
    {
      assert Wrap(from + i, |bytes|) == Wrap(readIdx + (k + i), |bytes|);
    }
    if size > 0 {
      assert before[0] == bytes[Wrap(readIdx + 0, |bytes|)];
    }
  }

  /** struct kbuffer_ring. */
  class Ring {
    const buffer: array<Byte>
    var size: nat
    var readIdx: nat
    var writeIdx: nat

    ghost predicate Valid()
      reads this
    {
      && buffer.Length > 0 && size <= buffer.Length
      && readIdx < buffer.Length && writeIdx == Wrap(readIdx + size, buffer.Length)
    }

    /** The bytes in the ring, oldest first. */
    ghost function Contents(): (bytes: seq<Byte>)
      requires Valid()
      reads this, buffer
      ensures |bytes| == size
    {
      RingBytes(buffer[..], readIdx, size)
    }

    constructor (capacity: nat)
      requires capacity > 0
      ensures Valid() && fresh(buffer) && buffer.Length == capacity && Contents() == []
    {
      buffer := new Byte[capacity](i => 0);
      size, readIdx, writeIdx := 0, 0, 0;
    }

    /** kbuffer_ring_write. */
    method Write(c: Byte) returns (status: int)
      requires Valid()
      modifies this, buffer
      ensures Valid()
      ensures status == if |old(Contents())| == buffer.Length then -1 else 0
      ensures Contents() == if status == 0 then old(Contents()) + [c] else old(Contents())
    {
      if size == buffer.Length {
        return -1;
      }
      RingAppend(buffer[..], buffer[..][writeIdx := c], readIdx, size, c);
      buffer[writeIdx] := c;
      ModIsWrap(writeIdx + 1, buffer.Length);
      writeIdx := (writeIdx + 1) % buffer.Length;
      size := size + 1;
      return 0;
    }

    /** kbuffer_ring_read: the oldest byte, or -1. */
    method Read() returns (c: int)
      requires Valid()
      modifies this
      ensures Valid()
      ensures if |old(Contents())| == 0 then c == -1 && Contents() == [] else
                c == old(Contents())[0] && Contents() == old(Contents())[1..]
    {
      if size == 0 {
        return -1;
      }
      c := buffer[readIdx];
      RingDrop(buffer[..], readIdx, size, 1);
      ModIsWrap(readIdx + 1, buffer.Length);
      readIdx := (readIdx + 1) % buffer.Length;
      size := size - 1;
    }

    /** kbuffer_ring_free: drops up to n of the oldest bytes. */
    method Free(n: nat) returns (freed: nat)
      requires Valid()
      modifies this
      ensures Valid() && freed == Min(n, |old(Contents())|) && Contents() == old(Contents())[freed..]
    {
      var toFree := if n > size then size else n;
      RingDrop(buffer[..], readIdx, size, toFree);
      ModIsWrap(readIdx + toFree, buffer.Length);
      readIdx := (readIdx + toFree) % buffer.Length;
      size := size - toFree;
      return toFree;
    }

    /** kbuffer_ring_available. */
    method Available() returns (n: nat)
      requires Valid()
      ensures n == buffer.Length - |Contents()|
    {
      return buffer.Length - size;
    }
  }
}

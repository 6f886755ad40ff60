/** The ring buffer macros of zb_ringbuffer.h, proved to be a bounded FIFO. */
module RingBuffers {

  /** The slot of the i-th entry counted from the read position. */
  function SlotOf(readI: nat, i: nat, cap: nat): (k: nat)
    requires readI < cap && i <= cap
    ensures k < cap
  {
    if readI + i < cap then readI + i else readI + i - cap
  }

  /** SlotOf is the modular arithmetic of the macros. */
  lemma SlotIsModulo(readI: nat, i: nat, cap: nat)
    requires readI < cap && i <= cap
    ensures SlotOf(readI, i, cap) == (readI + i) % cap
  {
    if readI + i < cap {
      Small(readI + i, cap);
    } else {
      Small(readI + i - cap, cap);
      assert (readI + i - cap + cap) % cap == (readI + i - cap) % cap by { OneTurn(readI + i - cap, cap); }
    }
  }

  lemma Small(x: nat, cap: nat)
    requires x < cap
    ensures x % cap == x
  {
  }

  lemma OneTurn(x: nat, cap: nat)
    requires x < cap
    ensures (x + cap) % cap == x
  {
    assert (x + cap) / cap == 1;
  }

  class RingBuffer<T> {
    const ring: array<T>
    var readI: nat
    var writeI: nat
    var written: nat

    /** The queue's contents, oldest first. */
    ghost var contents: seq<T>

    ghost predicate Valid()
      reads this, ring
    {
      && readI < ring.Length && written <= ring.Length
      && writeI == (readI + written) % ring.Length
      && |contents| == written
      && forall i :: 0 <= i < written ==> contents[i] == ring[SlotOf(readI, i, ring.Length)]
    }

    constructor (capacity: nat, filler: T)
      requires capacity > 0
      ensures Valid() && contents == [] && ring.Length == capacity && fresh(ring)
    {
      ring := new T[capacity](_ => filler);
      readI, writeI, written, contents := 0, 0, 0, [];
    }

    twostate lemma Frame()
      requires old(Valid()) && unchanged(this, ring)
      ensures Valid()
    {
    }

    predicate IsFull()
      reads this
    {
      written >= ring.Length
    }

    predicate IsEmpty()
      reads this
    {
      written == 0
    }

    /** ZB_RING_BUFFER_PUT, or PUT_RESERVE, a write and FLUSH_PUT. The macro itself does not check
        for a full buffer. */
    method Put(value: T)
      requires Valid() && !IsFull()
      modifies this, ring
      ensures Valid() && contents == old(contents) + [value]
      ensures readI == old(readI) && (old(written) > 0 ==> ring[readI] == old(ring[readI]))
    {
      SlotIsModulo(readI, written, ring.Length);
      SlotIsModulo(readI, written + 1, ring.Length);
      NextSlot(writeI, ring.Length);
      ring[writeI] := value;
      written := written + 1;
      writeI := (writeI + 1) % ring.Length;
      contents := contents + [value];
    }

    /** ZB_RING_BUFFER_GET at the read position, for a buffer that is not empty. */
    method Get() returns (value: T)
      requires Valid() && !IsEmpty()
      ensures value == contents[0]
    {
      value := ring[readI];
    }

    /** ZB_RING_BUFFER_FLUSH_GET. The macro itself does not check for an empty buffer. */
    method FlushGet()
      requires Valid() && !IsEmpty()
      modifies this
      ensures Valid() && contents == old(contents)[1..]
    {
      SlotIsModulo(readI, written, ring.Length);
      NextSlot(readI, ring.Length);
      written := written - 1;
      readI := (readI + 1) % ring.Length;
      SlotIsModulo(readI, written, ring.Length);
      contents := contents[1..];
    }
  }

  lemma NextSlot(i: nat, cap: nat)
    requires i < cap
    ensures (i + 1) % cap == if i + 1 < cap then i + 1 else 0
  {
    if i + 1 < cap { Small(i + 1, cap); } else { OneTurn(0, cap); }
  }
}

/** The interrupt-fed ring buffer of avr-midi/bytequeue. */
module ByteQueues {
  import opened Bits

  /** One slot is always left free, so a queue over `length` slots holds at most `length - 1` bytes. */
  class ByteQueue {
    var start: byte
    var end: byte
    const length: byte
    const data: array<byte>

    ghost predicate Valid()
      reads this
    {
      0 < length == data.Length && start < length && end < length
    }

    /** The queue as a sequence, oldest byte first. */
    ghost function Contents(): (s: seq<byte>)
      reads this, data
      requires Valid()
      ensures |s| < length
    {
      Ring(data[..], start, end)
    }

    constructor (storage: array<byte>)
      requires 0 < storage.Length < 0x100
      ensures Valid() && Contents() == []
      ensures data == storage && length == storage.Length
    {
      length := storage.Length;
      data := storage;
      start, end := 0, 0;
    }

    /** Appends `item`, or reports that the queue is full and leaves it alone. */
    method Enqueue(item: byte) returns (ok: bool)
      requires Valid()
      modifies this`end, data
      ensures Valid()
      ensures ok <==> old(|Contents()|) + 1 < length
      ensures Contents() == if ok then old(Contents()) + [item] else old(Contents())
      ensures forall i: nat :: i < old(|Contents()|) ==> data[Slot(i)] == old(data[Slot(i)])
    {
      WrapOnce(end + 1, length);
      if (end + 1) % length == start {
        ok := false;
      } else {
        KeepsSlots();
        data[end] := item;
        end := (end + 1) % length;
        ok := true;
      }
    }

    method Length() returns (len: byte)
      requires Valid()
      ensures len == |Contents()|
    {
      if end >= start {
        len := end - start;
      } else {
        len := (length - start) + end;
      }
    }

    /** The array index that `Get` reads. */
    function Slot(index: nat): (slot: nat)
      reads this`start
      requires 0 < length
      ensures slot < length
    {
      (start + index) % length
    }

    method Get(index: byte) returns (item: byte)
      requires Valid()
      ensures index < |Contents()| ==> item == Contents()[index]
      ensures item == data[Slot(index)]
    {
      if index < |Contents()| { SlotHolds(index); }
      item := data[(start + index) % length];
    }

    lemma SlotHolds(index: nat)
      requires Valid() && index < |Contents()|
      ensures data[Slot(index)] == Contents()[index]
    {
      WrapOnce(start + index, length);
    }

    /** No byte in the queue sits in the slot that the next enqueue writes. */
    lemma KeepsSlots()
      requires Valid()
      ensures forall i: nat :: i < |Contents()| ==> Slot(i) != end
    {
      forall i: nat | i < |Contents()| ensures Slot(i) != end {
        WrapOnce(start + i, length);
      }
    }

    /** Drops `count` bytes from the front. Dropping more than the queue holds would expose stale slots. */
    method Remove(count: byte)
      requires Valid()
      modifies this`start
      ensures Valid()
      ensures start == old(Slot(count))
      ensures count <= old(|Contents()|) ==> Contents() == old(Contents())[count..]
    {
      if count <= |Contents()| { DropFront(data[..], start, end, count); }
      start := (start + count) % length;
    }
  }

  /** What a ring holds, oldest first. */
  function Ring(data: seq<byte>, start: nat, end: nat): seq<byte>
    requires start < |data| && end < |data|
  {
    if start <= end then data[start..end] else data[start..] + data[..end]
  }

  lemma DropFront(data: seq<byte>, start: nat, end: nat, count: nat)
    requires start < |data| && end < |data| && count <= |Ring(data, start, end)|
    ensures Ring(data, (start + count) % |data|, end) == Ring(data, start, end)[count..]
  {
    WrapOnce(start + count, |data|);
  }

  /** Index arithmetic modulo the buffer length wraps at most once. */
  lemma WrapOnce(x: nat, n: nat)
    requires x < 2 * n
    ensures x % n == if x < n then x else x - n
  {
    if x >= n {
      assert x == n * 1 + (x - n);
      assert x / n == 1;
    }
  }
}

/**
  The heap-backed circular buffer: a fixed array of slots, a write cursor
  (head), a read cursor (tail) and a cached full flag. The ghost field
  Contents is the sequence of logically valid elements, oldest first.
 */
module Buffer {
  import Ring
  import Fifo

  class CircularBuffer<T> {
    const buf: array<T>
    const maxSize: nat
    /** The value get returns on an empty buffer (a default-constructed T). */
    const zero: T
    var head: nat
    var tail: nat
    var full: bool
    ghost var Contents: seq<T>

    /** The object invariant: the cursors are in range, the size formula
        gives the number of logically valid elements, and those elements
        are the slots read from tail onwards. */
    ghost predicate Valid()
      reads this, buf
      ensures Valid() ==> |Contents| <= buf.Length
      ensures Valid() ==> (full <==> |Contents| == maxSize)
      ensures Valid() ==> (Contents == [] <==> !full && head == tail)
    {
      && buf.Length == maxSize
      && maxSize > 0
      && Ring.Consistent(head, tail, full, maxSize)
      && |Contents| == Ring.Count(head, tail, full, maxSize)
      && Contents == Ring.Window(buf[..], tail, |Contents|)
    }

    /** A buffer of `size` slots, all holding `zero`; zero capacity is a
        caller error, since insert writes slot 0 and divides by the
        capacity. */
    constructor (size: nat, zero: T)
      requires size > 0
      ensures Valid() && fresh(buf)
      ensures Contents == [] && head == 0 && tail == 0 && !full
      ensures maxSize == size && this.zero == zero
      ensures forall i :: 0 <= i < size ==> buf[i] == zero
    {
      buf := new T[size](_ => zero);
      maxSize := size;
      this.zero := zero;
      head, tail, full := 0, 0, false;
      Contents := [];
    }

    /** Drops all logical content: the write cursor moves to the read
        cursor; the storage is not touched. */
    method Reset()
      requires Valid()
      modifies this
      ensures Valid() && unchanged(buf)
      ensures Contents == []
      ensures head == old(tail) && tail == old(tail) && !full
    {
      head := tail;
      full := false;
      Contents := [];
    }

    function Empty(): (e: bool)
      reads this, buf
      requires Valid()
      ensures e <==> Contents == []
    {
      !full && head == tail
    }

    function Full(): (f: bool)
      reads this, buf
      requires Valid()
      ensures f <==> |Contents| == Capacity()
      ensures f ==> !Empty()
    {
      full
    }

    function Capacity(): (c: nat)
      reads this, buf
      requires Valid()
      ensures c == buf.Length && c > 0
    {
      maxSize
    }

    function Size(): (n: nat)
      reads this, buf
      requires Valid()
      ensures n == |Contents|
      ensures n <= Capacity()
    {
      Ring.Count(head, tail, full, maxSize)
    }

    /** Writes item at head; a full buffer also advances tail, so the oldest
        element is overwritten. */
    method Insert(item: T)
      requires Valid()
      modifies this, buf
      ensures Valid()
      ensures Contents == Fifo.Push(old(Contents), maxSize, item)
      ensures buf[..] == old(buf[..])[old(head) := item]
      ensures head == Ring.Next(old(head), maxSize)
      ensures tail == if old(full) then Ring.Next(old(tail), maxSize) else old(tail)
      ensures full <==> head == tail
    {
      ghost var s, n := buf[..], |Contents|;
      buf[head] := item;
      if full {
        tail := Ring.Next(tail, maxSize);
      }
      head := Ring.Next(head, maxSize);
      full := head == tail;
      Contents := Fifo.Push(Contents, maxSize, item);
      if n == maxSize {
        Ring.WindowRotate(s, old(tail), item);
      } else {
        Ring.WindowAppend(s, tail, n, item);
        Ring.CountOf(head, tail, full, maxSize, n + 1);
      }
    }

    /** Removes and returns the oldest element; on an empty buffer returns
        the default value and changes nothing. */
    method Get() returns (v: T)
      requires Valid()
      modifies this
      ensures Valid() && unchanged(buf)
      ensures v == Fifo.Front(old(Contents), zero)
      ensures Contents == Fifo.Rest(old(Contents))
      ensures old(Empty()) ==> head == old(head) && tail == old(tail) && full == old(full)
      ensures !old(Empty()) ==> head == old(head) && tail == Ring.Next(old(tail), maxSize) && !full
    {
      if Empty() {
        return zero;
      }
      v := buf[tail];
      full := false;
      tail := Ring.Next(tail, maxSize);
      Contents := Contents[1..];
      Ring.CountOf(head, tail, full, maxSize, |Contents|);
    }
  }
}

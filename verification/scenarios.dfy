/**
  Clients of the circular buffer that rely only on its contracts: the
  capacity-3 run with one overwrite, a reset applied twice, and a get on
  an empty buffer.
 */
module Scenarios {
  import opened Buffer

  /** Capacity 3: insert a, b, c (now full), then insert d, which
      overwrites a and leaves the buffer full. */
  method FillThenOverwrite<T>(a: T, b: T, c: T, d: T, zero: T)
    returns (buffer: CircularBuffer<T>, sizes: seq<nat>, fulls: seq<bool>)
    ensures fresh(buffer) && fresh(buffer.buf) && buffer.Valid()
    ensures buffer.Contents == [b, c, d] && buffer.zero == zero
    ensures sizes == [3, 3] && fulls == [true, true]
  {
    buffer := new CircularBuffer<T>(3, zero);
    buffer.Insert(a);
    buffer.Insert(b);
    buffer.Insert(c);
    assert buffer.Contents == [a, b, c];
    sizes, fulls := [buffer.Size()], [buffer.Full()];
    buffer.Insert(d);
    assert buffer.Contents == [b, c, d];
    sizes, fulls := sizes + [buffer.Size()], fulls + [buffer.Full()];
  }

  /** Continuing the run above, three gets return b, c, d; the first leaves
      two elements and clears the flag, the last leaves the buffer empty. */
  method OverwriteThenDrain<T>(a: T, b: T, c: T, d: T, zero: T)
    returns (out: seq<T>, sizes: seq<nat>, fulls: seq<bool>, emptyAtEnd: bool)
    ensures out == [b, c, d]
    ensures sizes == [3, 3, 2, 0]
    ensures fulls == [true, true, false, false]
    ensures emptyAtEnd
  {
    var buffer;
    buffer, sizes, fulls := FillThenOverwrite(a, b, c, d, zero);
    var v := buffer.Get();
    assert buffer.Contents == [c, d];
    sizes, fulls := sizes + [buffer.Size()], fulls + [buffer.Full()];
    out := [v];
    v := buffer.Get();
    out := out + [v];
    v := buffer.Get();
    out := out + [v];
    sizes, fulls := sizes + [buffer.Size()], fulls + [buffer.Full()];
    emptyAtEnd := buffer.Empty();
  }

  /** A second reset leaves the state exactly as the first left it. */
  method ResetTwice<T>(buffer: CircularBuffer<T>)
    requires buffer.Valid()
    modifies buffer
    ensures buffer.Valid() && buffer.Empty() && buffer.Size() == 0
    ensures buffer.head == old(buffer.tail) && buffer.tail == old(buffer.tail)
    ensures unchanged(buffer.buf)
  {
    buffer.Reset();
    ghost var once := (buffer.head, buffer.tail, buffer.full, buffer.Contents);
    buffer.Reset();
    assert (buffer.head, buffer.tail, buffer.full, buffer.Contents) == once;
  }

  /** Get on an empty buffer returns the default value and changes neither
      the size nor the flags. */
  method GetOnEmpty<T>(buffer: CircularBuffer<T>) returns (v: T)
    requires buffer.Valid() && buffer.Empty()
    modifies buffer
    ensures v == buffer.zero
    ensures buffer.Valid() && buffer.Empty() && !buffer.Full() && buffer.Size() == 0
  {
    v := buffer.Get();
  }
}

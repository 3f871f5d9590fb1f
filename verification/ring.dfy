/**
  Cursor arithmetic of the circular buffer: how the write cursor (head) and
  the read cursor (tail) advance modulo the capacity, how the logical size
  is computed from them and the cached full flag, and which slots of the
  storage hold the logically valid elements.
 */
module Ring {

  /** A cursor advanced by one slot, modulo the capacity: it wraps to 0
      from the last slot. */
  function Next(i: nat, c: nat): (r: nat)
    requires i < c
    ensures r < c
  {
    if i + 1 == c then 0 else i + 1
  }

  /** Next is the source's cursor update `(i + 1) % capacity`. */
  lemma NextIsModulo(i: nat, c: nat)
    requires i < c
    ensures Next(i, c) == (i + 1) % c
  {
  }

  /** The slot i places after tail, wrapping at most once since i never
      exceeds the capacity. */
  function Slot(tail: nat, i: nat, c: nat): (r: nat)
    requires tail < c && i <= c
    ensures r < c
  {
    if tail + i < c then tail + i else tail + i - c
  }

  /** Slot is `(tail + i) % capacity`. */
  lemma SlotIsModulo(tail: nat, i: nat, c: nat)
    requires tail < c && i <= c
    ensures Slot(tail, i, c) == (tail + i) % c
  {
  }

  /** The cursor invariant: both cursors are in range, and a full buffer has
      its cursors equal (the flag is what tells full from empty then). */
  predicate Consistent(head: nat, tail: nat, full: bool, c: nat)
    ensures Consistent(head, tail, full, c) ==> 0 < c
  {
    head < c && tail < c && (full ==> head == tail)
  }

  /** The logical element count, computed from the cursors and the flag. */
  function Count(head: nat, tail: nat, full: bool, c: nat): (n: nat)
    requires Consistent(head, tail, full, c)
    ensures n <= c
    ensures full <==> n == c
    ensures Slot(tail, n, c) == head
  {
    if full then c else if head >= tail then head - tail else c + head - tail
  }

  /** Count is the only count that fits the cursors: n elements read from
      tail end just before head, and the flag is set exactly at n == c. */
  lemma CountOf(head: nat, tail: nat, full: bool, c: nat, n: nat)
    requires tail < c && n <= c
    requires head == Slot(tail, n, c)
    requires full <==> n == c
    ensures Consistent(head, tail, full, c)
    ensures Count(head, tail, full, c) == n
  {
  }

  /** The n slots of s read from tail onwards, wrapping at the end of s. */
  function Window<T>(s: seq<T>, tail: nat, n: nat): (w: seq<T>)
    requires tail < |s| && n <= |s|
    ensures |w| == n
    decreases n
  {
    if n == 0 then [] else [s[tail]] + Window(s, Next(tail, |s|), n - 1)
  }

  /** The i-th element of a window is the slot i places after tail. */
  lemma {:induction false} WindowAt<T>(s: seq<T>, tail: nat, n: nat, i: nat)
    requires tail < |s| && n <= |s| && i < n
    ensures Window(s, tail, n)[i] == s[Slot(tail, i, |s|)]
    decreases n
  {
    if i > 0 {
      WindowAt(s, Next(tail, |s|), n - 1, i - 1);
    }
  }

  /** Writing x at the first slot after a window of n < |s| elements
      extends the window by x and leaves its elements in place. */
  lemma WindowAppend<T>(s: seq<T>, tail: nat, n: nat, x: T)
    requires tail < |s| && n < |s|
    ensures Window(s[Slot(tail, n, |s|) := x], tail, n + 1) == Window(s, tail, n) + [x]
  {
    var s' := s[Slot(tail, n, |s|) := x];
    forall i | 0 <= i < n + 1
      ensures Window(s', tail, n + 1)[i] == (Window(s, tail, n) + [x])[i]
    {
      WindowAt(s', tail, n + 1, i);
      if i < n {
        WindowAt(s, tail, n, i);
      }
    }
  }

  /** Overwriting the slot at tail of a window that covers all of s, and
      starting the window one slot later, drops the oldest element and
      appends x. */
  lemma WindowRotate<T>(s: seq<T>, tail: nat, x: T)
    requires tail < |s|
    ensures Window(s[tail := x], Next(tail, |s|), |s|) == Window(s, tail, |s|)[1..] + [x]
  {
    var s' := s[tail := x];
    var t' := Next(tail, |s|);
    var w := Window(s, tail, |s|);
    var w' := Window(s', t', |s|);
    forall i | 0 <= i < |s|
      ensures w'[i] == (w[1..] + [x])[i]
    {
      WindowAt(s', t', |s|, i);
      var slot := Slot(t', i, |s|);
      if i < |s| - 1 {
        WindowAt(s, tail, |s|, i + 1);
        assert slot == Slot(tail, i + 1, |s|) != tail;
        assert w'[i] == s[slot] == w[i + 1];
      } else {
        assert slot == tail;
      }
    }
  }
}

/**
  The logical behaviour of the circular buffer as a bounded "most recent N"
  queue over sequences: what insert and get do to the sequence of logically
  valid elements, oldest first, and what repeated inserts and repeated gets
  amount to.
 */
module Fifo {

  /** The last k elements of s (all of s when it is shorter). */
  function Newest<T>(s: seq<T>, k: nat): seq<T>
  {
    if |s| <= k then s else s[|s| - k..]
  }

  /** Insert: append x; when the buffer already holds cap elements, the
      oldest one is dropped, so the newest cap elements are kept. */
  function Push<T>(c: seq<T>, cap: nat, x: T): (r: seq<T>)
    requires 0 < cap && |c| <= cap
    ensures r == Newest(c + [x], cap)
    ensures |r| == if |c| == cap then cap else |c| + 1
    ensures r[|r| - 1] == x
  {
    if |c| == cap then c[1..] + [x] else c + [x]
  }

  /** Inserting every element of xs in order. */
  function PushAll<T>(c: seq<T>, cap: nat, xs: seq<T>): (r: seq<T>)
    requires 0 < cap && |c| <= cap
    ensures |r| <= cap
    decreases |xs|
  {
    if xs == [] then c else PushAll(Push(c, cap, xs[0]), cap, xs[1..])
  }

  /** Keeping the newest k, then appending and keeping the newest k again,
      is the same as keeping the newest k of the whole. */
  lemma NewestAppend<T>(s: seq<T>, ys: seq<T>, k: nat)
    ensures Newest(Newest(s, k) + ys, k) == Newest(s + ys, k)
  {
  }

  /** Overwrite-oldest law, general form: any run of inserts leaves exactly
      the newest cap elements of everything inserted, in insertion order. */
  lemma {:induction false} PushAllKeepsNewest<T>(c: seq<T>, cap: nat, xs: seq<T>)
    requires 0 < cap && |c| <= cap
    ensures PushAll(c, cap, xs) == Newest(c + xs, cap)
    decreases |xs|
  {
    if xs != [] {
      var c' := Push(c, cap, xs[0]);
      calc {
        PushAll(c, cap, xs);
        PushAll(c', cap, xs[1..]);
        { PushAllKeepsNewest(c', cap, xs[1..]); }
        Newest(Newest(c + [xs[0]], cap) + xs[1..], cap);
        { NewestAppend(c + [xs[0]], xs[1..], cap); }
        Newest(c + [xs[0]] + xs[1..], cap);
        { assert c + [xs[0]] + xs[1..] == c + xs; }
        Newest(c + xs, cap);
      }
    }
  }

  /** Get's result: the oldest element, or the default when there is none. */
  function Front<T>(c: seq<T>, zero: T): (r: T)
    ensures c != [] ==> [r] + Rest(c) == c
    ensures c == [] ==> r == zero
  {
    if c == [] then zero else c[0]
  }

  /** Get's effect: the oldest element is removed; nothing on empty. */
  function Rest<T>(c: seq<T>): (r: seq<T>)
    ensures |r| == if c == [] then 0 else |c| - 1
    ensures r == c[|c| - |r|..]
  {
    if c == [] then [] else c[1..]
  }

  /** The values returned by k consecutive gets. */
  function Drained<T>(c: seq<T>, k: nat, zero: T): (out: seq<T>)
    ensures |out| == k
  {
    if k == 0 then [] else [Front(c, zero)] + Drained(Rest(c), k - 1, zero)
  }

  /** What is left after k consecutive gets. */
  function Remaining<T>(c: seq<T>, k: nat): (r: seq<T>)
    ensures |r| == if k <= |c| then |c| - k else 0
  {
    if k == 0 then c else Remaining(Rest(c), k - 1)
  }

  /** k default values are one default followed by k - 1 of them. */
  lemma DefaultsCons<T>(k: nat, zero: T)
    requires k > 0
    ensures seq(k, _ => zero) == [zero] + seq(k - 1, _ => zero)
  {
  }

  /** FIFO order: k gets on a buffer holding at least k elements return the
      k oldest in order and leave the rest; more gets than elements return
      the default for each missing one and leave the buffer empty. */
  lemma {:induction false} DrainInOrder<T>(c: seq<T>, k: nat, zero: T)
    ensures k <= |c| ==> Drained(c, k, zero) == c[..k] && Remaining(c, k) == c[k..]
    ensures k > |c| ==> Drained(c, k, zero) == c + seq(k - |c|, _ => zero)
    ensures k > |c| ==> Remaining(c, k) == []
  {
    if k > 0 {
      var rest := Rest(c);
      DrainInOrder(rest, k - 1, zero);
      assert Drained(c, k, zero) == [Front(c, zero)] + Drained(rest, k - 1, zero);
      assert Remaining(c, k) == Remaining(rest, k - 1);
      if c == [] {
        DefaultsCons(k, zero);
      } else {
        assert rest == c[1..];
        if k <= |c| {
          assert c[..k] == [c[0]] + rest[..k - 1];
          assert c[k..] == rest[k - 1..];
        } else {
          assert c + seq(k - |c|, _ => zero) == [c[0]] + (rest + seq(k - |c|, _ => zero));
        }
      }
    }
  }

  /** Round trip: at most cap inserts into an empty buffer followed by as
      many gets return the inserted values in order and leave it empty. */
  lemma RoundTrip<T>(cap: nat, xs: seq<T>, zero: T)
    requires 0 < cap && |xs| <= cap
    ensures PushAll([], cap, xs) == xs
    ensures Drained(PushAll([], cap, xs), |xs|, zero) == xs
    ensures Remaining(PushAll([], cap, xs), |xs|) == []
  {
    PushAllKeepsNewest([], cap, xs);
    assert [] + xs == xs;
    DrainInOrder(xs, |xs|, zero);
  }

  /** Overwrite-oldest law: cap + 1 inserts into an empty buffer discard the
      first; draining cap times returns the others and leaves it empty. */
  lemma OverwriteOldest<T>(cap: nat, xs: seq<T>, zero: T)
    requires 0 < cap && |xs| == cap + 1
    ensures PushAll([], cap, xs) == xs[1..]
    ensures Drained(PushAll([], cap, xs), cap, zero) == xs[1..]
    ensures Remaining(PushAll([], cap, xs), cap) == []
  {
    PushAllKeepsNewest([], cap, xs);
    assert [] + xs == xs;
    DrainInOrder(xs[1..], cap, zero);
  }
}

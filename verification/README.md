# Circular buffer, modelled and verified in Dafny

This project models `CircularBuffer<T>` from `src/CircularBuffer.h`. It is a
fixed-capacity ring buffer. It owns an array of `max_size_` slots and keeps
two cursors into it: `head_` is where the next insert writes, and `tail_` is
where the next get reads. A cached `full_` flag separates two cases that
look alike: equal cursors on an empty buffer, and equal cursors on a full one.

- `insert` writes at `head_`. When the buffer is full it also advances
  `tail_`, so the oldest element is overwritten and the newest N are kept.
- `get` returns the oldest element and advances `tail_`. On an empty buffer
  it returns a default value and changes nothing.
- `reset` moves `head_` onto `tail_` and clears the flag. The slots are not
  touched. So the write cursor moves to the read cursor, not the reverse,
  and the next insert writes at the old `tail_`.
- `empty`, `full`, `capacity` and `size` are queries over the fields.

The model has four modules:

- `Ring` (ring.dfy): the cursor arithmetic. It has the one-slot advance
  `Next` (the source's `(i + 1) % max_size_`), the size formula `Count`, and
  `Window`, the sequence of slots read from `tail` for a given number of
  elements. Lemmas say how writing one slot changes a window.
- `Fifo` (fifo.dfy): the logical behaviour as a "most recent N" queue over
  sequences. `Push` is what insert does to the valid elements. `Front` and
  `Rest` are what get does. Lemmas cover runs of inserts and runs of gets.
- `Buffer` (circular_buffer.dfy): the class `CircularBuffer<T>`. It holds
  the array `buf`, the constant `maxSize`, the fields `head`, `tail` and
  `full`, and a ghost sequence `Contents` of the valid elements, oldest
  first. `Valid()` is the object invariant. It says the cursors are below
  the capacity, that a full buffer has equal cursors, that `Count` gives
  `|Contents|`, and that `Contents` is the window of `buf` read from `tail`.
  Insert, Get and Reset update the fields and the array in place. Their
  contracts tie the new `Contents` to `Fifo.Push` / `Fifo.Rest` of the old
  one, and state every field's new value.
- `Scenarios` (scenarios.dfy): clients that rely only on the class
  contracts. One is the capacity-3 run with one overwrite. The others are a
  double reset and a get on an empty buffer.

The C++ value-initialised `T()` that `get` returns on an empty buffer is
the constructor parameter `zero`. The model also fills the array's initial
slots with `zero`. In the source, `new T[size]` default-initialises them,
which leaves a scalar `T` indeterminate. This never shows: `Valid()` keeps
every slot that get can read inside the window of written elements.

## Model

| member | source | states |
|---|---|---|
| Ring.Next | src/CircularBuffer.h:134-137 | advancing a cursor below the capacity gives a cursor below the capacity |
| Ring.NextIsModulo | src/CircularBuffer.h:134-137 | the advance equals the source's `(i + 1) % max_size_` for every cursor in range |
| Ring.Slot | src/CircularBuffer.h:134-137 | the slot i places after tail (i at most the capacity) is below the capacity |
| Ring.SlotIsModulo | src/CircularBuffer.h:134-137 | that slot is `(tail + i) % max_size_`, the index arithmetic of the source's cursor updates |
| Ring.Consistent | src/CircularBuffer.h:36-39 | the cursor invariant (both cursors below the capacity, a full buffer has equal cursors) can only hold for a positive capacity |
| Ring.Count | src/CircularBuffer.h:101-119 | the size is at most the capacity; it equals the capacity exactly when the flag is set; counting that many slots on from tail lands on head |
| Ring.CountOf | src/CircularBuffer.h:101-119 | conversely, if n slots on from tail is head and the flag is set exactly when n is the capacity, then the cursors are consistent and size() returns n |
| Ring.Window | src/CircularBuffer.h:157-159 | the valid elements read from tail are exactly as many as the size |
| Ring.WindowAt | src/CircularBuffer.h:157-159 | the i-th oldest element is stored in slot (tail + i) mod capacity |
| Ring.WindowAppend | src/CircularBuffer.h:130-139 | on a non-full buffer, writing the item at head appends it after the existing elements, which keep their slots and order |
| Ring.WindowRotate | src/CircularBuffer.h:130-139 | on a full buffer, writing the item at head (which equals tail) and advancing tail drops the oldest element and appends the item |
| Fifo.Push | src/CircularBuffer.h:127-140 | an insert keeps the newest capacity-many of (the old contents followed by the item); the size grows by one unless already full; the item is last |
| Fifo.PushAll | src/CircularBuffer.h:127-140 | a run of inserts never leaves more than the capacity |
| Fifo.PushAllKeepsNewest | src/CircularBuffer.h:127-140 | any run of inserts leaves exactly the newest capacity-many of (the old contents followed by the inserted items), in insertion order |
| Fifo.Front | src/CircularBuffer.h:151-157 | get's result: the default on an empty buffer; otherwise the element that, put before what get leaves, gives back the old contents |
| Fifo.Rest | src/CircularBuffer.h:151-159 | get's effect: an empty buffer stays empty; otherwise one element fewer, and what is left is a suffix of the old contents |
| Fifo.Remaining | src/CircularBuffer.h:151-159 | k gets leave the size reduced by k, or empty when there were fewer than k elements |
| Fifo.Drained | src/CircularBuffer.h:148-162 | k gets return k values |
| Fifo.DrainInOrder | src/CircularBuffer.h:148-162 | FIFO: k gets on at least k elements return the k oldest in order and leave the rest; extra gets return the default and leave the buffer empty |
| Fifo.RoundTrip | src/CircularBuffer.h:127-162 | up to capacity inserts into an empty buffer, then as many gets, return the inserted values in order and leave it empty |
| Fifo.OverwriteOldest | src/CircularBuffer.h:127-162 | capacity + 1 inserts into an empty buffer discard the first; draining capacity times returns the rest in order and leaves it empty |
| Buffer.CircularBuffer.Valid | src/CircularBuffer.h:35-39 | the object invariant over buf_, head_, tail_, max_size_ and full_; it implies at most capacity elements, the flag set exactly at capacity, and empty exactly when the flag is clear and the cursors are equal |
| Buffer.CircularBuffer.constructor | src/CircularBuffer.h:24-39 | a new buffer of positive capacity is valid and empty with both cursors 0, the flag clear, the capacity as given and every slot holding the default value |
| Buffer.CircularBuffer.Reset | src/CircularBuffer.h:48-52 | the contents become empty; head moves to tail, tail stays, the flag is cleared, the storage is unchanged |
| Buffer.CircularBuffer.Empty | src/CircularBuffer.h:61-66 | true exactly when there are no valid elements |
| Buffer.CircularBuffer.Full | src/CircularBuffer.h:75-80 | true exactly when the size equals the capacity, and never together with empty |
| Buffer.CircularBuffer.Capacity | src/CircularBuffer.h:88-92 | the capacity is the number of slots and is positive |
| Buffer.CircularBuffer.Size | src/CircularBuffer.h:101-119 | the number of valid elements, at most the capacity |
| Buffer.CircularBuffer.Insert | src/CircularBuffer.h:127-140 | the contents become `Fifo.Push` of the old contents; only slot old head of the storage changes, to the item; head advances; tail advances exactly when the buffer was full; the flag is set exactly when the cursors meet |
| Buffer.CircularBuffer.Get | src/CircularBuffer.h:148-162 | returns the oldest element, or the default on an empty buffer; removes that element; an empty buffer keeps head, tail and flag; otherwise head stays, tail advances and the flag is cleared; the storage is unchanged |
| Scenarios.FillThenOverwrite | src/CircularBuffer.h:127-140 | capacity 3: after inserting a, b, c the buffer is full with size 3; inserting d leaves b, c, d, still full with size 3 |
| Scenarios.OverwriteThenDrain | src/CircularBuffer.h:127-162 | capacity 3, a b c d inserted: three gets return b, c, d; sizes go 3, 3, 2, 0; full goes true, true, false, false; the buffer ends empty |
| Scenarios.ResetTwice | src/CircularBuffer.h:48-52 | a second reset leaves the state exactly as the first did: empty, size 0, head on the old tail, storage unchanged |
| Scenarios.GetOnEmpty | src/CircularBuffer.h:148-154 | get on an empty buffer returns the default and the buffer stays empty, not full, size 0 |

## Left out

- Concurrency: the header includes `<mutex>` and `<thread>` (src/CircularBuffer.h:16, 18) but never uses them. The model is sequential.
- Ownership through `std::unique_ptr<T[]>` and `new T[size]` (src/CircularBuffer.h:24, 35). The storage is a Dafny array allocated once by the constructor and never released.
- `T()`: the value-initialised default is a value `zero` given to the constructor. The model also fills the initial slots with it. The source leaves those slots indeterminate for a scalar `T` or an aggregate without a user-provided constructor. `Valid()` ensures no get reads a slot that was never written.
- `size_t` width: cursors are unbounded naturals kept below the capacity. No expression in the source can overflow for such cursors.
- Zero capacity: in the source only insert faults. It writes `buf_[0]` out of bounds of a zero-length array (src/CircularBuffer.h:130), then takes `% 0` (lines 134, 137). The queries work, and get on the always-empty buffer returns `T()` before any `%` (lines 151-153). The constructor requires `size > 0`, so the model has no fault to model.
- A checked get that tells "no element" apart from a default-valued element. The source has no such operation.
- A variant with storage inline in the object. It is not in src/CircularBuffer.h.

/**
  A fixed-capacity circular queue (org.demo.adt.RingBuffer).

  The buffer is an immutable value: every operation that the Java class
  performs in place returns the new state instead. A slot holding `null`
  is `None`; items themselves are never null.
 */
module RingBuffers {
  import opened Wrappers

  /** Number of slots of a buffer built with the no-argument constructor. */
  const DefaultCapacity: nat := 10

  /**
    `slots` is the backing list, `head` the next slot to write, `tail` the
    next slot to read and `counter` the number of occupied slots.
   */
  datatype RingBuffer<T> = RingBuffer(
    slots: seq<Option<T>>,
    head: nat,
    tail: nat,
    counter: nat,
    capacity: nat)

  /**
    Slot that lies `k` places after the read position, going round once at
    most: `(tail + k) % capacity` for every offset up to the capacity.
   */
  function Index<T>(b: RingBuffer<T>, k: nat): (i: nat)
    requires b.tail < b.capacity && k <= b.capacity
    ensures i < b.capacity
  {
    if b.tail + k < b.capacity then b.tail + k else b.tail + k - b.capacity
  }

  /**
    The representation invariant: the occupied slots are exactly the
    circular run of `counter` slots that starts at `tail`, and `head` is
    the slot just after that run.
   */
  ghost predicate Valid<T>(b: RingBuffer<T>) {
    && |b.slots| == b.capacity
    && b.counter <= b.capacity
    && (b.capacity == 0 ==> b.head == 0 && b.tail == 0)
    && (b.capacity > 0 ==>
          b.head < b.capacity && b.tail < b.capacity && b.head == Index(b, b.counter))
    && (forall k: nat :: k < b.counter ==> b.slots[Index(b, k)].Some?)
    && (forall k: nat :: b.counter <= k < b.capacity ==> b.slots[Index(b, k)].None?)
  }

  /** The abstract queue: the occupied run read from `tail`, oldest first. */
  ghost function Contents<T>(b: RingBuffer<T>): (s: seq<T>)
    requires Valid(b)
    ensures |s| == b.counter
    ensures forall k: nat :: k < |s| ==> Some(s[k]) == b.slots[Index(b, k)]
  {
    seq(b.counter, k requires 0 <= k < b.counter => b.slots[Index(b, k)].value)
  }

  /**
    `RingBuffer(int initialCapacity)`: `initialCapacity` empty slots.
    A negative capacity makes the backing list's constructor throw, which
    is `None` here.
   */
  function New<T>(initialCapacity: int): (r: Option<RingBuffer<T>>)
    ensures r.None? <==> initialCapacity < 0
    ensures r.Some? ==> Valid(r.value) && Contents(r.value) == []
    ensures r.Some? ==> r.value.capacity == initialCapacity
    ensures r.Some? ==> r.value.head == 0 && r.value.tail == 0 && r.value.counter == 0
    ensures r.Some? ==> forall i :: 0 <= i < |r.value.slots| ==> r.value.slots[i] == None
  {
    if initialCapacity < 0 then None
    else Some(RingBuffer(seq(initialCapacity, _ => None), 0, 0, 0, initialCapacity))
  }

  /** `RingBuffer()`: the same as `RingBuffer(10)`. */
  function NewDefault<T>(): (r: RingBuffer<T>)
    ensures Valid(r) && Contents(r) == []
    ensures r.capacity == DefaultCapacity
    ensures r.head == 0 && r.tail == 0
  {
    New(DefaultCapacity).value
  }

  /** `isFull()`. */
  function IsFull<T>(b: RingBuffer<T>): (full: bool)
    ensures Valid(b) ==> (full <==> |Contents(b)| == b.capacity)
  {
    b.counter == b.capacity
  }

  /** `isEmpty()`. */
  function IsEmpty<T>(b: RingBuffer<T>): (empty: bool)
    ensures Valid(b) ==> (empty <==> Contents(b) == [])
  {
    b.counter == 0
  }

  /** `size()`. */
  function Size<T>(b: RingBuffer<T>): (n: nat)
    ensures Valid(b) ==> n == |Contents(b)| <= b.capacity
  {
    b.counter
  }

  /**
    `push(t)`: a full buffer is returned as it is; otherwise `item` goes
    into the slot at `head` and `head` moves one slot on, going round.
   */
  function Push<T>(b: RingBuffer<T>, item: T): (r: RingBuffer<T>)
    requires Valid(b)
    ensures Valid(r)
    ensures r.capacity == b.capacity && r.tail == b.tail
    ensures IsFull(b) ==> r == b
    ensures !IsFull(b) ==> Contents(r) == Contents(b) + [item]
  {
    if IsFull(b) then b
    else
      var r := RingBuffer(b.slots[b.head := Some(item)], (b.head + 1) % b.capacity,
                          b.tail, b.counter + 1, b.capacity);
      PushStep(b, item, r);
      r
  }

  /**
    `pop()`: an empty buffer yields `None` and stays as it is; otherwise
    the item at `tail` is returned, its slot cleared and `tail` moved one
    slot on, going round.
   */
  function Pop<T>(b: RingBuffer<T>): (r: (Option<T>, RingBuffer<T>))
    requires Valid(b)
    ensures Valid(r.1)
    ensures r.1.capacity == b.capacity && r.1.head == b.head
    ensures IsEmpty(b) ==> r.0 == None && r.1 == b
    ensures !IsEmpty(b) ==> r.0 == Some(Contents(b)[0]) && Contents(r.1) == Contents(b)[1..]
    ensures !IsEmpty(b) ==> r.1.slots[b.tail] == None
  {
    if IsEmpty(b) then (None, b)
    else
      var r := RingBuffer(b.slots[b.tail := None], b.head, (b.tail + 1) % b.capacity,
                          b.counter - 1, b.capacity);
      PopStep(b, r);
      (b.slots[b.tail], r)
  }

  /** `peek()`: what `pop()` would return, without changing the buffer. */
  function Peek<T>(b: RingBuffer<T>): (r: Option<T>)
    requires Valid(b)
    ensures r == Pop(b).0
    ensures r == if Contents(b) == [] then None else Some(Contents(b)[0])
  {
    if IsEmpty(b) then None else b.slots[b.tail]
  }

  // ---------------------------------------------------------------------
  // Modular arithmetic on slot positions

  /** Reducing a number below twice the modulus subtracts it at most once. */
  lemma ModOnce(a: int, n: int)
    requires 0 < n && 0 <= a < 2 * n
    ensures a % n == if a < n then a else a - n
  {
  }

  /**
    `Index` is the position the Java code computes with `%`: in a valid
    buffer, `head == (tail + counter) % capacity`.
   */
  lemma IndexIsMod<T>(b: RingBuffer<T>, k: nat)
    requires b.tail < b.capacity && k <= b.capacity
    ensures Index(b, k) == (b.tail + k) % b.capacity
  {
    ModOnce(b.tail + k, b.capacity);
  }

  // ---------------------------------------------------------------------
  // The two mutations preserve the invariant and refine to the queue

  /** The state `push` builds on a buffer that is not full. */
  lemma PushStep<T>(b: RingBuffer<T>, item: T, r: RingBuffer<T>)
    requires Valid(b) && b.counter < b.capacity
    requires r == RingBuffer(b.slots[b.head := Some(item)], (b.head + 1) % b.capacity,
                             b.tail, b.counter + 1, b.capacity)
    ensures Valid(r) && Contents(r) == Contents(b) + [item]
  {
    ModOnce(b.head + 1, b.capacity);
    assert r.head == Index(r, r.counter);
    forall k: nat | k < r.counter
      ensures r.slots[Index(r, k)].Some?
    {
      assert Index(r, k) == Index(b, k);
    }
    forall k: nat | r.counter <= k < r.capacity
      ensures r.slots[Index(r, k)].None?
    {
      assert Index(r, k) == Index(b, k) != b.head;
    }
    assert Valid(r);
    forall k: nat | k < b.counter
      ensures Contents(r)[k] == Contents(b)[k]
    {
      assert Index(r, k) == Index(b, k) != b.head;
    }
    assert Contents(r)[b.counter] == item by {
      assert Index(r, b.counter) == b.head;
    }
  }

  /** The state `pop` builds on a buffer that is not empty. */
  lemma PopStep<T>(b: RingBuffer<T>, r: RingBuffer<T>)
    requires Valid(b) && b.counter > 0
    requires r == RingBuffer(b.slots[b.tail := None], b.head, (b.tail + 1) % b.capacity,
                             b.counter - 1, b.capacity)
    ensures Valid(r)
    ensures b.slots[b.tail] == Some(Contents(b)[0])
    ensures Contents(r) == Contents(b)[1..]
  {
    ModOnce(b.tail + 1, b.capacity);
    assert Index(b, 0) == b.tail;
    forall k: nat | k < r.capacity
      ensures Index(r, k) == Index(b, k + 1)
    {
    }
    assert r.head == Index(r, r.counter);
    forall k: nat | k < r.counter
      ensures r.slots[Index(r, k)].Some?
    {
      assert Index(b, k + 1) != b.tail;
    }
    forall k: nat | r.counter <= k < r.capacity
      ensures r.slots[Index(r, k)].None?
    {
    }
    assert Valid(r);
    var before, after := Contents(b), Contents(r);
    forall k: nat | k < r.counter
      ensures after[k] == before[1..][k]
    {
      assert Index(b, k + 1) != b.tail;
    }
    assert after == before[1..];
  }
}

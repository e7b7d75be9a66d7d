/**
  Properties of `RingBuffer` seen as a queue: where the occupied slots lie,
  how the full/empty queries relate, and the FIFO order of a run of pushes
  followed by a run of pops.
 */
module RingBufferQueue {
  import opened Wrappers
  import opened RingBuffers

  /** Offset of slot `i` from the read position, going round. */
  function Offset<T>(b: RingBuffer<T>, i: nat): (k: nat)
    requires 0 < b.capacity && b.tail < b.capacity && i < b.capacity
    ensures k < b.capacity && Index(b, k) == i
  {
    if b.tail <= i then i - b.tail else i + b.capacity - b.tail
  }

  /**
    A slot holds an item exactly when it lies in the circular run of
    `counter` slots starting at `tail`; every other slot is null.
   */
  lemma SlotOccupied<T>(b: RingBuffer<T>, i: nat)
    requires Valid(b) && i < b.capacity
    ensures b.slots[i].Some? <==> Offset(b, i) < b.counter
  {
    var k := Offset(b, i);
    if k < b.counter {
      assert b.slots[Index(b, k)].Some?;
    } else {
      assert b.slots[Index(b, k)].None?;
    }
  }

  /** A buffer is both full and empty only when it has no slots at all. */
  lemma FullAndEmpty<T>(b: RingBuffer<T>)
    requires Valid(b)
    ensures IsFull(b) && IsEmpty(b) <==> b.capacity == 0
  {
  }

  /** `push` applied to each item of `items` in turn. */
  function PushAll<T>(b: RingBuffer<T>, items: seq<T>): (r: RingBuffer<T>)
    requires Valid(b)
    ensures Valid(r) && r.capacity == b.capacity
    decreases |items|
  {
    if items == [] then b else PushAll(Push(b, items[0]), items[1..])
  }

  /** `pop` applied `n` times, collecting what each call returned. */
  function PopMany<T>(b: RingBuffer<T>, n: nat): (r: (seq<Option<T>>, RingBuffer<T>))
    requires Valid(b)
    ensures Valid(r.1) && |r.0| == n && r.1.capacity == b.capacity
    decreases n
  {
    if n == 0 then ([], b)
    else
      var (x, b') := Pop(b);
      var (xs, b'') := PopMany(b', n - 1);
      ([x] + xs, b'')
  }

  /** Each item wrapped as a non-null result. */
  function Somes<T>(xs: seq<T>): (r: seq<Option<T>>)
    ensures |r| == |xs| && forall k :: 0 <= k < |xs| ==> r[k] == Some(xs[k])
  {
    seq(|xs|, k requires 0 <= k < |xs| => Some(xs[k]))
  }

  /** The smaller of two naturals: the queue length a run of pushes stops at. */
  function Min(a: nat, b: nat): (m: nat) {
    if a <= b then a else b
  }

  /**
    Pushes append to the queue until it is full; every push made while it
    is full is dropped.
   */
  lemma {:induction false} PushAllContents<T>(b: RingBuffer<T>, items: seq<T>)
    requires Valid(b)
    ensures Contents(PushAll(b, items))
         == (Contents(b) + items)[..Min(b.capacity, |Contents(b)| + |items|)]
    decreases |items|
  {
    var c := Contents(b);
    if items == [] {
      assert c + items == c;
    } else {
      var b' := Push(b, items[0]);
      PushAllContents(b', items[1..]);
      if IsFull(b) {
        DroppedPush(c, items, b.capacity);
      } else {
        AcceptedPush(c, items, b.capacity);
      }
    }
  }

  /** Truncation to a full queue: a dropped first item changes nothing. */
  lemma DroppedPush<X>(c: seq<X>, items: seq<X>, cap: nat)
    requires items != [] && |c| == cap
    ensures (c + items[1..])[..Min(cap, |c| + |items[1..]|)] == (c + items)[..Min(cap, |c| + |items|)]
  {
    assert (c + items[1..])[..cap] == c;
    assert (c + items)[..cap] == c;
  }

  /** Truncation below the capacity: appending the first item, then the rest. */
  lemma AcceptedPush<X>(c: seq<X>, items: seq<X>, cap: nat)
    requires items != [] && |c| < cap
    ensures ((c + [items[0]]) + items[1..])[..Min(cap, |c + [items[0]]| + |items[1..]|)]
         == (c + items)[..Min(cap, |c| + |items|)]
  {
    assert (c + [items[0]]) + items[1..] == c + items;
  }

  /**
    Popping `n` times from a queue holding at least `n` items returns its
    first `n` items, oldest first, and leaves the rest.
   */
  lemma {:induction false} PopManyContents<T>(b: RingBuffer<T>, n: nat)
    requires Valid(b) && n <= |Contents(b)|
    ensures PopMany(b, n).0 == Somes(Contents(b)[..n])
    ensures Contents(PopMany(b, n).1) == Contents(b)[n..]
    decreases n
  {
    if n > 0 {
      var c := Contents(b);
      var p := Pop(b);
      PopManyContents(p.1, n - 1);
      assert PopMany(b, n) == ([p.0] + PopMany(p.1, n - 1).0, PopMany(p.1, n - 1).1);
      TakeFirst(c, n);
    }
  }

  /** Splitting off the first of `n` items. */
  lemma TakeFirst<X>(c: seq<X>, n: nat)
    requires 0 < n <= |c|
    ensures [Some(c[0])] + Somes(c[1..][..n - 1]) == Somes(c[..n])
    ensures c[1..][n - 1..] == c[n..]
  {
    assert c[1..][..n - 1] == c[1..n];
  }

  /**
    FIFO: items pushed into an empty buffer with room for all of them come
    back out of the same number of pops in the order they were pushed, and
    the buffer is empty again.
   */
  lemma Fifo<T>(b: RingBuffer<T>, items: seq<T>)
    requires Valid(b) && IsEmpty(b) && |items| <= b.capacity
    ensures PopMany(PushAll(b, items), |items|).0 == Somes(items)
    ensures IsEmpty(PopMany(PushAll(b, items), |items|).1)
  {
    var full := PushAll(b, items);
    PushAllContents(b, items);
    assert Contents(full) == items by {
      assert Contents(b) + items == items;
      assert items[..|items|] == items;
    }
    PopManyContents(full, |items|);
  }

  /**
    A buffer of capacity 3 is full after three pushes; a fourth push is
    rejected and the size stays 3, and three pops then return the first
    three items in order.
   */
  lemma CapacityThree<T>(x: T, y: T, z: T, w: T)
    ensures var b := PushAll(New<T>(3).value, [x, y, z]);
            && IsFull(b) && Size(b) == 3
            && Push(b, w) == b
            && PopMany(b, 3).0 == [Some(x), Some(y), Some(z)]
  {
    var b0 := New<T>(3).value;
    var b := PushAll(b0, [x, y, z]);
    PushAllContents(b0, [x, y, z]);
    assert Contents(b) == [x, y, z];
    PopManyContents(b, 3);
    assert Contents(b)[..3] == [x, y, z];
  }
}

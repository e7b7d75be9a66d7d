/**
  One routing step of the dispatcher (org.demo.prodcon.Dispatcher.run):
  take the oldest message off the input buffer and push it onto the output
  buffer its channel selects.
 */
module Dispatcher {
  import opened Wrappers
  import opened RingBuffers
  import opened Messages

  type Buffer = RingBuffer<Message>

  /** Every output buffer satisfies the buffer invariant. */
  ghost predicate AllValid(outputs: seq<Buffer>) {
    forall j :: 0 <= j < |outputs| ==> Valid(outputs[j])
  }

  /** Number of messages held by all the buffers of `bs` together. */
  function TotalSize(bs: seq<Buffer>): (n: nat) {
    if bs == [] then 0 else TotalSize(bs[..|bs| - 1]) + Size(bs[|bs| - 1])
  }

  /**
    One pass of the dispatcher's loop, from the pop to the push. The Java
    code pops first, looks up the target and only then waits for the target
    to have room; this step instead checks the target's room before the pop,
    so it requires a non-empty input, an in-range channel and a non-full
    target, and covers only a pass that completes with the push.
   */
  function Step(input: Buffer, outputs: seq<Buffer>): (r: (Buffer, seq<Buffer>))
    requires Valid(input) && AllValid(outputs)
    requires !IsEmpty(input)
    requires 0 <= Contents(input)[0].channel < |outputs|
    requires !IsFull(outputs[Contents(input)[0].channel])
    ensures Valid(r.0) && AllValid(r.1) && |r.1| == |outputs|
    ensures Contents(r.0) == Contents(input)[1..]
    ensures var c := Contents(input)[0].channel;
            Contents(r.1[c]) == Contents(outputs[c]) + [Contents(input)[0]]
    ensures forall j :: 0 <= j < |outputs| && j != Contents(input)[0].channel ==>
              r.1[j] == outputs[j]
    ensures r.0.capacity == input.capacity
    ensures forall j :: 0 <= j < |outputs| ==> r.1[j].capacity == outputs[j].capacity
  {
    var (m, rest) := Pop(input);
    var i := m.value.channel;
    var current := outputs[i];
    (rest, outputs[i := Push(current, m.value)])
  }

  /** Replacing one buffer changes the total by the difference of sizes. */
  lemma {:induction false} TotalSizeUpdate(bs: seq<Buffer>, i: nat, b: Buffer)
    requires i < |bs|
    ensures TotalSize(bs[i := b]) + Size(bs[i]) == TotalSize(bs) + Size(b)
    decreases |bs|
  {
    var last := |bs| - 1;
    var bs' := bs[i := b];
    assert bs'[..last] == if i == last then bs[..last] else bs[..last][i := b];
    if i < last {
      TotalSizeUpdate(bs[..last], i, b);
    }
  }

  /**
    Message conservation: a step moves one message from the input to an
    output, so the number of messages held in all buffers is unchanged.
   */
  lemma StepConserves(input: Buffer, outputs: seq<Buffer>)
    requires Valid(input) && AllValid(outputs)
    requires !IsEmpty(input)
    requires 0 <= Contents(input)[0].channel < |outputs|
    requires !IsFull(outputs[Contents(input)[0].channel])
    ensures var r := Step(input, outputs);
            Size(r.0) + TotalSize(r.1) == Size(input) + TotalSize(outputs)
  {
    var r := Step(input, outputs);
    var c := Contents(input)[0].channel;
    assert r.1 == outputs[c := r.1[c]];
    TotalSizeUpdate(outputs, c, r.1[c]);
  }

  /** Moving the first of `n` items across and then the other `n - 1`. */
  lemma Regroup<X>(a: seq<X>, xs: seq<X>, n: nat)
    requires 0 < n <= |xs|
    ensures (a + [xs[0]]) + xs[1..][..n - 1] == a + xs[..n]
    ensures xs[1..][n - 1..] == xs[n..]
  {
    assert [xs[0]] + xs[1..][..n - 1] == xs[..n];
  }

  /**
    `n` routing steps over messages that all carry channel `c`, with room
    for all of them in output `c`.
   */
  function RouteAll(input: Buffer, outputs: seq<Buffer>, c: int, n: nat): (r: (Buffer, seq<Buffer>))
    requires Valid(input) && AllValid(outputs) && 0 <= c < |outputs|
    requires n <= |Contents(input)|
    requires forall k :: 0 <= k < n ==> Contents(input)[k].channel == c
    requires |Contents(outputs[c])| + n <= outputs[c].capacity
    ensures Valid(r.0) && AllValid(r.1) && |r.1| == |outputs|
    ensures Contents(r.0) == Contents(input)[n..]
    ensures Contents(r.1[c]) == Contents(outputs[c]) + Contents(input)[..n]
    ensures forall j :: 0 <= j < |outputs| && j != c ==> r.1[j] == outputs[j]
    ensures r.0.capacity == input.capacity
    ensures forall j :: 0 <= j < |outputs| ==> r.1[j].capacity == outputs[j].capacity
    decreases n
  {
    if n == 0 then
      assert Contents(outputs[c]) + Contents(input)[..0] == Contents(outputs[c]);
      (input, outputs)
    else
      var s := Step(input, outputs);
      var r := RouteAll(s.0, s.1, c, n - 1);
      Regroup(Contents(outputs[c]), Contents(input), n);
      r
  }
}

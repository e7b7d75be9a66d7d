# Ring buffer and dispatcher step, in Dafny

This project models the core of a small producer/dispatcher/consumer
pipeline written in Java:

- `RingBuffer<T>` (`org.demo.adt.RingBuffer`), a fixed-capacity circular
  queue over a backing list of `capacity` slots, with a write position
  `head`, a read position `tail` and an occupancy `counter`. `push` on a full
  buffer and `pop` on an empty one are silent no-ops.
- `Message` (`org.demo.prodcon.Message`), an immutable record of sender, text
  and channel.
- One routing step of the `Dispatcher`: take the oldest message off the
  shared input buffer and push it onto the output buffer that its channel
  selects.

The buffer is an immutable datatype (`RingBuffers.RingBuffer`); each Java
method that mutates it in place returns the new state instead. A `null`
slot is `None` and a stored item is `Some(item)`, so `pop` and `peek`
return `Option<T>`. The predicate `Valid` is the representation invariant:
`|slots| == capacity`, `counter <= capacity`, `head` and `tail` below
`capacity` (both 0 when the capacity is 0), `head == (tail + counter) %
capacity` (the model's `Index` computes these positions with one
conditional subtraction; the lemma `IndexIsMod` is the bridge from `Valid`
and `Contents` to the `%` the Java code uses, proving the two agree), the
`counter` slots of the circular run starting at `tail` hold
items and every other slot is null. `Contents` maps a valid buffer to the
queue it represents: the occupied run read from `tail`, oldest first. Every
operation is stated against that abstraction.

Files:

- `Wrappers.dfy`: `Option`, standing for a nullable reference.
- `RingBuffer.dfy`: the buffer, its invariant and abstraction, the
  constructors, `push`, `pop`, `peek`, `isFull`, `isEmpty`, `size`.
- `RingBufferQueue.dfy`: where the occupied slots lie, runs of pushes and
  pops, FIFO order, the capacity-3 scenario.
- `Message.dfy`: the message record.
- `Dispatcher.dfy`: the routing step, message conservation, repeated steps
  on one channel.

## Model

| member | source | states |
|---|---|---|
| RingBuffers.Contents | src/main/java/org/demo/adt/RingBuffer.java:14-16 | the queue a valid buffer holds has `counter` items, and item `k` is the non-null value in the slot `k` places after `tail`, going round |
| RingBuffers.IndexIsMod | src/main/java/org/demo/adt/RingBuffer.java:45-58 | the slot `k` places after `tail` that the invariant and the abstraction use is `(tail + k) % capacity`, the position the Java code computes when it advances `head` and `tail` |
| RingBuffers.New | src/main/java/org/demo/adt/RingBuffer.java:21-27 | a negative capacity is refused (the backing list's constructor throws); otherwise the buffer is valid and empty, has the requested capacity, `head == tail == counter == 0` and every slot null |
| RingBuffers.NewDefault | src/main/java/org/demo/adt/RingBuffer.java:32-34 | the no-argument constructor gives a valid empty buffer of capacity 10 with `head == tail == 0` |
| RingBuffers.IsFull | src/main/java/org/demo/adt/RingBuffer.java:73-75 | on a valid buffer, full exactly when the queue holds `capacity` items |
| RingBuffers.IsEmpty | src/main/java/org/demo/adt/RingBuffer.java:84-86 | on a valid buffer, empty exactly when the queue is the empty sequence |
| RingBuffers.Size | src/main/java/org/demo/adt/RingBuffer.java:80-82 | on a valid buffer, the size is the length of the queue and at most the capacity |
| RingBuffers.Push | src/main/java/org/demo/adt/RingBuffer.java:41-48 | push keeps the invariant, the capacity and `tail`; on a full buffer it returns the buffer unchanged; otherwise the queue becomes the old queue with the item appended |
| RingBuffers.Pop | src/main/java/org/demo/adt/RingBuffer.java:53-61 | pop keeps the invariant, the capacity and `head`; on an empty buffer it returns null and the buffer unchanged; otherwise it returns the oldest item, the queue loses its first item and the slot read is cleared |
| RingBuffers.Peek | src/main/java/org/demo/adt/RingBuffer.java:66-68 | peek returns what pop would return: null on an empty queue, otherwise its oldest item |
| RingBuffers.PushStep | src/main/java/org/demo/adt/RingBuffer.java:44-46 | writing at `head`, advancing `head` modulo the capacity and incrementing `counter` on a non-full valid buffer yields a valid buffer whose queue has the item appended |
| RingBuffers.PopStep | src/main/java/org/demo/adt/RingBuffer.java:56-59 | reading and clearing the slot at `tail`, advancing `tail` modulo the capacity and decrementing `counter` on a non-empty valid buffer yields the oldest item and a valid buffer whose queue has lost it |
| RingBufferQueue.SlotOccupied | src/main/java/org/demo/adt/RingBuffer.java:44-57 | in a valid buffer a slot is non-null exactly when its circular distance from `tail` is below `counter`; every slot outside the occupied run is null |
| RingBufferQueue.FullAndEmpty | src/main/java/org/demo/adt/RingBuffer.java:73-86 | a valid buffer is full and empty at once exactly when its capacity is 0 |
| RingBufferQueue.PushAll | src/main/java/org/demo/adt/RingBuffer.java:36-48 | chaining pushes keeps the buffer valid and its capacity fixed |
| RingBufferQueue.PopMany | src/main/java/org/demo/adt/RingBuffer.java:50-61 | repeated pops keep the buffer valid and its capacity fixed, and give one result per call |
| RingBufferQueue.PushAllContents | src/main/java/org/demo/adt/RingBuffer.java:41-48 | a run of pushes appends the items to the queue up to the capacity and drops every push made while the buffer is full |
| RingBufferQueue.PopManyContents | src/main/java/org/demo/adt/RingBuffer.java:53-61 | `n` pops on a queue of at least `n` items return its first `n` items, oldest first, and leave the remaining items queued |
| RingBufferQueue.Fifo | src/main/java/org/demo/adt/RingBuffer.java:41-61 | items pushed into an empty buffer with room for them come back from as many pops in push order, leaving the buffer empty |
| RingBufferQueue.CapacityThree | src/main/java/org/demo/adt/RingBuffer.java:41-82 | a capacity-3 buffer is full with size 3 after three pushes, rejects a fourth push unchanged, and pops the three items back in order |
| Dispatcher.Step | src/main/java/org/demo/prodcon/Dispatcher.java:47-60 | with a non-empty input whose oldest message has an in-range channel `c` and a non-full output `c`, the input queue loses its oldest message, that message is appended to output `c`, every other output is unchanged, every buffer keeps its capacity and all buffers stay valid |
| Dispatcher.StepConserves | src/main/java/org/demo/prodcon/Dispatcher.java:47-60 | a step leaves the number of messages held in the input and all outputs together unchanged |
| Dispatcher.RouteAll | src/main/java/org/demo/prodcon/Dispatcher.java:38-62 | `n` steps over messages that all carry channel `c`, with room for them in output `c`, move them to the end of output `c` in input order, leave the rest of the input queued, change no other output and keep every buffer's capacity |

## Left out

- Concurrency: `synchronized` on `push`/`pop` and the unsynchronized reads in
  `peek`, `isFull` and `isEmpty` are not modelled; the buffer is
  single-threaded.
- The waits of `Dispatcher.run` (sleeping while the input is empty and while
  the target is full) and their `InterruptedException` exits. The model
  checks the target's room before the pop; the source pops first, looks up
  the target and then waits for room, pushing only after that wait. A step
  therefore requires a non-empty input and a non-full target, and models a
  loop pass that completes with the push.
- Dispatcher.StepConserves: conservation holds for a completed step only.
  In the source, an interrupt during the wait for room in the target
  (Dispatcher.java lines 55-57) ends the thread with the popped message in
  no buffer, so that message is lost; the model does not include that path.
- Dispatcher.Step: requires the channel of the popped message to index the
  output list. In the Java code an out-of-range channel makes
  `bufferList.get` throw after the message was already popped, which ends
  the dispatcher thread; that failure path is not modelled.
- Producer, Consumer and Main: thread start-up, random channel and back-off
  choices and the executor's timeout are wiring around single `push`/`pop`
  calls. The model takes channels as data.
- `RingBuffer.toString` and `Message.toString`: string formatting only.
  (`RingBuffer.toString` prints slots `0..counter-1`, not the run that starts
  at `tail`.)
- The `requireNonNull` checks of `Message` and `push(null)`: Dafny values
  are never null, so items are non-null and slots are `Option` values.
- Java `int` bounds: capacities, positions and the counter are unbounded
  naturals. No wrap-around can occur in the Java code either, because
  `head + 1` and `tail + 1` never exceed the capacity.
- Logging and `Utils.getCurrentTime`: Utils is not part of this model.
- Aliasing between the input buffer and the output buffers: they are
  distinct values here, as in the Java wiring.

# TicketBuffer, modelled in Dafny

This project models Caffeine's `TicketBuffer`: a lossy, bounded, ring-shaped buffer of read
events. It follows the ticket scheme of Dave Dice's PTLQueue. Producers call `record()` and a
single drainer at a time calls `drain()`. `recorded()` and `drained()` expose the two ticket
counters.

The buffer has `MaxSize` slots. Each slot is either `Writable(k)` or `Filled`:

- `Writable(k)`: the slot is free, and only the producer holding write ticket `k` may claim it.
- `Filled`: the slot holds a recorded event that has not been drained yet.

`record()` looks at the slot of the current write ticket:

- If the slot is filled, it returns `true` and asks for a drain. The slot is filled when the buffer
  is full, or, under contention, when another producer has claimed this ticket but not yet
  advanced the write counter. In the sequential model only the first case arises
  (`RecordHintIffFull`).
- If the slot waits for another ticket, it returns `false`. This is a lost race, and the event
  is dropped.
- Otherwise it fills the slot, advances the write counter and returns `false`.

`drain()` first tries the drain gate. When it gets the gate, it walks forward from the read
counter. It recycles each filled slot to `Writable(ticket + MaxSize)` and stops at the first
writable slot or after one lap.

The project has two files:

- `ring.dfy` (module `TicketRing`) is the buffer as a value. It holds the slot datatype, the
  ring state, the ring invariant `Inv`, and `record`/`drain` as functions of the state. The
  lemmas prove what the protocol guarantees:
  - both operations preserve `Inv`;
  - `record` asks for a drain exactly when the buffer is full;
  - one drain empties the buffer;
  - without contention, every record succeeds until the buffer is full, and one drain then
    recycles them all.
- `ticket_buffer.dfy` (module `TicketBuffers`) is the object. Class `TicketBuffer` has the slot
  array, the two counters and the gate flag. Each method is proved against the functions of
  `TicketRing`. The methods of the source also keep the object invariant `Valid()`. `Valid()` is `Inv` of the object's
  state.

Every method is one atomic step. `Inv` holds of every state reachable from the constructor.
That is why the methods require `Valid()`.

## Model

| member | source | states |
|---|---|---|
| `TicketRing.Index` | caffeine/src/test/java/com/github/benmanes/caffeine/cache/buffer/TicketBuffer.java:57 | a ticket masked to a slot index always lands inside the array |
| `TicketRing.Initial` | caffeine/src/test/java/com/github/benmanes/caffeine/cache/buffer/TicketBuffer.java:44-51 | the constructed state has one slot per ticket of the first lap, nothing recorded and nothing drained (both counters 0); `InitialIsEmpty` proves its slots and its invariant |
| `TicketRing.Record` | caffeine/src/test/java/com/github/benmanes/caffeine/cache/buffer/TicketBuffer.java:54-73 | record never touches the read counter; the write counter never decreases and advances by at most one per call |
| `TicketRing.RecycleNext` | caffeine/src/test/java/com/github/benmanes/caffeine/cache/buffer/TicketBuffer.java:84-86 | one iteration of the drain loop (`DrainFrom` applies it only to a filled slot): the read counter moves on by one and the write counter stays |
| `TicketRing.DrainFrom` | caffeine/src/test/java/com/github/benmanes/caffeine/cache/buffer/TicketBuffer.java:78-87 | the drain loop leaves the write counter alone, never moves the read counter back, and recycles at most `steps` slots |
| `TicketRing.Drain` | caffeine/src/test/java/com/github/benmanes/caffeine/cache/buffer/TicketBuffer.java:78-87 | `drain()` under the gate is at most one lap of the loop: the write counter stays and the read counter moves forward by at most `MaxSize`; under the invariant `DrainCatchesUp` and `DrainEmpties` give its exact result |
| `TicketRing.DrainFromRecyclesVisited` | caffeine/src/test/java/com/github/benmanes/caffeine/cache/buffer/TicketBuffer.java:78-87 | a drain of at most one lap visits tickets in order from the read counter; every ticket it passes had a filled slot, which is now writable for the ticket one lap ahead |
| `TicketRing.DrainFromStopsAtWritable` | caffeine/src/test/java/com/github/benmanes/caffeine/cache/buffer/TicketBuffer.java:79-83 | a drain that ends before its step bound ends at a slot that was writable |
| `TicketRing.DrainFromKeepsUnvisited` | caffeine/src/test/java/com/github/benmanes/caffeine/cache/buffer/TicketBuffer.java:78-87 | every slot whose ticket in the lap from the read counter on was not reached keeps its value |
| `TicketRing.DrainFromStops` | caffeine/src/test/java/com/github/benmanes/caffeine/cache/buffer/TicketBuffer.java:79-83 | helper lemma for the loop proof of `RecycleFilled` (one unfolding of `DrainFrom`): if the read counter's slot is writable, draining changes no slot and no counter |
| `TicketRing.DrainFromRecycles` | caffeine/src/test/java/com/github/benmanes/caffeine/cache/buffer/TicketBuffer.java:84-86 | helper lemma for the loop proof of `RecycleFilled` (one unfolding of `DrainFrom`): a filled slot at the read counter is recycled to `Writable(readCounter + MaxSize)` and the read counter moves on by one |
| `TicketRing.InitialIsEmpty` | caffeine/src/test/java/com/github/benmanes/caffeine/cache/buffer/TicketBuffer.java:44-51 | the constructed state (slot i writable for ticket i, both counters 0) is the empty ring at ticket 0 and satisfies the ring invariant |
| `TicketRing.RecordLostRaceUnreachable` | caffeine/src/test/java/com/github/benmanes/caffeine/cache/buffer/TicketBuffer.java:63-65 | under the invariant the write ticket's slot is filled or writable for exactly that ticket, so the lost-race branch needs a concurrent producer |
| `TicketRing.RecordHintIffFull` | caffeine/src/test/java/com/github/benmanes/caffeine/cache/buffer/TicketBuffer.java:57-72 | under the invariant record returns true iff `writeCounter == readCounter + MaxSize`, and then changes nothing; otherwise it fills the write ticket's slot and advances the write counter by one (one more pending event) |
| `TicketRing.RecordPreservesInv` | caffeine/src/test/java/com/github/benmanes/caffeine/cache/buffer/TicketBuffer.java:53-73 | record preserves the ring invariant |
| `TicketRing.DrainCatchesUp` | caffeine/src/test/java/com/github/benmanes/caffeine/cache/buffer/TicketBuffer.java:78-87 | under the invariant one drain brings the read counter exactly up to the write counter |
| `TicketRing.DrainEmpties` | caffeine/src/test/java/com/github/benmanes/caffeine/cache/buffer/TicketBuffer.java:76-90 | under the invariant one drain leaves the empty ring at the write counter (every slot writable for its ticket of the next lap) and preserves the invariant |
| `TicketRing.RecordsUntilFull` | caffeine/src/test/java/com/github/benmanes/caffeine/cache/buffer/TicketBuffer.java:68-72 | without contention, k records from a valid ring with room for k all succeed: the write counter grows by k, the read counter stays, the invariant holds |
| `TicketRing.FillDrainRefill` | caffeine/src/test/java/com/github/benmanes/caffeine/cache/buffer/TicketBuffer.java:44-90 | from a new buffer, MaxSize records fill it, the next record asks for a drain without effect, one drain recycles all MaxSize slots, and the next record claims slot 0 with ticket MaxSize |
| `TicketBuffers.TicketBuffer.constructor` | caffeine/src/test/java/com/github/benmanes/caffeine/cache/buffer/TicketBuffer.java:44-51 | the slot-filling loop leaves slot i writable for ticket i, both counters 0, the gate free, and the invariant established |
| `TicketBuffers.TicketBuffer.Record` | caffeine/src/test/java/com/github/benmanes/caffeine/cache/buffer/TicketBuffer.java:54-73 | the new state and the returned hint are those of `TicketRing.Record` on the old state (filled slot: true, unchanged; slot for another ticket: false, unchanged; slot for this ticket: filled, write counter + 1, false); the invariant is kept |
| `TicketBuffers.TicketBuffer.Drain` | caffeine/src/test/java/com/github/benmanes/caffeine/cache/buffer/TicketBuffer.java:76-90 | with the gate held elsewhere nothing changes; otherwise the new state is `TicketRing.Drain` of the old one; the gate ends as it started; the invariant is kept |
| `TicketBuffers.TicketBuffer.RecycleFilled` | caffeine/src/test/java/com/github/benmanes/caffeine/cache/buffer/TicketBuffer.java:78-87 | the bounded loop with early break leaves exactly the state `TicketRing.Drain` computes from the state it started in |
| `TicketBuffers.TicketBuffer.RecycleOne` | caffeine/src/test/java/com/github/benmanes/caffeine/cache/buffer/TicketBuffer.java:84-86 | one loop iteration on the object: the new state is `TicketRing.RecycleNext` of the old one (slot recycled one lap ahead, read counter + 1) |
| `TicketBuffers.TicketBuffer.Recorded` | caffeine/src/test/java/com/github/benmanes/caffeine/cache/buffer/TicketBuffer.java:92-95 | returns the write counter without side effects; it lies between `drained()` and `drained() + MaxSize` |
| `TicketBuffers.TicketBuffer.Drained` | caffeine/src/test/java/com/github/benmanes/caffeine/cache/buffer/TicketBuffer.java:97-100 | returns the read counter without side effects; it never exceeds `recorded()` |

## Left out

- `MaxSize` and the mask come from the `ReadBuffer` interface, which is not part of this model. `MaxSize` is fixed at 32, a power of two. `ticket & MAX_SIZE_MASK` is modelled as `ticket % MaxSize`, which selects the same slot for a power of two.
- The capacity is a compile-time constant, and the constructor checks nothing about it (TicketBuffer.java:44-51). The model has no such check either.
- Concurrency is not modelled. Every method is one atomic step, so there are no interleavings between producers and the drainer. As a result, the compare-and-set at line 69 always succeeds, and the outcome where it loses a race is not modelled.
- The compare-and-set compares a boxed `Long` by reference. The model compares the slot value `Writable(k)` instead.
- `lazySet` (lines 70 and 85) and the atomic `get`s are treated as plain stores and loads. Memory ordering is not modelled.
- `NonReentrantLock` is not part of this model. The drain gate is the boolean `evictionLocked`. A successful `tryLock` sets it and `unlock` clears it. `Drain` does nothing while the gate is held.
- The counters are unbounded naturals. The 64-bit wrap-around of the `long` counters and the `(int)` casts at lines 57 and 79 are not modelled.
- The loop that `drain()` runs under the gate is the separate method `RecycleFilled`, and the body of one iteration on a filled slot is the method `RecycleOne`. This keeps each proof small and changes nothing in behaviour.
- `Ticker.java` (the system and disabled time sources) is not part of this model. It has no logic beyond reading a clock or returning 0.

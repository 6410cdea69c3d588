/** The buffer object: a fixed array of slots, a write counter bumped by `record()`, a read
    counter advanced by `drain()`, and the drain gate. Each method runs as one atomic step
    and is proved against the ring functions of module TicketRing. */
module TicketBuffers {
  import opened TicketRing

  class TicketBuffer {
    /** The gate of the drain path: held while one drain runs. */
    var evictionLocked: bool
    var writeCounter: nat
    const buffer: array<Slot>
    var readCounter: nat

    /** The buffer's state as a ring value. */
    ghost function Model(): Ring
      reads this, buffer
    {
      Ring(buffer[..], writeCounter, readCounter)
    }

    /** The object invariant: the ring invariant holds of the buffer's state. */
    ghost predicate Valid()
      reads this, buffer
    {
      Inv(Model())
    }

    /** Slot i starts writable for ticket i; both counters start at 0 and the gate is free. */
    constructor ()
      ensures Valid() && fresh(buffer)
      ensures Model() == Initial()
      ensures !evictionLocked
    {
      writeCounter := 0;
      evictionLocked := false;
      var slots := new Slot[MaxSize];
      for i := 0 to MaxSize
        invariant forall j :: 0 <= j < i ==> slots[j] == Writable(j)
      {
        slots[i] := Writable(i);
      }
      buffer := slots;
      readCounter := 0;
      new;
      assert buffer[..] == Initial().slots;
      InitialIsEmpty();
    }

    /** Records one event, or signals that the buffer should be drained (true). */
    method Record() returns (drainHint: bool)
      requires Valid()
      modifies this`writeCounter, buffer
      ensures Valid()
      ensures (Model(), drainHint) == TicketRing.Record(old(Model()))
    {
      ghost var before := Model();
      var writeCount := writeCounter;
      var index := Index(writeCount);
      var value := buffer[index];
      if value.Filled? {
        // full, or another producer claimed this ticket and has not yet advanced the
        // write counter: ask for a drain
        return true;
      } else if value.ticket != writeCount {
        // the slot waits for another ticket: a lost race, the event is dropped
        return false;
      }
      buffer[index] := Filled;
      writeCounter := writeCount + 1;
      assert Model() == TicketRing.Record(before).0;
      RecordPreservesInv(before);
      return false;
    }

    /** Recycles the filled slots from the read counter on, in ticket order, stopping at the
        first writable slot and after at most one lap; a no-op while another drain holds the
        gate. */
    method Drain()
      requires Valid()
      modifies this`readCounter, this`evictionLocked, buffer
      ensures Valid()
      ensures evictionLocked == old(evictionLocked)
      ensures Model() == if old(evictionLocked) then old(Model()) else TicketRing.Drain(old(Model()))
    {
      if !evictionLocked {
        ghost var before := Model();
        evictionLocked := true;
        RecycleFilled();
        evictionLocked := false;
        DrainEmpties(before);
      }
    }

    /** The body of `drain()` run while holding the gate: at most one lap of the loop that
        recycles filled slots in ticket order and stops at the first writable slot. */
    method RecycleFilled()
      requires buffer.Length == MaxSize
      modifies this`readCounter, buffer
      ensures Model() == TicketRing.Drain(old(Model()))
    {
      ghost var goal := TicketRing.Drain(Model());
      ghost var steps: nat := MaxSize;
      for i := 0 to MaxSize
        invariant steps == MaxSize - i
        invariant DrainFrom(Model(), steps) == goal
      {
        ghost var current := Model();
        if buffer[Index(readCounter)].Writable? {
          DrainFromStops(current, steps);
          break;
        }
        RecycleOne();
        DrainFromRecycles(current, steps);
        steps := steps - 1;
      }
    }

    /** One iteration of the drain loop on a filled slot: the read counter's slot becomes
        writable for the ticket one lap ahead, and the read counter moves on. */
    method RecycleOne()
      requires buffer.Length == MaxSize
      modifies this`readCounter, buffer
      ensures Model() == RecycleNext(old(Model()))
    {
      var index := Index(readCounter);
      buffer[index] := Writable(readCounter + MaxSize);
      readCounter := readCounter + 1;
    }

    /** The write counter: the number of events recorded so far. */
    method Recorded() returns (n: nat)
      requires Valid()
      ensures n == writeCounter
      ensures readCounter <= n <= readCounter + MaxSize
    {
      n := writeCounter;
    }

    /** The read counter: the number of events drained so far. */
    method Drained() returns (n: nat)
      requires Valid()
      ensures n == readCounter
      ensures n <= writeCounter
    {
      n := readCounter;
    }
  }
}

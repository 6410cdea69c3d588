/** The ticket ring of a TicketBuffer as a value: its slots, its two ticket counters, and
    the two operations `record` and `drain` as functions of that value. Each operation of
    the buffer is one atomic step here; the class in ticket_buffer.dfy is proved against
    these functions, and the lemmas below state what the protocol guarantees. */
module TicketRing {

  /** Number of slots. A power of two, so that masking a ticket with MaxSize - 1 selects the
      same slot as reducing it modulo MaxSize. */
  const MaxSize: nat := 32

  /** A slot is either free for exactly one ticket, or holds a recorded, undrained event. */
  datatype Slot = Writable(ticket: nat) | Filled

  /** The buffer's state: the slot array and the next write and read tickets. */
  datatype Ring = Ring(slots: seq<Slot>, writeCounter: nat, readCounter: nat)

  /** The slot a ticket maps to (`ticket & MAX_SIZE_MASK`). */
  function Index(t: nat): (i: nat)
    ensures i < MaxSize
  {
    t % MaxSize
  }

  /** Number of recorded events that are not drained yet. */
  function Pending(r: Ring): int
  {
    r.writeCounter - r.readCounter
  }

  /** The ring invariant: at most MaxSize events are outstanding, the tickets between the
      read and the write counter are filled, and every ticket from the write counter up to
      one lap past the read counter is writable in its own slot. */
  ghost predicate Inv(r: Ring)
  {
    && |r.slots| == MaxSize
    && r.readCounter <= r.writeCounter <= r.readCounter + MaxSize
    && (forall t: nat :: r.readCounter <= t < r.writeCounter ==> r.slots[Index(t)] == Filled)
    && (forall t: nat :: r.writeCounter <= t < r.readCounter + MaxSize ==> r.slots[Index(t)] == Writable(t))
  }

  /** The state right after construction: slot i is writable for ticket i. */
  function Initial(): (r: Ring)
    ensures |r.slots| == MaxSize && r.writeCounter == 0 && r.readCounter == 0
  {
    Ring(seq(MaxSize, i requires 0 <= i => Writable(i)), 0, 0)
  }

  /** The ticket in [w, w + MaxSize) that maps to slot i. */
  function TicketFor(w: nat, i: nat): (t: nat)
    requires i < MaxSize
    ensures w <= t < w + MaxSize && Index(t) == i
  {
    var d := (i - w) % MaxSize;
    assert (w + d) % MaxSize == i by {
      assert i - w == ((i - w) / MaxSize) * MaxSize + d;
      assert w + d == i - ((i - w) / MaxSize) * MaxSize;
    }
    w + d
  }

  /** An empty ring whose next write ticket is w: every slot is writable for the one ticket
      of [w, w + MaxSize) that maps to it. */
  function EmptySlots(w: nat): (s: seq<Slot>)
    ensures |s| == MaxSize
  {
    seq(MaxSize, i requires 0 <= i < MaxSize => Writable(TicketFor(w, i)))
  }

  /** `record()`: look at the slot of the current write ticket. A filled slot asks for a
      drain (true): the buffer is full or, under contention, another producer has claimed
      the ticket and not yet advanced the write counter; under `Inv` only the first case
      arises (`RecordHintIffFull`). A slot waiting for another ticket means a lost race
      (false); otherwise the slot is claimed and the write ticket advances. */
  function Record(r: Ring): (out: (Ring, bool))
    requires |r.slots| == MaxSize
    ensures |out.0.slots| == MaxSize
    ensures out.0.readCounter == r.readCounter
    ensures r.writeCounter <= out.0.writeCounter <= r.writeCounter + 1
  {
    var w := r.writeCounter;
    var i := Index(w);
    match r.slots[i]
    case Filled => (r, true)
    case Writable(k) =>
      if k != w then (r, false)
      else (r.(slots := r.slots[i := Filled], writeCounter := w + 1), false)
  }

  /** One iteration of the drain loop on a filled slot: recycle the read counter's slot for
      the ticket one lap ahead and advance the read counter. */
  function RecycleNext(r: Ring): (s: Ring)
    requires |r.slots| == MaxSize
    ensures |s.slots| == MaxSize
    ensures s.writeCounter == r.writeCounter && s.readCounter == r.readCounter + 1
  {
    var rc := r.readCounter;
    r.(slots := r.slots[Index(rc) := Writable(rc + MaxSize)], readCounter := rc + 1)
  }

  /** At most `steps` iterations of the drain loop, starting at the read counter: stop at the
      first writable slot, otherwise recycle the filled slot and go on. */
  function DrainFrom(r: Ring, steps: nat): (d: Ring)
    requires |r.slots| == MaxSize
    decreases steps
    ensures |d.slots| == MaxSize && d.writeCounter == r.writeCounter
    ensures r.readCounter <= d.readCounter <= r.readCounter + steps
  {
    if steps == 0 then r
    else
      match r.slots[Index(r.readCounter)]
      case Writable(_) => r
      case Filled => DrainFrom(RecycleNext(r), steps - 1)
  }

  /** A drain of at most one lap leaves alone every slot whose ticket in the lap from the
      read counter on was not reached. */
  lemma {:induction false} DrainFromKeepsUnvisited(r: Ring, steps: nat)
    requires |r.slots| == MaxSize && steps <= MaxSize
    decreases steps
    ensures forall i: nat :: i < MaxSize && DrainFrom(r, steps).readCounter <= TicketFor(r.readCounter, i) ==>
              DrainFrom(r, steps).slots[i] == r.slots[i]
  {
    var rc := r.readCounter;
    if steps > 0 && r.slots[Index(rc)] == Filled {
      var d := DrainFrom(RecycleNext(r), steps - 1);
      DrainFromKeepsUnvisited(RecycleNext(r), steps - 1);
      TicketForUnique(rc, rc);
      forall i: nat | i < MaxSize && d.readCounter <= TicketFor(rc, i) ensures d.slots[i] == r.slots[i] {
        TicketForUnique(rc + 1, TicketFor(rc, i));
      }
    }
  }

  /** A drain of at most one lap visits the tickets from the read counter on in order; every
      ticket it passes had a filled slot, now writable for the ticket one lap ahead. */
  lemma {:induction false} DrainFromRecyclesVisited(r: Ring, steps: nat)
    requires |r.slots| == MaxSize && steps <= MaxSize
    decreases steps
    ensures forall t: nat :: r.readCounter <= t < DrainFrom(r, steps).readCounter ==>
              r.slots[Index(t)] == Filled && DrainFrom(r, steps).slots[Index(t)] == Writable(t + MaxSize)
  {
    var rc := r.readCounter;
    if steps > 0 && r.slots[Index(rc)] == Filled {
      var next := RecycleNext(r);
      var d := DrainFrom(next, steps - 1);
      DrainFromRecyclesVisited(next, steps - 1);
      // ticket rc's slot is one the rest of the drain does not reach again
      DrainFromKeepsUnvisited(next, steps - 1);
      IndexNextLap(rc);
      TicketForUnique(rc + 1, rc + MaxSize);
      forall t: nat | rc <= t < d.readCounter
        ensures r.slots[Index(t)] == Filled && d.slots[Index(t)] == Writable(t + MaxSize)
      {
        if t == rc {
          assert d.slots[Index(rc)] == next.slots[Index(rc)];
        } else {
          IndexDistinct(rc, t);
        }
      }
    }
  }

  /** A drain stops before its step bound only at a slot that was writable. */
  lemma {:induction false} DrainFromStopsAtWritable(r: Ring, steps: nat)
    requires |r.slots| == MaxSize && steps <= MaxSize
    decreases steps
    ensures DrainFrom(r, steps).readCounter < r.readCounter + steps ==>
              r.slots[Index(DrainFrom(r, steps).readCounter)].Writable?
  {
    var rc := r.readCounter;
    if steps > 0 && r.slots[Index(rc)] == Filled {
      var d := DrainFrom(RecycleNext(r), steps - 1);
      DrainFromStopsAtWritable(RecycleNext(r), steps - 1);
      if d.readCounter < rc + steps {
        IndexDistinct(rc, d.readCounter);
      }
    }
  }

  /** `drain()` once the gate is held: at most one lap of the drain loop. */
  function Drain(r: Ring): (d: Ring)
    requires |r.slots| == MaxSize
    ensures |d.slots| == MaxSize && d.writeCounter == r.writeCounter
    ensures r.readCounter <= d.readCounter <= r.readCounter + MaxSize
  {
    DrainFrom(r, MaxSize)
  }

  /** The drain loop ends at a writable slot: a drain whose read counter's slot is writable
      changes nothing. */
  lemma DrainFromStops(r: Ring, steps: nat)
    requires |r.slots| == MaxSize && 0 < steps
    requires r.slots[Index(r.readCounter)].Writable?
    ensures DrainFrom(r, steps) == r
  {
  }

  /** The drain loop goes on past a filled slot. */
  lemma DrainFromRecycles(r: Ring, steps: nat)
    requires |r.slots| == MaxSize && 0 < steps
    requires r.slots[Index(r.readCounter)] == Filled
    ensures DrainFrom(r, steps) == DrainFrom(RecycleNext(r), steps - 1)
  {
  }

  /** Two tickets less than a lap apart map to different slots. */
  lemma IndexDistinct(a: nat, b: nat)
    requires a < b < a + MaxSize
    ensures Index(a) != Index(b)
  {
  }

  /** A ticket and the ticket one lap later share a slot. */
  lemma IndexNextLap(t: nat)
    ensures Index(t + MaxSize) == Index(t)
  {
  }

  /** A ticket and the ticket one lap earlier share a slot. */
  lemma IndexPreviousLap(t: nat)
    requires t >= MaxSize
    ensures Index(t - MaxSize) == Index(t)
  {
    IndexNextLap(t - MaxSize);
  }

  /** Every ticket of the lap from w on is the ticket of its own slot in that lap. */
  lemma TicketForUnique(w: nat, t: nat)
    requires w <= t < w + MaxSize
    ensures TicketFor(w, Index(t)) == t
  {
    var u := TicketFor(w, Index(t));
    if u < t {
      IndexDistinct(u, t);
    } else if t < u {
      IndexDistinct(t, u);
    }
  }

  /** With both counters equal, the invariant pins every slot down: it is writable for the
      ticket of the coming lap that maps to it. */
  lemma EmptyRingIsCanonical(r: Ring)
    requires Inv(r) && r.readCounter == r.writeCounter
    ensures r.slots == EmptySlots(r.writeCounter)
  {
  }

  /** An empty ring satisfies the invariant. */
  lemma EmptySlotsValid(w: nat)
    ensures Inv(Ring(EmptySlots(w), w, w))
  {
    forall t: nat | w <= t < w + MaxSize ensures EmptySlots(w)[Index(t)] == Writable(t) {
      TicketForUnique(w, t);
    }
  }

  /** The constructed buffer is the empty ring at ticket 0, and so satisfies the invariant. */
  lemma InitialIsEmpty()
    ensures Initial() == Ring(EmptySlots(0), 0, 0)
    ensures Inv(Initial())
  {
    assert Initial().slots == EmptySlots(0);
    EmptySlotsValid(0);
  }

  /** Under the invariant the write ticket's slot is either filled or writable for exactly
      that ticket: the lost-race branch of `record()` only arises from concurrent producers. */
  lemma RecordLostRaceUnreachable(r: Ring)
    requires Inv(r)
    ensures r.slots[Index(r.writeCounter)] in {Filled, Writable(r.writeCounter)}
  {
    if r.writeCounter == r.readCounter + MaxSize {
      IndexNextLap(r.readCounter);
      assert r.slots[Index(r.readCounter)] == Filled;
    } else {
      assert r.slots[Index(r.writeCounter)] == Writable(r.writeCounter);
    }
  }

  /** Under the invariant `record()` asks for a drain exactly when the buffer is full, and
      then changes nothing; otherwise it claims the write ticket's slot and the write ticket
      advances by one. */
  lemma RecordHintIffFull(r: Ring)
    requires Inv(r)
    ensures Record(r).1 <==> r.writeCounter == r.readCounter + MaxSize
    ensures Record(r).1 ==> Record(r).0 == r
    ensures !Record(r).1 ==>
              && Record(r).0.writeCounter == r.writeCounter + 1
              && Record(r).0.slots[Index(r.writeCounter)] == Filled
              && Pending(Record(r).0) == Pending(r) + 1
  {
    RecordLostRaceUnreachable(r);
    if r.writeCounter == r.readCounter + MaxSize {
      IndexNextLap(r.readCounter);
    }
  }

  /** `record()` preserves the ring invariant. */
  lemma RecordPreservesInv(r: Ring)
    requires Inv(r)
    ensures Inv(Record(r).0)
  {
    RecordHintIffFull(r);
    var w := r.writeCounter;
    if w < r.readCounter + MaxSize {
      var s := Record(r).0;
      forall t: nat | r.readCounter <= t < w ensures s.slots[Index(t)] == Filled {
        IndexDistinct(t, w);
      }
      forall t: nat | w + 1 <= t < r.readCounter + MaxSize ensures s.slots[Index(t)] == Writable(t) {
        IndexDistinct(w, t);
      }
    }
  }

  /** Under the invariant one drain stops exactly at the write counter: every ticket before
      it is filled, and the write counter's own slot, if within the lap, is writable. */
  lemma DrainCatchesUp(r: Ring)
    requires Inv(r)
    ensures Drain(r).readCounter == r.writeCounter
  {
    var w, d := r.writeCounter, Drain(r);
    DrainFromRecyclesVisited(r, MaxSize);
    DrainFromStopsAtWritable(r, MaxSize);
    if d.readCounter > w {
      // ticket w was recycled, so its slot was filled, yet it is writable for w; naming
      // that slot lets the solver instantiate both facts
      var slotOfW := Index(w);
      assert false;
    } else if d.readCounter < w {
      // the drain stopped early at a writable slot, yet ticket d.readCounter is filled;
      // naming that slot lets the solver instantiate both facts
      var slotOfStop := Index(d.readCounter);
      assert false;
    }
  }

  /** Under the invariant one drain recycles every filled slot: the read counter catches up
      with the write counter and the ring is empty again (and so satisfies the invariant). */
  lemma DrainEmpties(r: Ring)
    requires Inv(r)
    ensures Drain(r) == Ring(EmptySlots(r.writeCounter), r.writeCounter, r.writeCounter)
    ensures Inv(Drain(r))
  {
    var w, rc := r.writeCounter, r.readCounter;
    var d := Drain(r);
    DrainCatchesUp(r);
    forall t: nat | w <= t < w + MaxSize ensures d.slots[Index(t)] == Writable(t) {
      DrainedSlot(r, t);
    }
    assert Inv(d);
    EmptyRingIsCanonical(d);
    EmptySlotsValid(w);
  }

  /** After a drain of a valid ring, each ticket of the next lap is writable in its slot. */
  lemma DrainedSlot(r: Ring, t: nat)
    requires Inv(r) && r.writeCounter <= t < r.writeCounter + MaxSize
    ensures Drain(r).slots[Index(t)] == Writable(t)
  {
    var w, rc, d := r.writeCounter, r.readCounter, Drain(r);
    DrainCatchesUp(r);
    if t < rc + MaxSize {
      DrainFromKeepsUnvisited(r, MaxSize);
      // t is the ticket of its slot in the drained lap, and the drain stopped before it
      TicketForUnique(rc, t);
      assert d.slots[Index(t)] == r.slots[Index(t)];
      assert r.slots[Index(t)] == Writable(t);
    } else {
      // t's slot was recycled for t by the drain of ticket t - MaxSize
      DrainFromRecyclesVisited(r, MaxSize);
      IndexPreviousLap(t);
      assert d.slots[Index(t - MaxSize)] == Writable(t);
    }
  }

  /** `record()` called k times in a row, with no drain in between. */
  function RecordTimes(r: Ring, k: nat): (s: Ring)
    requires |r.slots| == MaxSize
    ensures |s.slots| == MaxSize
    decreases k
  {
    if k == 0 then r else RecordTimes(Record(r).0, k - 1)
  }

  /** Without contention every `record()` succeeds until the buffer is full: from a valid
      ring with room for k events, k records in a row each advance the write counter. */
  lemma {:induction false} RecordsUntilFull(r: Ring, k: nat)
    requires Inv(r) && r.writeCounter + k <= r.readCounter + MaxSize
    decreases k
    ensures Inv(RecordTimes(r, k))
    ensures RecordTimes(r, k).writeCounter == r.writeCounter + k
    ensures RecordTimes(r, k).readCounter == r.readCounter
  {
    if k > 0 {
      RecordHintIffFull(r);
      RecordPreservesInv(r);
      RecordsUntilFull(Record(r).0, k - 1);
    }
  }

  /** Filling a new buffer to capacity, then draining it and recording once more: the
      MaxSize records all succeed, the next one asks for a drain and changes nothing, one
      drain recycles all MaxSize slots, and the following record claims slot 0 with ticket
      MaxSize. */
  lemma FillDrainRefill()
    ensures var full := RecordTimes(Initial(), MaxSize);
            && full.writeCounter == MaxSize && full.readCounter == 0
            && Record(full) == (full, true)
            && Drain(full).readCounter == MaxSize
            && Drain(full).writeCounter == MaxSize
            && Record(Drain(full)).1 == false
            && Record(Drain(full)).0.writeCounter == MaxSize + 1
            && Record(Drain(full)).0.slots[0] == Filled
  {
    InitialIsEmpty();
    RecordsUntilFull(Initial(), MaxSize);
    var full := RecordTimes(Initial(), MaxSize);
    RecordHintIffFull(full);
    DrainEmpties(full);
    RecordHintIffFull(Drain(full));
  }
}

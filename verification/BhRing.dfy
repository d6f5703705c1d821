/** The byte ring between the interrupt, which appends bus messages, and the bottom half,
    which takes one message per run of its work item. */
module BhRing {
  import opened Options
  import opened Wire

  const RD_INT_FIFO_SIZE := 64
  const IPC_PAYLOAD_SIZE := 128
  const BYTES := 8192 // RD_INT_FIFO_SIZE * IPC_PAYLOAD_SIZE
  const CAPACITY := 63

  // ---------------------------------------------------------------- The ring

  /** The position `n` slots further. */
  function Advance(pos: nat, n: nat): (r: nat)
    ensures r < BYTES
  {
    (pos + IPC_PAYLOAD_SIZE * n) % BYTES
  }

  predicate Position(pos: nat)
  {
    pos < BYTES && pos % IPC_PAYLOAD_SIZE == 0
  }

  lemma {:induction false} SlotAt(turns: nat, slot: nat)
    requires slot < RD_INT_FIFO_SIZE
    ensures (BYTES * turns + IPC_PAYLOAD_SIZE * slot) % BYTES == IPC_PAYLOAD_SIZE * slot
  {
  }

  lemma {:induction false} AdvancePosition(pos: nat, n: nat)
    requires Position(pos)
    ensures Position(Advance(pos, n)) && Advance(pos, n) + IPC_PAYLOAD_SIZE <= BYTES
  {
    var k := pos / IPC_PAYLOAD_SIZE + n;
    SlotAt(k / RD_INT_FIFO_SIZE, k % RD_INT_FIFO_SIZE);
    assert pos + IPC_PAYLOAD_SIZE * n == BYTES * (k / RD_INT_FIFO_SIZE) + IPC_PAYLOAD_SIZE * (k % RD_INT_FIFO_SIZE);
  }

  lemma {:induction false} AdvanceTwice(pos: nat, i: nat, j: nat)
    requires Position(pos)
    ensures Advance(Advance(pos, i), j) == Advance(pos, i + j)
  {
  }

  /** Slots less than a turn apart do not overlap. */
  lemma {:induction false} AdvanceApart(pos: nat, i: nat, j: nat)
    requires Position(pos) && i < j < RD_INT_FIFO_SIZE
    ensures var (x, y) := (Advance(pos, i), Advance(pos, j));
            x + IPC_PAYLOAD_SIZE <= y || y + IPC_PAYLOAD_SIZE <= x
  {
  }

  /** A full turn leads back to the same place, and nothing less does. */
  lemma {:induction false} FullTurn(pos: nat, n: nat)
    requires Position(pos) && n < RD_INT_FIFO_SIZE
    ensures Advance(pos, 0) == pos
    ensures Advance(pos, n + 1) == pos <==> n == CAPACITY
    ensures Advance(pos, n) == pos <==> n == 0
  {
  }

  /** The bytes of slot `i` start with message `m`. */
  predicate Holds(fifo: seq<Byte>, pos: nat, m: Msg)
  {
    && |m| <= IPC_PAYLOAD_SIZE && pos + IPC_PAYLOAD_SIZE <= |fifo|
    && fifo[pos..pos + |m|] == m
  }

  /** The ring from `head` to `tail` represents `queue`. */
  ghost predicate Represents(fifo: seq<Byte>, head: nat, tail: nat, queue: seq<Msg>)
  {
    && |fifo| == BYTES && Position(head) && |queue| <= CAPACITY && tail == Advance(head, |queue|)
    && forall i :: 0 <= i < |queue| ==> Holds(fifo, Advance(head, i), queue[i])
  }

  /** A whole slot that starts with the message, whatever stale bytes follow. */
  predicate StartsWith(slot: seq<Byte>, m: Msg)
  {
    |slot| == IPC_PAYLOAD_SIZE && m <= slot
  }

  lemma {:induction false} SlotStarts(fifo: seq<Byte>, pos: nat, m: Msg)
    requires Holds(fifo, pos, m)
    ensures StartsWith(fifo[pos..pos + IPC_PAYLOAD_SIZE], m)
  {
  }

  function Put(fifo: seq<Byte>, pos: nat, m: Msg): (r: seq<Byte>)
    requires pos + |m| <= |fifo|
    ensures |r| == |fifo|
  {
    fifo[..pos] + m + fifo[pos + |m|..]
  }

  lemma {:induction false} PutElsewhere(fifo: seq<Byte>, pos: nat, m: Msg, other: nat, x: Msg)
    requires |m| <= IPC_PAYLOAD_SIZE && pos + IPC_PAYLOAD_SIZE <= |fifo| && Holds(fifo, other, x)
    requires pos + IPC_PAYLOAD_SIZE <= other || other + IPC_PAYLOAD_SIZE <= pos
    ensures Holds(Put(fifo, pos, m), other, x)
  {
  }

  lemma {:induction false} PushRepresents(fifo: seq<Byte>, head: nat, tail: nat, queue: seq<Msg>, m: Msg)
    requires Represents(fifo, head, tail, queue) && |m| <= IPC_PAYLOAD_SIZE && |queue| < CAPACITY
    ensures tail + IPC_PAYLOAD_SIZE <= BYTES
    ensures Represents(Put(fifo, tail, m), head, Advance(tail, 1), queue + [m])
  {
    AdvancePosition(head, |queue|);
    AdvanceTwice(head, |queue|, 1);
    var fifo', queue' := Put(fifo, tail, m), queue + [m];
    forall i | 0 <= i < |queue'| ensures Holds(fifo', Advance(head, i), queue'[i]) {
      if i < |queue| {
        AdvanceApart(head, i, |queue|);
        PutElsewhere(fifo, tail, m, Advance(head, i), queue[i]);
      } else {
        assert fifo'[tail..tail + |m|] == m;
      }
    }
  }

  lemma {:induction false} PopRepresents(fifo: seq<Byte>, head: nat, tail: nat, queue: seq<Msg>)
    requires Represents(fifo, head, tail, queue) && queue != []
    ensures Holds(fifo, head, queue[0])
    ensures Represents(fifo, Advance(head, 1), tail, queue[1..])
  {
    FullTurn(head, 0);
    AdvancePosition(head, 1);
    AdvanceTwice(head, 1, |queue| - 1);
    forall i | 0 <= i < |queue| - 1 ensures Holds(fifo, Advance(Advance(head, 1), i), queue[1..][i]) {
      AdvanceTwice(head, 1, i);
    }
  }

  /** The ring tells full from free, and empty from not empty, exactly by its positions. */
  lemma {:induction false} PositionsTell(fifo: seq<Byte>, head: nat, tail: nat, queue: seq<Msg>)
    requires Represents(fifo, head, tail, queue)
    ensures Advance(tail, 1) == head <==> |queue| == CAPACITY
    ensures head == tail <==> queue == []
  {
  }

  // ---------------------------------------------------------------- The queue it stands for

  function Push(q: seq<Msg>, m: Msg): seq<Msg>
  {
    if |q| < CAPACITY then q + [m] else q
  }

  /** A queue of 63 messages with its work item. schedule_work on a pending work does nothing;
      a work begins to run with its pending mark cleared. The last four fields are history since
      the last reset: messages stored, dispatched, schedule requests that found the work
      pending, and whether it was pending at that reset. */
  datatype Bh = Bh(queue: seq<Msg>, pending: bool,
                   stored: seq<Msg>, dispatched: seq<Msg>, coalesced: nat, leftOver: nat)

  const EMPTY := Bh([], false, [], [], 0, 0)

  datatype Event = Arrive(m: Msg) | Run | Reset

  function Next(s: Bh, e: Event): Bh
  {
    match e
    case Arrive(m) =>
      if |s.queue| >= CAPACITY then s
      else s.(queue := Push(s.queue, m), stored := s.stored + [m], pending := true,
              coalesced := if s.pending then s.coalesced + 1 else s.coalesced)
    case Run =>
      if !s.pending then s
      else if s.queue == [] then s.(pending := false, leftOver := 0)
      else s.(pending := false, queue := s.queue[1..], dispatched := s.dispatched + [s.queue[0]])
    case Reset => Bh([], s.pending, [], [], 0, if s.pending then 1 else 0)
  }

  // ---------------------------------------------------------------- The driver's functions

  class Ring {
    const fifo: array<Byte>
    var head: nat
    var tail: nat
    /** schedule_work has been called and the work has not begun to run. */
    var workPending: bool
    /** The machine's state, with the messages that the ring holds. */
    ghost var bh: Bh

    ghost predicate Valid()
      reads this, fifo
    {
      Represents(fifo[..], head, tail, bh.queue) && bh.pending == workPending
    }

    constructor ()
      ensures Valid() && bh == EMPTY && fresh(fifo)
    {
      fifo := new Byte[BYTES](_ => 0);
      head, tail, workPending, bh := 0, 0, false, EMPTY;
    }

    /** recv_hbm, for the messages it leaves to the bottom half. */
    method Enqueue(m: Msg) returns (stored: bool)
      requires Valid() && |m| <= IPC_PAYLOAD_SIZE
      modifies `tail, `workPending, `bh, fifo
      ensures Valid() && bh == Next(old(bh), Arrive(m))
      ensures stored == (|old(bh).queue| < CAPACITY)
      ensures bh.queue == (if stored then old(bh).queue + [m] else old(bh).queue) && (stored ==> workPending)
    {
      PositionsTell(fifo[..], head, tail, bh.queue);
      if (tail + IPC_PAYLOAD_SIZE) % BYTES == head {
        return false;
      }
      PushRepresents(fifo[..], head, tail, bh.queue, m);
      ghost var fifo' := Put(fifo[..], tail, m);
      forall k | 0 <= k < |m| {
        fifo[tail + k] := m[k];
      }
      assert fifo[..] == fifo';
      tail := (tail + IPC_PAYLOAD_SIZE) % BYTES;
      bh := Next(bh, Arrive(m));
      workPending := true;
      return true;
    }

    /** bh_hbm_work_fn up to ishtp_hbm_dispatch: one run takes at most one message. */
    method Work() returns (slot: Option<seq<Byte>>)
      requires Valid() && workPending
      modifies `head, `workPending, `bh
      ensures Valid() && bh == Next(old(bh), Run)
      ensures slot.None? <==> old(bh).queue == []
      ensures slot.Some? ==> StartsWith(slot.value, old(bh).queue[0])
      ensures bh.queue == (if slot.Some? then old(bh).queue[1..] else []) && !workPending
    {
      ghost var bh0 := bh;
      workPending := false;
      PositionsTell(fifo[..], head, tail, bh.queue);
      if head != tail {
        var bytes := TakeSlot();
        slot := Some(bytes);
      } else {
        slot := None;
      }
      bh := Next(bh0, Run);
    }

    method TakeSlot() returns (slot: seq<Byte>)
      requires Represents(fifo[..], head, tail, bh.queue) && bh.queue != []
      modifies `head
      ensures Represents(fifo[..], head, tail, bh.queue[1..]) && StartsWith(slot, bh.queue[0])
    {
      PopRepresents(fifo[..], head, tail, bh.queue);
      SlotStarts(fifo[..], head, bh.queue[0]);
      slot := fifo[head..head + IPC_PAYLOAD_SIZE];
      assert slot == fifo[..][head..head + IPC_PAYLOAD_SIZE];
      head := (head + IPC_PAYLOAD_SIZE) % BYTES;
    }

    /** ishtp_reset_handler, the part about the ring. */
    method Reset()
      requires Valid()
      modifies `head, `tail, `bh
      ensures Valid() && bh == Next(old(bh), Event.Reset)
      ensures bh.queue == [] && head == tail && workPending == old(workPending)
    {
      head, tail := 0, 0;
      bh := Next(bh, Event.Reset);
      FullTurn(0, 0);
    }
  }

  // ---------------------------------------------------------------- All runs

  function RunAll(s: Bh, es: seq<Event>): Bh
  {
    if es == [] then s else Next(RunAll(s, es[..|es| - 1]), es[|es| - 1])
  }

  /** Since a reset messages are dispatched in the order of arrival, none twice, none skipped;
      and those not dispatched when the work is not pending are as many as the schedule requests
      that were merged into one. */
  lemma {:induction false} BacklogExact(es: seq<Event>)
    ensures var t := RunAll(EMPTY, es);
            && t.stored == t.dispatched + t.queue
            && |t.queue| <= CAPACITY
            && t.leftOver <= 1
            && |t.queue| + t.leftOver == t.coalesced + (if t.pending then 1 else 0)
            && (!t.pending ==> (t.queue == [] <==> t.coalesced == t.leftOver))
  {
    if es != [] {
      BacklogExact(es[..|es| - 1]);
    }
  }

  /** What has arrived since the last reset and found room. */
  function Arrived(es: seq<Event>): (ms: seq<Msg>)
  {
    if es == [] then []
    else
      match es[|es| - 1]
      case Reset => []
      case Run => Arrived(es[..|es| - 1])
      case Arrive(m) =>
        if |RunAll(EMPTY, es[..|es| - 1]).queue| < CAPACITY then Arrived(es[..|es| - 1]) + [m]
        else Arrived(es[..|es| - 1])
  }

  /** So the ring neither makes up nor loses a message it had room for: those dispatched and those
      that wait are what arrived. A reset leaves none; a run of the work takes the oldest, and
      leaves the work to be requested again. */
  lemma {:induction false} ArrivedExact(es: seq<Event>)
    ensures var t := RunAll(EMPTY, es);
            && t.dispatched + t.queue == Arrived(es)
            && Next(t, Reset).queue == []
            && (forall m :: |t.queue| < CAPACITY ==> Next(t, Arrive(m)).queue == t.queue + [m] && Next(t, Arrive(m)).pending)
            && (t.pending && t.queue != [] ==>
                  && Next(t, Run).queue == t.queue[1..] && Next(t, Run).dispatched == t.dispatched + [t.queue[0]]
                  && !Next(t, Run).pending)
  {
    if es != [] {
      ArrivedExact(es[..|es| - 1]);
    }
  }

  /** A work that is never requested while it is pending leaves nothing behind. */
  predicate Spaced(es: seq<Event>)
  {
    es == [] ||
    (Spaced(es[..|es| - 1]) && (es[|es| - 1].Arrive? ==> !RunAll(EMPTY, es[..|es| - 1]).pending))
  }

  lemma {:induction false} SpacedDrains(es: seq<Event>)
    requires Spaced(es)
    ensures var t := RunAll(EMPTY, es);
            t.coalesced == 0 && (!t.pending ==> t.queue == [])
  {
    if es != [] {
      SpacedDrains(es[..|es| - 1]);
    }
    BacklogExact(es);
  }

  lemma {:induction false} RunMore(es: seq<Event>, t: Bh, e: Event, u: Bh)
    requires RunAll(EMPTY, es) == t && Next(t, e) == u
    ensures RunAll(EMPTY, es + [e]) == u
  {
  }

  /** Two messages before the work runs: the second stays, however often the work item might be
      run, until another message arrives; that one then stays in turn. */
  lemma {:induction false} SecondMessageStays(a: Msg, b: Msg, c: Msg)
    ensures var t := RunAll(EMPTY, [] + [Arrive(a)] + [Arrive(b)] + [Run] + [Run] + [Arrive(c)] + [Run]);
            t.queue == [c] && t.dispatched == [a, b] && !t.pending
  {
    var s := EMPTY;
    var s1 := Bh([a], true, [a], [], 0, 0);
    RunMore([], s, Arrive(a), s1);
    var s2 := Bh([a, b], true, [a, b], [], 1, 0);
    RunMore([] + [Arrive(a)], s1, Arrive(b), s2);
    var s3 := Bh([b], false, [a, b], [a], 1, 0);
    RunMore([] + [Arrive(a)] + [Arrive(b)], s2, Run, s3);
    RunMore([] + [Arrive(a)] + [Arrive(b)] + [Run], s3, Run, s3);
    var s5 := Bh([b, c], true, [a, b, c], [a], 1, 0);
    RunMore([] + [Arrive(a)] + [Arrive(b)] + [Run] + [Run], s3, Arrive(c), s5);
    RunMore([] + [Arrive(a)] + [Arrive(b)] + [Run] + [Run] + [Arrive(c)], s5, Run, Bh([c], false, [a, b, c], [a, b], 1, 0));
  }
}

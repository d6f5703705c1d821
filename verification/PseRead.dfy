/** The character device: a byte stream read out of received messages, one held buffer at a
    time, on top of the receive engine. */
module PseRead {
  import opened Lists
  import opened Options
  import opened Wire
  import opened RxEngine
  import opened RxRuns

  /** The transport state with the open file: its position in the held buffer, and as history
      the bytes returned to the reader and the messages read to their end. A buffer the
      transport counts as held is the one in `pse_dev.pse_rb.rb`. */
  datatype Pse = Pse(rx: Rx, offset: nat, out: seq<Byte>, consumed: seq<Msg>)

  datatype Result = Data(bytes: seq<Byte>) | NoDevice | NoData | MsgSize | BadAddress

  /** What one read asks for: how much, whether the device is there and connected, and whether
      the copy to the reader's memory works. */
  datatype Request = Request(length: nat, alive: bool, hasBuffer: bool, copyOk: bool)

  datatype PseEvent =
    | Transport(e: Event)   // anything the transport does by itself
    | EventCb               // ishtp_pse_event_cb
    | Read(q: Request)      // ishtp_pse_read, once it has waited

  function Min(x: nat, y: nat): nat
  {
    if x < y then x else y
  }

  function ReadResult(p: Pse, q: Request): Result
  {
    if !q.alive then NoDevice
    else if p.rx.held == [] then NoData
    else
      var b := p.rx.held[0].val;
      if q.length == 0 || !q.hasBuffer || p.offset > b.idx then MsgSize
      else if !q.copyOk then BadAddress
      else Data(Content(b)[p.offset..p.offset + Min(q.length, b.idx - p.offset)])
  }

  function AfterRead(p: Pse, q: Request): Pse
  {
    var r := ReadResult(p, q);
    if !r.Data? then p
    else
      var b := p.rx.held[0].val;
      var t := p.(offset := p.offset + |r.bytes|, out := p.out + r.bytes);
      if t.offset < b.idx then t
      else t.(rx := RxEngine.Next(p.rx, Recycle(0)), offset := 0, consumed := p.consumed + [Content(b)])
  }

  /** The callback takes the next message only when none is held. */
  function AfterEventCb(p: Pse): Pse
  {
    if p.rx.held != [] then p else p.(rx := RxEngine.Next(p.rx, Take))
  }

  predicate OfTransport(e: Event)
  {
    !e.Take? && !e.Recycle?
  }

  /** A recycle, or the read start of the connection, has not returned. A recycle runs under the
      lock of the read buffer, for which the next read and the next callback wait. */
  predicate Locked(rx: Rx)
  {
    rx.checking + UnderWay(rx) > 0
  }

  function Step(p: Pse, x: PseEvent): Pse
  {
    match x
    case Transport(e) => if OfTransport(e) then p.(rx := RxEngine.Next(p.rx, e)) else p
    case EventCb => if Locked(p.rx) then p else AfterEventCb(p)
    case Read(q) => if Locked(p.rx) then p else AfterRead(p, q)
  }

  function StepAll(p: Pse, xs: seq<PseEvent>): Pse
  {
    if xs == [] then p else Step(StepAll(p, xs[..|xs| - 1]), xs[|xs| - 1])
  }

  predicate Opened(p: Pse, pool: set<nat>)
  {
    Fresh(p.rx, pool) && p == Pse(p.rx, 0, [], [])
  }

  function Concat(ms: seq<Msg>): (bytes: seq<Byte>)
  {
    if ms == [] then [] else Concat(ms[..|ms| - 1]) + ms[|ms| - 1]
  }

  /** The message in the held buffer. */
  function HeldMsgs(rx: Rx): seq<Msg>
  {
    if rx.held == [] then [] else [Content(rx.held[0].val)]
  }

  /** The part of it that was returned. */
  function HeldPart(p: Pse): seq<Byte>
  {
    if p.rx.held == [] then [] else Content(p.rx.held[0].val)[..Min(p.offset, p.rx.held[0].val.idx)]
  }

  predicate ReadInv(p: Pse)
  {
    && |p.rx.held| <= 1
    && (p.rx.held == [] ==> p.offset == 0)
    && (p.rx.held != [] ==> p.offset <= p.rx.held[0].val.idx)
    && p.out == Concat(p.consumed) + HeldPart(p)
  }

  /** Every message received is consumed, held, or waits in process, in that order. */
  predicate StreamInv(p: Pse)
  {
    p.rx.delivered == p.consumed + HeldMsgs(p.rx) + Contents(p.rx.inProcess)
  }

  // ---------------------------------------------------------------- Steps

  /** The transport by itself only ever adds whole messages to those in process. */
  lemma {:induction false} TransportAppends(s: Rx, e: Event, pool: set<nat>)
    requires Safe(s, pool) && Orderly(s, e) && OfTransport(e)
    ensures var t := RxEngine.Next(s, e);
            && t.held == s.held && s.delivered <= t.delivered
            && Contents(t.inProcess) == Contents(s.inProcess) + t.delivered[|s.delivered|..]
  {
    if RxEngine.Enabled(s, e) {
      match e
      case Undo(i) =>
        OrderlyUndo(s, e, pool);
        UndoTakesPosted(s, i);
      case Recv(f, slack, accept) => RecvAppends(s, f, slack, accept);
      case _ =>
    }
  }

  lemma {:induction false} RecvAppends(s: Rx, f: Frag, slack: seq<Byte>, accept: bool)
    requires |slack| <= 3 && Fits(s, f)
    ensures var t := Receive(s, f, slack, accept);
            && t.held == s.held && s.delivered <= t.delivered
            && Contents(t.inProcess) == Contents(s.inProcess) + t.delivered[|s.delivered|..]
  {
    if s.posted != [] && f.complete {
      var rb := Node(s.posted[0].id, Store(s.posted[0].val, f.data, slack));
      ContentsPush(s.inProcess, rb);
      var c := Completed(s, rb);
      assert Receive(s, f, slack, accept) == Refilled(c, accept);
      assert c.delivered[|s.delivered|..] == [Content(rb.val)];
    } else {
      assert Receive(s, f, slack, accept).delivered[|s.delivered|..] == [];
    }
  }

  lemma {:induction false} TransportStep(p: Pse, e: Event, pool: set<nat>)
    requires Safe(p.rx, pool) && Orderly(p.rx, e) && ReadInv(p) && StreamInv(p)
    ensures ReadInv(Step(p, Transport(e))) && StreamInv(Step(p, Transport(e)))
  {
    hide Contents, Concat;
    if OfTransport(e) {
      TransportAppends(p.rx, e, pool);
      var t := RxEngine.Next(p.rx, e);
      var more := t.delivered[|p.rx.delivered|..];
      assert t.delivered == p.rx.delivered + more;
      assert p.consumed + HeldMsgs(p.rx) + Contents(p.rx.inProcess) + more
          == p.consumed + HeldMsgs(p.rx) + (Contents(p.rx.inProcess) + more);
    }
  }

  lemma {:induction false} CallbackStep(p: Pse)
    requires ReadInv(p) && StreamInv(p)
    ensures ReadInv(AfterEventCb(p)) && StreamInv(AfterEventCb(p))
  {
    if p.rx.held == [] && p.rx.inProcess != [] {
      ContentsPop(p.rx.inProcess);
      var b := p.rx.inProcess[0];
      assert Contents(p.rx.inProcess) == [Content(b.val)] + Contents(p.rx.inProcess[1..]);
      assert p.consumed + [] + Contents(p.rx.inProcess) == p.consumed + [Content(b.val)] + Contents(p.rx.inProcess[1..]);
      assert Content(b.val)[..0] == [];
    }
  }

  lemma {:induction false} ConcatPush(ms: seq<Msg>, m: Msg)
    ensures Concat(ms + [m]) == Concat(ms) + m
  {
  }

  /** What a read that finds data returns, and where it leaves the position. */
  lemma {:induction false} ReadBytes(p: Pse, q: Request)
    requires ReadInv(p) && ReadResult(p, q).Data?
    ensures var (m, r) := (Content(p.rx.held[0].val), ReadResult(p, q).bytes);
            && p.offset + |r| <= |m| && HeldPart(p) + r == m[..p.offset + |r|]
            && p.out + r == Concat(p.consumed) + m[..p.offset + |r|]
  {
  }

  lemma {:induction false} ReadStep(p: Pse, q: Request)
    requires ReadInv(p) && StreamInv(p)
    ensures ReadInv(AfterRead(p, q)) && StreamInv(AfterRead(p, q))
  {
    var r := ReadResult(p, q);
    if r.Data? {
      ReadBytes(p, q);
      var t := p.(offset := p.offset + |r.bytes|, out := p.out + r.bytes);
      if t.offset >= p.rx.held[0].val.idx {
        LastBytes(p, t);
      }
    }
  }

  lemma {:induction false} LastBytes(p: Pse, t: Pse)
    requires ReadInv(p) && StreamInv(p) && p.rx.held != [] && t.rx == p.rx && t.consumed == p.consumed
    requires t.out == Concat(p.consumed) + Content(p.rx.held[0].val)
    ensures var u := t.(rx := RxEngine.Next(p.rx, Recycle(0)), offset := 0, consumed := p.consumed + [Content(p.rx.held[0].val)]);
            ReadInv(u) && StreamInv(u)
  {
  }

  // ---------------------------------------------------------------- All runs

  ghost predicate PseSafe(p: Pse, pool: set<nat>)
  {
    Safe(p.rx, pool) && ReadInv(p) && StreamInv(p)
  }

  lemma {:induction false} TransportKeeps(p: Pse, e: Event, pool: set<nat>)
    requires PseSafe(p, pool) && Orderly(p.rx, e)
    ensures PseSafe(Step(p, Transport(e)), pool)
  {
    hide ReadInv, StreamInv, PlacesInv, CreditInv, ShapeInv, ContentInv;
    SafeStep(p.rx, e, pool);
    TransportStep(p, e, pool);
  }

  lemma {:induction false} CallbackKeeps(p: Pse, pool: set<nat>)
    requires PseSafe(p, pool)
    ensures PseSafe(AfterEventCb(p), pool)
  {
    hide ReadInv, StreamInv, PlacesInv, CreditInv, ShapeInv, ContentInv;
    SafeStep(p.rx, Take, pool);
    CallbackStep(p);
  }

  lemma {:induction false} ReadKeeps(p: Pse, q: Request, pool: set<nat>)
    requires PseSafe(p, pool)
    ensures PseSafe(AfterRead(p, q), pool)
  {
    hide ReadInv, StreamInv, PlacesInv, CreditInv, ShapeInv, ContentInv;
    SafeStep(p.rx, Recycle(0), pool);
    ReadStep(p, q);
  }

  lemma {:induction false} StepKeeps(p: Pse, x: PseEvent, pool: set<nat>)
    requires PseSafe(p, pool) && (x.Transport? ==> Orderly(p.rx, x.e))
    ensures PseSafe(Step(p, x), pool)
  {
    match x
    case Transport(e) => TransportKeeps(p, e, pool);
    case EventCb => CallbackKeeps(p, pool);
    case Read(q) => ReadKeeps(p, q, pool);
  }

  /** What makes every step of the transport go as meant: room for every message, and at most one
      recycle or read start under way. */
  predicate Apart(rx: Rx, cap: nat)
  {
    AllRoomy(rx, cap) && Quiet(rx) && rx.checking + UnderWay(rx) <= 1
  }

  lemma {:induction false} TransportApart(rx: Rx, e: Event)
    requires CreditInv(rx) && Orderly(rx, e) && OfTransport(e) && rx.checking + UnderWay(rx) <= 1
    ensures var t := RxEngine.Next(rx, e); t.checking + UnderWay(t) <= 1
  {
    hide Ids, IndexOf, Without, Find;
  }

  lemma {:induction false} RecycleApart(rx: Rx)
    requires !Locked(rx) && Quiet(rx) && CreditInv(rx)
    ensures var t := RxEngine.Next(rx, Recycle(0)); t.checking + UnderWay(t) <= 1 && Quiet(t)
    ensures var u := RxEngine.Next(rx, Take); u.checking + UnderWay(u) <= 1 && Quiet(u)
  {
  }

  lemma {:induction false} CallsStep(rx: Rx, e: Event, pool: set<nat>, cap: nat)
    requires Safe(rx, pool) && Apart(rx, cap) && Sized(RxEngine.Next(rx, e).wire, cap)
    requires OfTransport(e) || !Locked(rx)
    requires e.Recycle? ==> e.i == 0
    ensures Orderly(rx, e) && Apart(RxEngine.Next(rx, e), cap)
  {
    hide AllRoomy, Sized, Orderly, RxEngine.Next, PlacesInv, ShapeInv, ContentInv, CreditInv, Quiet;
    StepIsOrderly(rx, e, cap);
    KeptStep(rx, e, pool, cap);
    if OfTransport(e) {
      TransportApart(rx, e);
      RefusalStep(rx, e, false);
    } else {
      RecycleApart(rx);
    }
  }

  /** The transport event of a step, if it has one. */
  function EventOf(p: Pse, x: PseEvent): Option<Event>
  {
    match x
    case Transport(e) => if OfTransport(e) then Some(e) else None
    case EventCb => if Locked(p.rx) || p.rx.held != [] then None else Some(Take)
    case Read(q) => if Locked(p.rx) || AfterRead(p, q).rx == p.rx then None else Some(Recycle(0))
  }

  lemma {:induction false} EventOfStep(p: Pse, x: PseEvent)
    ensures var e := EventOf(p, x);
            && Step(p, x).rx == (if e.None? then p.rx else RxEngine.Next(p.rx, e.value))
            && (e.Some? && !OfTransport(e.value) ==> !Locked(p.rx))
            && (e.Some? && e.value.Recycle? ==> e.value.i == 0)
            && (x.Transport? && OfTransport(x.e) ==> e == Some(x.e))
  {
    hide RxEngine.Next, Locked;
  }

  ghost predicate Ready(p: Pse, pool: set<nat>, cap: nat)
  {
    PseSafe(p, pool) && Apart(p.rx, cap)
  }

  lemma {:induction false} ReadyStep(p: Pse, x: PseEvent, pool: set<nat>, cap: nat)
    requires Ready(p, pool, cap) && Sized(Step(p, x).rx.wire, cap)
    ensures Ready(Step(p, x), pool, cap)
  {
    hide Safe, Apart, Sized, ReadInv, StreamInv, Orderly, RxEngine.Next, Locked, AfterRead, AfterEventCb;
    EventOfStep(p, x);
    var e := EventOf(p, x);
    if e.Some? {
      CallsStep(p.rx, e.value, pool, cap);
    }
    if !x.Transport? || OfTransport(x.e) {
      StepKeeps(p, x, pool);
    }
  }

  lemma {:induction false} WireStep(p: Pse, x: PseEvent)
    ensures p.rx.wire <= Step(p, x).rx.wire
  {
    hide RxEngine.Next;
    EventOfStep(p, x);
    if EventOf(p, x).Some? {
      WireGrows(p.rx, EventOf(p, x).value);
    }
  }

  lemma {:induction false} OpenedReady(p: Pse, pool: set<nat>, cap: nat)
    requires Opened(p, pool) && Roomy(p.rx.free, cap)
    ensures Ready(p, pool, cap)
  {
    FollowsFresh(p.rx, pool, cap);
  }

  lemma {:induction false} ReadyAll(p: Pse, xs: seq<PseEvent>, pool: set<nat>, cap: nat)
    requires Opened(p, pool) && Roomy(p.rx.free, cap) && Sized(StepAll(p, xs).rx.wire, cap)
    ensures Ready(StepAll(p, xs), pool, cap)
  {
    hide Ready, Sized, Step, Opened, Roomy;
    if xs == [] {
      OpenedReady(p, pool, cap);
    } else {
      var t, x := StepAll(p, xs[..|xs| - 1]), xs[|xs| - 1];
      WireStep(t, x);
      SizedPrefix(t.rx.wire, StepAll(p, xs).rx.wire, cap);
      ReadyAll(p, xs[..|xs| - 1], pool, cap);
      ReadyStep(t, x, pool, cap);
    }
  }

  lemma {:induction false} ConcatPrefix(ms: seq<Msg>, more: seq<Msg>)
    ensures Concat(ms) <= Concat(ms + more)
    ensures forall m, k :: more != [] && m == more[0] && 0 <= k <= |m| ==> Concat(ms) + m[..k] <= Concat(ms + more)
    decreases |more|
  {
    if more == [] {
      assert ms + more == ms;
    } else {
      assert ms + more == (ms + [more[0]]) + more[1..];
      ConcatPush(ms, more[0]);
      ConcatPrefix(ms + [more[0]], more[1..]);
      forall m, k | m == more[0] && 0 <= k <= |m| ensures Concat(ms) + m[..k] <= Concat(ms + more) {
        assert Concat(ms) + m == (Concat(ms) + m[..k]) + m[k..];
      }
    }
  }

  lemma {:induction false} InvPrefix(t: Pse)
    requires ReadInv(t) && StreamInv(t)
    ensures t.consumed + HeldMsgs(t.rx) <= t.rx.delivered
    ensures t.out <= Concat(t.rx.delivered)
  {
    hide Contents, Concat;
    var (held, waiting) := (HeldMsgs(t.rx), Contents(t.rx.inProcess));
    var more := held + waiting;
    assert t.consumed + held + waiting == t.consumed + more;
    ConcatPrefix(t.consumed, more);
    if t.rx.held != [] {
      var m := Content(t.rx.held[0].val);
      assert more[0] == m && HeldPart(t) == m[..t.offset];
    } else {
      assert Concat(t.consumed) + [] == Concat(t.consumed);
    }
  }

  /** Whatever the sizes of the reads and however the transport interleaves, as long as the buffers
      take the messages that the firmware sends: the bytes returned are the messages read to their
      end, in order, and the part of the held one up to the file position; a prefix of the messages
      received, none lost, repeated or cut. */
  lemma {:induction false} ReadsArePrefix(p: Pse, xs: seq<PseEvent>, pool: set<nat>, cap: nat)
    requires Opened(p, pool) && Roomy(p.rx.free, cap) && Sized(StepAll(p, xs).rx.wire, cap)
    ensures var t := StepAll(p, xs);
            && Feed(EMPTY_INBOX, t.rx.wire).done == t.rx.delivered
            && t.consumed + HeldMsgs(t.rx) <= t.rx.delivered
            && t.out == Concat(t.consumed) + HeldPart(t)
            && t.out <= Concat(t.rx.delivered)
            && PlacesInv(t.rx, pool) && |t.rx.held| <= 1
  {
    hide StepAll, Sized;
    ReadyAll(p, xs, pool, cap);
    InvPrefix(StepAll(p, xs));
  }

  /** Together with reassembly: the reader sees a prefix of what the firmware sent. */
  lemma {:induction false} ReadsWhatWasSent(p: Pse, xs: seq<PseEvent>, pool: set<nat>, cap: nat,
                                            a: Addr, ms: seq<Msg>, mtu: nat)
    requires Opened(p, pool) && Roomy(p.rx.free, cap) && Within(ms, cap)
    requires mtu > 0 && StepAll(p, xs).rx.wire <= FragmentsOfAll(a, ms, mtu)
    ensures StepAll(p, xs).out <= Concat(ms)
  {
    hide StepAll, FragmentsOfAll, Feed;
    var t := StepAll(p, xs);
    SizedStream(a, ms, mtu, cap, t.rx.wire);
    ReadsArePrefix(p, xs, pool, cap);
    PrefixRoundTrip(a, ms, mtu, t.rx.wire);
    assert ms == t.rx.delivered + ms[|t.rx.delivered|..];
    ConcatPrefix(t.rx.delivered, ms[|t.rx.delivered|..]);
  }

  /** The file position never passes the end of the held message, so a read that finds one is
      refused only for its own arguments. */
  lemma {:induction false} ReadErrorsExact(p: Pse, xs: seq<PseEvent>, pool: set<nat>, cap: nat, q: Request)
    requires Opened(p, pool) && Roomy(p.rx.free, cap) && Sized(StepAll(p, xs).rx.wire, cap)
    ensures var t := StepAll(p, xs);
            && (ReadResult(t, q) == MsgSize <==> q.alive && t.rx.held != [] && (q.length == 0 || !q.hasBuffer))
            && (ReadResult(t, q).Data? <==> q.alive && t.rx.held != [] && q.length > 0 && q.hasBuffer && q.copyOk)
            && (ReadResult(t, q) == NoDevice <==> !q.alive)
            && (ReadResult(t, q) == NoData <==> q.alive && t.rx.held == [])
            && (!ReadResult(t, q).Data? ==> AfterRead(t, q) == t)
  {
    hide StepAll, Sized, Safe, Apart, StreamInv;
    ReadyAll(p, xs, pool, cap);
  }

  /** A read that succeeds returns the bytes from the file position on, as many as were asked for
      or as are left of the message, whichever is less; they are the next ones the reader has. With
      the last of them the message is done, and the position is at the start of the next. */
  lemma {:induction false} ReadExact(p: Pse, q: Request)
    requires ReadInv(p) && ReadResult(p, q).Data?
    ensures var (r, m, t) := (ReadResult(p, q).bytes, Content(p.rx.held[0].val), AfterRead(p, q));
            var left := |m| - p.offset;
            && |r| == (if q.length <= left then q.length else left)
            && (forall k :: 0 <= k < |r| ==> r[k] == m[p.offset + k])
            && t.out == p.out + r
            && if q.length < left then t == p.(offset := p.offset + q.length, out := p.out + r)
               else t.offset == 0 && t.consumed == p.consumed + [m] && t.rx.held == []
  {
    assert RemoveAt(p.rx.held, 0) == [];
  }

  /** A reader that goes on gets the rest of the held message; its buffer then is free again. */
  lemma {:induction false} ReadAllAtOnce(p: Pse, q: Request)
    requires ReadInv(p) && p.rx.held != [] && q.alive && q.hasBuffer && q.copyOk && q.length > 0
    requires q.length >= p.rx.held[0].val.idx - p.offset
    ensures var t := AfterRead(p, q);
            && ReadResult(p, q) == Data(Content(p.rx.held[0].val)[p.offset..])
            && t.rx.held == [] && t.rx.free == p.rx.free + [p.rx.held[0]]
            && t.offset == 0 && t.consumed == p.consumed + [Content(p.rx.held[0].val)]
  {
  }

  // ---------------------------------------------------------------- The driver's functions

  class Device {
    var rb: Option<Rb>
    var waitException: bool
    var offset: nat
    /** The transport, with the client's lists. */
    var rx: Rx
    ghost var out: seq<Byte>
    ghost var consumed: seq<Msg>

    ghost predicate Valid()
      reads this
    {
      rx.held == if rb.None? then [] else [rb.value]
    }

    ghost function Abs(): Pse
      reads this
    {
      Pse(rx, offset, out, consumed)
    }

    /** ishtp_cl_rx_get_rb */
    method RxGetRb() returns (r: Option<Rb>)
      modifies `rx
      ensures rx == RxEngine.Next(old(rx), Take)
      ensures r == if old(rx).inProcess == [] then None else Some(old(rx).inProcess[0])
    {
      r := None;
      if rx.inProcess != [] {
        r := Some(rx.inProcess[0]);
        rx := rx.(inProcess := rx.inProcess[1..], held := rx.held + [rx.inProcess[0]]);
      }
    }

    /** ishtp_pse_event_cb */
    method OnEvent()
      requires Valid()
      modifies `rb, `waitException, `rx
      ensures Valid() && Abs() == AfterEventCb(old(Abs()))
      ensures waitException == (old(waitException) || rb.None?)
      ensures rb == if old(rb).None? && old(rx).inProcess != [] then Some(old(rx).inProcess[0]) else old(rb)
      ensures rx.inProcess == if rb == old(rb) then old(rx).inProcess else old(rx).inProcess[1..]
    {
      if rb.None? {
        var next := RxGetRb();
        if next.None? {
          waitException := true;
        } else {
          rb := next;
        }
      }
    }

    /** ishtp_pse_read, from where it holds the lock of the read buffer. */
    method Read(q: Request) returns (r: Result)
      requires Valid()
      modifies `rb, `offset, `rx, `out, `consumed
      ensures Valid() && r == ReadResult(old(Abs()), q) && Abs() == AfterRead(old(Abs()), q)
      ensures out == if r.Data? then old(out) + r.bytes else old(out)
    {
      if !q.alive {
        return NoDevice;
      }
      if rb.None? {
        return NoData;
      }
      var b := rb.value.val;
      if q.length == 0 || !q.hasBuffer || offset > b.idx {
        return MsgSize;
      }
      var n := Min(q.length, b.idx - offset);
      if !q.copyOk {
        return BadAddress;
      }
      var bytes := Content(b)[offset..offset + n];
      offset := offset + n;
      out := out + bytes;
      if offset < b.idx {
        return Data(bytes);
      }
      rx := RxEngine.Next(rx, Recycle(0));
      assert RemoveAt([rb.value], 0) == [];
      rb := None;
      offset := 0;
      consumed := consumed + [Content(b)];
      return Data(bytes);
    }
  }
}

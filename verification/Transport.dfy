/** From a client's message to the firmware: fragmentation, the IPC queue and the registers
    put together. */
module Transport {
  import opened Options
  import opened Registers
  import opened Wire
  import IpcQueue
  import TxContent
  import TxEngine
  import TxLoop

  /** What the IPC queue carries: fragments of clients and of the bus, and management messages. */
  datatype Item = Fragment(f: Frag) | Management(msg: Msg)

  function HdrOf(f: Frag): MsgHdr
  {
    MsgHdr(f.addr.fw, f.addr.host, |f.data|, 0, f.complete)
  }

  /** What ishtp_send_msg can be given: addresses of eight bits, data within the mtu, and not a
      header of nothing but zeros. */
  predicate Sendable(f: Frag)
  {
    f.addr.fw < 0x100 && f.addr.host < 0x100 && |f.data| <= MTU && HdrOf(f) != MsgHdr(0, 0, 0, 0, false)
  }

  predicate ValidItem(x: Item)
  {
    match x
    case Fragment(f) => Sendable(f)
    case Management(msg) => |msg| >= 4 && GetProtocol(IpcQueue.DoorbellOf(msg)) != IPC_PROTOCOL_ISHTP
  }

  predicate AllValid(xs: seq<Item>)
  {
    forall x :: x in xs ==> ValidItem(x)
  }

  function Encoded(x: Item): (msg: Msg)
    requires ValidItem(x)
  {
    match x
    case Fragment(f) => Datagram(HdrOf(f), f.data)
    case Management(msg) => msg
  }

  /** The datagrams of the items, one by one. */
  predicate Encodes(msgs: seq<Msg>, xs: seq<Item>)
  {
    && |msgs| == |xs| && AllValid(xs)
    && forall i :: 0 <= i < |xs| ==> msgs[i] == Encoded(xs[i])
  }

  function FragsOf(xs: seq<Item>): (fs: seq<Frag>)
  {
    if xs == [] then []
    else FragsOf(xs[..|xs| - 1]) + if xs[|xs| - 1].Fragment? then [xs[|xs| - 1].f] else []
  }

  /** What the other side makes of a register image: a fragment, or nothing. */
  function Decoded(im: Image): (f: Option<Frag>)
    requires |im.regs| == MSG_WORDS
  {
    match Received(im)
    case None => None
    case Some((h, payload)) => Some(Frag(Addr(h.host, h.fw), h.complete, payload))
  }

  function DecodedAll(ims: seq<Image>): (fs: seq<Frag>)
    requires forall im :: im in ims ==> |im.regs| == MSG_WORDS
  {
    if ims == [] then []
    else
      DecodedAll(ims[..|ims| - 1]) +
      match Decoded(ims[|ims| - 1]) case None => [] case Some(f) => [f]
  }

  /** The image of an item, clock or not, decodes to its fragment, if it is one. */
  lemma {:induction false} ImageDecodes(x: Item, sent: Msg, im: Image)
    requires ValidItem(x) && IpcQueue.SentAs(Encoded(x), sent) && IpcQueue.Shows(im, sent) && |im.regs| == MSG_WORDS
    ensures Decoded(im) == if x.Fragment? then Some(x.f) else None
  {
    match x
    case Fragment(f) =>
      DatagramDoorbell(|f.data|);
      DoorbellFirst(HdrOf(f), f.data);
      IpcQueue.TakenDecodes(im, HdrOf(f), f.data);
    case Management(msg) =>
      assert forall i :: 0 <= i < 4 ==> sent[i] == sent[..4][i] && msg[i] == msg[..4][i];
  }

  lemma {:induction false} DoorbellFirst(h: MsgHdr, payload: seq<Byte>)
    requires Fits(h) && h.length == |payload|
    ensures IpcQueue.DoorbellOf(Datagram(h, payload)) == Doorbell(|payload|)
  {
    WordOfBytes(Doorbell(|payload|));
    assert Datagram(h, payload)[..4] == BytesOf(Doorbell(|payload|));
    assert forall i :: 0 <= i < 4 ==> Datagram(h, payload)[i] == Datagram(h, payload)[..4][i];
  }

  lemma {:induction false} AllDecode(xs: seq<Item>, sent: seq<Msg>, ims: seq<Image>)
    requires AllValid(xs) && |xs| == |sent| == |ims| && forall im :: im in ims ==> |im.regs| == MSG_WORDS
    requires forall i :: 0 <= i < |xs| ==> IpcQueue.SentAs(Encoded(xs[i]), sent[i]) && IpcQueue.Shows(ims[i], sent[i])
    ensures DecodedAll(ims) == FragsOf(xs)
  {
    if xs != [] {
      var n := |xs| - 1;
      AllDecode(xs[..n], sent[..n], ims[..n]);
      assert xs[n] in xs && ims[n] in ims;
      ImageDecodes(xs[n], sent[n], ims[n]);
    }
  }

  /** The registers keep their number. */
  lemma {:induction false} ImageSizes(s: IpcQueue.Q, es: seq<IpcQueue.Event>)
    requires s.taken == []
    ensures var t := IpcQueue.Run(s, es);
            |t.image.regs| == |s.image.regs| && forall im :: im in t.taken ==> |im.regs| == |s.image.regs|
  {
    if es != [] {
      ImageSizes(s, es[..|es| - 1]);
    }
  }

  lemma {:induction false} PrefixDecodes(xs: seq<Item>, accepted: seq<Msg>, sent: seq<Msg>, ims: seq<Image>)
    requires Encodes(accepted, xs) && |ims| <= |sent| <= |accepted| && forall im :: im in ims ==> |im.regs| == MSG_WORDS
    requires forall i :: 0 <= i < |sent| ==> IpcQueue.SentAs(accepted[i], sent[i])
    requires forall i :: 0 <= i < |ims| ==> IpcQueue.Shows(ims[i], sent[i])
    ensures |ims| <= |xs| && DecodedAll(ims) == FragsOf(xs[..|ims|])
  {
    hide IpcQueue.Shows, IpcQueue.SentAs, DecodedAll, FragsOf;
    var n := |ims|;
    assert forall x :: x in xs[..n] ==> x in xs;
    AllDecode(xs[..n], sent[..n], ims);
  }

  /** Through the queue and the registers the firmware sees the fragments that were accepted since
      the last reset, in order, unchanged, whatever management messages go between them; what it
      has not seen yet is in the registers or waits. */
  lemma {:induction false} FirmwareSees(s: IpcQueue.Q, es: seq<IpcQueue.Event>, pool: set<nat>, xs: seq<Item>)
    requires IpcQueue.Fresh(s, pool) && |s.image.regs| == MSG_WORDS && Encodes(IpcQueue.Run(s, es).accepted, xs)
    ensures var t := IpcQueue.Run(s, es);
            && (forall im :: im in t.taken ==> |im.regs| == MSG_WORDS)
            && t.base <= |t.taken| + 1
            && (t.base <= |t.taken| ==>
                  && |t.taken| - t.base <= |xs|
                  && DecodedAll(t.taken[t.base..]) == FragsOf(xs[..|t.taken| - t.base]))
  {
    hide IpcQueue.Run, IpcQueue.Shows, IpcQueue.SentAs, DecodedAll, FragsOf, Encodes;
    IpcQueue.TakenInOrder(s, es, pool);
    ImageSizes(s, es);
    var t := IpcQueue.Run(s, es);
    if t.base <= |t.taken| {
      PrefixDecodes(xs, t.accepted, t.sent[t.base..], t.taken[t.base..]);
    }
  }

  lemma {:induction false} FragsOfConcat(xs: seq<Item>, ys: seq<Item>)
    ensures FragsOf(xs + ys) == FragsOf(xs) + FragsOf(ys)
  {
    if ys == [] {
      assert xs + ys == xs;
    } else {
      assert (xs + ys)[..|xs + ys| - 1] == xs + ys[..|ys| - 1];
      FragsOfConcat(xs, ys[..|ys| - 1]);
    }
  }

  // ---------------------------------------------------------------- Queue and client together

  /** The queue and the client with address `a` that writes to it. History: what both went through
      (the client since the last reset, with `c0` and `cpool` its beginning), and the items that
      the queue accepted since. */
  datatype Sys = Sys(q: IpcQueue.Q, qes: seq<IpcQueue.Event>,
                     c0: TxEngine.Tx, cpool: set<nat>, c: TxEngine.Tx, ces: seq<TxEngine.Event>, log: seq<Item>)

  datatype SysEvent =
    | Client(e: TxEngine.Event)                      // whether a fragment is accepted, the queue decides
    | OtherWrite(x: Item)                            // other clients, the bus, management
    | Drive(qe: IpcQueue.Event)                      // attempts, the firmware, disabling
    | SysReset(begun: TxEngine.Tx, cpool: set<nat>)  // a reset, and a new client with this address

  predicate Bytes(a: Addr)
  {
    a.fw < 0x100 && a.host < 0x100
  }

  predicate Possible(x: SysEvent, a: Addr)
  {
    match x
    case Client(_) => true
    case OtherWrite(x) => ValidItem(x) && IpcQueue.Rings(Encoded(x)) && (x.Fragment? ==> x.f.addr != a)
    case Drive(e) => e.TrySend? || e.FwTake? || e.Disable?
    case SysReset(begun, cpool) => TxEngine.Fresh(begun, cpool)
  }

  /** The fragment that the client is about to write. */
  function Writing(c: TxEngine.Tx, e: TxEngine.Event, a: Addr): (f: Option<Frag>)
    requires Bytes(a)
    ensures f.Some? ==> Sendable(f.value) && f.value.addr == a
  {
    if e.Step? && TxEngine.Enabled(c, e, MTU) && c.cut.value.phase == TxLoop.Writing
    then Some(TxLoop.NextFrag(c.cut.value, c.txList[0].val, a, MTU)) else None
  }

  function Enqueued(q: IpcQueue.Q, x: Item): IpcQueue.Q
    requires ValidItem(x)
  {
    IpcQueue.Next(q, IpcQueue.Enqueue(Encoded(x)))
  }

  predicate Takes(q: IpcQueue.Q, x: Item)
    requires ValidItem(x)
  {
    |Enqueued(q, x).accepted| > |q.accepted|
  }

  function Logged(s: Sys, x: Item): Sys
    requires ValidItem(x)
  {
    s.(q := Enqueued(s.q, x), qes := s.qes + [IpcQueue.Enqueue(Encoded(x))],
       log := if Takes(s.q, x) then s.log + [x] else s.log)
  }

  function Moved(s: Sys, e: TxEngine.Event, a: Addr): Sys
  {
    s.(c := TxEngine.Next(s.c, e, a, MTU), ces := s.ces + [e])
  }

  function SysNext(s: Sys, x: SysEvent, a: Addr): Sys
    requires Bytes(a)
  {
    if !Possible(x, a) then s
    else
      match x
      case Client(e) =>
        var f := Writing(s.c, e, a);
        if f.None? then Moved(s, e, a)
        else Moved(Logged(s, Fragment(f.value)), TxEngine.Step(Takes(s.q, Fragment(f.value))), a)
      case OtherWrite(x) => Logged(s, x)
      case Drive(e) => s.(q := IpcQueue.Next(s.q, e), qes := s.qes + [e])
      case SysReset(begun, cpool) =>
        Sys(IpcQueue.Next(s.q, IpcQueue.Reset), s.qes + [IpcQueue.Reset], begun, cpool, begun, [], [])
  }

  function SysRun(s: Sys, xs: seq<SysEvent>, a: Addr): Sys
    requires Bytes(a)
  {
    if xs == [] then s else SysNext(SysRun(s, xs[..|xs| - 1], a), xs[|xs| - 1], a)
  }

  predicate SysFresh(s: Sys, pool: set<nat>)
  {
    && IpcQueue.Fresh(s.q, pool) && |s.q.image.regs| == MSG_WORDS && TxEngine.Fresh(s.c, s.cpool)
    && s == Sys(s.q, [], s.c, s.cpool, s.c, [], [])
  }

  /** Both sides are where their own runs lead, and what the client has in the queue is its wire. */
  predicate SysOk(s: Sys, q0: IpcQueue.Q, a: Addr)
  {
    && s.q == IpcQueue.Run(q0, s.qes)
    && TxEngine.Fresh(s.c0, s.cpool) && s.c == TxEngine.Run(s.c0, s.ces, a, MTU)
    && Encodes(s.q.accepted, s.log) && Project(FragsOf(s.log), a) == s.c.wire
  }

  lemma {:induction false} QueueMore(q0: IpcQueue.Q, es: seq<IpcQueue.Event>, e: IpcQueue.Event)
    ensures IpcQueue.Run(q0, es + [e]) == IpcQueue.Next(IpcQueue.Run(q0, es), e)
  {
    assert (es + [e])[..|es|] == es;
  }

  lemma {:induction false} ClientMore(c0: TxEngine.Tx, es: seq<TxEngine.Event>, e: TxEngine.Event, a: Addr)
    ensures TxEngine.Run(c0, es + [e], a, MTU) == TxEngine.Next(TxEngine.Run(c0, es, a, MTU), e, a, MTU)
  {
    assert (es + [e])[..|es|] == es;
  }

  /** Writing an item adds it to what the queue accepted, or changes nothing. */
  lemma {:induction false} EnqueueEncodes(q: IpcQueue.Q, log: seq<Item>, x: Item)
    requires ValidItem(x) && Encodes(q.accepted, log)
    ensures Encodes(Enqueued(q, x).accepted, if Takes(q, x) then log + [x] else log)
    ensures Takes(q, x) ==> Enqueued(q, x).accepted == q.accepted + [Encoded(x)]
  {
    hide Encoded;
  }

  /** What one more item adds to the client's fragments. */
  lemma {:induction false} LogMore(log: seq<Item>, x: Item, a: Addr)
    ensures Project(FragsOf(log + [x]), a)
            == Project(FragsOf(log), a) + if x.Fragment? && x.f.addr == a then [x.f] else []
  {
    var fs := FragsOf(log);
    assert (log + [x])[..|log|] == log;
    if x.Fragment? {
      assert (fs + [x.f])[..|fs|] == fs;
    } else {
      assert fs + [] == fs;
    }
  }

  lemma {:induction false} LoggedOk(s: Sys, q0: IpcQueue.Q, x: Item, a: Addr)
    requires SysOk(s, q0, a) && ValidItem(x)
    ensures var t := Logged(s, x);
            && t.q == IpcQueue.Run(q0, t.qes) && Encodes(t.q.accepted, t.log)
            && Project(FragsOf(t.log), a)
            == s.c.wire + if Takes(s.q, x) && x.Fragment? && x.f.addr == a then [x.f] else []
  {
    hide Encodes, IpcQueue.Run, TxEngine.Run, Encoded;
    QueueMore(q0, s.qes, IpcQueue.Enqueue(Encoded(x)));
    EnqueueEncodes(s.q, s.log, x);
    LogMore(s.log, x, a);
  }

  /** What the client's own step does to its wire. */
  lemma {:induction false} WireMoves(c: TxEngine.Tx, e: TxEngine.Event, took: bool, a: Addr)
    requires Bytes(a)
    ensures Writing(c, e, a).None? ==> TxEngine.Next(c, e, a, MTU).wire == c.wire
    ensures Writing(c, e, a).Some? ==>
              TxEngine.Next(c, TxEngine.Step(took), a, MTU).wire == c.wire + if took then [Writing(c, e, a).value] else []
  {
    hide TxLoop.SubStep, TxLoop.NextFrag, TxLoop.LoopOk;
  }

  lemma {:induction false} ClientOk(s: Sys, q0: IpcQueue.Q, e: TxEngine.Event, a: Addr)
    requires Bytes(a) && SysOk(s, q0, a)
    ensures SysOk(SysNext(s, Client(e), a), q0, a)
  {
    hide IpcQueue.Run, TxEngine.Run, TxEngine.Next, Encodes, FragsOf, Project, Enqueued, TxEngine.Fresh;
    var f := Writing(s.c, e, a);
    if f.None? {
      WireMoves(s.c, e, true, a);
      ClientMore(s.c0, s.ces, e, a);
    } else {
      var x := Fragment(f.value);
      LoggedOk(s, q0, x, a);
      WireMoves(s.c, e, Takes(s.q, x), a);
      ClientMore(s.c0, s.ces, TxEngine.Step(Takes(s.q, x)), a);
    }
  }

  lemma {:induction false} FreshWire(s: TxEngine.Tx, pool: set<nat>, a: Addr)
    requires TxEngine.Fresh(s, pool)
    ensures TxEngine.Run(s, [], a, MTU) == s && Project(FragsOf([]), a) == s.wire && Encodes([], [])
  {
  }

  lemma {:induction false} DriveOk(q: IpcQueue.Q, e: IpcQueue.Event)
    ensures e.TrySend? || e.FwTake? || e.Disable? ==> IpcQueue.Next(q, e).accepted == q.accepted
  {
  }

  lemma {:induction false} ResetEmpties(q: IpcQueue.Q, q0: IpcQueue.Q, es: seq<IpcQueue.Event>, pool: set<nat>)
    requires IpcQueue.Fresh(q0, pool) && q == IpcQueue.Run(q0, es)
    ensures IpcQueue.Next(q, IpcQueue.Reset).accepted == []
  {
    IpcQueue.SafeRun(q0, es, pool);
  }

  lemma {:induction false} SysStep(s: Sys, q0: IpcQueue.Q, pool: set<nat>, x: SysEvent, a: Addr)
    requires Bytes(a) && SysOk(s, q0, a) && IpcQueue.Fresh(q0, pool)
    ensures SysOk(SysNext(s, x, a), q0, a)
  {
    hide IpcQueue.Run, TxEngine.Run, Encodes, FragsOf, Project, Enqueued, IpcQueue.Next, TxEngine.Next, TxEngine.Fresh,
         IpcQueue.Fresh, Writing;
    if Possible(x, a) {
      match x
      case Client(e) => ClientOk(s, q0, e, a);
      case OtherWrite(x) => LoggedOk(s, q0, x, a);
      case Drive(e) => {
        QueueMore(q0, s.qes, e);
        DriveOk(s.q, e);
      }
      case SysReset(begun, cpool) => {
        QueueMore(q0, s.qes, IpcQueue.Reset);
        ResetEmpties(s.q, q0, s.qes, pool);
        FreshWire(begun, cpool, a);
      }
    }
  }

  lemma {:induction false} SysRunOk(s: Sys, xs: seq<SysEvent>, pool: set<nat>, a: Addr)
    requires Bytes(a) && SysFresh(s, pool)
    ensures SysOk(SysRun(s, xs, a), s.q, a)
  {
    if xs == [] {
      FreshWire(s.c, s.cpool, a);
    } else {
      hide SysOk, SysNext;
      SysRunOk(s, xs[..|xs| - 1], pool, a);
      SysStep(SysRun(s, xs[..|xs| - 1], a), s.q, pool, xs[|xs| - 1], a);
    }
  }

  // ---------------------------------------------------------------- End to end

  /** A firmware that reads a prefix of the fragments hears a prefix of the messages. */
  lemma {:induction false} HeardPrefix(log: seq<Item>, n: nat, a: Addr, ms: seq<Msg>, wire: seq<Frag>)
    requires n <= |log| && Project(FragsOf(log), a) == wire && wire <= FragmentsOfAll(a, ms, MTU)
    ensures Feed(EMPTY_INBOX, Project(FragsOf(log[..n]), a)).done <= ms
    ensures n == |log| && wire == FragmentsOfAll(a, ms, MTU) ==>
              Feed(EMPTY_INBOX, Project(FragsOf(log[..n]), a)) == Inbox(ms, [])
  {
    hide Feed, FragmentsOfAll, Project, FragsOf;
    assert log == log[..n] + log[n..];
    FragsOfConcat(log[..n], log[n..]);
    ProjectConcat(FragsOf(log[..n]), FragsOf(log[n..]), a);
    PrefixRoundTrip(a, ms, MTU, Project(FragsOf(log[..n]), a));
    RoundTrip(a, ms, MTU);
    if n == |log| {
      assert log[..n] == log;
    }
  }

  /** End to end, on every run of a client together with the queue, with other writers, attempts,
      the firmware and resets in between: what the firmware joins of the client's fragments from
      the registers since the last reset are messages the client submitted since, in order; and
      all that were started, once the firmware has taken all and none is being cut. */
  lemma {:induction false} SubmittedReachesFirmware(s: Sys, xs: seq<SysEvent>, pool: set<nat>, a: Addr)
    requires Bytes(a) && SysFresh(s, pool)
    requires var t := SysRun(s, xs, a);
             && TxEngine.NonEmptyMessages(t.ces) && TxContent.AllTaken(t.ces)
             && TxContent.NoRace(t.c0, t.ces, a, MTU)
    ensures var t := SysRun(s, xs, a);
            && (forall im :: im in t.q.taken ==> |im.regs| == MSG_WORDS)
            && (t.q.base <= |t.q.taken| ==>
                  var heard := Feed(EMPTY_INBOX, Project(DecodedAll(t.q.taken[t.q.base..]), a));
                  && heard.done <= t.c.started <= t.c.submitted
                  && (|t.q.taken| - t.q.base == |t.q.accepted| && t.c.cut.None? ==> heard == Inbox(t.c.started, [])))
  {
    hide SysRun, IpcQueue.Run, TxEngine.Run, Feed, Project, FragsOf, DecodedAll, FragmentsOfAll, TxContent.NoRace,
         TxEngine.Fresh, IpcQueue.Fresh;
    SysRunOk(s, xs, pool, a);
    var t := SysRun(s, xs, a);
    FirmwareSees(s.q, t.qes, pool, t.log);
    TxContent.StreamOfStarted(t.c0, t.ces, a, MTU, t.cpool);
    TxEngine.TransmitConservation(t.c0, t.ces, a, MTU, t.cpool);
    if t.q.base <= |t.q.taken| {
      HeardPrefix(t.log, |t.q.taken| - t.q.base, a, t.c.started, t.c.wire);
    }
  }

  // ---------------------------------------------------------------- Nothing is held back

  lemma {:induction false} FragmentFits(f: Frag)
    requires Sendable(f)
    ensures var msg := Encoded(Fragment(f)); 4 <= |msg| <= IPC_FULL_MSG_SIZE && msg[3] >= 0x80
  {
    DatagramBytes(HdrOf(f), f.data);
  }

  /** On every run of the whole system the IPC queue takes a fragment, whoever writes it, if and only
      if fewer datagrams wait than it has nodes. */
  lemma {:induction false} TakenExact(s: Sys, xs: seq<SysEvent>, pool: set<nat>, a: Addr, f: Frag)
    requires Bytes(a) && SysFresh(s, pool) && Sendable(f)
    ensures var q := SysRun(s, xs, a).q;
            && (Takes(q, Fragment(f)) <==> |q.processing| < |pool|)
            && (Takes(q, Fragment(f)) ==> Enqueued(q, Fragment(f)).accepted == q.accepted + [Datagram(HdrOf(f), f.data)])
  {
    hide SysRun, IpcQueue.Run, IpcQueue.Next, IpcQueue.Fresh, Datagram, Encodes, Project, FragsOf;
    SysRunOk(s, xs, pool, a);
    FragmentFits(f);
    var t := SysRun(s, xs, a);
    IpcQueue.AcceptsExact(s.q, t.qes, pool, Encoded(Fragment(f)));
    IpcQueue.QueueIsFifo(s.q, t.qes, pool);
  }

  /** The attempts and the firmware's steps, as the system sees them. */
  function Drives(es: seq<IpcQueue.Event>): (xs: seq<SysEvent>)
    ensures |xs| == |es|
  {
    if es == [] then [] else Drives(es[..|es| - 1]) + [Drive(es[|es| - 1])]
  }

  lemma {:induction false} DriveRun(s: Sys, xs: seq<SysEvent>, es: seq<IpcQueue.Event>, a: Addr)
    requires Bytes(a) && forall e :: e in es ==> e.TrySend? || e.FwTake?
    ensures var (t, u) := (SysRun(s, xs, a), SysRun(s, xs + Drives(es), a)); u == t.(q := u.q, qes := t.qes + es)
  {
    var t := SysRun(s, xs, a);
    if es == [] {
      assert xs + [] == xs && t.qes + [] == t.qes;
    } else {
      var (init, e) := (es[..|es| - 1], es[|es| - 1]);
      assert e in es && forall x :: x in init ==> x in es;
      DriveRun(s, xs, init, a);
      assert (xs + Drives(es))[..|xs + Drives(es)| - 1] == xs + Drives(init);
      assert t.qes + init + [e] == t.qes + es;
    }
  }

  lemma {:induction false} DrainsDrive(n: nat, clock: seq<Byte>)
    ensures forall e :: e in IpcQueue.Drains(n, clock) ==> e.TrySend? || e.FwTake?
  {
    if n > 0 {
      DrainsDrive(n - 1, clock);
    }
  }

  /** And so, after any run that leaves the device enabled and no message half cut, enough attempts
      bring everything over: the firmware has joined all messages started since the last reset, and
      nothing else of this client. */
  lemma {:induction false} AllStartedArrive(s: Sys, xs: seq<SysEvent>, pool: set<nat>, a: Addr, clock: seq<Byte>)
    requires Bytes(a) && SysFresh(s, pool) && |clock| == IpcQueue.TIME_UPDATE_SIZE
    requires var t := SysRun(s, xs, a);
             && TxEngine.NonEmptyMessages(t.ces) && TxContent.AllTaken(t.ces)
             && TxContent.NoRace(t.c0, t.ces, a, MTU)
             && !t.q.disabled && t.c.cut.None?
    ensures var t := SysRun(s, xs, a);
            var u := SysRun(s, xs + Drives(IpcQueue.Drains(|t.q.processing|, clock)), a);
            && u.c == t.c && u.q.processing == [] && u.q.base <= |u.q.taken|
            && (forall im :: im in u.q.taken ==> |im.regs| == MSG_WORDS)
            && Feed(EMPTY_INBOX, Project(DecodedAll(u.q.taken[u.q.base..]), a)) == Inbox(t.c.started, [])
  {
    hide SysRun, IpcQueue.Run, IpcQueue.Drains, Drives, TxEngine.Run, Feed, Project, FragsOf, DecodedAll, TxContent.NoRace,
         TxEngine.Fresh, IpcQueue.Fresh, Encodes;
    var t := SysRun(s, xs, a);
    var es := IpcQueue.Drains(|t.q.processing|, clock);
    SysRunOk(s, xs, pool, a);
    DrainsDrive(|t.q.processing|, clock);
    DriveRun(s, xs, es, a);
    SysRunOk(s, xs + Drives(es), pool, a);
    IpcQueue.EnoughAttempts(s.q, t.qes, pool, clock);
    SubmittedReachesFirmware(s, xs + Drives(es), pool, a);
  }
}

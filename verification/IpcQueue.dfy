/** The IPC transmit queue: a fixed pool of nodes between a free list and a processing list,
    and a doorbell that lets one datagram at a time through the message registers. */
module IpcQueue {
  import opened Bits
  import opened Lists
  import opened Registers
  import opened Wire

  type QNode = Node<Msg>

  const IPC_TX_FIFO_SIZE := 512
  const TIME_UPDATE_SIZE := 20
  const MNG_SYNC_FW_CLOCK := 5

  /** `attempts`: calls of write_ipc_from_queue still to come, one for every enqueue and one for
      every indication of the firmware that it has taken a datagram. History: datagrams accepted
      since the last reset, all datagrams sent and how many of them before that reset, the
      register images at each ring of the doorbell, and those the firmware took. */
  datatype Q = Q(
    processing: seq<QNode>, free: seq<QNode>, disabled: bool, image: Image, attempts: nat,
    accepted: seq<Msg>, sent: seq<Msg>, base: nat, rung: seq<Image>, taken: seq<Image>)

  datatype Event =
    | Enqueue(msg: Msg)          // write_ipc_to_queue, first critical section
    | TrySend(clock: seq<Byte>)  // write_ipc_from_queue; the clock it might have to send
    | FwTake                     // the firmware reads the registers and clears the doorbell
    | Disable
    | Reset                      // ish_fw_reset_handler and ishtp_reset_handler

  function DoorbellOf(msg: Msg): Word
    requires |msg| >= 4
  {
    WordOf(msg[0], msg[1], msg[2], msg[3])
  }

  /** Every caller puts a doorbell value with the busy bit first. */
  predicate Rings(msg: Msg)
  {
    |msg| >= 4 && IsBusy(DoorbellOf(msg))
  }

  predicate IsClockSync(msg: Msg)
    requires |msg| >= 4
  {
    GetProtocol(DoorbellOf(msg)) == IPC_PROTOCOL_MNG && GetMngCmd(DoorbellOf(msg)) == MNG_SYNC_FW_CLOCK
  }

  /** A clock message gets the time of its sending; its length stays. */
  function Stamped(msg: Msg, clock: seq<Byte>): (r: Msg)
    requires |msg| >= 4 && |clock| == TIME_UPDATE_SIZE
    ensures |r| == |msg| && r[..4] == msg[..4]
    ensures !IsClockSync(msg) ==> r == msg
  {
    if IsClockSync(msg) then
      (msg[..4] + clock + if |msg| > 4 + TIME_UPDATE_SIZE then msg[4 + TIME_UPDATE_SIZE..] else [])[..|msg|]
    else msg
  }

  predicate Enabled(s: Q, e: Event)
  {
    match e
    case Enqueue(msg) => Rings(msg)
    case TrySend(clock) => s.attempts > 0 && |clock| == TIME_UPDATE_SIZE
    case FwTake => IsBusy(s.image.drbl)
    case Disable => true
    case Reset => true
  }

  function Apply(s: Q, e: Event): Q
    requires Enabled(s, e) && AllRing(s.processing)
  {
    match e
    case Enqueue(msg) =>
      if |msg| > IPC_FULL_MSG_SIZE || s.free == [] then s
      else s.(free := s.free[1..], processing := s.processing + [Node(s.free[0].id, msg)],
              accepted := s.accepted + [msg], attempts := s.attempts + 1)
    case TrySend(clock) =>
      var t := s.(attempts := s.attempts - 1);
      if s.disabled || IsBusy(s.image.drbl) || s.processing == [] then t
      else SendHead(t, clock)
    case FwTake =>
      s.(taken := s.taken + [s.image], image := Image(0, s.image.regs), attempts := s.attempts + 1)
    case Disable => s.(disabled := true)
    case Reset =>
      s.(processing := [], free := s.processing + s.free, disabled := false, accepted := [], base := |s.sent|)
  }

  /** The first datagram goes to the registers, its node to the head of the free list. */
  function SendHead(s: Q, clock: seq<Byte>): Q
    requires s.processing != [] && AllRing(s.processing) && |clock| == TIME_UPDATE_SIZE
  {
    var n := s.processing[0];
    var m := Stamped(n.val, clock);
    var image := Sent(s.image.regs, m);
    s.(processing := s.processing[1..], free := [Node(n.id, m)] + s.free,
       image := image, sent := s.sent + [m], rung := s.rung + [image])
  }

  predicate AllRing(ns: seq<QNode>)
  {
    forall n :: n in ns ==> Rings(n.val)
  }

  function Next(s: Q, e: Event): Q
  {
    if Enabled(s, e) && AllRing(s.processing) then Apply(s, e) else s
  }

  function Run(s: Q, es: seq<Event>): Q
  {
    if es == [] then s else Next(Run(s, es[..|es| - 1]), es[|es| - 1])
  }

  /** The queue as ish_dev_init leaves it. */
  predicate Fresh(s: Q, pool: set<nat>)
  {
    && s == Q([], s.free, false, s.image, 0, [], [], 0, [], [])
    && Ids(s.free) == multiset(pool) && !IsBusy(s.image.drbl)
  }

  // ---------------------------------------------------------------- Invariants

  predicate PoolInv(s: Q, pool: set<nat>)
  {
    Ids(s.processing) + Ids(s.free) == multiset(pool)
  }

  /** `m` was sent as `r`: the same, but for the payload of a clock message. */
  predicate SentAs(m: Msg, r: Msg)
  {
    |m| == |r| >= 4 && m[..4] == r[..4] && (!IsClockSync(m) ==> m == r)
  }

  function Contents(ns: seq<QNode>): (ms: seq<Msg>)
    ensures |ms| == |ns|
  {
    seq(|ns|, i requires 0 <= i < |ns| => ns[i].val)
  }

  /** What was sent since the reset, and what waits, is what was accepted since, in order. */
  predicate FifoInv(s: Q)
  {
    && AllRing(s.processing) && s.base <= |s.sent|
    && var n := |s.sent| - s.base;
       && |s.accepted| == n + |s.processing|
       && (forall i :: 0 <= i < n ==> SentAs(s.accepted[i], s.sent[s.base + i]))
       && (forall i :: 0 <= i < |s.processing| ==> s.accepted[n + i] == s.processing[i].val)
  }

  /** The registers show this datagram. */
  predicate Shows(im: Image, msg: Msg)
  {
    && |msg| >= 4 && im.drbl == DoorbellOf(msg)
    && im.regs == Written(im.regs, msg[4..])
  }

  /** No image was overwritten before the firmware took it: each is in the registers still, or
      was taken, in order; and each shows the datagram sent. */
  predicate DoorbellInv(s: Q)
  {
    && s.rung == s.taken + (if IsBusy(s.image.drbl) then [s.image] else [])
    && |s.rung| == |s.sent|
    && forall i :: 0 <= i < |s.sent| ==> Shows(s.rung[i], s.sent[i])
  }

  predicate ProgressInv(s: Q)
  {
    s.processing != [] && !s.disabled && !IsBusy(s.image.drbl) ==> s.attempts > 0
  }

  // ---------------------------------------------------------------- Steps

  lemma {:induction false} EnqueuePool(s: Q, msg: Msg)
    requires s.free != []
    ensures Ids(s.processing + [Node(s.free[0].id, msg)]) + Ids(s.free[1..]) == Ids(s.processing) + Ids(s.free)
  {
    IdsFirst(s.free);
    IdsPush(s.processing, Node(s.free[0].id, msg));
  }

  lemma {:induction false} SendPool(s: Q, n: QNode)
    requires s.processing != [] && n.id == s.processing[0].id
    ensures Ids(s.processing[1..]) + Ids([n] + s.free) == Ids(s.processing) + Ids(s.free)
  {
    IdsFirst(s.processing);
    IdsFirst([n] + s.free);
    assert ([n] + s.free)[1..] == s.free;
  }

  lemma {:induction false} PoolStep(s: Q, e: Event, pool: set<nat>)
    requires PoolInv(s, pool) && Enabled(s, e) && AllRing(s.processing)
    ensures PoolInv(Apply(s, e), pool)
  {
    hide Ids;
    match e
    case Enqueue(msg) =>
      if s.free != [] {
        EnqueuePool(s, msg);
      }
    case TrySend(clock) =>
      if s.processing != [] {
        SendPool(s, Node(s.processing[0].id, Stamped(s.processing[0].val, clock)));
      }
    case Reset => IdsConcat(s.processing, s.free);
    case _ =>
  }

  lemma {:induction false} SendFifo(s: Q, clock: seq<Byte>)
    requires FifoInv(s) && s.processing != [] && |clock| == TIME_UPDATE_SIZE
    ensures FifoInv(SendHead(s, clock))
  {
  }

  lemma {:induction false} EnqueueFifo(s: Q, msg: Msg)
    requires FifoInv(s) && Rings(msg)
    ensures FifoInv(Apply(s, Enqueue(msg)))
  {
  }

  lemma {:induction false} FifoStep(s: Q, e: Event)
    requires FifoInv(s) && Enabled(s, e)
    ensures FifoInv(Apply(s, e))
  {
    if e.TrySend? {
      hide SendHead;
      if !s.disabled && !IsBusy(s.image.drbl) && s.processing != [] {
        SendFifo(s.(attempts := s.attempts - 1), e.clock);
      }
    } else if e.Enqueue? {
      EnqueueFifo(s, e.msg);
    }
  }

  lemma {:induction false} DoorbellStep(s: Q, e: Event)
    requires DoorbellInv(s) && Enabled(s, e) && AllRing(s.processing)
    ensures DoorbellInv(Apply(s, e))
  {
  }

  lemma {:induction false} ProgressStep(s: Q, e: Event)
    requires ProgressInv(s) && Enabled(s, e) && AllRing(s.processing)
    ensures ProgressInv(Apply(s, e))
  {
  }

  // ---------------------------------------------------------------- All runs

  ghost predicate Safe(s: Q, pool: set<nat>)
  {
    PoolInv(s, pool) && FifoInv(s) && DoorbellInv(s) && ProgressInv(s)
  }

  lemma {:induction false} SafeRun(s: Q, es: seq<Event>, pool: set<nat>)
    requires Fresh(s, pool)
    ensures Safe(Run(s, es), pool)
  {
    if es != [] {
      var t, e := Run(s, es[..|es| - 1]), es[|es| - 1];
      SafeRun(s, es[..|es| - 1], pool);
      if Enabled(t, e) {
        PoolStep(t, e, pool);
        FifoStep(t, e);
        DoorbellStep(t, e);
        ProgressStep(t, e);
      }
    } else {
      assert multiset{} + Ids(s.free) == multiset(pool);
    }
  }

  /** The IPC queue refines a FIFO, over every run of enqueues, attempts, resets and firmware
      steps: no node is lost or in two places; what was sent since the last reset is a prefix of
      what was accepted since, but for the payload of clock messages, and the rest waits in
      order; the doorbell never rings over a datagram that was not taken; and a datagram that
      waits at a clear doorbell has an attempt coming. */
  lemma {:induction false} QueueIsFifo(s: Q, es: seq<Event>, pool: set<nat>)
    requires Fresh(s, pool)
    ensures var t := Run(s, es);
            && |t.processing| + |t.free| == |pool|
            && Ids(t.processing) + Ids(t.free) == multiset(pool)
            && t.base <= |t.sent| && |t.accepted| == |t.sent| - t.base + |t.processing|
            && (forall i :: 0 <= i < |t.sent| - t.base ==> SentAs(t.accepted[i], t.sent[t.base + i]))
            && t.accepted[|t.sent| - t.base..] == Contents(t.processing)
            && (t.processing != [] && t.attempts == 0 ==> t.disabled || IsBusy(t.image.drbl))
  {
    hide Run, Safe, SentAs;
    SafeRun(s, es, pool);
    SafeMeans(Run(s, es), pool);
  }

  lemma {:induction false} SafeMeans(t: Q, pool: set<nat>)
    requires Safe(t, pool)
    ensures |t.processing| + |t.free| == |pool| && PoolInv(t, pool) && FifoInv(t) && ProgressInv(t)
    ensures t.accepted[|t.sent| - t.base..] == Contents(t.processing)
  {
    hide Ids, SentAs, AllRing, DoorbellInv;
    assert |multiset(pool)| == |pool|;
    assert |Ids(t.processing) + Ids(t.free)| == |Ids(t.processing)| + |Ids(t.free)|;
  }

  /** No node is twice on the lists together. */
  lemma {:induction false} NoNodeTwice(s: Q, es: seq<Event>, pool: set<nat>)
    requires Fresh(s, pool)
    ensures var t := Run(s, es);
            forall i, j :: 0 <= i < j < |t.processing + t.free| ==> (t.processing + t.free)[i].id != (t.processing + t.free)[j].id
  {
    hide Run, Ids;
    SafeRun(s, es, pool);
    var t := Run(s, es);
    IdsConcat(t.processing, t.free);
    PoolNoDup(t.processing + t.free, pool);
  }

  /** What the firmware has taken from the registers are the datagrams sent, in order, all but
      at most the last. */
  lemma {:induction false} FirmwareTakesWhatWasSent(s: Q, es: seq<Event>, pool: set<nat>)
    requires Fresh(s, pool)
    ensures var t := Run(s, es);
            && |t.sent| - 1 <= |t.taken| <= |t.sent|
            && (|t.taken| == |t.sent| <==> !IsBusy(t.image.drbl))
            && forall i :: 0 <= i < |t.taken| ==> Shows(t.taken[i], t.sent[i])
  {
    SafeRun(s, es, pool);
    var t := Run(s, es);
    assert forall i :: 0 <= i < |t.taken| ==> t.taken[i] == t.rung[i];
  }

  /** Both together: what is taken are images of what was accepted. */
  lemma {:induction false} TakenInOrder(s: Q, es: seq<Event>, pool: set<nat>)
    requires Fresh(s, pool)
    ensures var t := Run(s, es);
            && t.base <= |t.sent| <= |t.accepted| + t.base && |t.sent| - 1 <= |t.taken| <= |t.sent|
            && (forall i :: 0 <= i < |t.sent| - t.base ==> SentAs(t.accepted[i], t.sent[t.base + i]))
            && forall i :: 0 <= i < |t.taken| ==> Shows(t.taken[i], t.sent[i])
  {
    hide Run, Ids, SentAs, Shows;
    QueueIsFifo(s, es, pool);
    FirmwareTakesWhatWasSent(s, es, pool);
  }

  /** So a client or bus datagram reaches the firmware's decoding with its header and payload. */
  lemma {:induction false} TakenDecodes(im: Image, h: MsgHdr, payload: seq<Byte>)
    requires |im.regs| == MSG_WORDS && Fits(h) && h.length == |payload| <= MTU
    requires h != MsgHdr(0, 0, 0, 0, false) && Shows(im, Datagram(h, payload))
    ensures Received(im).Some? && Received(im).value == (h, payload)
  {
    RegisterRoundTrip(im.regs, h, payload);
    assert Sent(im.regs, Datagram(h, payload)) == im;
  }

  // ---------------------------------------------------------------- What is accepted, what is sent

  /** The busy bit is the top bit of the fourth byte. */
  lemma {:induction false} RingsExact(msg: Msg)
    ensures Rings(msg) <==> |msg| >= 4 && msg[3] >= 0x80
  {
    hide IsBusy;
    if |msg| >= 4 {
      var (b0: int, b1: int, b2: int, b3: int) := (msg[0], msg[1], msg[2], msg[3]);
      var low := b0 + 0x100 * b1 + 0x1_0000 * b2;
      assert 0 <= low < 0x100_0000 && DoorbellOf(msg) == low + 0x100_0000 * b3;
    }
  }

  /** On every run: a datagram that rings is accepted if and only if it is no longer than
      IPC_FULL_MSG_SIZE and fewer datagrams wait than there are nodes. It then waits behind all
      others, in the node that was first on the free list, with an attempt to come for it; else
      nothing changes. */
  lemma {:induction false} AcceptsExact(s: Q, es: seq<Event>, pool: set<nat>, msg: Msg)
    requires Fresh(s, pool)
    ensures var t := Run(s, es);
            var u := Next(t, Enqueue(msg));
            && (u.accepted == t.accepted + [msg]
                <==> |msg| >= 4 && msg[3] >= 0x80 && |msg| <= IPC_FULL_MSG_SIZE
                     && |t.accepted| - (|t.sent| - t.base) < |pool|)
            && (u.accepted == t.accepted + [msg] ==>
                  && t.free != [] && u.free == t.free[1..] && u.processing == t.processing + [Node(t.free[0].id, msg)]
                  && u.attempts == t.attempts + 1
                  && (u.image, u.disabled, u.sent, u.base, u.rung, u.taken)
                  == (t.image, t.disabled, t.sent, t.base, t.rung, t.taken))
            && (u.accepted != t.accepted + [msg] ==> u == t)
  {
    hide Run, Ids, Rings;
    QueueIsFifo(s, es, pool);
    SafeRun(s, es, pool);
    RingsExact(msg);
    var t := Run(s, es);
    assert t.accepted != t.accepted + [msg];
  }

  lemma {:induction false} StampedIndex(msg: Msg, clock: seq<Byte>, i: nat)
    requires 4 <= |msg| && i < |msg| && |clock| == TIME_UPDATE_SIZE
    ensures Stamped(msg, clock)[i] == if 4 <= i < 24 && IsClockSync(msg) then clock[i - 4] else msg[i]
  {
    hide IsClockSync;
    if IsClockSync(msg) {
      var tail := if |msg| > 4 + TIME_UPDATE_SIZE then msg[4 + TIME_UPDATE_SIZE..] else [];
      var all := msg[..4] + clock + tail;
      assert all[i] == if i < 4 then msg[i] else if i < 24 then clock[i - 4] else msg[i];
      assert Stamped(msg, clock) == all[..|msg|];
    }
  }

  /** Byte by byte, what leaves: a clock message has the clock in its first bytes after the doorbell
      value, as far as it reaches; nothing else is touched. */
  lemma {:induction false} StampedBytes(msg: Msg, clock: seq<Byte>, i: nat)
    requires 4 <= |msg| && i < |msg| && |clock| == TIME_UPDATE_SIZE
    ensures var w := WordOf(msg[0], msg[1], msg[2], msg[3]);
            Stamped(msg, clock)[i] ==
            if 4 <= i < 24 && Field(w, 10, 4) == IPC_PROTOCOL_MNG && Field(w, 16, 4) == MNG_SYNC_FW_CLOCK
            then clock[i - 4] else msg[i]
  {
    hide Field, GetProtocol, GetMngCmd, Stamped;
    StampedIndex(msg, clock, i);
    CommandField(DoorbellOf(msg));
    DoorbellFields(DoorbellOf(msg));
  }

  /** On every run: an attempt at a clear doorbell, with the device enabled, sends the datagram that
      waited longest. It is in the registers, doorbell value first, its node is the first to be used
      again, and all else waits on; any other attempt sends nothing. */
  lemma {:induction false} SendsExact(s: Q, es: seq<Event>, pool: set<nat>, clock: seq<Byte>)
    requires Fresh(s, pool) && |clock| == TIME_UPDATE_SIZE && Run(s, es).attempts > 0
    ensures var t := Run(s, es);
            var u := Next(t, TrySend(clock));
            && u.accepted == t.accepted && u.base == t.base && u.taken == t.taken && u.disabled == t.disabled
            && if !t.disabled && Field(t.image.drbl, 31, 1) == 0 && t.processing != [] then
                 && |t.processing[0].val| >= 4
                 && var m := Stamped(t.processing[0].val, clock);
                 && u.sent == t.sent + [m] && u.image == Sent(t.image.regs, m)
                 && u.processing == t.processing[1..] && u.free == [Node(t.processing[0].id, m)] + t.free
               else u.sent == t.sent && u.image == t.image && u.processing == t.processing && u.free == t.free
  {
    hide Run, Ids, Rings, Stamped, Sent, Field;
    SafeRun(s, es, pool);
    var t := Run(s, es);
    assert t.processing != [] ==> Rings(t.processing[0].val);
    assert forall m :: Rings(m) ==> |m| >= 4 by { RingsLong(); }
    DoorbellFields(Run(s, es).image.drbl);
    BitIsOne(Run(s, es).image.drbl);
  }

  lemma {:induction false} RingsLong()
    ensures forall m :: Rings(m) ==> |m| >= 4
  {
  }

  lemma {:induction false} CommandField(w: Word)
    ensures GetMngCmd(w) == Field(w, 16, 4)
  {
    hide Field, And, High;
    Powers();
    FieldAt(w, w / 0x10_0000, w / 0x1_0000 % 0x10, w % 0x1_0000, 16, 4);
  }

  lemma {:induction false} BitIsOne(w: Word)
    ensures Field(w, 31, 1) <= 1
  {
    hide Field, And, High;
    Powers();
    MorePowers();
    FieldAt(w, 0, w / 0x8000_0000, w % 0x8000_0000, 31, 1);
  }

  // ---------------------------------------------------------------- Enough attempts

  /** The firmware takes what is in the registers, `n` times over, and each time an attempt follows. */
  function Drains(n: nat, clock: seq<Byte>): (es: seq<Event>)
  {
    if n == 0 then [FwTake] else Drains(n - 1, clock) + [TrySend(clock)] + [FwTake]
  }

  lemma {:induction false} RunMore(s: Q, es: seq<Event>, e: Event)
    ensures Run(s, es + [e]) == Next(Run(s, es), e)
  {
    assert (es + [e])[..|es|] == es;
  }

  lemma {:induction false} RunConcat(s: Q, es: seq<Event>, fs: seq<Event>)
    ensures Run(s, es + fs) == Run(Run(s, es), fs)
  {
    if fs == [] {
      assert es + fs == es;
    } else {
      hide Next;
      assert (es + fs)[..|es + fs| - 1] == es + fs[..|fs| - 1];
      RunConcat(s, es, fs[..|fs| - 1]);
    }
  }

  /** `n` of the waiting datagrams are out, and the firmware has taken them. */
  predicate DrainedBy(t: Q, u: Q, n: nat)
  {
    && n <= |t.processing| && u.processing == t.processing[n..]
    && |u.sent| == |t.sent| + n && t.sent <= u.sent
    && u.accepted == t.accepted && u.base == t.base && u.disabled == t.disabled && !IsBusy(u.image.drbl)
  }

  lemma {:induction false} OneMoreOut(t: Q, u: Q, n: nat, clock: seq<Byte>)
    requires n < |t.processing| && DrainedBy(t, u, n) && AllRing(t.processing) && ProgressInv(u)
    requires !t.disabled && |clock| == TIME_UPDATE_SIZE
    ensures DrainedBy(t, Next(Next(u, TrySend(clock)), FwTake), n + 1)
  {
    hide IsBusy, Rings, Written, Stamped;
    assert AllRing(u.processing);
    assert !IsBusy(0) by { IdleDoorbell(); }
    assert Rings(u.processing[0].val);
    RingingImage(u, clock);
  }

  lemma {:induction false} IdleDoorbell()
    ensures !IsBusy(0)
  {
  }

  lemma {:induction false} RingingImage(u: Q, clock: seq<Byte>)
    requires u.processing != [] && AllRing(u.processing) && |clock| == TIME_UPDATE_SIZE
    ensures IsBusy(SendHead(u, clock).image.drbl)
  {
    var m := u.processing[0].val;
    assert Rings(m);
    assert forall i :: 0 <= i < 4 ==> Stamped(m, clock)[i] == Stamped(m, clock)[..4][i] == m[..4][i] == m[i];
  }

  lemma {:induction false} DrainStep(s: Q, es: seq<Event>, pool: set<nat>, n: nat, clock: seq<Byte>)
    requires Fresh(s, pool) && !Run(s, es).disabled && |clock| == TIME_UPDATE_SIZE && n <= |Run(s, es).processing|
    ensures DrainedBy(Run(s, es), Run(s, es + Drains(n, clock)), n)
  {
    hide Run, Next, Apply, Ids;
    var t := Run(s, es);
    SafeRun(s, es, pool);
    if n == 0 {
      RunMore(s, es, FwTake);
      FirstTake(t);
    } else {
      var before := es + Drains(n - 1, clock);
      DrainStep(s, es, pool, n - 1, clock);
      SafeRun(s, before, pool);
      RunMore(s, before, TrySend(clock));
      RunMore(s, before + [TrySend(clock)], FwTake);
      assert es + Drains(n, clock) == before + [TrySend(clock)] + [FwTake];
      OneMoreOut(t, Run(s, before), n - 1, clock);
    }
  }

  lemma {:induction false} FirstTake(t: Q)
    requires AllRing(t.processing)
    ensures DrainedBy(t, Next(t, FwTake), 0)
  {
    hide IsBusy, Rings;
    IdleDoorbell();
  }

  /** After any run that leaves the device enabled, as many attempts as datagrams wait, with the
      firmware taking each from the registers, empty the queue: the firmware has then taken every
      datagram ever sent, and all that were accepted since the last reset are among them. */
  lemma {:induction false} EnoughAttempts(s: Q, es: seq<Event>, pool: set<nat>, clock: seq<Byte>)
    requires Fresh(s, pool) && !Run(s, es).disabled && |clock| == TIME_UPDATE_SIZE
    ensures var t := Run(s, es);
            var u := Run(s, es + Drains(|t.processing|, clock));
            && u.processing == [] && u.accepted == t.accepted && u.base == t.base && t.sent <= u.sent
            && |u.taken| == |u.sent| == u.base + |u.accepted|
            && (forall i :: 0 <= i < |u.accepted| ==>
                  SentAs(u.accepted[i], u.sent[u.base + i]) && Shows(u.taken[u.base + i], u.sent[u.base + i]))
  {
    hide Run, Ids, SentAs, Shows, Rings, Drains;
    var t := Run(s, es);
    var fs := es + Drains(|t.processing|, clock);
    DrainStep(s, es, pool, |t.processing|, clock);
    QueueIsFifo(s, fs, pool);
    FirmwareTakesWhatWasSent(s, fs, pool);
  }

  // ---------------------------------------------------------------- The driver's queue

  datatype Status = Done | TooLong | NoNode | Disabled | Busy

  function Upto(n: nat): (s: set<nat>)
    ensures forall x: nat :: x in s <==> x < n
  {
    if n == 0 then {} else Upto(n - 1) + {n - 1}
  }

  lemma {:induction false} UptoNext(n: nat)
    ensures multiset(Upto(n + 1)) == multiset(Upto(n)) + multiset{n}
  {
    assert Upto(n + 1) == Upto(n) + {n};
  }

  class Queue {
    var processing: seq<QNode>
    var free: seq<QNode>
    var disabled: bool
    const regs: array<Word>
    var drbl: Word
    ghost var accepted: seq<Msg>
    ghost var sent: seq<Msg>
    ghost var base: nat
    ghost var rung: seq<Image>

    /** ish_dev_init; `nodes` is how many nodes there is memory for. */
    constructor (nodes: nat)
      requires nodes <= IPC_TX_FIFO_SIZE
      ensures Valid() && Fresh(Abs(0), Upto(nodes)) && fresh(regs)
    {
      processing, free, disabled := [], [], false;
      regs := new Word[MSG_WORDS](_ => 0);
      drbl := 0;
      accepted, sent, base, rung := [], [], 0, [];
      new;
      AddNodes(nodes);
    }

    method AddNodes(nodes: nat)
      requires free == []
      modifies `free
      ensures Ids(free) == multiset(Upto(nodes))
    {
      var i := 0;
      while i < nodes
        invariant i <= nodes
        invariant Ids(free) == multiset(Upto(i))
      {
        IdsPush(free, Node(i, []));
        UptoNext(i);
        free := free + [Node(i, [])];
        i := i + 1;
      }
    }

    ghost predicate Valid()
      reads this
    {
      regs.Length == MSG_WORDS && forall n :: n in processing ==> Rings(n.val) && |n.val| <= IPC_FULL_MSG_SIZE
    }

    /** The state, while `attempts` calls of WriteFromQueue are still to come. */
    ghost function Abs(attempts: nat): Q
      reads this, regs
    {
      Q(processing, free, disabled, Image(drbl, regs[..]), attempts, accepted, sent, base, rung, [])
    }

    /** write_ipc_from_queue */
    method WriteFromQueue(clock: seq<Byte>) returns (r: Status)
      requires Valid() && |clock| == TIME_UPDATE_SIZE
      modifies `processing, `free, `drbl, `sent, `rung, regs
      ensures Valid()
      ensures Abs(0) == Apply(old(Abs(1)), TrySend(clock))
      ensures r == if disabled then Disabled else if old(IsBusy(drbl)) then Busy else Done
    {
      if disabled {
        return Disabled;
      }
      if IsBusy(drbl) {
        return Busy;
      }
      if processing == [] {
        return Done;
      }
      Transmit(clock);
      return Done;
    }

    /** The rest of it, with a clear doorbell and a datagram waiting. */
    method Transmit(clock: seq<Byte>)
      requires Valid() && |clock| == TIME_UPDATE_SIZE && processing != []
      modifies `processing, `free, `drbl, `sent, `rung, regs
      ensures Valid() && Abs(0) == SendHead(old(Abs(0)), clock)
    {
      var n := processing[0];
      assert n in processing;
      var m := n.val;
      if IsClockSync(m) {
        m := Stamped(m, clock);
      }
      WriteRegs(regs, m[4..]);
      drbl := DoorbellOf(m);
      processing := processing[1..];
      free := [Node(n.id, m)] + free;
      sent := sent + [m];
      rung := rung + [Image(drbl, regs[..])];
    }

    /** write_ipc_to_queue: the attempt that follows the enqueue does not affect the result. */
    method WriteToQueue(msg: Msg, clock: seq<Byte>) returns (r: Status)
      requires Valid() && Rings(msg) && |clock| == TIME_UPDATE_SIZE
      modifies `processing, `free, `drbl, `sent, `rung, `accepted, regs
      ensures Valid()
      ensures r == if |msg| > IPC_FULL_MSG_SIZE then TooLong else if old(free) == [] then NoNode else Done
      ensures r != Done ==> Abs(0) == old(Abs(0))
      ensures r == Done ==> accepted == old(accepted) + [msg]
      ensures r == Done ==> Abs(0) == Next(Next(old(Abs(0)), Enqueue(msg)), TrySend(clock))
    {
      if |msg| > IPC_FULL_MSG_SIZE {
        return TooLong;
      }
      if free == [] {
        return NoNode;
      }
      var n := free[0];
      free := free[1..];
      processing := processing + [Node(n.id, msg)];
      accepted := accepted + [msg];
      assert Abs(1) == Next(old(Abs(0)), Enqueue(msg));
      var ignored := WriteFromQueue(clock);
      return Done;
    }

    /** list_splice_init in ish_fw_reset_handler; ishtp_reset_handler then leaves no device
        disabled. */
    method ResetQueue()
      requires Valid()
      modifies `processing, `free, `disabled, `accepted, `base
      ensures Valid() && Abs(0) == Apply(old(Abs(0)), Reset)
      ensures processing == [] && free == old(processing) + old(free) && !disabled
    {
      free := processing + free;
      processing := [];
      disabled := false;
      accepted := [];
      base := |sent|;
    }
  }
}

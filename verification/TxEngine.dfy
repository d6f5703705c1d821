/** Client transmission in the linux-6.5 driver: fragmentation in one loop under
    single-credit flow control. */
module TxEngine {
  import opened Wire
  import opened Lists
  import opened Options
  import opened TxLoop

  type TxBuf = Node<Msg>

  /** One client between two critical sections, or within the one in which its oldest message is
      cut (`cut`; outside of it the offset is 0). `taken` and `returning` are the buffers a running
      call holds between two locks; `senderChecks` and `fcChecks` count calls that still have to
      look at the credit, or at the queue; `kicks` counts calls of ishtp_cl_send_msg_ipc that are
      about to reset the offset, `waiting` those that have done so and wait for the lock. The last
      five fields record history: `offered` is what the loop gave to the IPC queue, `wire` what
      the queue accepted of it. */
  datatype Tx = Tx(
    creds: nat, sending: bool, cut: Option<Loop>,
    txList: seq<TxBuf>, txFree: seq<TxBuf>, freeSize: int,
    taken: seq<TxBuf>, returning: seq<TxBuf>,
    senderChecks: nat, fcChecks: nat, kicks: nat, waiting: nat,
    accepted: nat, submitted: seq<Msg>, started: seq<Msg>, offered: seq<Frag>, wire: seq<Frag>)

  datatype Event =
    | TakeFree                       // ishtp_cl_send: pop a free buffer
    | Submit(i: nat, m: Msg)         // ishtp_cl_send: fill it and queue it
    | SenderCheck                    // ishtp_cl_send: the list was empty, read the credit
    | FcArrive                       // recv_hbm: a flow-control message
    | FcCheck                        // recv_hbm: look whether something is queued
    | ResetOffs                      // ishtp_cl_send_msg_ipc: reset the offset, without the lock
    | Enter                          // ipc_tx_send: take the lock, and a message against a credit
    | Step(accept: bool)             // ipc_tx_send: the loop; does the IPC queue take a fragment?
    | ReturnFree(i: nat)             // ipc_tx_send: buffer back to the free list

  function Contents(s: seq<TxBuf>): (ms: seq<Msg>)
    ensures |ms| == |s|
  {
    if s == [] then [] else [s[0].val] + Contents(s[1..])
  }

  /** The loop is where it can go on. */
  predicate CutOk(s: Tx, mtu: nat)
  {
    s.cut.Some? ==> s.txList != [] && LoopOk(s.cut.value, s.txList[0].val, mtu)
  }

  /** A message is queued, and queues are looked at, under the lock of the loop. */
  predicate Enabled(s: Tx, e: Event, mtu: nat)
  {
    match e
    case TakeFree => s.txFree != []
    case Submit(i, _) => i < |s.taken| && s.cut.None?
    case SenderCheck => s.senderChecks > 0
    case FcArrive => true
    case FcCheck => s.fcChecks > 0 && s.cut.None?
    case ResetOffs => s.kicks > 0
    case Enter => s.waiting > 0 && s.cut.None?
    case Step(_) => s.cut.Some? && CutOk(s, mtu)
    case ReturnFree(i) => i < |s.returning|
  }

  /** The oldest message leaves the queue. */
  function Leave(s: Tx): Tx
    requires s.txList != []
  {
    s.(cut := None, txList := s.txList[1..], returning := s.returning + [s.txList[0]])
  }

  /** ipc_tx_send up to its loop. An empty message skips the loop and leaves `sending` set. */
  function Entered(s: Tx): Tx
  {
    if s.txList == [] || (s.creds != 1 && !s.sending) then s
    else
      var paid := if s.sending then s else s.(creds := s.creds - 1, sending := true);
      var m := s.txList[0].val;
      var begun := paid.(started := s.started + [m]);
      if m == [] then Leave(begun) else begun.(cut := Some(Start(m)))
  }

  /** One sub-step of the loop. */
  function Stepped(s: Tx, accept: bool, a: Addr, mtu: nat): Tx
    requires mtu > 0 && s.cut.Some? && CutOk(s, mtu)
  {
    var l, m := s.cut.value, s.txList[0].val;
    var r := SubStep(l, m, a, mtu);
    var t := if l.phase != Writing then s
             else s.(offered := s.offered + [NextFrag(l, m, a, mtu)],
                     wire := if accept then s.wire + [NextFrag(l, m, a, mtu)] else s.wire);
    if r.done then Leave(t.(sending := false)) else t.(cut := Some(r))
  }

  function Apply(s: Tx, e: Event, a: Addr, mtu: nat): Tx
    requires mtu > 0 && Enabled(s, e, mtu)
  {
    match e
    case TakeFree =>
      s.(txFree := s.txFree[1..], freeSize := s.freeSize - 1, taken := s.taken + [s.txFree[0]])
    case Submit(i, m) =>
      s.(taken := RemoveAt(s.taken, i), txList := s.txList + [Node(s.taken[i].id, m)],
         submitted := s.submitted + [m],
         senderChecks := if s.txList == [] then s.senderChecks + 1 else s.senderChecks)
    case SenderCheck =>
      s.(senderChecks := s.senderChecks - 1, kicks := if s.creds > 0 then s.kicks + 1 else s.kicks)
    case FcArrive =>
      if s.creds != 0 then s
      else s.(creds := 1, accepted := s.accepted + 1, fcChecks := s.fcChecks + 1)
    case FcCheck =>
      s.(fcChecks := s.fcChecks - 1, kicks := if s.txList != [] then s.kicks + 1 else s.kicks)
    case ResetOffs =>
      s.(kicks := s.kicks - 1, waiting := s.waiting + 1,
         cut := if s.cut.Some? then Some(Reset(s.cut.value)) else None)
    case Enter => Entered(s.(waiting := s.waiting - 1))
    case Step(accept) => Stepped(s, accept, a, mtu)
    case ReturnFree(i) =>
      s.(returning := RemoveAt(s.returning, i), txFree := s.txFree + [s.returning[i]],
         freeSize := s.freeSize + 1)
  }

  function Next(s: Tx, e: Event, a: Addr, mtu: nat): Tx
    requires mtu > 0
  {
    if Enabled(s, e, mtu) then Apply(s, e, a, mtu) else s
  }

  /** A run: events that cannot happen where they stand are skipped. */
  function Run(s: Tx, es: seq<Event>, a: Addr, mtu: nat): Tx
    requires mtu > 0
  {
    if es == [] then s
    else
      Next(Run(s, es[..|es| - 1], a, mtu), es[|es| - 1], a, mtu)
  }

  /** A client that has just allocated its transmit ring. */
  predicate Fresh(s: Tx, pool: set<nat>)
  {
    && s == Tx(0, false, None, [], s.txFree, |s.txFree|, [], [], 0, 0, 0, 0, 0, [], [], [], [])
    && Ids(s.txFree) == multiset(pool)
  }

  predicate NonEmptyMessages(es: seq<Event>)
  {
    forall e :: e in es && e.Submit? ==> e.m != []
  }

  /** Nobody is inside a call that may send. */
  predicate Resting(s: Tx)
  {
    s.cut.None? && s.senderChecks == s.fcChecks == s.kicks == s.waiting == 0
  }

  // ---------------------------------------------------------------- Invariants

  /** Every buffer of the ring is at exactly one place, and freeSize counts the free list. */
  predicate RingInv(s: Tx, pool: set<nat>)
  {
    && Ids(s.txFree) + Ids(s.taken) + Ids(s.txList) + Ids(s.returning) == multiset(pool)
    && s.freeSize == |s.txFree|
  }

  /** The messages that are queued and not being cut. */
  function Queued(s: Tx): seq<TxBuf>
  {
    if s.cut.Some? && s.txList != [] then s.txList[1..] else s.txList
  }

  /** Messages start in the order of their submission, and none is lost or repeated. */
  predicate OrderInv(s: Tx)
  {
    s.submitted == s.started + Contents(Queued(s))
  }

  /** A credit accepted is held or has paid for exactly one message. */
  predicate CreditInv(s: Tx)
  {
    && s.creds <= 1
    && s.sending == s.cut.Some?
    && s.accepted == s.creds + |s.started|
  }

  /** A queued message and a credit meet only while somebody is about to send. */
  predicate ProgressInv(s: Tx)
  {
    s.txList != [] && s.creds == 1 ==> s.senderChecks + s.fcChecks + s.kicks + s.waiting > 0
  }

  predicate NoEmptyQueued(s: Tx)
  {
    forall b :: b in s.txList ==> b.val != []
  }

  lemma {:induction false} ContentsPush(s: seq<TxBuf>, b: TxBuf)
    ensures Contents(s + [b]) == Contents(s) + [b.val]
  {
    if s == [] {
      assert s + [b] == [b];
    } else {
      assert (s + [b])[1..] == s[1..] + [b];
      ContentsPush(s[1..], b);
    }
  }

  /** Moving the node at `i` of one list to the end of another, with new contents or not. */
  lemma {:induction false} Move(s: seq<TxBuf>, i: nat, t: seq<TxBuf>, n: TxBuf)
    requires i < |s| && n.id == s[i].id
    ensures Ids(RemoveAt(s, i)) + Ids(t + [n]) == Ids(s) + Ids(t)
  {
    IdsRemoveAt(s, i);
    IdsPush(t, n);
  }

  lemma {:induction false} MoveFirst(s: seq<TxBuf>, t: seq<TxBuf>)
    requires s != []
    ensures Ids(s[1..]) + Ids(t + [s[0]]) == Ids(s) + Ids(t)
  {
    IdsFirst(s);
    IdsPush(t, s[0]);
  }

  /** The four lists of `s`, with one node moved as some event moves it. */
  predicate Moved(s: Tx, t: Tx)
  {
    var (a, b, c, d) := (Ids(s.txFree), Ids(s.taken), Ids(s.txList), Ids(s.returning));
    var (a', b', c', d') := (Ids(t.txFree), Ids(t.taken), Ids(t.txList), Ids(t.returning));
    || (a + b == a' + b' && c == c' && d == d')
    || (b + c == b' + c' && a == a' && d == d')
    || (c + d == c' + d' && a == a' && b == b')
    || (d + a == d' + a' && b == b' && c == c')
  }

  lemma {:induction false} MovedKeeps(s: Tx, t: Tx)
    requires Moved(s, t)
    ensures Ids(t.txFree) + Ids(t.taken) + Ids(t.txList) + Ids(t.returning)
         == Ids(s.txFree) + Ids(s.taken) + Ids(s.txList) + Ids(s.returning)
  {
    Regroup(Ids(s.txFree), Ids(s.taken), Ids(s.txList), Ids(s.returning),
            Ids(t.txFree), Ids(t.taken), Ids(t.txList), Ids(t.returning));
  }

  lemma {:induction false} EventMoves(s: Tx, e: Event, a: Addr, mtu: nat)
    requires mtu > 0 && Enabled(s, e, mtu)
    ensures Moved(s, Apply(s, e, a, mtu))
  {
    hide Ids, SubStep, NextFrag, LoopOk;
    match e
    case TakeFree => MoveFirst(s.txFree, s.taken);
    case Submit(i, m) => Move(s.taken, i, s.txList, Node(s.taken[i].id, m));
    case Enter => if s.txList != [] { MoveFirst(s.txList, s.returning); }
    case Step(_) => MoveFirst(s.txList, s.returning);
    case ReturnFree(i) => Move(s.returning, i, s.txFree, s.returning[i]);
    case _ =>
  }

  lemma {:induction false} RingStep(s: Tx, e: Event, a: Addr, mtu: nat, pool: set<nat>)
    requires mtu > 0 && Enabled(s, e, mtu) && RingInv(s, pool)
    ensures RingInv(Apply(s, e, a, mtu), pool)
  {
    hide Ids, Moved, SubStep, NextFrag, LoopOk;
    EventMoves(s, e, a, mtu);
    MovedKeeps(s, Apply(s, e, a, mtu));
  }

  lemma {:induction false} CutStep(s: Tx, e: Event, a: Addr, mtu: nat)
    requires mtu > 0 && Enabled(s, e, mtu) && CutOk(s, mtu)
    ensures CutOk(Apply(s, e, a, mtu), mtu)
  {
  }

  lemma {:induction false} SubmitOrder(s: Tx, i: nat, m: Msg, a: Addr, mtu: nat)
    requires mtu > 0 && Enabled(s, Submit(i, m), mtu) && OrderInv(s)
    ensures OrderInv(Apply(s, Submit(i, m), a, mtu))
  {
    ContentsPush(s.txList, Node(s.taken[i].id, m));
    assert s.started + Contents(s.txList) + [m] == s.started + (Contents(s.txList) + [m]);
  }

  lemma {:induction false} EnterOrder(s: Tx)
    requires s.cut.None? && OrderInv(s)
    ensures OrderInv(Entered(s))
  {
    if s.txList != [] {
      var m, rest := s.txList[0].val, Contents(s.txList[1..]);
      assert Contents(s.txList) == [m] + rest;
      assert s.started + ([m] + rest) == s.started + [m] + rest;
    }
  }

  lemma {:induction false} StepOrder(s: Tx, accept: bool, a: Addr, mtu: nat)
    requires mtu > 0 && s.cut.Some? && CutOk(s, mtu) && OrderInv(s)
    ensures OrderInv(Stepped(s, accept, a, mtu))
  {
    hide Contents, SubStep, NextFrag;
  }

  lemma {:induction false} OrderStep(s: Tx, e: Event, a: Addr, mtu: nat)
    requires mtu > 0 && Enabled(s, e, mtu) && CutOk(s, mtu) && OrderInv(s)
    ensures OrderInv(Apply(s, e, a, mtu))
  {
    hide Contents, Entered, Stepped;
    match e
    case Submit(i, m) => SubmitOrder(s, i, m, a, mtu);
    case Enter => EnterOrder(s.(waiting := s.waiting - 1));
    case Step(accept) => StepOrder(s, accept, a, mtu);
    case _ =>
  }

  /** The ring and order invariants hold on every run, empty messages, refused fragments and resets
      of the offset at any point included. */
  lemma {:induction false} RingAndOrder(s: Tx, es: seq<Event>, a: Addr, mtu: nat, pool: set<nat>)
    requires mtu > 0 && Fresh(s, pool)
    ensures var t := Run(s, es, a, mtu); RingInv(t, pool) && OrderInv(t) && CutOk(t, mtu)
  {
    if es != [] {
      hide Apply, RingInv, OrderInv, CutOk;
      var t := Run(s, es[..|es| - 1], a, mtu);
      RingAndOrder(s, es[..|es| - 1], a, mtu, pool);
      if Enabled(t, es[|es| - 1], mtu) {
        RingStep(t, es[|es| - 1], a, mtu, pool);
        OrderStep(t, es[|es| - 1], a, mtu);
        CutStep(t, es[|es| - 1], a, mtu);
      }
    }
  }

  predicate Account(s: Tx)
  {
    CreditInv(s) && ProgressInv(s) && NoEmptyQueued(s)
  }

  lemma {:induction false} AccountStep(s: Tx, e: Event, a: Addr, mtu: nat)
    requires mtu > 0 && Enabled(s, e, mtu) && Account(s) && (e.Submit? ==> e.m != [])
    ensures Account(Apply(s, e, a, mtu))
  {
    hide SubStep, NextFrag, LoopOk;
  }

  /** Credits are conserved and nothing stalls, on every run of non-empty messages, whatever the
      IPC queue refuses and wherever the offset is reset. */
  lemma {:induction false} CreditsAndProgress(s: Tx, es: seq<Event>, a: Addr, mtu: nat, pool: set<nat>)
    requires mtu > 0 && Fresh(s, pool) && NonEmptyMessages(es)
    ensures Account(Run(s, es, a, mtu))
  {
    if es != [] {
      hide Apply, Account;
      var init, e := es[..|es| - 1], es[|es| - 1];
      assert e in es && forall x :: x in init ==> x in es;
      CreditsAndProgress(s, init, a, mtu, pool);
      if Enabled(Run(s, init, a, mtu), e, mtu) {
        AccountStep(Run(s, init, a, mtu), e, a, mtu);
      }
    }
  }

  // ---------------------------------------------------------------- What the client was given

  /** The messages of the submissions that happened: one of a buffer that a call holds, while no
      message is being cut. */
  function SubmittedIn(s: Tx, es: seq<Event>, a: Addr, mtu: nat): (ms: seq<Msg>)
    requires mtu > 0
  {
    if es == [] then []
    else
      var (t, e) := (Run(s, es[..|es| - 1], a, mtu), es[|es| - 1]);
      SubmittedIn(s, es[..|es| - 1], a, mtu) + if e.Submit? && e.i < |t.taken| && t.cut.None? then [e.m] else []
  }

  /** The flow-control messages that found no credit. */
  function CreditedIn(s: Tx, es: seq<Event>, a: Addr, mtu: nat): (n: nat)
    requires mtu > 0
  {
    if es == [] then 0
    else
      CreditedIn(s, es[..|es| - 1], a, mtu)
      + if es[|es| - 1].FcArrive? && Run(s, es[..|es| - 1], a, mtu).creds == 0 then 1 else 0
  }

  /** A submission queues its message whole, in the buffer that the call holds, behind all others. */
  lemma {:induction false} SubmitExact(s: Tx, i: nat, m: Msg, a: Addr, mtu: nat)
    requires mtu > 0
    ensures var t := Next(s, Submit(i, m), a, mtu);
            if i < |s.taken| && s.cut.None? then
              && t.submitted == s.submitted + [m] && t.txList == s.txList + [Node(s.taken[i].id, m)]
              && t.taken == s.taken[..i] + s.taken[i + 1..]
              && t.senderChecks == s.senderChecks + if s.txList == [] then 1 else 0
            else t == s
  {
    hide Ids;
    assert i < |s.taken| ==> RemoveAt(s.taken, i) == s.taken[..i] + s.taken[i + 1..];
  }

  lemma {:induction false} GivenStep(s: Tx, e: Event, a: Addr, mtu: nat)
    requires mtu > 0
    ensures var t := Next(s, e, a, mtu);
            && t.submitted == s.submitted + (if e.Submit? && e.i < |s.taken| && s.cut.None? then [e.m] else [])
            && t.accepted == s.accepted + if e.FcArrive? && s.creds == 0 then 1 else 0
  {
    hide SubStep, NextFrag, LoopOk;
  }

  /** On every run from any state, the messages recorded as submitted and the credits recorded as
      accepted are those that were given. */
  lemma {:induction false} GivenExact(s: Tx, es: seq<Event>, a: Addr, mtu: nat)
    requires mtu > 0
    ensures var t := Run(s, es, a, mtu);
            && t.submitted == s.submitted + SubmittedIn(s, es, a, mtu)
            && t.accepted == s.accepted + CreditedIn(s, es, a, mtu)
  {
    if es != [] {
      hide Next;
      var (init, e) := (es[..|es| - 1], es[|es| - 1]);
      GivenExact(s, init, a, mtu);
      GivenStep(Run(s, init, a, mtu), e, a, mtu);
    }
  }

  /** Transmit conservation. At rest a queued message and a free credit never coexist. */
  lemma {:induction false} TransmitConservation(s: Tx, es: seq<Event>, a: Addr, mtu: nat, pool: set<nat>)
    requires mtu > 0 && Fresh(s, pool) && NonEmptyMessages(es)
    ensures var t := Run(s, es, a, mtu);
            && t.creds <= 1
            && t.accepted == t.creds + |t.started|
            && t.started <= t.submitted
            && t.freeSize == |t.txFree|
            && (Resting(t) ==> t.txList == [] || t.creds == 0)
            && (Resting(t) && |t.submitted| > t.accepted ==> t.creds == 0)
  {
    hide Run;
    CreditsAndProgress(s, es, a, mtu, pool);
    RingAndOrder(s, es, a, mtu, pool);
  }
}

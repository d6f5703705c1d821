/** Client transmission in the linux-5.15 driver, one client: one fragment per pass of
    ipc_tx_callback. Its lock is held only while a fragment is chosen; the offset is moved, and the
    fragment written, outside of it. */
module CallbackEngine {
  import opened Wire
  import opened Lists

  /** `struct ishtp_cl`, transmit side. `overread`: a pass found the offset beyond the end of its
      message. What the source sends from then on is undefined; here the client sends no more. */
  datatype Cl = Cl(txList: seq<Msg>, offs: nat, sending: bool, creds: nat, freeSize: nat, overread: bool)

  /** A fragment that is not the last: chosen, and about to move the offset or to be written. */
  datatype Part = Part(frag: Frag, moved: bool)

  /** One client and the calls under way for it. `taken` and `returning` count the buffers that calls
      hold between two locks; `senderChecks` and `fcChecks` the calls that still have to look at the
      credit, or at the queue; `kicks` those of ishtp_cl_send_msg_ipc that are about to reset the
      offset, `waiting` those that are about to take the lock of ipc_tx_callback. `parts` and `lasts`
      are fragments chosen and not written; `callbacks` wait in the IPC queue. The last four fields
      record history; `wire` is what the IPC queue accepted. */
  datatype Tx = Tx(
    cl: Cl, taken: nat, returning: nat,
    senderChecks: nat, fcChecks: nat, kicks: nat, waiting: nat,
    parts: seq<Part>, lasts: seq<Frag>, callbacks: nat,
    accepted: nat, submitted: seq<Msg>, started: seq<Msg>, wire: seq<Frag>)

  datatype Event =
    | TakeFree                         // ishtp_cl_send: pop a free buffer
    | Submit(m: Msg)                   // ishtp_cl_send: fill it and queue it
    | SenderCheck                      // ishtp_cl_send: the list was empty, read the credit
    | FcArrive                         // recv_hbm: a flow-control message
    | FcCheck                          // recv_hbm: look whether something is queued
    | ResetOffs                        // ishtp_cl_send_msg_ipc: reset the offset, without the lock
    | Fire                             // write_ipc_from_queue: a fragment is out, call its callback
    | Enter(up: bool)                  // ipc_tx_callback: connected and enabled? then take the lock
    | MoveOffs(i: nat)                 // ipc_tx_callback: move the offset, without the lock
    | WritePart(i: nat, accept: bool)  // ipc_tx_callback: write a fragment with its callback
    | WriteLast(i: nat, accept: bool)  // ipc_tx_callback: write the last one
    | ReturnFree                       // ipc_tx_callback: buffer back to the free list

  predicate Enabled(s: Tx, e: Event)
  {
    match e
    case TakeFree => s.cl.freeSize > 0
    case Submit(_) => s.taken > 0
    case SenderCheck => s.senderChecks > 0
    case FcArrive => true
    case FcCheck => s.fcChecks > 0
    case ResetOffs => s.kicks > 0
    case Fire => s.callbacks > 0
    case Enter(_) => s.waiting > 0
    case MoveOffs(i) => i < |s.parts| && !s.parts[i].moved
    case WritePart(i, _) => i < |s.parts| && s.parts[i].moved
    case WriteLast(i, _) => i < |s.lasts|
    case ReturnFree => s.returning > 0
  }

  // ---------------------------------------------------------------- Under the lock

  /** A pass finds a message, and a credit or the message in flight. */
  predicate Passes(cl: Cl)
  {
    !cl.overread && cl.txList != [] && (cl.creds == 1 || cl.sending)
  }

  /** The message is in flight. */
  function Begun(cl: Cl): Cl
  {
    if cl.sending then cl else cl.(creds := if cl.creds > 0 then cl.creds - 1 else 0, sending := true)
  }

  predicate Beyond(cl: Cl)
    requires cl.txList != []
  {
    cl.offs > |cl.txList[0]|
  }

  /** The next fragment of the message in flight. */
  function NextFrag(cl: Cl, a: Addr, mtu: nat): Frag
    requires cl.txList != [] && !Beyond(cl)
  {
    var m := cl.txList[0];
    if |m| - cl.offs <= mtu then Frag(a, true, m[cl.offs..]) else Frag(a, false, m[cl.offs..cl.offs + mtu])
  }

  /** A message leaves the list with its last fragment. */
  function Left(cl: Cl): Cl
    requires cl.txList != []
  {
    cl.(sending := false, txList := cl.txList[1..])
  }

  function Entered(s: Tx, a: Addr, mtu: nat): Tx
  {
    if !Passes(s.cl) then s
    else
      var t := s.(cl := Begun(s.cl), started := if s.cl.sending then s.started else s.started + [s.cl.txList[0]]);
      if Beyond(t.cl) then t.(cl := t.cl.(overread := true))
      else
        var f := NextFrag(t.cl, a, mtu);
        if f.complete then t.(cl := Left(t.cl), lasts := t.lasts + [f])
        else t.(parts := t.parts + [Part(f, false)])
  }

  // ---------------------------------------------------------------- Runs

  function Apply(s: Tx, e: Event, a: Addr, mtu: nat): Tx
    requires Enabled(s, e)
  {
    match e
    case TakeFree => s.(cl := s.cl.(freeSize := s.cl.freeSize - 1), taken := s.taken + 1)
    case Submit(m) =>
      s.(taken := s.taken - 1, cl := s.cl.(txList := s.cl.txList + [m]), submitted := s.submitted + [m],
         senderChecks := if s.cl.txList == [] then s.senderChecks + 1 else s.senderChecks)
    case SenderCheck =>
      s.(senderChecks := s.senderChecks - 1, kicks := if s.cl.creds > 0 then s.kicks + 1 else s.kicks)
    case FcArrive =>
      if s.cl.creds != 0 then s
      else s.(cl := s.cl.(creds := 1), accepted := s.accepted + 1, fcChecks := s.fcChecks + 1)
    case FcCheck =>
      s.(fcChecks := s.fcChecks - 1, kicks := if s.cl.txList != [] then s.kicks + 1 else s.kicks)
    case ResetOffs => s.(kicks := s.kicks - 1, waiting := s.waiting + 1, cl := s.cl.(offs := 0))
    case Fire => s.(callbacks := s.callbacks - 1, waiting := s.waiting + 1)
    case Enter(up) =>
      var t := s.(waiting := s.waiting - 1);
      if up then Entered(t, a, mtu) else t
    case MoveOffs(i) =>
      s.(parts := s.parts[i := s.parts[i].(moved := true)], cl := s.cl.(offs := s.cl.offs + mtu))
    case WritePart(i, accept) =>
      var t := s.(parts := RemoveAt(s.parts, i));
      if accept then t.(callbacks := s.callbacks + 1, wire := s.wire + [s.parts[i].frag]) else t
    case WriteLast(i, accept) =>
      s.(lasts := RemoveAt(s.lasts, i), returning := s.returning + 1,
         wire := if accept then s.wire + [s.lasts[i]] else s.wire)
    case ReturnFree => s.(returning := s.returning - 1, cl := s.cl.(freeSize := s.cl.freeSize + 1))
  }

  function Next(s: Tx, e: Event, a: Addr, mtu: nat): Tx
  {
    if Enabled(s, e) then Apply(s, e, a, mtu) else s
  }

  /** A run: events that cannot happen where they stand are skipped. */
  function Run(s: Tx, es: seq<Event>, a: Addr, mtu: nat): Tx
  {
    if es == [] then s else Next(Run(s, es[..|es| - 1], a, mtu), es[|es| - 1], a, mtu)
  }

  /** A connected client that has just allocated its transmit ring. */
  function Fresh(ring: nat): Tx
  {
    Tx(Cl([], 0, false, 0, ring, false), 0, 0, 0, 0, 0, 0, [], [], 0, 0, [], [], [])
  }

  lemma {:induction false} RunMore(s: Tx, es: seq<Event>, e: Event, a: Addr, mtu: nat)
    ensures Run(s, es + [e], a, mtu) == Next(Run(s, es, a, mtu), e, a, mtu)
  {
    assert (es + [e])[..|es|] == es;
  }

  lemma {:induction false} RunConcat(s: Tx, es: seq<Event>, fs: seq<Event>, a: Addr, mtu: nat)
    ensures Run(s, es + fs, a, mtu) == Run(Run(s, es, a, mtu), fs, a, mtu)
  {
    if fs == [] {
      assert es + fs == es;
    } else {
      hide Next;
      assert (es + fs)[..|es + fs| - 1] == es + fs[..|fs| - 1];
      RunConcat(s, es, fs[..|fs| - 1], a, mtu);
    }
  }

  lemma {:induction false} RunNone(s: Tx, a: Addr, mtu: nat)
    ensures Run(s, [], a, mtu) == s
  {
  }

  // ---------------------------------------------------------------- Passes that are not disturbed

  function PartEvents(accept: bool): seq<Event>
  {
    [Enter(true)] + [MoveOffs(0)] + [WritePart(0, accept)]
  }

  function LastEvents(accept: bool): seq<Event>
  {
    [Enter(true)] + [WriteLast(0, accept)]
  }

  lemma {:induction false} ThreeEvents(s: Tx, e1: Event, e2: Event, e3: Event, a: Addr, mtu: nat)
    ensures Run(s, [e1], a, mtu) == Next(s, e1, a, mtu)
    ensures Run(s, [e1] + [e2], a, mtu) == Next(Next(s, e1, a, mtu), e2, a, mtu)
    ensures Run(s, [e1] + [e2] + [e3], a, mtu) == Next(Next(Next(s, e1, a, mtu), e2, a, mtu), e3, a, mtu)
  {
    hide Next;
    RunNone(s, a, mtu);
    RunMore(s, [], e1, a, mtu);
    assert [] + [e1] == [e1];
    RunMore(s, [e1], e2, a, mtu);
    RunMore(s, [e1] + [e2], e3, a, mtu);
  }

  /** A message in flight after the credit check. */
  function BegunAt(t: Tx): Tx
    requires t.waiting > 0 && t.cl.txList != []
  {
    t.(waiting := t.waiting - 1, cl := Begun(t.cl),
       started := if t.cl.sending then t.started else t.started + [t.cl.txList[0]])
  }

  /** A pass that chooses a fragment other than the last, and writes it. */
  lemma {:induction false} PartPass(t: Tx, f: Frag, accept: bool, a: Addr, mtu: nat)
    requires t.waiting > 0 && Passes(t.cl) && t.cl.offs + mtu < |t.cl.txList[0]| && t.parts == []
    requires f == Frag(a, false, t.cl.txList[0][t.cl.offs..t.cl.offs + mtu])
    ensures Run(t, PartEvents(accept), a, mtu)
         == BegunAt(t).(cl := Begun(t.cl).(offs := t.cl.offs + mtu),
                        callbacks := if accept then t.callbacks + 1 else t.callbacks,
                        wire := if accept then t.wire + [f] else t.wire)
  {
    var u := BegunAt(t).(parts := [Part(f, false)]);
    assert Next(t, Enter(true), a, mtu) == u;
    PartGoesOn(u, f, accept, a, mtu);
    hide Next;
    ThreeEvents(t, Enter(true), MoveOffs(0), WritePart(0, accept), a, mtu);
  }

  lemma {:induction false} PartGoesOn(t: Tx, f: Frag, accept: bool, a: Addr, mtu: nat)
    requires t.parts == [Part(f, false)]
    ensures Next(Next(t, MoveOffs(0), a, mtu), WritePart(0, accept), a, mtu)
         == t.(parts := [], cl := t.cl.(offs := t.cl.offs + mtu),
               callbacks := if accept then t.callbacks + 1 else t.callbacks,
               wire := if accept then t.wire + [f] else t.wire)
  {
    var u := t.(parts := [Part(f, true)], cl := t.cl.(offs := t.cl.offs + mtu));
    assert Next(t, MoveOffs(0), a, mtu) == u;
    assert RemoveAt(u.parts, 0) == [];
  }

  /** A pass that chooses the last fragment and writes it; the buffer is still to be returned. */
  lemma {:induction false} LastPass(t: Tx, f: Frag, accept: bool, a: Addr, mtu: nat)
    requires t.waiting > 0 && Passes(t.cl) && t.lasts == []
    requires t.cl.offs <= |t.cl.txList[0]| <= t.cl.offs + mtu && f == Frag(a, true, t.cl.txList[0][t.cl.offs..])
    ensures Run(t, LastEvents(accept), a, mtu)
         == BegunAt(t).(cl := Left(Begun(t.cl)), returning := t.returning + 1,
                        wire := if accept then t.wire + [f] else t.wire)
  {
    var u := BegunAt(t).(cl := Left(Begun(t.cl)), lasts := [f]);
    assert Next(t, Enter(true), a, mtu) == u;
    assert RemoveAt([f], 0) == [];
    assert Next(u, WriteLast(0, accept), a, mtu)
        == u.(lasts := [], returning := t.returning + 1, wire := if accept then t.wire + [f] else t.wire);
    hide Next;
    ThreeEvents(t, Enter(true), WriteLast(0, accept), ReturnFree, a, mtu);
  }

  // ---------------------------------------------------------------- What is relied on

  /** The IPC queue refuses no fragment, and the client stays connected to an enabled device. */
  predicate Lossless(es: seq<Event>)
  {
    forall e :: e in es ==>
      match e
      case Enter(up) => up
      case WritePart(_, accept) => accept
      case WriteLast(_, accept) => accept
      case _ => true
  }

  /** The firmware gives a credit only when it can have joined as many messages as it gave credits. */
  predicate Due(s: Tx, e: Event)
  {
    e.FcArrive? ==> s.accepted <= |Feed(EMPTY_INBOX, s.wire).done|
  }

  predicate Paced(s: Tx, es: seq<Event>, a: Addr, mtu: nat)
  {
    es == [] || (Paced(s, es[..|es| - 1], a, mtu) && Due(Run(s, es[..|es| - 1], a, mtu), es[|es| - 1]))
  }

  lemma {:induction false} PacedConcat(s: Tx, es: seq<Event>, fs: seq<Event>, a: Addr, mtu: nat)
    requires Paced(s, es, a, mtu) && forall f :: f in fs ==> !f.FcArrive?
    ensures Paced(s, es + fs, a, mtu)
  {
    if fs == [] {
      assert es + fs == es;
    } else {
      hide Run;
      var init := fs[..|fs| - 1];
      assert (es + fs)[..|es + fs| - 1] == es + init;
      PacedConcat(s, es, init, a, mtu);
      assert fs[|fs| - 1] in fs;
    }
  }

  /** Nobody is inside a call that may send, and no callback is to come. */
  predicate Resting(s: Tx)
  {
    && s.senderChecks == s.fcChecks == s.kicks == s.waiting == s.callbacks == 0
    && s.parts == [] && s.lasts == []
  }

  // ---------------------------------------------------------------- Every run

  function InFlight(s: Tx): nat
  {
    if s.cl.sending then 1 else 0
  }

  /** No buffer is lost: `ring` of them are free, filled or in a call's hands. */
  predicate RingInv(s: Tx, ring: nat)
  {
    s.cl.freeSize + s.taken + |s.cl.txList| + |s.lasts| + s.returning == ring
  }

  /** Messages start in the order of their submission, and none is lost or repeated. */
  predicate OrderInv(s: Tx)
  {
    && (s.cl.sending ==> s.cl.txList != [] && s.started != [] && s.started[|s.started| - 1] == s.cl.txList[0])
    && s.submitted == s.started + if s.cl.sending then s.cl.txList[1..] else s.cl.txList
  }

  /** A credit accepted is held or has paid for exactly one message. */
  predicate CreditInv(s: Tx)
  {
    s.cl.creds <= 1 && s.accepted == s.cl.creds + |s.started|
  }

  /** The firmware joins no more messages than have left the list. */
  predicate JoinedInv(s: Tx)
  {
    && (forall p :: p in s.parts ==> !p.frag.complete)
    && (forall f :: f in s.lasts ==> f.complete)
    && |Feed(EMPTY_INBOX, s.wire).done| + |s.lasts| + InFlight(s) <= |s.started|
  }

  lemma {:induction false} EnteredKeeps(s: Tx, a: Addr, mtu: nat, ring: nat)
    requires RingInv(s, ring) && OrderInv(s) && CreditInv(s) && JoinedInv(s)
    ensures var t := Entered(s, a, mtu); RingInv(t, ring) && OrderInv(t) && CreditInv(t) && JoinedInv(t)
  {
    hide Feed;
    if Passes(s.cl) && !s.cl.sending {
      assert s.submitted == s.started + [s.cl.txList[0]] + s.cl.txList[1..];
    }
  }

  lemma {:induction false} JoinedOne(wire: seq<Frag>, f: Frag)
    ensures |Feed(EMPTY_INBOX, wire + [f]).done| == |Feed(EMPTY_INBOX, wire).done| + if f.complete then 1 else 0
  {
    assert (wire + [f])[..|wire|] == wire;
  }

  lemma {:induction false} WriteKeeps(s: Tx, e: Event, a: Addr, mtu: nat, ring: nat)
    requires Enabled(s, e) && (e.WritePart? || e.WriteLast?)
    requires RingInv(s, ring) && OrderInv(s) && CreditInv(s) && JoinedInv(s)
    ensures var t := Apply(s, e, a, mtu); RingInv(t, ring) && OrderInv(t) && CreditInv(t) && JoinedInv(t)
  {
    hide Feed;
    JoinedOne(s.wire, if e.WritePart? then s.parts[e.i].frag else s.lasts[e.i]);
    if e.WritePart? {
      assert s.parts[e.i] in s.parts;
    } else {
      assert s.lasts[e.i] in s.lasts;
    }
  }

  lemma {:induction false} KeptStep(s: Tx, e: Event, a: Addr, mtu: nat, ring: nat)
    requires RingInv(s, ring) && OrderInv(s) && CreditInv(s) && JoinedInv(s)
    ensures var t := Next(s, e, a, mtu); RingInv(t, ring) && OrderInv(t) && CreditInv(t) && JoinedInv(t)
  {
    hide Feed, Entered;
    if Enabled(s, e) {
      match e
      case Enter(up) => if up { EnteredKeeps(s.(waiting := s.waiting - 1), a, mtu, ring); }
      case WritePart(_, _) => WriteKeeps(s, e, a, mtu, ring);
      case WriteLast(_, _) => WriteKeeps(s, e, a, mtu, ring);
      case Submit(m) => SubmitKeeps(s, m, a, mtu);
      case MoveOffs(i) => assert s.parts[i] in s.parts;
      case _ =>
    }
  }

  lemma {:induction false} SubmitKeeps(s: Tx, m: Msg, a: Addr, mtu: nat)
    requires s.taken > 0 && OrderInv(s)
    ensures OrderInv(Apply(s, Submit(m), a, mtu))
  {
    var rest := if s.cl.sending then s.cl.txList[1..] else s.cl.txList;
    assert s.started + rest + [m] == s.started + (rest + [m]);
  }

  /** On every run, whatever calls overlap, fragments are refused or credits come when: no buffer is
      lost, messages start in the order of their submission, each once and against one credit, and
      the firmware joins at most as many as have left the list. */
  lemma {:induction false} AccountsKept(ring: nat, es: seq<Event>, a: Addr, mtu: nat)
    ensures var t := Run(Fresh(ring), es, a, mtu);
            RingInv(t, ring) && OrderInv(t) && CreditInv(t) && JoinedInv(t)
  {
    if es != [] {
      hide RingInv, OrderInv, CreditInv, JoinedInv, Next;
      AccountsKept(ring, es[..|es| - 1], a, mtu);
      KeptStep(Run(Fresh(ring), es[..|es| - 1], a, mtu), es[|es| - 1], a, mtu, ring);
    }
  }

  // ---------------------------------------------------------------- What the client was given

  /** The messages of the submissions that happened: those for which a call held a buffer. */
  function SubmittedIn(s: Tx, es: seq<Event>, a: Addr, mtu: nat): (ms: seq<Msg>)
  {
    if es == [] then []
    else
      SubmittedIn(s, es[..|es| - 1], a, mtu)
      + if es[|es| - 1].Submit? && Run(s, es[..|es| - 1], a, mtu).taken > 0 then [es[|es| - 1].m] else []
  }

  /** The flow-control messages that found no credit. */
  function CreditedIn(s: Tx, es: seq<Event>, a: Addr, mtu: nat): (n: nat)
  {
    if es == [] then 0
    else
      CreditedIn(s, es[..|es| - 1], a, mtu)
      + if es[|es| - 1].FcArrive? && Run(s, es[..|es| - 1], a, mtu).cl.creds == 0 then 1 else 0
  }

  lemma {:induction false} GivenStep(s: Tx, e: Event, a: Addr, mtu: nat)
    ensures var t := Next(s, e, a, mtu);
            && t.submitted == s.submitted + (if e.Submit? && s.taken > 0 then [e.m] else [])
            && t.accepted == s.accepted + if e.FcArrive? && s.cl.creds == 0 then 1 else 0
  {
  }

  /** On every run from any state, the messages recorded as submitted and the credits recorded as
      accepted are those that were given. */
  lemma {:induction false} GivenExact(s: Tx, es: seq<Event>, a: Addr, mtu: nat)
    ensures var t := Run(s, es, a, mtu);
            && t.submitted == s.submitted + SubmittedIn(s, es, a, mtu)
            && t.accepted == s.accepted + CreditedIn(s, es, a, mtu)
  {
    if es != [] {
      hide Next;
      var (init, e) := (es[..|es| - 1], es[|es| - 1]);
      GivenExact(s, init, a, mtu);
      GivenStep(Run(s, init, a, mtu), e, a, mtu);
    }
  }

  // ---------------------------------------------------------------- Paced runs

  /** A credit is never there while a message is in flight or its last fragment unwritten. */
  predicate PacedInv(s: Tx)
  {
    s.cl.creds == 1 ==> !s.cl.sending && s.lasts == []
  }

  /** A queued message and a credit meet only while somebody is about to send. */
  predicate ProgressInv(s: Tx)
  {
    s.cl.txList != [] && s.cl.creds == 1 ==> s.cl.overread || s.senderChecks + s.fcChecks + s.kicks + s.waiting > 0
  }

  lemma {:induction false} PacedStep(s: Tx, e: Event, a: Addr, mtu: nat)
    requires Due(s, e) && PacedInv(s) && CreditInv(s) && JoinedInv(s)
    ensures PacedInv(Next(s, e, a, mtu))
  {
    hide Feed;
  }

  lemma {:induction false} ProgressStep(s: Tx, e: Event, a: Addr, mtu: nat)
    requires ProgressInv(s) && PacedInv(s) && CreditInv(s) && (e.Enter? ==> e.up)
    ensures ProgressInv(Next(s, e, a, mtu))
  {
  }

  lemma {:induction false} PacedRun(ring: nat, es: seq<Event>, a: Addr, mtu: nat)
    requires Paced(Fresh(ring), es, a, mtu)
    ensures PacedInv(Run(Fresh(ring), es, a, mtu))
    ensures Lossless(es) ==> ProgressInv(Run(Fresh(ring), es, a, mtu))
  {
    if es != [] {
      hide PacedInv, ProgressInv, Next, Due, CreditInv, JoinedInv;
      var init, e := es[..|es| - 1], es[|es| - 1];
      assert e in es && forall x :: x in init ==> x in es;
      PacedRun(ring, init, a, mtu);
      AccountsKept(ring, init, a, mtu);
      PacedStep(Run(Fresh(ring), init, a, mtu), e, a, mtu);
      if Lossless(es) {
        ProgressStep(Run(Fresh(ring), init, a, mtu), e, a, mtu);
      }
    }
  }
}

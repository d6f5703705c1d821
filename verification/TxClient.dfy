/** `struct ishtp_cl` as the linux-6.5 sender updates it, proved against TxEngine. */
module TxClient {
  import opened Wire
  import opened Lists
  import opened Options
  import opened TxCall
  import opened TxEngine
  import TxContent

  datatype Status = Queued | NotConnected | NoDevice | NoFwClient | TooLong | NoBuffer

  /** The buffer that ipc_tx_send took off the queue is back on the free list. */
  function Settle(s: Tx): Tx
  {
    if s.returning == [] then s
    else s.(txFree := s.txFree + [s.returning[0]],
            freeSize := s.freeSize + 1, returning := s.returning[1..])
  }

  /** An uninterrupted ishtp_cl_send that finds a buffer. */
  function SendCall(s: Tx, m: Msg, rejected: set<nat>, a: Addr, mtu: nat): Tx
    requires mtu > 0 && s.txFree != []
  {
    var q := s.(txFree := s.txFree[1..], freeSize := s.freeSize - 1,
                txList := s.txList + [Node(s.txFree[0].id, m)], submitted := s.submitted + [m]);
    if s.txList == [] && s.creds > 0 then Settle(Transmit(q, rejected, a, mtu)) else q
  }

  /** An uninterrupted delivery of a flow-control message; `up` is whether the device is enabled
      and the client connected, without which ipc_tx_send does nothing. */
  function FlowCall(s: Tx, rejected: set<nat>, a: Addr, mtu: nat, up: bool): Tx
    requires mtu > 0
  {
    if s.creds != 0 then s
    else
      var p := s.(creds := 1, accepted := s.accepted + 1);
      if s.txList != [] && up then Settle(Transmit(p, rejected, a, mtu)) else p
  }

  /** Nobody is inside a call. */
  predicate AtRest(s: Tx)
  {
    s.taken == s.returning == [] && Resting(s)
  }

  lemma {:induction false} SettleIsNext(s: Tx, a: Addr, mtu: nat)
    requires mtu > 0
    ensures Next(s, ReturnFree(0), a, mtu) == Settle(s)
  {
  }

  /** What a call of ishtp_cl_send_msg_ipc goes through, when it cuts `m` and none disturbs it. */
  function CallEvents(m: Msg, rejected: set<nat>, a: Addr, mtu: nat): (es: seq<Event>)
    requires mtu > 0
  {
    [ResetOffs] + ([Enter] + CutSteps(m, rejected, a, mtu)) + [ReturnFree(0)]
  }

  lemma {:induction false} KickRuns(s: Tx, rejected: set<nat>, m: Msg, a: Addr, mtu: nat)
    requires mtu > 0 && s.cut.None? && s.waiting == 0 && s.returning == []
    requires s.kicks > 0 && s.txList != [] ==> m == s.txList[0].val
    ensures Run(s, CallEvents(m, rejected, a, mtu), a, mtu)
         == if s.kicks == 0 then s else Settle(Transmit(s.(kicks := s.kicks - 1), rejected, a, mtu))
  {
    hide Run, Transmit, CutSteps;
    var middle := [Enter] + CutSteps(m, rejected, a, mtu);
    var s1 := Next(s, ResetOffs, a, mtu);
    RunMore(s, [ResetOffs] + middle, ReturnFree(0), a, mtu);
    RunCons(s, ResetOffs, middle, a, mtu);
    if s.kicks > 0 {
      CallRuns(s1, rejected, m, a, mtu);
    } else {
      RunCons(s, Enter, CutSteps(m, rejected, a, mtu), a, mtu);
      StepsSkipped(s, CutSteps(m, rejected, a, mtu), a, mtu);
    }
    SettleIsNext(Run(s1, middle, a, mtu), a, mtu);
  }

  /** The uninterrupted calls are runs of the atomic steps, so every fact about all runs
      holds of them, alone or in any sequence. */
  lemma {:induction false} SendCallIsRun(s: Tx, m: Msg, rejected: set<nat>, a: Addr, mtu: nat)
    requires mtu > 0 && AtRest(s) && s.txFree != []
    ensures SendCall(s, m, rejected, a, mtu)
         == Run(s, [TakeFree] + ([Submit(0, m)] + ([SenderCheck] + CallEvents(m, rejected, a, mtu))), a, mtu)
  {
    hide Run, Transmit, CallEvents;
    var s1 := Next(s, TakeFree, a, mtu);
    assert RemoveAt(s1.taken, 0) == [];
    var s2 := Next(s1, Submit(0, m), a, mtu);
    var s3 := Next(s2, SenderCheck, a, mtu);
    var call := CallEvents(m, rejected, a, mtu);
    RunCons(s, TakeFree, [Submit(0, m)] + ([SenderCheck] + call), a, mtu);
    RunCons(s1, Submit(0, m), [SenderCheck] + call, a, mtu);
    RunCons(s2, SenderCheck, call, a, mtu);
    KickRuns(s3, rejected, m, a, mtu);
  }

  function Head(s: Tx): Msg
  {
    if s.txList == [] then [] else s.txList[0].val
  }

  lemma {:induction false} FlowCallIsRun(s: Tx, rejected: set<nat>, a: Addr, mtu: nat)
    requires mtu > 0 && AtRest(s)
    ensures FlowCall(s, rejected, a, mtu, true)
         == Run(s, [FcArrive] + ([FcCheck] + CallEvents(Head(s), rejected, a, mtu)), a, mtu)
  {
    hide Run, Transmit, CallEvents;
    var m := Head(s);
    var s1 := Next(s, FcArrive, a, mtu);
    var call := CallEvents(m, rejected, a, mtu);
    RunCons(s, FcArrive, [FcCheck] + call, a, mtu);
    RunCons(s1, FcCheck, call, a, mtu);
    KickRuns(Next(s1, FcCheck, a, mtu), rejected, m, a, mtu);
  }

  // ---------------------------------------------------------------- What a call brings about

  /** A send at rest: the message waits in the first free buffer, behind all others; or, when it is
      alone and there is a credit, all its fragments are written, against that credit, and its
      buffer is the last of the free ones. */
  lemma {:induction false} SendCallExact(s: Tx, m: Msg, rejected: set<nat>, a: Addr, mtu: nat)
    requires mtu > 0 && AtRest(s) && s.txFree != []
    ensures var t := SendCall(s, m, rejected, a, mtu);
            && t.submitted == s.submitted + [m] && t.accepted == s.accepted
            && (s.txList != [] || s.creds == 0 ==>
                  && t.txList == s.txList + [Node(s.txFree[0].id, m)] && t.txFree == s.txFree[1..]
                  && (t.creds, t.sending, t.freeSize) == (s.creds, s.sending, s.freeSize - 1)
                  && (t.started, t.offered, t.wire) == (s.started, s.offered, s.wire))
            && (s.txList == [] && s.creds == 1 && !s.sending && m != [] ==>
                  && t.txList == [] && t.txFree == s.txFree[1..] + [Node(s.txFree[0].id, m)]
                  && (t.creds, t.sending, t.freeSize) == (0, false, s.freeSize)
                  && t.started == s.started + [m] && t.offered == s.offered + Fragments(a, m, mtu)
                  && t.wire == s.wire + Accepted(Fragments(a, m, mtu), rejected, 0))
  {
    hide Fragments, Accepted;
  }

  /** A flow-control message: ignored while a credit is held; else counted, and kept while nothing is
      queued or the client is not connected to an enabled device; else it pays for the oldest
      message, and all its fragments are written. */
  lemma {:induction false} FlowCallExact(s: Tx, rejected: set<nat>, a: Addr, mtu: nat, up: bool)
    requires mtu > 0 && AtRest(s) && !s.sending && (s.txList != [] ==> s.txList[0].val != [])
    ensures var t := FlowCall(s, rejected, a, mtu, up);
            && t.submitted == s.submitted && t.accepted == s.accepted + (if s.creds == 0 then 1 else 0)
            && if s.creds != 0 then t == s
               else if s.txList == [] || !up then
                 && t.creds == 1 && !t.sending && t.txList == s.txList && t.txFree == s.txFree && t.freeSize == s.freeSize
                 && t.started == s.started && t.offered == s.offered && t.wire == s.wire
               else
                 var (b, fs) := (s.txList[0], Fragments(a, s.txList[0].val, mtu));
                 && t.creds == 0 && !t.sending && t.txList == s.txList[1..] && t.txFree == s.txFree + [b]
                 && t.freeSize == s.freeSize + 1 && t.started == s.started + [b.val]
                 && t.offered == s.offered + fs && t.wire == s.wire + Accepted(fs, rejected, 0)
  {
    hide Fragments, Accepted;
  }

  // ---------------------------------------------------------------- Every message gets through

  /** `n` credits, one after another, with every fragment accepted. */
  function Credited(s: Tx, n: nat, a: Addr, mtu: nat): Tx
    requires mtu > 0
  {
    if n == 0 then s else FlowCall(Credited(s, n - 1, a, mtu), {}, a, mtu, true)
  }

  /** The client is at rest, and what it started is on the wire. */
  predicate Caught(t: Tx, a: Addr, mtu: nat)
    requires mtu > 0
  {
    && AtRest(t) && !t.sending && NoEmptyQueued(t) && (t.txList != [] ==> t.creds == 0)
    && t.wire == FragmentsOfAll(a, t.started, mtu)
  }

  lemma {:induction false} OneCaught(t: Tx, a: Addr, mtu: nat)
    requires mtu > 0 && Caught(t, a, mtu) && t.txList != []
    ensures var u := FlowCall(t, {}, a, mtu, true);
            && Caught(u, a, mtu) && u.txList == t.txList[1..] && u.started == t.started + [t.txList[0].val]
            && u.submitted == t.submitted
  {
    hide Fragments, Accepted, FragmentsOfAll;
    var m := t.txList[0].val;
    assert t.txList[0] in t.txList;
    NoneRejected(Fragments(a, m, mtu), 0);
    FragmentsOfAllAppend(a, t.started, m, mtu);
  }

  lemma {:induction false} ContentsFirst(u: Tx)
    requires u.txList != []
    ensures u.started + Contents(u.txList) == u.started + [u.txList[0].val] + Contents(u.txList[1..])
  {
    assert Contents(u.txList) == [u.txList[0].val] + Contents(u.txList[1..]);
    var (m, rest) := (u.txList[0].val, Contents(u.txList[1..]));
    assert u.started + ([m] + rest) == u.started + [m] + rest;
  }

  lemma {:induction false} AllCaught(t: Tx, n: nat, a: Addr, mtu: nat)
    requires mtu > 0 && Caught(t, a, mtu) && OrderInv(t) && n <= |t.txList|
    ensures var u := Credited(t, n, a, mtu);
            && Caught(u, a, mtu) && u.txList == t.txList[n..] && u.submitted == t.submitted
            && u.submitted == u.started + Contents(u.txList)
  {
    hide FlowCall, FragmentsOfAll, Contents, Caught;
    if n > 0 {
      var u := Credited(t, n - 1, a, mtu);
      AllCaught(t, n - 1, a, mtu);
      OneCaught(u, a, mtu);
      ContentsFirst(u);
    } else {
      NothingCut(t, a, mtu);
    }
  }

  lemma {:induction false} NothingCut(t: Tx, a: Addr, mtu: nat)
    requires mtu > 0 && Caught(t, a, mtu) && OrderInv(t)
    ensures t.submitted == t.started + Contents(t.txList)
  {
  }

  /** Every message gets through: after any run that leaves the client at rest, in which no fragment
      was refused and no calls met over a message of several fragments, as many credits as messages
      wait bring over all that was submitted, in order, each as it was given. */
  lemma {:induction false} EveryMessageGetsThrough(s: Tx, es: seq<Event>, a: Addr, mtu: nat, pool: set<nat>)
    requires mtu > 0 && Fresh(s, pool) && NonEmptyMessages(es) && TxContent.AllTaken(es) && TxContent.NoRace(s, es, a, mtu)
    requires AtRest(Run(s, es, a, mtu))
    ensures var t := Run(s, es, a, mtu);
            var u := Credited(t, |t.txList|, a, mtu);
            && u.txList == [] && u.started == SubmittedIn(s, es, a, mtu)
            && Feed(EMPTY_INBOX, u.wire) == Inbox(SubmittedIn(s, es, a, mtu), [])
  {
    hide Run, FragmentsOfAll, Feed, TxContent.NoRace, SubmittedIn;
    var t := Run(s, es, a, mtu);
    TxContent.StreamOfStarted(s, es, a, mtu, pool);
    CreditsAndProgress(s, es, a, mtu, pool);
    RingAndOrder(s, es, a, mtu, pool);
    GivenExact(s, es, a, mtu);
    AllCaught(t, |t.txList|, a, mtu);
    var u := Credited(t, |t.txList|, a, mtu);
    assert u.started + [] == u.started && [] + SubmittedIn(s, es, a, mtu) == SubmittedIn(s, es, a, mtu);
    RoundTrip(a, u.started, mtu);
  }

  /** Whatever `others` enqueue carries other addresses. */
  ghost predicate Foreign(others: nat -> seq<Frag>, a: Addr)
  {
    forall n :: NoneOf(others(n), a)
  }

  predicate NoneOf(fs: seq<Frag>, a: Addr)
  {
    forall f :: f in fs ==> f.addr != a
  }

  class Client {
    const addr: Addr
    const mtu: nat
    const maxMsgLength: nat

    var connected: bool
    var enabled: bool
    var fwClientKnown: bool

    var creds: nat
    var sending: bool
    var txOffs: nat
    var txList: seq<TxBuf>
    var txFree: seq<TxBuf>
    var freeSize: int

    /** Everything the IPC queue has accepted, from all clients. */
    var ipc: seq<Frag>

    ghost var accepted: nat
    ghost var submitted: seq<Msg>
    ghost var started: seq<Msg>
    ghost var offered: seq<Frag>

    ghost function Abs(): Tx
      reads this
    {
      Tx(creds, sending, None, txList, txFree, freeSize, [], [], 0, 0, 0, 0,
         accepted, submitted, started, offered, Project(ipc, addr))
    }

    /** ishtp_write_message: others may get into the IPC queue first, and it may refuse. */
    method WriteMessage(f: Frag, n: nat, rejected: set<nat>, others: nat -> seq<Frag>)
      requires f.addr == addr && NoneOf(others(n), addr)
      modifies this`ipc, this`offered
      ensures offered == old(offered) + [f]
      ensures Project(ipc, addr) == Project(old(ipc), addr) + if n in rejected then [] else [f]
    {
      ProjectConcat(ipc, others(n), addr);
      ProjectForeign(others(n), addr);
      ipc := ipc + others(n);
      if n !in rejected {
        ProjectConcat(ipc, [f], addr);
        ProjectOwn([f], addr);
        ipc := ipc + [f];
      }
      offered := offered + [f];
    }

    /** The loop of ipc_tx_send over the fragments of one message. */
    method SendFragments(data: Msg, rejected: set<nat>, others: nat -> seq<Frag>)
      requires mtu > 0 && txOffs == 0 && sending
      requires Foreign(others, addr)
      modifies this`ipc, this`offered, this`txOffs, this`sending
      ensures txOffs == 0 && sending == (data == [])
      ensures offered == old(offered) + if data == [] then [] else Fragments(addr, data, mtu)
      ensures Project(ipc, addr)
           == Project(old(ipc), addr) + if data == [] then [] else Accepted(Fragments(addr, data, mtu), rejected, 0)
    {
      hide Project, Fragments;
      if data == [] {
        assert Project(ipc, addr) + [] == Project(ipc, addr) && offered + [] == offered;
        return;
      }
      var rem := |data| - txOffs;
      var n := 0;
      ghost var before := Project(ipc, addr);
      ghost var goal := before + Accepted(Fragments(addr, data, mtu), rejected, 0);
      assert data[txOffs..] == data;
      while rem > 0
        invariant 0 <= txOffs < |data| && rem == |data| - txOffs && sending
        invariant Project(ipc, addr) + Accepted(Fragments(addr, data[txOffs..], mtu), rejected, n) == goal
        invariant offered + Fragments(addr, data[txOffs..], mtu) == old(offered) + Fragments(addr, data, mtu)
      {
        ghost var fs := Fragments(addr, data[txOffs..], mtu);
        OfferedNext(offered, fs);
        if rem <= mtu {
          CutLast(data, txOffs, addr, mtu);
          AcceptedNext(Project(ipc, addr), fs, rejected, n);
          WriteMessage(Frag(addr, true, data[txOffs..]), n, rejected, others);
          txOffs := 0;
          sending := false;
          break;
        } else {
          CutOne(data, txOffs, addr, mtu);
          AcceptedNext(Project(ipc, addr), fs, rejected, n);
          WriteMessage(Frag(addr, false, data[txOffs..txOffs + mtu]), n, rejected, others);
          txOffs := txOffs + mtu;
          rem := |data| - txOffs;
          n := n + 1;
        }
      }
    }

    /** ipc_tx_send. `others(n)` is what other clients enqueue before the n-th fragment,
        `rejected` the fragments the IPC queue refuses; the result is ignored. */
    method IpcTxSend(rejected: set<nat>, others: nat -> seq<Frag>)
      requires mtu > 0 && txOffs == 0
      requires Foreign(others, addr)
      modifies this
      ensures connected == old(connected) && enabled == old(enabled) && fwClientKnown == old(fwClientKnown)
      ensures !(enabled && connected) ==> Abs() == old(Abs()) && ipc == old(ipc)
      ensures enabled && connected ==> Abs() == Settle(Transmit(old(Abs()), rejected, addr, mtu))
    {
      if !enabled || !connected {
        return;
      }
      if txList == [] {
        return;
      }
      if creds != 1 && !sending {
        return;
      }
      SendHead(rejected, others);
    }

    /** The rest of ipc_tx_send, once a message is queued and a credit or a message under way
        is there. */
    method SendHead(rejected: set<nat>, others: nat -> seq<Frag>)
      requires mtu > 0 && txOffs == 0 && txList != [] && (creds == 1 || sending)
      requires Foreign(others, addr)
      modifies `creds, `sending, `txOffs, `ipc, `offered, `txList, `txFree, `freeSize, `started
      ensures Abs() == Settle(Transmit(old(Abs()), rejected, addr, mtu))
    {
      hide Project, Fragments, Accepted;
      if !sending {
        creds := creds - 1;
        sending := true;
      }
      var buf := txList[0];
      SendFragments(buf.val, rejected, others);
      txList := txList[1..];
      started := started + [buf.val];
      txFree := txFree + [buf];
      freeSize := freeSize + 1;
    }

    /** ishtp_cl_send_msg_ipc */
    method SendMsgIpc(rejected: set<nat>, others: nat -> seq<Frag>)
      requires mtu > 0
      requires Foreign(others, addr)
      modifies this
      ensures connected == old(connected) && enabled == old(enabled) && fwClientKnown == old(fwClientKnown)
      ensures !(enabled && connected) ==> Abs() == old(Abs()) && ipc == old(ipc)
      ensures enabled && connected ==> Abs() == Settle(Transmit(old(Abs()), rejected, addr, mtu))
    {
      txOffs := 0;
      IpcTxSend(rejected, others);
    }

    /** ishtp_cl_send */
    method ClSend(m: Msg, rejected: set<nat>, others: nat -> seq<Frag>) returns (r: Status)
      requires mtu > 0
      requires Foreign(others, addr)
      modifies this
      ensures r == if !old(connected) then NotConnected
                   else if !old(enabled) then NoDevice
                   else if !old(fwClientKnown) then NoFwClient
                   else if |m| > maxMsgLength then TooLong
                   else if old(txFree) == [] then NoBuffer
                   else Queued
      ensures r != Queued ==> Abs() == old(Abs())
      ensures r == Queued ==> old(txFree) != [] && Abs() == SendCall(old(Abs()), m, rejected, addr, mtu)
      ensures r == Queued ==> submitted == old(submitted) + [m]
      ensures r == Queued && (old(txList) != [] || old(creds) == 0) ==>
                txList == old(txList) + [Node(old(txFree)[0].id, m)] && creds == old(creds) && ipc == old(ipc)
      ensures r == Queued && old(txList) == [] && old(creds) == 1 && !old(sending) && m != [] ==>
                && txList == [] && creds == 0 && started == old(started) + [m]
                && Project(ipc, addr) == Project(old(ipc), addr) + Accepted(Fragments(addr, m, mtu), rejected, 0)
    {
      if !connected { return NotConnected; }
      if !enabled { return NoDevice; }
      if !fwClientKnown { return NoFwClient; }
      if |m| > maxMsgLength { return TooLong; }
      if txFree == [] { return NoBuffer; }
      hide SendCall, Project;
      SendCallExact(Abs(), m, rejected, addr, mtu);
      QueueMessage(m, rejected, others);
      return Queued;
    }

    /** The rest of it, with a free buffer. */
    method QueueMessage(m: Msg, rejected: set<nat>, others: nat -> seq<Frag>)
      requires mtu > 0 && connected && enabled && txFree != []
      requires Foreign(others, addr)
      modifies this
      ensures Abs() == SendCall(old(Abs()), m, rejected, addr, mtu)
      ensures old(txList) != [] || old(creds) == 0 ==> ipc == old(ipc)
    {
      hide Transmit, Settle, Project, Foreign;
      var buf := txFree[0];
      txFree := txFree[1..];
      freeSize := freeSize - 1;
      var haveMsgToSend := txList != [];
      txList := txList + [Node(buf.id, m)];
      submitted := submitted + [m];
      if !haveMsgToSend && creds > 0 {
        SendMsgIpc(rejected, others);
      }
    }

    /** recv_hbm, the flow-control branch, once the client with this address is found, connected or
        not. */
    method FlowControl(rejected: set<nat>, others: nat -> seq<Frag>)
      requires mtu > 0
      requires Foreign(others, addr)
      modifies this
      ensures connected == old(connected) && enabled == old(enabled)
      ensures Abs() == FlowCall(old(Abs()), rejected, addr, mtu, enabled && connected)
      ensures old(creds) != 0 ==> Abs() == old(Abs()) && ipc == old(ipc)
      ensures old(creds) == 0 ==> accepted == old(accepted) + 1
      ensures old(creds) == 0 && !(enabled && connected && old(txList) != []) ==>
                creds == 1 && txList == old(txList) && txFree == old(txFree) && ipc == old(ipc)
    {
      if creds == 0 {
        creds := creds + 1;
        accepted := accepted + 1;
        if txList != [] {
          SendMsgIpc(rejected, others);
        }
      }
    }
  }

  lemma {:induction false} AcceptedNext(log: seq<Frag>, fs: seq<Frag>, rejected: set<nat>, n: nat)
    requires fs != []
    ensures log + Accepted(fs, rejected, n)
         == log + (if n in rejected then [] else [fs[0]]) + Accepted(fs[1..], rejected, n + 1)
  {
    var first := if n in rejected then [] else [fs[0]];
    assert Accepted(fs, rejected, n) == first + Accepted(fs[1..], rejected, n + 1);
    assert log + (first + Accepted(fs[1..], rejected, n + 1)) == log + first + Accepted(fs[1..], rejected, n + 1);
  }

  lemma {:induction false} OfferedNext(log: seq<Frag>, fs: seq<Frag>)
    ensures fs != [] ==> log + fs == log + [fs[0]] + fs[1..]
    ensures log + [] == log
  {
  }

  lemma {:induction false} CutLast(data: Msg, offs: nat, a: Addr, mtu: nat)
    requires mtu > 0 && offs <= |data| <= offs + mtu
    ensures var fs := Fragments(a, data[offs..], mtu);
            fs == [Frag(a, true, data[offs..])] && fs[1..] == []
  {
  }

  lemma {:induction false} CutOne(data: Msg, offs: nat, a: Addr, mtu: nat)
    requires mtu > 0 && offs + mtu < |data|
    ensures var fs := Fragments(a, data[offs..], mtu);
            fs != [] && fs[0] == Frag(a, false, data[offs..offs + mtu]) && fs[1..] == Fragments(a, data[offs + mtu..], mtu)
  {
  }
}

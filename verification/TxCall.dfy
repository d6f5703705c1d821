/** A call of ishtp_cl_send_msg_ipc as a whole: what it does when no other resets the offset
    meanwhile, what an empty message does to it, and what a second call can do to it. */
module TxCall {
  import opened Wire
  import opened Lists
  import opened Options
  import opened TxLoop
  import opened TxEngine

  /** The fragments that get into the IPC queue when those numbered in `rejected` do not. */
  function Accepted(fs: seq<Frag>, rejected: set<nat>, first: nat): (r: seq<Frag>)
    ensures |r| <= |fs|
  {
    if fs == [] then []
    else (if first in rejected then [] else [fs[0]]) + Accepted(fs[1..], rejected, first + 1)
  }

  /** ipc_tx_send, with the offset reset and no other call about to reset it. */
  function Transmit(s: Tx, rejected: set<nat>, a: Addr, mtu: nat): Tx
    requires mtu > 0
  {
    if s.txList == [] || (s.creds != 1 && !s.sending) then s
    else
      var paid := if s.sending then s else s.(creds := s.creds - 1, sending := true);
      var m := s.txList[0].val;
      Leave(paid.(started := s.started + [m],
                  sending := m == [],
                  offered := if m == [] then s.offered else s.offered + Fragments(a, m, mtu),
                  wire := if m == [] then s.wire else s.wire + Accepted(Fragments(a, m, mtu), rejected, 0)))
  }

  /** The sub-steps of the loop from here to its end. */
  function StepsOf(l: Loop, m: Msg, rejected: set<nat>, n: nat, a: Addr, mtu: nat): (es: seq<Event>)
    requires mtu > 0 && LoopOk(l, m, mtu)
    ensures forall e :: e in es ==> e.Step? && (rejected == {} ==> e.accept)
    decreases |m| - l.offs, Rank(l.phase)
  {
    var r := SubStep(l, m, a, mtu);
    var writes := l.phase == Writing;
    [Step(!writes || n !in rejected)] + if r.done then [] else StepsOf(r, m, rejected, if writes then n + 1 else n, a, mtu)
  }

  lemma {:induction false} RunCons(s: Tx, e: Event, es: seq<Event>, a: Addr, mtu: nat)
    requires mtu > 0
    ensures Run(s, [e] + es, a, mtu) == Run(Next(s, e, a, mtu), es, a, mtu)
  {
    if es == [] {
      assert [e] + es == [e] && [e][..0] == [];
      assert Run(s, [e], a, mtu) == Next(Run(s, [e][..0], a, mtu), e, a, mtu);
    } else {
      hide Next;
      var init, last := es[..|es| - 1], es[|es| - 1];
      assert ([e] + es)[..|es|] == [e] + init;
      RunCons(s, e, init, a, mtu);
    }
  }

  lemma {:induction false} RunConcat(s: Tx, es: seq<Event>, fs: seq<Event>, a: Addr, mtu: nat)
    requires mtu > 0
    ensures Run(s, es + fs, a, mtu) == Run(Run(s, es, a, mtu), fs, a, mtu)
  {
    if fs == [] {
      assert es + fs == es;
    } else {
      hide Next;
      assert (es + fs)[..|es + fs| - 1] == es + fs[..|fs| - 1];
      RunConcat(s, es, fs[..|fs| - 1], a, mtu);
    }
  }

  lemma {:induction false} AcceptedFirst(f: Frag, fs: seq<Frag>, rejected: set<nat>, n: nat)
    ensures Accepted([f] + fs, rejected, n) == (if n in rejected then [] else [f]) + Accepted(fs, rejected, n + 1)
  {
    assert ([f] + fs)[1..] == fs;
  }

  /** The client when the loop has sent the rest. */
  function LoopEnd(t: Tx, rejected: set<nat>, n: nat, a: Addr, mtu: nat): Tx
    requires mtu > 0 && t.cut.Some? && CutOk(t, mtu)
  {
    var left := Left(t.cut.value, t.txList[0].val, a, mtu);
    Leave(t.(sending := false, offered := t.offered + left, wire := t.wire + Accepted(left, rejected, n)))
  }

  /** One sub-step leaves the loop to end as it would have. */
  lemma {:induction false} LoopEndStep(t: Tx, rejected: set<nat>, n: nat, a: Addr, mtu: nat)
    requires mtu > 0 && t.cut.Some? && CutOk(t, mtu)
    ensures var writes := t.cut.value.phase == Writing;
            var u := Stepped(t, !writes || n !in rejected, a, mtu);
            if SubStep(t.cut.value, t.txList[0].val, a, mtu).done then u == LoopEnd(t, rejected, n, a, mtu)
            else LoopEnd(u, rejected, if writes then n + 1 else n, a, mtu) == LoopEnd(t, rejected, n, a, mtu)
  {
    hide Left, NextFrag, Accepted;
    var l, m := t.cut.value, t.txList[0].val;
    var r := SubStep(l, m, a, mtu);
    LeftStep(l, m, a, mtu);
    if l.phase == Writing {
      var f := NextFrag(l, m, a, mtu);
      var rest := if r.done then [] else Left(r, m, a, mtu);
      AcceptedFirst(f, rest, rejected, n);
      NoneAccepted(rejected, n + 1);
      Assoc(t.offered, [f], rest);
      Assoc(t.wire, if n in rejected then [] else [f], Accepted(rest, rejected, n + 1));
      assert [f] + [] == [f];
    } else {
      assert [] + Left(r, m, a, mtu) == Left(r, m, a, mtu);
    }
  }

  lemma {:induction false} NoneAccepted(rejected: set<nat>, n: nat)
    ensures Accepted([], rejected, n) == []
  {
  }

  lemma {:induction false} LoopRuns(t: Tx, rejected: set<nat>, n: nat, a: Addr, mtu: nat)
    requires mtu > 0 && t.cut.Some? && CutOk(t, mtu)
    ensures Run(t, StepsOf(t.cut.value, t.txList[0].val, rejected, n, a, mtu), a, mtu) == LoopEnd(t, rejected, n, a, mtu)
    decreases |t.txList[0].val| - t.cut.value.offs, Rank(t.cut.value.phase)
  {
    hide LoopEnd, Run;
    var l, m := t.cut.value, t.txList[0].val;
    var r := SubStep(l, m, a, mtu);
    var writes := l.phase == Writing;
    var e := Step(!writes || n !in rejected);
    var u := Next(t, e, a, mtu);
    LoopEndStep(t, rejected, n, a, mtu);
    RunOne(u, a, mtu);
    if r.done {
      assert StepsOf(l, m, rejected, n, a, mtu) == [e] + [];
      RunCons(t, e, [], a, mtu);
    } else {
      var k := if writes then n + 1 else n;
      LoopRuns(u, rejected, k, a, mtu);
      RunCons(t, e, StepsOf(r, m, rejected, k, a, mtu), a, mtu);
    }
  }

  lemma {:induction false} RunOne(u: Tx, a: Addr, mtu: nat)
    requires mtu > 0
    ensures Run(u, [], a, mtu) == u
  {
  }

  /** The sub-steps of a loop that cuts `m` from its start. */
  function CutSteps(m: Msg, rejected: set<nat>, a: Addr, mtu: nat): (es: seq<Event>)
    requires mtu > 0
    ensures forall e :: e in es ==> e.Step? && (rejected == {} ==> e.accept)
  {
    if m == [] then [] else StepsOf(Start(m), m, rejected, 0, a, mtu)
  }

  /** Sub-steps of a loop that has not begun are skipped. */
  lemma {:induction false} StepsSkipped(t: Tx, es: seq<Event>, a: Addr, mtu: nat)
    requires mtu > 0 && t.cut.None? && forall e :: e in es ==> e.Step?
    ensures Run(t, es, a, mtu) == t
  {
    if es != [] {
      var init, e := es[..|es| - 1], es[|es| - 1];
      assert e in es && forall x :: x in init ==> x in es;
      StepsSkipped(t, init, a, mtu);
    }
  }

  /** A call that has reset the offset and is not disturbed sends the whole of its message. */
  lemma {:induction false} CallRuns(s: Tx, rejected: set<nat>, m: Msg, a: Addr, mtu: nat)
    requires mtu > 0 && s.waiting > 0 && s.cut.None? && (s.txList != [] ==> m == s.txList[0].val)
    ensures Run(s, [Enter] + CutSteps(m, rejected, a, mtu), a, mtu)
         == Transmit(s.(waiting := s.waiting - 1), rejected, a, mtu)
  {
    hide Run, Accepted, Fragments, Left, StepsOf;
    var t := Next(s, Enter, a, mtu);
    RunCons(s, Enter, CutSteps(m, rejected, a, mtu), a, mtu);
    if t.cut.None? {
      StepsSkipped(t, CutSteps(m, rejected, a, mtu), a, mtu);
    } else {
      LoopRuns(t, rejected, 0, a, mtu);
      StartSends(m, a, mtu);
    }
  }

  // ---------------------------------------------------------------- Empty messages

  /** Sending leaves the client ready for the next credit exactly when the message has bytes. */
  lemma {:induction false} SendingClearIffNonEmpty(s: Tx, rejected: set<nat>, a: Addr, mtu: nat)
    requires mtu > 0 && s.txList != [] && (s.creds == 1 || s.sending)
    ensures !Transmit(s, rejected, a, mtu).sending <==> s.txList[0].val != []
    ensures |Transmit(s, rejected, a, mtu).started| == |s.started| + 1
    ensures Transmit(s, rejected, a, mtu).creds == s.creds <==> s.sending
  {
  }

  /** A message goes out as the fragments that its cutting gives exactly when it has bytes: an
      empty one has a fragment of its own, but none is sent. */
  lemma {:induction false} SendsFragmentsIffNonEmpty(s: Tx, rejected: set<nat>, a: Addr, mtu: nat)
    requires mtu > 0 && s.txList != [] && (s.creds == 1 || s.sending)
    ensures Transmit(s, rejected, a, mtu).offered == s.offered + Fragments(a, s.txList[0].val, mtu)
       <==> s.txList[0].val != []
  {
    if s.txList[0].val == [] {
      assert |s.offered + Fragments(a, [], mtu)| == |s.offered| + 1;
    }
  }

  /** After an empty message the next one goes out unpaid: two messages start, one credit is
      spent, and the client's account no longer balances. */
  lemma {:induction false} EmptyMessageBreaksConservation(s: Tx, a: Addr, mtu: nat)
    requires mtu > 0 && CreditInv(s) && s.creds == 1 && s.cut.None? && s.waiting > 0
    requires |s.txList| >= 2 && s.txList[0].val == []
    ensures var t := Run(s, [Enter] + [FcArrive] + [FcCheck] + [ResetOffs] + [Enter], a, mtu);
            && |t.started| == |s.started| + 2
            && t.accepted == s.accepted + 1
            && t.creds == 1
            && t.accepted != t.creds + |t.started|
  {
    var s1 := Next(s, Enter, a, mtu);
    assert s1.cut.None? && s1.sending && s1.creds == 0 && s1.txList == s.txList[1..];
    var s2 := Next(s1, FcArrive, a, mtu);
    var s3 := Next(s2, FcCheck, a, mtu);
    var s4 := Next(s3, ResetOffs, a, mtu);
    FiveEvents(s, Enter, FcArrive, FcCheck, ResetOffs, Enter, a, mtu);
  }

  /** Two messages are queued and a credit arrives; the call that it starts waits for the lock. */
  function TwoQueued(m: Msg, n: Msg): seq<Event>
  {
    [TakeFree] + [Submit(0, m)] + [TakeFree] + [Submit(0, n)] + [FcArrive] + [FcCheck] + [ResetOffs]
  }

  lemma {:induction false} TwoQueuedReachable(s: Tx, m: Msg, n: Msg, a: Addr, mtu: nat, pool: set<nat>)
    requires mtu > 0 && Fresh(s, pool) && |s.txFree| >= 2
    ensures var t := Run(s, TwoQueued(m, n), a, mtu);
            && CreditInv(t) && t.creds == 1 && t.cut.None? && t.waiting > 0
            && |t.txList| == 2 && t.txList[0].val == m && t.txList[1].val == n
  {
    var es := [TakeFree] + [Submit(0, m)] + [TakeFree] + [Submit(0, n)] + [FcArrive];
    TwoSubmitted(s, m, n, a, mtu, pool);
    var u := Run(s, es, a, mtu);
    RunMore(s, es, FcCheck, a, mtu);
    RunMore(s, es + [FcCheck], ResetOffs, a, mtu);
    hide Run;
    assert Next(u, FcCheck, a, mtu) == u.(fcChecks := 0, kicks := 1);
  }

  lemma {:induction false} TwoSubmitted(s: Tx, m: Msg, n: Msg, a: Addr, mtu: nat, pool: set<nat>)
    requires mtu > 0 && Fresh(s, pool) && |s.txFree| >= 2
    ensures Run(s, [TakeFree] + [Submit(0, m)] + [TakeFree] + [Submit(0, n)] + [FcArrive], a, mtu)
         == s.(txFree := s.txFree[2..], freeSize := s.freeSize - 2, senderChecks := 1, fcChecks := 1,
               txList := [Node(s.txFree[0].id, m), Node(s.txFree[1].id, n)],
               creds := 1, accepted := 1, submitted := [m, n])
  {
    FiveEvents(s, TakeFree, Submit(0, m), TakeFree, Submit(0, n), FcArrive, a, mtu);
    hide Run;
    var t2 := Next(Next(s, TakeFree, a, mtu), Submit(0, m), a, mtu);
    assert t2 == s.(txFree := s.txFree[1..], freeSize := s.freeSize - 1, txList := [Node(s.txFree[0].id, m)],
                    senderChecks := 1, submitted := [m]);
    var t3 := Next(t2, TakeFree, a, mtu);
    assert t3.taken == [s.txFree[1]] && RemoveAt(t3.taken, 0) == [] && s.txFree[1..][1..] == s.txFree[2..];
  }

  lemma {:induction false} FiveEvents(s: Tx, e1: Event, e2: Event, e3: Event, e4: Event, e5: Event, a: Addr, mtu: nat)
    requires mtu > 0
    ensures Run(s, [e1] + [e2] + [e3] + [e4] + [e5], a, mtu)
         == Next(Next(Next(Next(Next(s, e1, a, mtu), e2, a, mtu), e3, a, mtu), e4, a, mtu), e5, a, mtu)
  {
    hide Next;
    RunOne(s, a, mtu);
    RunMore(s, [], e1, a, mtu);
    assert [] + [e1] == [e1];
    RunMore(s, [e1], e2, a, mtu);
    RunMore(s, [e1] + [e2], e3, a, mtu);
    RunMore(s, [e1] + [e2] + [e3], e4, a, mtu);
    RunMore(s, [e1] + [e2] + [e3] + [e4], e5, a, mtu);
  }

  lemma {:induction false} RunMore(s: Tx, es: seq<Event>, e: Event, a: Addr, mtu: nat)
    requires mtu > 0
    ensures Run(s, es + [e], a, mtu) == Next(Run(s, es, a, mtu), e, a, mtu)
  {
    assert (es + [e])[..|es|] == es;
  }

  // ---------------------------------------------------------------- Two calls

  /** One message, one credit, and two calls about to send: the sender saw the credit, and the
      flow-control message saw the message. */
  function TwoCalls(m: Msg): seq<Event>
  {
    [TakeFree] + [Submit(0, m)] + [FcArrive] + [SenderCheck] + [FcCheck]
  }

  lemma {:induction false} TwoCallsReachable(s: Tx, m: Msg, a: Addr, mtu: nat, pool: set<nat>)
    requires mtu > 0 && Fresh(s, pool) && s.txFree != []
    ensures Run(s, TwoCalls(m), a, mtu)
         == s.(creds := 1, txList := [Node(s.txFree[0].id, m)], txFree := s.txFree[1..], freeSize := |s.txFree| - 1,
               kicks := 2, accepted := 1, submitted := [m])
  {
    FiveEvents(s, TakeFree, Submit(0, m), FcArrive, SenderCheck, FcCheck, a, mtu);
    var t := Next(s, TakeFree, a, mtu);
    assert RemoveAt(t.taken, 0) == [];
  }

  /** The second call resets the offset just after the first has moved it past a fragment. */
  function RaceEvents(m: Msg, a: Addr, mtu: nat): seq<Event>
    requires mtu > 0 && |m| > mtu
  {
    var l := Loop(0, |m|, Measuring, [Frag(a, false, m[..mtu])], false);
    TwoCalls(m) + ([ResetOffs] + [Enter] + [Step(true)] + [Step(true)] + [ResetOffs]) + StepsOf(l, m, {}, 1, a, mtu)
  }

  lemma {:induction false} RaceMiddle(t: Tx, m: Msg, a: Addr, mtu: nat)
    requires mtu > 0 && |m| > mtu && t.cut.None? && t.kicks == 2 && t.waiting == 0 && t.creds == 1 && !t.sending
    requires |t.txList| == 1 && t.txList[0].val == m
    ensures Run(t, [ResetOffs] + [Enter] + [Step(true)] + [Step(true)] + [ResetOffs], a, mtu)
         == t.(creds := 0, sending := true, kicks := 0, waiting := 1, started := t.started + [m],
               offered := t.offered + [Frag(a, false, m[..mtu])], wire := t.wire + [Frag(a, false, m[..mtu])],
               cut := Some(Loop(0, |m|, Measuring, [Frag(a, false, m[..mtu])], false)))
  {
    FiveEvents(t, ResetOffs, Enter, Step(true), Step(true), ResetOffs, a, mtu);
    var f := Frag(a, false, m[..mtu]);
    FirstSubSteps(m, a, mtu);
    assert NextFrag(Start(m), m, a, mtu) == f by { assert m[0..mtu] == m[..mtu]; }
    var t2 := Next(Next(t, ResetOffs, a, mtu), Enter, a, mtu);
    assert t2.cut == Some(Start(m));
    var t3 := Next(t2, Step(true), a, mtu);
    assert t3.cut == Some(Loop(0, |m|, Advancing, [f], false));
    var t4 := Next(t3, Step(true), a, mtu);
    assert t4.cut == Some(Loop(mtu, |m|, Measuring, [f], false));
  }

  /** With every enqueue accepted, one credit and one message of more than one fragment, the
      firmware can join a message that was never submitted: the first fragment, and then the
      whole message. */
  lemma {:induction false} RaceRepeatsFragment(s: Tx, m: Msg, a: Addr, mtu: nat, pool: set<nat>)
    requires mtu > 0 && |m| > mtu && Fresh(s, pool) && s.txFree != []
    ensures var t := Run(s, RaceEvents(m, a, mtu), a, mtu);
            && (forall e :: e in RaceEvents(m, a, mtu) && e.Step? ==> e.accept)
            && t.cut.None? && t.submitted == t.started == [m] && t.accepted == 1 && t.creds == 0
            && Feed(EMPTY_INBOX, t.wire) == Inbox([m[..mtu] + m], [])
  {
    hide Run, StepsOf, Feed, Fragments, Accepted;
    var l := Loop(0, |m|, Measuring, [Frag(a, false, m[..mtu])], false);
    var middle := [ResetOffs] + [Enter] + [Step(true)] + [Step(true)] + [ResetOffs];
    RunConcat(s, TwoCalls(m) + middle, StepsOf(l, m, {}, 1, a, mtu), a, mtu);
    RunConcat(s, TwoCalls(m), middle, a, mtu);
    TwoCallsReachable(s, m, a, mtu, pool);
    RaceMiddle(Run(s, TwoCalls(m), a, mtu), m, a, mtu);
    var t1 := Run(s, TwoCalls(m) + middle, a, mtu);
    LoopRuns(t1, {}, 1, a, mtu);
    assert m[0..] == m;
    RepeatedJoins(m, a, mtu);
    NoneRejected(Fragments(a, m, mtu), 1);
  }

  lemma {:induction false} NoneRejected(fs: seq<Frag>, n: nat)
    ensures Accepted(fs, {}, n) == fs
  {
    if fs != [] {
      NoneRejected(fs[1..], n + 1);
      assert fs == [fs[0]] + fs[1..];
    }
  }

  lemma {:induction false} RepeatedJoins(m: Msg, a: Addr, mtu: nat)
    requires mtu > 0 && |m| > mtu
    ensures Feed(EMPTY_INBOX, [] + [Frag(a, false, m[..mtu])] + Fragments(a, m, mtu)) == Inbox([m[..mtu] + m], [])
  {
    hide Fragments, Feed;
    var f := Frag(a, false, m[..mtu]);
    assert [] + [f] == [f];
    FeedSingle(EMPTY_INBOX, f);
    assert [] + m[..mtu] == m[..mtu];
    FeedConcat(EMPTY_INBOX, [f], Fragments(a, m, mtu));
    FeedFragments(Inbox([], m[..mtu]), a, m, mtu);
    assert [] + [m[..mtu] + m] == [m[..mtu] + m];
  }
}

/** What the linux-6.5 sender puts into the IPC queue: the fragments of the messages it was given,
    unless the offset is reset while a message of several fragments is being cut. */
module TxContent {
  import opened Wire
  import opened Lists
  import opened Options
  import opened TxLoop
  import opened TxEngine
  import opened TxCall

  // ---------------------------------------------------------------- What is relied on

  predicate AllTaken(es: seq<Event>)
  {
    forall e :: e in es && e.Step? ==> e.accept
  }

  predicate SingleFragment(es: seq<Event>, mtu: nat)
  {
    forall e :: e in es && e.Submit? ==> |e.m| <= mtu
  }

  /** The calls of ishtp_cl_send_msg_ipc that are about to reset the offset, wait, or cut. */
  function Sending(s: Tx): nat
  {
    s.kicks + s.waiting + if s.cut.Some? then 1 else 0
  }

  /** At no point of the run are two such calls under way. */
  predicate OneAtATime(s: Tx, es: seq<Event>, a: Addr, mtu: nat)
    requires mtu > 0
  {
    Sending(Run(s, es, a, mtu)) <= 1 && (es == [] || OneAtATime(s, es[..|es| - 1], a, mtu))
  }

  /** Either every message is one fragment, and calls may interleave in any way; or messages are of
      any size, and calls that send do not overlap. */
  predicate NoRace(s: Tx, es: seq<Event>, a: Addr, mtu: nat)
    requires mtu > 0
  {
    SingleFragment(es, mtu) || OneAtATime(s, es, a, mtu)
  }

  // ---------------------------------------------------------------- The stream

  function CutLeft(t: Tx, a: Addr, mtu: nat): (fs: seq<Frag>)
    requires mtu > 0 && CutOk(t, mtu)
  {
    if t.cut.None? then [] else Left(t.cut.value, t.txList[0].val, a, mtu)
  }

  /** What was offered to the IPC queue, and what is left of the message being cut, are the
      fragments of the messages started. */
  predicate StreamInv(t: Tx, a: Addr, mtu: nat)
    requires mtu > 0
  {
    CutOk(t, mtu) && t.offered + CutLeft(t, a, mtu) == FragmentsOfAll(a, t.started, mtu)
  }

  predicate WireInv(t: Tx)
  {
    |t.wire| <= |t.offered| && (|t.wire| == |t.offered| ==> t.wire == t.offered)
  }

  /** The step does not reset the offset of a loop that has moved it. */
  predicate Harmless(t: Tx, e: Event)
  {
    e.ResetOffs? && t.kicks > 0 && t.cut.Some? ==> t.cut.value.offs == 0
  }

  lemma {:induction false} EnterStream(t: Tx, a: Addr, mtu: nat)
    requires mtu > 0 && t.cut.None? && NoEmptyQueued(t) && StreamInv(t, a, mtu)
    ensures StreamInv(Entered(t), a, mtu)
  {
    hide Left, FragmentsOfAll, Fragments;
    if t.txList != [] && (t.creds == 1 || t.sending) {
      var m := t.txList[0].val;
      assert t.txList[0] in t.txList;
      StartSends(m, a, mtu);
      FragmentsOfAllAppend(a, t.started, m, mtu);
    }
  }

  lemma {:induction false} StepStream(t: Tx, accept: bool, a: Addr, mtu: nat)
    requires mtu > 0 && t.cut.Some? && StreamInv(t, a, mtu)
    ensures StreamInv(Stepped(t, accept, a, mtu), a, mtu)
  {
    hide Left, SubStep, NextFrag, FragmentsOfAll;
    var l, m := t.cut.value, t.txList[0].val;
    LeftStep(l, m, a, mtu);
    var r := SubStep(l, m, a, mtu);
    var now := if l.phase == Writing then [NextFrag(l, m, a, mtu)] else [];
    Assoc(t.offered, now, if r.done then [] else Left(r, m, a, mtu));
    assert t.offered + now == if l.phase == Writing then t.offered + [NextFrag(l, m, a, mtu)] else t.offered;
  }

  lemma {:induction false} StreamStep(t: Tx, e: Event, a: Addr, mtu: nat)
    requires mtu > 0 && Harmless(t, e) && NoEmptyQueued(t) && StreamInv(t, a, mtu)
    ensures StreamInv(Next(t, e, a, mtu), a, mtu)
  {
    hide Left, FragmentsOfAll, Entered, Stepped;
    if Enabled(t, e, mtu) {
      match e
      case Enter => EnterStream(t.(waiting := t.waiting - 1), a, mtu);
      case Step(accept) => StepStream(t, accept, a, mtu);
      case ResetOffs =>
        if t.cut.Some? {
          assert Reset(t.cut.value) == t.cut.value;
        }
      case _ =>
    }
  }

  lemma {:induction false} WireStep(t: Tx, e: Event, a: Addr, mtu: nat)
    requires mtu > 0 && WireInv(t)
    ensures WireInv(Next(t, e, a, mtu))
    ensures t.wire == t.offered && (e.Step? ==> e.accept) ==> Next(t, e, a, mtu).wire == Next(t, e, a, mtu).offered
  {
    hide SubStep, NextFrag, LoopOk;
  }

  // ---------------------------------------------------------------- Resets do no harm

  /** With messages of one fragment, the loop never moves the offset. */
  predicate Short(t: Tx, mtu: nat)
  {
    && (forall b :: b in t.txList ==> |b.val| <= mtu)
    && (t.cut.Some? ==> t.cut.value.offs == 0 && t.cut.value.phase == Writing && t.cut.value.rem <= mtu)
  }

  lemma {:induction false} ShortStep(t: Tx, e: Event, a: Addr, mtu: nat)
    requires mtu > 0 && Short(t, mtu) && (e.Submit? ==> |e.m| <= mtu)
    ensures Short(Next(t, e, a, mtu), mtu)
  {
    if t.txList != [] {
      assert t.txList[0] in t.txList;
    }
  }

  lemma {:induction false} ShortRun(s: Tx, es: seq<Event>, a: Addr, mtu: nat, pool: set<nat>)
    requires mtu > 0 && Fresh(s, pool) && SingleFragment(es, mtu)
    ensures Short(Run(s, es, a, mtu), mtu)
  {
    if es != [] {
      hide Short, Next;
      var init, e := es[..|es| - 1], es[|es| - 1];
      assert e in es && forall x :: x in init ==> x in es;
      ShortRun(s, init, a, mtu, pool);
      ShortStep(Run(s, init, a, mtu), e, a, mtu);
    }
  }

  lemma {:induction false} NextHarmless(s: Tx, es: seq<Event>, e: Event, a: Addr, mtu: nat, pool: set<nat>)
    requires mtu > 0 && Fresh(s, pool)
    requires SingleFragment(es, mtu) || Sending(Run(s, es, a, mtu)) <= 1
    ensures Harmless(Run(s, es, a, mtu), e)
  {
    hide Run;
    if SingleFragment(es, mtu) {
      ShortRun(s, es, a, mtu, pool);
    }
  }

  // ---------------------------------------------------------------- All runs

  lemma {:induction false} StreamRun(s: Tx, es: seq<Event>, a: Addr, mtu: nat, pool: set<nat>)
    requires mtu > 0 && Fresh(s, pool) && NonEmptyMessages(es) && NoRace(s, es, a, mtu)
    ensures StreamInv(Run(s, es, a, mtu), a, mtu)
  {
    if es != [] {
      hide StreamInv, Next, Harmless, Sending, Account;
      var init, e := es[..|es| - 1], es[|es| - 1];
      assert forall x :: x in init ==> x in es;
      StreamRun(s, init, a, mtu, pool);
      QueuedNonEmpty(s, init, a, mtu, pool);
      NextHarmless(s, init, e, a, mtu, pool);
      StreamStep(Run(s, init, a, mtu), e, a, mtu);
    }
  }

  lemma {:induction false} QueuedNonEmpty(s: Tx, es: seq<Event>, a: Addr, mtu: nat, pool: set<nat>)
    requires mtu > 0 && Fresh(s, pool) && NonEmptyMessages(es)
    ensures NoEmptyQueued(Run(s, es, a, mtu))
  {
    hide Run;
    CreditsAndProgress(s, es, a, mtu, pool);
  }

  lemma {:induction false} WireRun(s: Tx, es: seq<Event>, a: Addr, mtu: nat, pool: set<nat>)
    requires mtu > 0 && Fresh(s, pool)
    ensures WireInv(Run(s, es, a, mtu))
    ensures AllTaken(es) ==> Run(s, es, a, mtu).wire == Run(s, es, a, mtu).offered
  {
    if es != [] {
      hide WireInv, Next;
      var init, e := es[..|es| - 1], es[|es| - 1];
      assert e in es && forall x :: x in init ==> x in es;
      WireRun(s, init, a, mtu, pool);
      WireStep(Run(s, init, a, mtu), e, a, mtu);
    }
  }

  /** What the client offers to the IPC queue are the fragments of the started messages, in order,
      and what gets into the queue is no more, and the same if none was refused. */
  lemma {:induction false} StreamOfStarted(s: Tx, es: seq<Event>, a: Addr, mtu: nat, pool: set<nat>)
    requires mtu > 0 && Fresh(s, pool) && NonEmptyMessages(es) && NoRace(s, es, a, mtu)
    ensures var t := Run(s, es, a, mtu);
            && t.offered <= FragmentsOfAll(a, t.started, mtu)
            && (t.cut.None? ==> t.offered == FragmentsOfAll(a, t.started, mtu))
            && |t.wire| <= |t.offered| && (|t.wire| == |t.offered| ==> t.wire == t.offered)
            && (AllTaken(es) ==> t.wire == t.offered)
  {
    hide Run, FragmentsOfAll, Left;
    StreamRun(s, es, a, mtu, pool);
    WireRun(s, es, a, mtu, pool);
  }

  /** What the firmware joins from the stream are messages the client submitted, in order; once
      none is being cut, all that were started. */
  lemma {:induction false} DeliveredAsSubmitted(s: Tx, es: seq<Event>, a: Addr, mtu: nat, pool: set<nat>)
    requires mtu > 0 && Fresh(s, pool) && NonEmptyMessages(es) && NoRace(s, es, a, mtu) && AllTaken(es)
    ensures var t := Run(s, es, a, mtu);
            && Feed(EMPTY_INBOX, t.wire).done <= t.started <= t.submitted
            && (t.cut.None? ==> Feed(EMPTY_INBOX, t.wire) == Inbox(t.started, []))
  {
    hide Run, FragmentsOfAll, Feed;
    StreamOfStarted(s, es, a, mtu, pool);
    TransmitConservation(s, es, a, mtu, pool);
    var t := Run(s, es, a, mtu);
    PrefixRoundTrip(a, t.started, mtu, t.wire);
    RoundTrip(a, t.started, mtu);
  }

  // ---------------------------------------------------------------- Which sizes are safe

  predicate OfSize(es: seq<Event>, n: nat)
  {
    forall e :: e in es && e.Submit? ==> |e.m| == n
  }

  /** However calls interleave, a client that sends messages of `n` bytes is never heard to send
      anything else. */
  ghost predicate SizeSafe(n: nat, a: Addr, mtu: nat)
    requires mtu > 0
  {
    forall s, es, pool :: Fresh(s, pool) && OfSize(es, n) && AllTaken(es) ==> HeardRight(Run(s, es, a, mtu))
  }

  predicate HeardRight(t: Tx)
  {
    Feed(EMPTY_INBOX, t.wire).done <= t.submitted
  }

  lemma {:induction false} SmallHeardRight(s: Tx, es: seq<Event>, a: Addr, mtu: nat, pool: set<nat>, n: nat)
    requires mtu > 0 && 0 < n <= mtu && Fresh(s, pool) && OfSize(es, n) && AllTaken(es)
    ensures HeardRight(Run(s, es, a, mtu))
  {
    hide Run, Feed;
    DeliveredAsSubmitted(s, es, a, mtu, pool);
  }

  lemma {:induction false} OneBuffer() returns (s: Tx)
    ensures Fresh(s, {0}) && s.txFree != []
  {
    var b := Node(0, []);
    s := Tx(0, false, None, [], [b], 1, [], [], 0, 0, 0, 0, 0, [], [], [], []);
    IdsPush([], b);
    assert [] + [b] == [b];
  }

  lemma {:induction false} RaceSubmitsOnly(m: Msg, a: Addr, mtu: nat)
    requires mtu > 0 && |m| > mtu
    ensures OfSize(RaceEvents(m, a, mtu), |m|)
  {
    hide StepsOf;
    var l := Loop(0, |m|, Measuring, [Frag(a, false, m[..mtu])], false);
    assert forall e :: e in StepsOf(l, m, {}, 1, a, mtu) ==> e.Step?;
  }

  /** Which sizes of messages are safe from a second call, whatever it does and when: exactly those
      of one fragment. */
  lemma {:induction false} SizeSafeExact(n: nat, a: Addr, mtu: nat)
    requires mtu > 0 && n > 0
    ensures SizeSafe(n, a, mtu) <==> n <= mtu
  {
    hide Run, Feed, RaceEvents, OfSize;
    if n <= mtu {
      forall s, es, pool | Fresh(s, pool) && OfSize(es, n) && AllTaken(es) ensures HeardRight(Run(s, es, a, mtu)) {
        SmallHeardRight(s, es, a, mtu, pool, n);
      }
    } else {
      var s := OneBuffer();
      var m: Msg := seq(n, _ => 0);
      RaceRepeatsFragment(s, m, a, mtu, {0});
      RaceSubmitsOnly(m, a, mtu);
      assert AllTaken(RaceEvents(m, a, mtu));
      assert |m[..mtu] + m| != |m|;
      assert [m[..mtu] + m][0] != [m][0];
      assert !HeardRight(Run(s, RaceEvents(m, a, mtu), a, mtu));
    }
  }

  // ---------------------------------------------------------------- Which sizes keep the account

  /** However calls interleave and whatever is refused, a credit accepted by a client that sends
      messages of `n` bytes is held or has paid for one message. */
  ghost predicate AccountSafe(n: nat, a: Addr, mtu: nat)
    requires mtu > 0
  {
    forall s, es, pool :: Fresh(s, pool) && OfSize(es, n) ==> Balances(Run(s, es, a, mtu))
  }

  predicate Balances(t: Tx)
  {
    t.accepted == t.creds + |t.started|
  }

  lemma {:induction false} TwoBuffers() returns (s: Tx)
    ensures Fresh(s, {0, 1}) && |s.txFree| == 2
  {
    var b, c := Node(0, []), Node(1, []);
    s := Tx(0, false, None, [], [b, c], 2, [], [], 0, 0, 0, 0, 0, [], [], [], []);
    IdsPush([], b);
    IdsPush([b], c);
    assert [] + [b] == [b] && [b] + [c] == [b, c];
  }

  /** Which sizes of messages keep the account: all but zero. Two empty messages and two credits are
      enough to break it. */
  lemma {:induction false} AccountSafeExact(n: nat, a: Addr, mtu: nat)
    requires mtu > 0
    ensures AccountSafe(n, a, mtu) <==> n > 0
  {
    hide Run;
    if n > 0 {
      forall s, es, pool | Fresh(s, pool) && OfSize(es, n) ensures Balances(Run(s, es, a, mtu)) {
        CreditsAndProgress(s, es, a, mtu, pool);
      }
    } else {
      var s := TwoBuffers();
      var more := [Enter] + [FcArrive] + [FcCheck] + [ResetOffs] + [Enter];
      TwoQueuedReachable(s, [], [], a, mtu, {0, 1});
      EmptyMessageBreaksConservation(Run(s, TwoQueued([], []), a, mtu), a, mtu);
      RunConcat(s, TwoQueued([], []), more, a, mtu);
      assert OfSize(TwoQueued([], []) + more, 0);
      assert !Balances(Run(s, TwoQueued([], []) + more, a, mtu));
    }
  }
}

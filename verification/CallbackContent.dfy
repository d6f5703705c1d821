/** What the linux-5.15 sender puts into the IPC queue: the fragments of the messages it was given,
    unless a call that sends meets a message of several fragments in flight. */
module CallbackContent {
  import opened Wire
  import opened CallbackEngine

  // ---------------------------------------------------------------- What is relied on

  predicate SingleFragment(es: seq<Event>, mtu: nat)
  {
    forall e :: e in es && e.Submit? ==> |e.m| <= mtu
  }

  /** The calls that are about to send or are sending, and the callbacks that go on with a message. */
  function Sending(s: Tx): nat
  {
    s.kicks + s.waiting + |s.parts| + |s.lasts| + s.callbacks
  }

  /** No call decides to send while another is sending or a message is in flight. */
  predicate OneAtATime(s: Tx, es: seq<Event>, a: Addr, mtu: nat)
  {
    Sending(Run(s, es, a, mtu)) <= 1 && (es == [] || OneAtATime(s, es[..|es| - 1], a, mtu))
  }

  /** Either every message is one fragment, and calls may interleave in any way; or messages are of
      any size, and calls that send do not overlap. */
  predicate NoRace(s: Tx, es: seq<Event>, a: Addr, mtu: nat)
  {
    SingleFragment(es, mtu) || OneAtATime(s, es, a, mtu)
  }

  // ---------------------------------------------------------------- The stream

  /** The fragment that was chosen and not written. */
  function Chosen(t: Tx): seq<Frag>
  {
    (if t.parts == [] then [] else [t.parts[0].frag]) + t.lasts
  }

  /** Where the next fragment will begin. */
  function Position(t: Tx, mtu: nat): nat
  {
    t.cl.offs + if t.parts != [] && !t.parts[0].moved then mtu else 0
  }

  /** The fragments of the message in flight from `offs` on. */
  function RestOf(cl: Cl, offs: nat, a: Addr, mtu: nat): (fs: seq<Frag>)
    requires mtu > 0
  {
    if cl.sending && cl.txList != [] && offs <= |cl.txList[0]| then Fragments(a, cl.txList[0][offs..], mtu) else []
  }

  /** Those that are still to be chosen. */
  function ToCome(t: Tx, a: Addr, mtu: nat): (fs: seq<Frag>)
    requires mtu > 0
  {
    RestOf(t.cl, Position(t, mtu), a, mtu)
  }

  /** What was written, what was chosen and what is to come are the fragments of the messages
      started. */
  predicate StreamInv(t: Tx, a: Addr, mtu: nat)
    requires mtu > 0
  {
    && |t.parts| + |t.lasts| <= 1
    && t.wire + Chosen(t) + ToCome(t, a, mtu) == FragmentsOfAll(a, t.started, mtu)
  }

  /** With messages of one fragment, the offset is never moved, and no message outlasts its pass. */
  predicate Short(t: Tx, mtu: nat)
  {
    && (forall m :: m in t.cl.txList ==> |m| <= mtu)
    && t.cl.offs == 0 && !t.cl.sending && !t.cl.overread && t.parts == [] && t.callbacks == 0
  }

  /** When calls do not overlap, a message in flight has exactly one call or callback to go on with
      it, and without one the offset is reset before a message begins. */
  predicate Alone(t: Tx, mtu: nat)
  {
    && !t.cl.overread && Sending(t) <= 1
    && (t.cl.sending ==>
          && t.waiting + |t.parts| + t.callbacks == 1
          && t.cl.txList != [] && Position(t, mtu) < |t.cl.txList[0]|)
    && (t.parts != [] || t.callbacks > 0 ==> t.cl.sending)
    && (t.waiting > 0 && !t.cl.sending ==> t.cl.offs == 0)
  }

  lemma {:induction false} ShortStep(t: Tx, e: Event, a: Addr, mtu: nat)
    requires mtu > 0 && Short(t, mtu) && (e.Submit? ==> |e.m| <= mtu)
    ensures Short(Next(t, e, a, mtu), mtu)
  {
    if t.cl.txList != [] {
      assert t.cl.txList[0] in t.cl.txList;
    }
  }

  lemma {:induction false} AloneStep(t: Tx, e: Event, a: Addr, mtu: nat)
    requires mtu > 0 && Alone(t, mtu) && Lossless([e]) && Sending(Next(t, e, a, mtu)) <= 1
    ensures Alone(Next(t, e, a, mtu), mtu)
  {
    assert e in [e];
  }

  /** A pass chooses the first of the fragments to come. */
  lemma {:induction false} EnterStream(t: Tx, a: Addr, mtu: nat)
    requires mtu > 0 && StreamInv(t, a, mtu) && t.parts == [] && t.lasts == []
    requires Passes(t.cl) ==> if t.cl.sending then !Beyond(t.cl) else t.cl.offs == 0
    ensures StreamInv(Entered(t, a, mtu), a, mtu)
  {
    hide Fragments, FragmentsOfAll;
    if Passes(t.cl) {
      var m, offs := t.cl.txList[0], t.cl.offs;
      CutAt(m, offs, a, mtu);
      if !t.cl.sending {
        assert m[0..] == m;
        FragmentsOfAllAppend(a, t.started, m, mtu);
      }
    }
  }

  lemma {:induction false} OnlyOne(t: Tx, e: Event)
    requires Enabled(t, e) && |t.parts| + |t.lasts| <= 1
    ensures e.WritePart? || e.MoveOffs? ==> e.i == 0 && |t.parts| == 1 && t.lasts == []
    ensures e.WriteLast? ==> e.i == 0 && |t.lasts| == 1 && t.parts == []
  {
  }

  lemma {:induction false} WriteStream(t: Tx, e: Event, a: Addr, mtu: nat)
    requires mtu > 0 && Enabled(t, e) && StreamInv(t, a, mtu)
    requires (e.WritePart? || e.WriteLast?) && e.accept
    ensures StreamInv(Next(t, e, a, mtu), a, mtu)
  {
    hide Fragments, FragmentsOfAll;
    OnlyOne(t, e);
    var u := Next(t, e, a, mtu);
    assert u.wire == t.wire + Chosen(t) && Chosen(u) == [];
  }

  /** The step does not reset the offset under a message in flight, and finds the last pass over. */
  predicate Harmless(t: Tx, e: Event)
  {
    && (e.ResetOffs? && t.kicks > 0 ==> !t.cl.sending)
    && (e.Enter? && t.waiting > 0 && Passes(t.cl) ==>
          && t.parts == [] && t.lasts == []
          && if t.cl.sending then !Beyond(t.cl) else t.cl.offs == 0)
  }

  lemma {:induction false} StreamStep(t: Tx, e: Event, a: Addr, mtu: nat)
    requires mtu > 0 && Harmless(t, e) && Lossless([e]) && OrderInv(t) && StreamInv(t, a, mtu)
    ensures StreamInv(Next(t, e, a, mtu), a, mtu)
  {
    hide FragmentsOfAll, Fragments, Entered;
    assert e in [e];
    if Enabled(t, e) {
      OnlyOne(t, e);
      match e
      case Enter(up) =>
        if Passes(t.cl) {
          EnterStream(t.(waiting := t.waiting - 1), a, mtu);
        } else {
          IdlePass(t.(waiting := t.waiting - 1), a, mtu);
        }
      case WritePart(_, _) => WriteStream(t, e, a, mtu);
      case WriteLast(_, _) => WriteStream(t, e, a, mtu);
      case _ =>
    }
  }

  lemma {:induction false} IdlePass(t: Tx, a: Addr, mtu: nat)
    requires !Passes(t.cl)
    ensures Entered(t, a, mtu) == t
  {
  }

  /** Resetting the offset under a message in flight, which another call or a credit in mid-message
      leads to, leaves the stream right if and only if nothing of the message was chosen yet. */
  lemma {:induction false} ResetExact(t: Tx, a: Addr, mtu: nat)
    requires mtu > 0 && StreamInv(t, a, mtu) && t.parts == []
    requires t.cl.sending && t.cl.txList != [] && !Beyond(t.cl)
    ensures StreamInv(t.(cl := t.cl.(offs := 0)), a, mtu) <==> t.cl.offs == 0
  {
    hide FragmentsOfAll, Fragments;
    var m, sent := t.cl.txList[0], t.wire + Chosen(t);
    if StreamInv(t.(cl := t.cl.(offs := 0)), a, mtu) {
      assert m[0..] == m;
      var (rest, all) := (Fragments(a, m[t.cl.offs..], mtu), Fragments(a, m, mtu));
      assert rest == (sent + rest)[|sent|..] == (sent + all)[|sent|..] == all;
      FragmentsPayload(a, m[t.cl.offs..], mtu);
      FragmentsPayload(a, m, mtu);
    }
  }

  // ---------------------------------------------------------------- All runs

  lemma {:induction false} ShortRun(ring: nat, es: seq<Event>, a: Addr, mtu: nat)
    requires mtu > 0 && SingleFragment(es, mtu)
    ensures Short(Run(Fresh(ring), es, a, mtu), mtu)
  {
    if es != [] {
      hide Short, Next;
      var init, e := es[..|es| - 1], es[|es| - 1];
      assert e in es && forall x :: x in init ==> x in es;
      ShortRun(ring, init, a, mtu);
      ShortStep(Run(Fresh(ring), init, a, mtu), e, a, mtu);
    }
  }

  lemma {:induction false} AloneRun(ring: nat, es: seq<Event>, a: Addr, mtu: nat)
    requires mtu > 0 && Lossless(es) && OneAtATime(Fresh(ring), es, a, mtu)
    ensures Alone(Run(Fresh(ring), es, a, mtu), mtu)
  {
    if es != [] {
      hide Alone, Next, Sending;
      var init, e := es[..|es| - 1], es[|es| - 1];
      assert e in es && forall x :: x in init ==> x in es;
      AloneRun(ring, init, a, mtu);
      AloneStep(Run(Fresh(ring), init, a, mtu), e, a, mtu);
    } else {
      assert Sending(Fresh(ring)) == 0;
    }
  }

  lemma {:induction false} AloneHarmless(t: Tx, e: Event, mtu: nat)
    requires Alone(t, mtu)
    ensures Harmless(t, e)
  {
  }

  lemma {:induction false} ShortHarmless(t: Tx, e: Event, mtu: nat)
    requires Short(t, mtu) && PacedInv(t)
    ensures Harmless(t, e)
  {
  }

  lemma {:induction false} StreamRun(ring: nat, es: seq<Event>, a: Addr, mtu: nat)
    requires mtu > 0 && Paced(Fresh(ring), es, a, mtu) && Lossless(es) && NoRace(Fresh(ring), es, a, mtu)
    ensures StreamInv(Run(Fresh(ring), es, a, mtu), a, mtu)
  {
    if es != [] {
      hide StreamInv, Next, Harmless, Alone, Short, PacedInv, ProgressInv, RingInv, CreditInv, JoinedInv, OrderInv,
           Due, Sending;
      var init, e := es[..|es| - 1], es[|es| - 1];
      var t := Run(Fresh(ring), init, a, mtu);
      assert e in es && forall x :: x in init ==> x in es;
      StreamRun(ring, init, a, mtu);
      AccountsKept(ring, init, a, mtu);
      if SingleFragment(es, mtu) {
        ShortRun(ring, init, a, mtu);
        PacedRun(ring, init, a, mtu);
        ShortHarmless(t, e, mtu);
      } else {
        AloneRun(ring, init, a, mtu);
        AloneHarmless(t, e, mtu);
      }
      StreamStep(t, e, a, mtu);
    }
  }

  /** What the client puts into the IPC queue is, in order, the fragments of the messages it started,
      up to one that is chosen and those to come of the message in flight. */
  lemma {:induction false} StreamOfStarted(ring: nat, es: seq<Event>, a: Addr, mtu: nat)
    requires mtu > 0 && Paced(Fresh(ring), es, a, mtu) && Lossless(es) && NoRace(Fresh(ring), es, a, mtu)
    ensures var t := Run(Fresh(ring), es, a, mtu);
            && t.wire <= FragmentsOfAll(a, t.started, mtu)
            && (!t.cl.sending && t.lasts == [] && t.parts == [] ==> t.wire == FragmentsOfAll(a, t.started, mtu))
  {
    hide Run, FragmentsOfAll, Fragments;
    StreamRun(ring, es, a, mtu);
    var t := Run(Fresh(ring), es, a, mtu);
    assert t.wire + Chosen(t) + ToCome(t, a, mtu) == t.wire + (Chosen(t) + ToCome(t, a, mtu));
  }

  /** What the firmware joins from the stream are messages the client submitted, in order. */
  lemma {:induction false} DeliveredAsSubmitted(ring: nat, es: seq<Event>, a: Addr, mtu: nat)
    requires mtu > 0 && Paced(Fresh(ring), es, a, mtu) && Lossless(es) && NoRace(Fresh(ring), es, a, mtu)
    ensures var t := Run(Fresh(ring), es, a, mtu); Feed(EMPTY_INBOX, t.wire).done <= t.started <= t.submitted
  {
    hide Run, FragmentsOfAll, Feed;
    StreamOfStarted(ring, es, a, mtu);
    AccountsKept(ring, es, a, mtu);
    var t := Run(Fresh(ring), es, a, mtu);
    PrefixRoundTrip(a, t.started, mtu, t.wire);
  }

  function Min(x: nat, y: nat): nat
  {
    if x < y then x else y
  }

  /** At rest the client has sent exactly the first messages it was given, as many as it was given
      credits for. */
  lemma {:induction false} DrainedStream(ring: nat, es: seq<Event>, a: Addr, mtu: nat)
    requires mtu > 0 && Paced(Fresh(ring), es, a, mtu) && Lossless(es) && NoRace(Fresh(ring), es, a, mtu)
    requires Resting(Run(Fresh(ring), es, a, mtu))
    ensures var t := Run(Fresh(ring), es, a, mtu);
            && t.started == t.submitted[..Min(t.accepted, |t.submitted|)]
            && t.wire == FragmentsOfAll(a, t.started, mtu)
            && t.cl.creds == t.accepted - |t.started|
            && t.submitted == t.started + t.cl.txList
  {
    hide Run, FragmentsOfAll, Feed, Paced, Lossless;
    var t := Run(Fresh(ring), es, a, mtu);
    if SingleFragment(es, mtu) {
      ShortRun(ring, es, a, mtu);
    } else {
      AloneRun(ring, es, a, mtu);
    }
    assert !t.cl.sending && !t.cl.overread;
    StreamOfStarted(ring, es, a, mtu);
    AccountsKept(ring, es, a, mtu);
    PacedRun(ring, es, a, mtu);
    assert t.submitted == t.started + t.cl.txList;
    if t.cl.txList == [] {
      assert t.started == t.submitted;
    } else {
      assert t.cl.creds == 0;
    }
  }

  // ---------------------------------------------------------------- Whole calls

  /** Events that decide to send. */
  predicate Decides(e: Event)
  {
    e.SenderCheck? || e.FcCheck?
  }

  /** Nobody is inside a call, and so far no call that sends has met another, nor a credit come too
      soon. */
  predicate Calm(ring: nat, es: seq<Event>, a: Addr, mtu: nat)
  {
    var t := Run(Fresh(ring), es, a, mtu);
    && Paced(Fresh(ring), es, a, mtu) && OneAtATime(Fresh(ring), es, a, mtu)
    && t.senderChecks == t.fcChecks == t.kicks == t.waiting == 0 && t.parts == [] && t.lasts == []
  }

  lemma {:induction false} CalmAtFirst(ring: nat, a: Addr, mtu: nat)
    ensures Calm(ring, [], a, mtu)
  {
    assert Sending(Fresh(ring)) == 0;
  }

  lemma {:induction false} OnlyDecisions(t: Tx, e: Event, a: Addr, mtu: nat)
    requires !Decides(e)
    ensures Sending(Next(t, e, a, mtu)) <= Sending(t)
  {
  }

  lemma {:induction false} SentFrom(s: Tx, es: seq<Event>, a: Addr, mtu: nat)
    requires OneAtATime(s, es, a, mtu)
    ensures Sending(Run(s, es, a, mtu)) <= 1
  {
  }

  lemma {:induction false} OneAtATimeMore(s: Tx, es: seq<Event>, e: Event, a: Addr, mtu: nat)
    requires OneAtATime(s, es, a, mtu) && Sending(Run(s, es + [e], a, mtu)) <= 1
    ensures OneAtATime(s, es + [e], a, mtu)
  {
    hide Run, Sending;
    assert (es + [e])[..|es|] == es;
  }

  lemma {:induction false} OneAtATimeGrows(s: Tx, es: seq<Event>, ys: seq<Event>, a: Addr, mtu: nat)
    requires OneAtATime(s, es, a, mtu) && forall y :: y in ys ==> !Decides(y)
    ensures OneAtATime(s, es + ys, a, mtu) && Sending(Run(s, es + ys, a, mtu)) <= Sending(Run(s, es, a, mtu))
  {
    if ys == [] {
      assert es + ys == es;
    } else {
      hide Next, Sending, OneAtATime, Run;
      var init, y := ys[..|ys| - 1], ys[|ys| - 1];
      assert y in ys && es + ys == es + init + [y];
      OneAtATimeGrows(s, es, init, a, mtu);
      RunMore(s, es + init, y, a, mtu);
      OnlyDecisions(Run(s, es + init, a, mtu), y, a, mtu);
      SentFrom(s, es, a, mtu);
      OneAtATimeMore(s, es + init, y, a, mtu);
    }
  }

  /** Only a submission or a credit changes what a client is given. */
  lemma {:induction false} InputsStay(s: Tx, ys: seq<Event>, a: Addr, mtu: nat)
    requires forall y :: y in ys ==> !y.Submit? && !y.FcArrive?
    ensures Run(s, ys, a, mtu).submitted == s.submitted && Run(s, ys, a, mtu).accepted == s.accepted
  {
    if ys != [] {
      var init, y := ys[..|ys| - 1], ys[|ys| - 1];
      assert y in ys;
      InputsStay(s, init, a, mtu);
      InputsStep(Run(s, init, a, mtu), y, a, mtu);
    }
  }

  lemma {:induction false} InputsStep(s: Tx, e: Event, a: Addr, mtu: nat)
    requires !e.Submit? && !e.FcArrive?
    ensures Next(s, e, a, mtu).submitted == s.submitted && Next(s, e, a, mtu).accepted == s.accepted
  {
  }

  lemma {:induction false} OneDecision(s: Tx, es: seq<Event>, e: Event, a: Addr, mtu: nat)
    requires OneAtATime(s, es, a, mtu) && Sending(Run(s, es, a, mtu)) == 0
    ensures OneAtATime(s, es + [e], a, mtu)
  {
    RunMore(s, es, e, a, mtu);
    AtMostOne(Run(s, es, a, mtu), e, a, mtu);
    OneAtATimeMore(s, es, e, a, mtu);
  }

  lemma {:induction false} AtMostOne(t: Tx, e: Event, a: Addr, mtu: nat)
    requires Sending(t) == 0
    ensures Sending(Next(t, e, a, mtu)) <= 1
  {
  }

  /** A send that finds the list empty finds no message in flight. */
  lemma {:induction false} SendStaysCalm(ring: nat, es: seq<Event>, m: Msg, check: bool, a: Addr, mtu: nat)
    requires mtu > 0 && Calm(ring, es, a, mtu) && Lossless(es)
    requires check ==> Run(Fresh(ring), es, a, mtu).cl.txList == []
    ensures var es' := es + ([TakeFree] + [Submit(m)]) + if check then [SenderCheck] else [];
            Paced(Fresh(ring), es', a, mtu) && OneAtATime(Fresh(ring), es', a, mtu)
  {
    hide Run, Lossless;
    var ys := [TakeFree] + [Submit(m)];
    var zs := if check then [SenderCheck] else [];
    AloneRun(ring, es, a, mtu);
    OneAtATimeGrows(Fresh(ring), es, ys, a, mtu);
    PacedConcat(Fresh(ring), es, ys, a, mtu);
    PacedConcat(Fresh(ring), es + ys, zs, a, mtu);
    if check {
      OneDecision(Fresh(ring), es + ys, SenderCheck, a, mtu);
    } else {
      assert es + ys + [] == es + ys;
    }
  }

  /** A credit in due time finds no message in flight. */
  lemma {:induction false} CreditStaysCalm(ring: nat, es: seq<Event>, check: bool, a: Addr, mtu: nat)
    requires mtu > 0 && Calm(ring, es, a, mtu) && Lossless(es) && Due(Run(Fresh(ring), es, a, mtu), FcArrive)
    requires check ==> Run(Fresh(ring), es, a, mtu).cl.creds == 0
    ensures var es' := es + [FcArrive] + if check then [FcCheck] else [];
            Paced(Fresh(ring), es', a, mtu) && OneAtATime(Fresh(ring), es', a, mtu)
  {
    hide Run, Due, Feed;
    var ys := es + [FcArrive];
    assert ys[..|es|] == es;
    OneAtATimeGrows(Fresh(ring), es, [FcArrive], a, mtu);
    if check {
      assert forall y :: y in ys ==> y in es || y == FcArrive;
      AloneRun(ring, ys, a, mtu);
      PacedRun(ring, ys, a, mtu);
      CreditArrives(Run(Fresh(ring), es, a, mtu), a, mtu);
      RunMore(Fresh(ring), es, FcArrive, a, mtu);
      OneDecision(Fresh(ring), ys, FcCheck, a, mtu);
      PacedConcat(Fresh(ring), ys, [FcCheck], a, mtu);
    } else {
      assert ys + [] == ys;
    }
  }

  lemma {:induction false} CreditArrives(t: Tx, a: Addr, mtu: nat)
    requires t.cl.creds == 0
    ensures var u := Next(t, FcArrive, a, mtu);
            && u.cl.creds == 1 && Sending(u) == Sending(t) && u.kicks == t.kicks && u.waiting == t.waiting
            && u.parts == t.parts && u.lasts == t.lasts && u.callbacks == t.callbacks
  {
  }

  /** Events that neither decide to send nor give the client anything. */
  predicate Follows(e: Event)
  {
    !Decides(e) && !e.Submit? && !e.FcArrive?
  }

  lemma {:induction false} FollowedBy(ring: nat, es: seq<Event>, es': seq<Event>, a: Addr, mtu: nat)
    requires es <= es' && forall k :: |es| <= k < |es'| ==> Follows(es'[k])
    ensures var (t, u) := (Run(Fresh(ring), es, a, mtu), Run(Fresh(ring), es', a, mtu));
            u.submitted == t.submitted && u.accepted == t.accepted
    ensures Paced(Fresh(ring), es, a, mtu) ==> Paced(Fresh(ring), es', a, mtu)
    ensures OneAtATime(Fresh(ring), es, a, mtu) ==> OneAtATime(Fresh(ring), es', a, mtu)
  {
    hide Run, Paced, OneAtATime;
    var ys := es'[|es|..];
    assert es' == es + ys;
    RunConcat(Fresh(ring), es, ys, a, mtu);
    InputsStay(Run(Fresh(ring), es, a, mtu), ys, a, mtu);
    if Paced(Fresh(ring), es, a, mtu) {
      PacedConcat(Fresh(ring), es, ys, a, mtu);
    }
    if OneAtATime(Fresh(ring), es, a, mtu) {
      OneAtATimeGrows(Fresh(ring), es, ys, a, mtu);
    }
  }
}

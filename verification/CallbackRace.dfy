/** What the linux-5.15 sender does when calls overlap, or the firmware gives credits too soon; and
    which sizes of messages are safe from overlapping calls. */
module CallbackRace {
  import opened Wire
  import opened Lists
  import opened CallbackEngine
  import opened CallbackContent

  // ---------------------------------------------------------------- Two calls

  /** One message, one credit, and two calls about to send: the sender saw the credit, and the
      flow-control message saw the message. */
  function TwoCalls(m: Msg): seq<Event>
  {
    [TakeFree] + [Submit(m)] + [FcArrive] + [SenderCheck] + [FcCheck]
  }

  lemma {:induction false} FiveEvents(s: Tx, e1: Event, e2: Event, e3: Event, e4: Event, e5: Event, a: Addr, mtu: nat)
    ensures Run(s, [e1] + [e2] + [e3] + [e4] + [e5], a, mtu)
         == Next(Next(Next(Next(Next(s, e1, a, mtu), e2, a, mtu), e3, a, mtu), e4, a, mtu), e5, a, mtu)
  {
    hide Next;
    ThreeEvents(s, e1, e2, e3, a, mtu);
    RunMore(s, [e1] + [e2] + [e3], e4, a, mtu);
    RunMore(s, [e1] + [e2] + [e3] + [e4], e5, a, mtu);
  }

  lemma {:induction false} TwoCallsReachable(ring: nat, m: Msg, a: Addr, mtu: nat)
    requires ring > 0
    ensures Run(Fresh(ring), TwoCalls(m), a, mtu)
         == Fresh(ring).(cl := Cl([m], 0, false, 1, ring - 1, false), kicks := 2, accepted := 1, submitted := [m])
  {
    FiveEvents(Fresh(ring), TakeFree, Submit(m), FcArrive, SenderCheck, FcCheck, a, mtu);
  }

  // ---------------------------------------------------------------- Passes

  const KICK_PASS := [ResetOffs] + PartEvents(true)
  const FIRED_PASS := [Fire] + PartEvents(true)
  const LAST_PASS := [Fire] + LastEvents(true) + [ReturnFree]

  /** A pass that began with a reset writes the first fragment, be the message in flight or not. */
  lemma {:induction false} KickPass(t: Tx, a: Addr, mtu: nat)
    requires t.kicks > 0 && Passes(t.cl) && |t.cl.txList[0]| > mtu && t.parts == [] && t.lasts == []
    ensures Run(t, KICK_PASS, a, mtu)
         == t.(kicks := t.kicks - 1, cl := Begun(t.cl).(offs := mtu), callbacks := t.callbacks + 1,
               started := if t.cl.sending then t.started else t.started + [t.cl.txList[0]],
               wire := t.wire + [Frag(a, false, t.cl.txList[0][..mtu])])
  {
    var u := t.(kicks := t.kicks - 1, waiting := t.waiting + 1, cl := t.cl.(offs := 0));
    assert Next(t, ResetOffs, a, mtu) == u;
    hide Next, Run, PartEvents;
    OneFirst(t, ResetOffs, PartEvents(true), a, mtu);
    var m := t.cl.txList[0];
    assert m[0..mtu] == m[..mtu];
    PartPass(u, Frag(a, false, m[..mtu]), true, a, mtu);
  }

  lemma {:induction false} OneFirst(s: Tx, e: Event, es: seq<Event>, a: Addr, mtu: nat)
    ensures Run(s, [e] + es, a, mtu) == Run(Next(s, e, a, mtu), es, a, mtu)
  {
    hide Next;
    ThreeEvents(s, e, e, e, a, mtu);
    RunConcat(s, [e], es, a, mtu);
  }

  lemma {:induction false} FiredPass(t: Tx, a: Addr, mtu: nat)
    requires t.callbacks > 0 && Passes(t.cl) && t.cl.sending && t.parts == [] && t.lasts == []
    requires t.cl.offs + mtu < |t.cl.txList[0]|
    ensures Run(t, FIRED_PASS, a, mtu)
         == t.(cl := t.cl.(offs := t.cl.offs + mtu),
               wire := t.wire + [Frag(a, false, t.cl.txList[0][t.cl.offs..t.cl.offs + mtu])])
  {
    var u := t.(callbacks := t.callbacks - 1, waiting := t.waiting + 1);
    assert Next(t, Fire, a, mtu) == u;
    hide Next, Run, PartEvents;
    OneFirst(t, Fire, PartEvents(true), a, mtu);
    PartPass(u, Frag(a, false, t.cl.txList[0][t.cl.offs..t.cl.offs + mtu]), true, a, mtu);
  }

  lemma {:induction false} FiredLast(t: Tx, a: Addr, mtu: nat)
    requires t.callbacks > 0 && Passes(t.cl) && t.cl.sending && t.parts == [] && t.lasts == []
    requires t.cl.offs <= |t.cl.txList[0]| <= t.cl.offs + mtu
    ensures Run(t, LAST_PASS, a, mtu)
         == t.(cl := Left(t.cl).(freeSize := t.cl.freeSize + 1), callbacks := t.callbacks - 1,
               wire := t.wire + [Frag(a, true, t.cl.txList[0][t.cl.offs..])])
  {
    var u := t.(callbacks := t.callbacks - 1, waiting := t.waiting + 1);
    assert Next(t, Fire, a, mtu) == u;
    hide Run, LastEvents;
    OneFirst(t, Fire, LastEvents(true), a, mtu);
    LastPass(u, Frag(a, true, t.cl.txList[0][t.cl.offs..]), true, a, mtu);
    RunMore(t, [Fire] + LastEvents(true), ReturnFree, a, mtu);
  }

  /** The passes from `offs` to the end of the message, each fired by the one before. */
  function Chain(m: Msg, offs: nat, mtu: nat): (es: seq<Event>)
    requires mtu > 0
    decreases |m| - offs
  {
    if offs + mtu < |m| then FIRED_PASS + Chain(m, offs + mtu, mtu) else LAST_PASS
  }

  /** A chain that is not disturbed writes the rest of the message. */
  lemma {:induction false} ChainRuns(t: Tx, a: Addr, mtu: nat)
    requires mtu > 0 && t.callbacks > 0 && Passes(t.cl) && t.cl.sending && !Beyond(t.cl) && t.parts == [] && t.lasts == []
    ensures var (m, u) := (t.cl.txList[0], Run(t, Chain(t.cl.txList[0], t.cl.offs, mtu), a, mtu));
            u == t.(cl := Left(t.cl).(offs := u.cl.offs, freeSize := t.cl.freeSize + 1), callbacks := t.callbacks - 1,
                    wire := t.wire + Fragments(a, m[t.cl.offs..], mtu))
    decreases |t.cl.txList[0]| - t.cl.offs
  {
    hide Run, Fragments;
    var m, offs := t.cl.txList[0], t.cl.offs;
    CutAt(m, offs, a, mtu);
    if offs + mtu < |m| {
      FiredPass(t, a, mtu);
      var v := Run(t, FIRED_PASS, a, mtu);
      ChainRuns(v, a, mtu);
      RunConcat(t, FIRED_PASS, Chain(m, offs + mtu, mtu), a, mtu);
      var f := Frag(a, false, m[offs..offs + mtu]);
      assert t.wire + [f] + Fragments(a, m[offs + mtu..], mtu) == t.wire + ([f] + Fragments(a, m[offs + mtu..], mtu));
    } else {
      FiredLast(t, a, mtu);
    }
  }

  // ---------------------------------------------------------------- The race

  /** The second call sends while the message is in flight; then both chains go on. */
  function RaceEvents(m: Msg, mtu: nat): seq<Event>
    requires mtu > 0
  {
    TwoCalls(m) + KICK_PASS + KICK_PASS + Chain(m, mtu, mtu)
  }

  lemma {:induction false} ChainGivesNoCredit(m: Msg, offs: nat, mtu: nat)
    requires mtu > 0
    ensures forall e :: e in Chain(m, offs, mtu) ==> !e.FcArrive? && !e.Submit?
    ensures Lossless(Chain(m, offs, mtu))
    decreases |m| - offs
  {
    if offs + mtu < |m| {
      ChainGivesNoCredit(m, offs + mtu, mtu);
    }
  }

  /** The race gives the firmware's one credit in due time, and submits nothing but `m`. */
  lemma {:induction false} RaceIsPaced(ring: nat, m: Msg, a: Addr, mtu: nat)
    requires mtu > 0
    ensures Paced(Fresh(ring), RaceEvents(m, mtu), a, mtu) && Lossless(RaceEvents(m, mtu))
    ensures OfSize(RaceEvents(m, mtu), |m|)
  {
    hide Paced, Chain;
    var first, rest := [TakeFree] + [Submit(m)], [SenderCheck] + [FcCheck] + KICK_PASS + KICK_PASS;
    ChainGivesNoCredit(m, mtu, mtu);
    PacedStart(ring, first, a, mtu);
    PacedConcat(Fresh(ring), first + [FcArrive], rest, a, mtu);
    PacedConcat(Fresh(ring), first + [FcArrive] + rest, Chain(m, mtu, mtu), a, mtu);
    assert first + [FcArrive] + rest == TwoCalls(m) + KICK_PASS + KICK_PASS;
  }

  lemma {:induction false} PacedStart(ring: nat, es: seq<Event>, a: Addr, mtu: nat)
    requires forall e :: e in es ==> !e.FcArrive?
    ensures Run(Fresh(ring), es, a, mtu).accepted == 0
    ensures Paced(Fresh(ring), es, a, mtu) && Paced(Fresh(ring), es + [FcArrive], a, mtu)
  {
    if es != [] {
      assert es[|es| - 1] in es;
      PacedStart(ring, es[..|es| - 1], a, mtu);
      NoCreditYet(Run(Fresh(ring), es[..|es| - 1], a, mtu), es[|es| - 1], a, mtu);
    }
    assert (es + [FcArrive])[..|es|] == es;
  }

  lemma {:induction false} NoCreditYet(s: Tx, e: Event, a: Addr, mtu: nat)
    requires !e.FcArrive?
    ensures Next(s, e, a, mtu).accepted == s.accepted
  {
  }

  /** With one credit, one message of more than one fragment, a connected client and no fragment
      refused, the firmware can join a message that was never submitted: the first fragment, and
      then the whole message. */
  lemma {:induction false} RaceRepeatsFragment(ring: nat, m: Msg, a: Addr, mtu: nat)
    requires 0 < mtu < |m| && ring > 0
    ensures var t := Run(Fresh(ring), RaceEvents(m, mtu), a, mtu);
            && t.submitted == t.started == [m] && t.cl.txList == [] && t.accepted == 1
            && Feed(EMPTY_INBOX, t.wire) == Inbox([m[..mtu] + m], [])
  {
    hide Run, Feed, Fragments, Chain, KICK_PASS;
    RunConcat(Fresh(ring), TwoCalls(m) + KICK_PASS + KICK_PASS, Chain(m, mtu, mtu), a, mtu);
    RunConcat(Fresh(ring), TwoCalls(m) + KICK_PASS, KICK_PASS, a, mtu);
    RunConcat(Fresh(ring), TwoCalls(m), KICK_PASS, a, mtu);
    TwoCallsReachable(ring, m, a, mtu);
    var t0 := Run(Fresh(ring), TwoCalls(m), a, mtu);
    KickPass(t0, a, mtu);
    var t1 := Run(t0, KICK_PASS, a, mtu);
    KickPass(t1, a, mtu);
    var t2 := Run(t1, KICK_PASS, a, mtu);
    ChainRuns(t2, a, mtu);
    RepeatedJoins(m, a, mtu);
  }

  lemma {:induction false} RepeatedJoins(m: Msg, a: Addr, mtu: nat)
    requires 0 < mtu < |m|
    ensures var f := Frag(a, false, m[..mtu]);
            Feed(EMPTY_INBOX, [] + [f] + [f] + Fragments(a, m[mtu..], mtu)) == Inbox([m[..mtu] + m], [])
  {
    hide Fragments, Feed;
    var f := Frag(a, false, m[..mtu]);
    FeedSingle(EMPTY_INBOX, f);
    assert [] + [f] + [f] == [f] + [f];
    FeedConcat(EMPTY_INBOX, [f], [f]);
    FeedSingle(Inbox([], m[..mtu]), f);
    assert [] + m[..mtu] == m[..mtu];
    var b := Inbox([], m[..mtu] + m[..mtu]);
    FeedConcat(EMPTY_INBOX, [f] + [f], Fragments(a, m[mtu..], mtu));
    FeedFragments(b, a, m[mtu..], mtu);
    assert m[..mtu] + m[..mtu] + m[mtu..] == m[..mtu] + m by {
      assert m[..mtu] + m[mtu..] == m;
    }
    assert [] + [m[..mtu] + m] == [m[..mtu] + m];
  }

  // ---------------------------------------------------------------- Which sizes are safe

  predicate OfSize(es: seq<Event>, n: nat)
  {
    forall e :: e in es && e.Submit? ==> |e.m| == n
  }

  predicate HeardRight(t: Tx)
  {
    Feed(EMPTY_INBOX, t.wire).done <= t.submitted
  }

  /** However calls overlap, a client that sends messages of `n` bytes is never heard to send anything
      else. */
  ghost predicate SizeSafe(n: nat, a: Addr, mtu: nat)
  {
    forall ring, es :: Paced(Fresh(ring), es, a, mtu) && Lossless(es) && OfSize(es, n) ==>
                         HeardRight(Run(Fresh(ring), es, a, mtu))
  }

  lemma {:induction false} SmallHeardRight(ring: nat, es: seq<Event>, a: Addr, mtu: nat, n: nat)
    requires mtu > 0 && n <= mtu && Paced(Fresh(ring), es, a, mtu) && Lossless(es) && OfSize(es, n)
    ensures HeardRight(Run(Fresh(ring), es, a, mtu))
  {
    hide Run, Feed, Paced, Lossless;
    DeliveredAsSubmitted(ring, es, a, mtu);
  }

  /** Which sizes of messages are safe from overlapping calls: exactly those of one fragment. */
  lemma {:induction false} SizeSafeExact(n: nat, a: Addr, mtu: nat)
    requires mtu > 0
    ensures SizeSafe(n, a, mtu) <==> n <= mtu
  {
    hide Run, Feed, RaceEvents, OfSize, Paced, Lossless;
    if n <= mtu {
      forall ring, es | Paced(Fresh(ring), es, a, mtu) && Lossless(es) && OfSize(es, n)
        ensures HeardRight(Run(Fresh(ring), es, a, mtu))
      {
        SmallHeardRight(ring, es, a, mtu, n);
      }
    } else {
      var m: Msg := seq(n, _ => 0);
      RaceRepeatsFragment(1, m, a, mtu);
      RaceIsPaced(1, m, a, mtu);
      assert |m[..mtu] + m| != |m|;
      assert [m[..mtu] + m][0] != [m][0];
      assert !HeardRight(Run(Fresh(1), RaceEvents(m, mtu), a, mtu));
    }
  }

  // ---------------------------------------------------------------- Credits too soon

  /** A send up to the point where its one fragment is chosen; the firmware gives its credit on the
      way. */
  function SendEvents(m: Msg): seq<Event>
  {
    [TakeFree] + [Submit(m)] + [FcArrive] + [SenderCheck] + [ResetOffs] + [Enter(true)]
  }

  lemma {:induction false} SendChooses(t: Tx, m: Msg, a: Addr, mtu: nat)
    requires t.cl.freeSize > 0 && t.cl.txList == [] && t.cl.creds == 0 && !t.cl.sending && !t.cl.overread && |m| <= mtu
    ensures Run(t, SendEvents(m), a, mtu)
         == t.(cl := t.cl.(offs := 0, freeSize := t.cl.freeSize - 1), fcChecks := t.fcChecks + 1,
               lasts := t.lasts + [Frag(a, true, m)], accepted := t.accepted + 1,
               submitted := t.submitted + [m], started := t.started + [m])
  {
    var es := [TakeFree] + [Submit(m)] + [FcArrive] + [SenderCheck] + [ResetOffs];
    FiveEvents(t, TakeFree, Submit(m), FcArrive, SenderCheck, ResetOffs, a, mtu);
    var u := t.(cl := Cl([m], 0, false, 1, t.cl.freeSize - 1, false), fcChecks := t.fcChecks + 1,
                waiting := t.waiting + 1, accepted := t.accepted + 1, submitted := t.submitted + [m]);
    assert Run(t, es, a, mtu) == u;
    RunMore(t, es, Enter(true), a, mtu);
    assert m[0..] == m && [m][1..] == [];
  }

  /** A firmware that gives its second credit before it has the first message may join the messages
      in the wrong order, even if both are one fragment: the second call writes before the first. */
  lemma {:induction false} EarlyCreditReorders(ring: nat, m: Msg, n: Msg, a: Addr, mtu: nat)
    requires ring >= 2 && |m| <= mtu && |n| <= mtu
    ensures var es := SendEvents(m) + SendEvents(n) + [WriteLast(1, true)] + [WriteLast(0, true)];
            var t := Run(Fresh(ring), es, a, mtu);
            Lossless(es) && t.submitted == [m, n] && Feed(EMPTY_INBOX, t.wire).done == [n, m]
  {
    hide Run, Feed;
    var es := SendEvents(m) + SendEvents(n);
    RunConcat(Fresh(ring), SendEvents(m), SendEvents(n), a, mtu);
    SendChooses(Fresh(ring), m, a, mtu);
    var t := Run(Fresh(ring), SendEvents(m), a, mtu);
    SendChooses(t, n, a, mtu);
    WrittenBackwards(Run(t, SendEvents(n), a, mtu), es, ring, m, n, a, mtu);
  }

  lemma {:induction false} TwoJoin(f: Frag, g: Frag)
    requires f.complete && g.complete
    ensures Feed(EMPTY_INBOX, [] + [f] + [g]).done == [f.data, g.data]
  {
    hide Feed;
    assert [] + [f] + [g] == [f] + [g];
    FeedSingle(EMPTY_INBOX, f);
    FeedConcat(EMPTY_INBOX, [f], [g]);
    FeedSingle(Inbox([f.data], []), g);
    assert [] + f.data == f.data && [] + g.data == g.data;
    assert [] + [f.data] == [f.data] && [f.data] + [g.data] == [f.data, g.data];
  }

  lemma {:induction false} WrittenBackwards(u: Tx, es: seq<Event>, ring: nat, m: Msg, n: Msg, a: Addr, mtu: nat)
    requires Run(Fresh(ring), es, a, mtu) == u
    requires u.lasts == [Frag(a, true, m), Frag(a, true, n)] && u.wire == [] && u.submitted == [m, n]
    ensures var t := Run(Fresh(ring), es + [WriteLast(1, true)] + [WriteLast(0, true)], a, mtu);
            t.submitted == [m, n] && Feed(EMPTY_INBOX, t.wire).done == [n, m]
  {
    hide Run, Feed;
    RunMore(Fresh(ring), es, WriteLast(1, true), a, mtu);
    RunMore(Fresh(ring), es + [WriteLast(1, true)], WriteLast(0, true), a, mtu);
    assert RemoveAt(u.lasts, 1) == [Frag(a, true, m)];
    TwoJoin(Frag(a, true, n), Frag(a, true, m));
  }
}

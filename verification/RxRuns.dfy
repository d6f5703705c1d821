/** Receiving for one client, on what its callers and the firmware can see to: the sizes of
    messages and buffers, and how calls overlap. From these it follows that every step of a run
    goes as meant, and so every result about orderly runs holds. */
module RxRuns {
  import opened Wire
  import opened Lists
  import opened RxEngine

  // ---------------------------------------------------------------- What is relied on

  /** Every buffer has memory, and takes a message of `cap` bytes. */
  predicate Roomy(rbs: seq<Rb>, cap: nat)
  {
    forall rb :: rb in rbs ==> Size(rb.val) > 0 && Size(rb.val) >= cap
  }

  predicate Within(ms: seq<Msg>, cap: nat)
  {
    forall m :: m in ms ==> |m| <= cap
  }

  predicate NoneRefused(es: seq<Event>)
  {
    forall e :: e in es ==> !e.Refuse?
  }

  /** The calls of ishtp_cl_read_start that have begun and not returned. */
  function UnderWay(s: Rx): nat
  {
    s.starting + |s.popped| + |s.requesting| + |s.undoing|
  }

  /** At no point of the run are two read starts under way. */
  predicate NoOverlap(s: Rx, es: seq<Event>)
  {
    UnderWay(Run(s, es)) <= 1 && (es == [] || NoOverlap(s, es[..|es| - 1]))
  }

  /** No message of the stream, nor what there is of the last, is longer than `cap`. */
  predicate Sized(fs: seq<Frag>, cap: nat)
  {
    fs == [] ||
    (Sized(fs[..|fs| - 1], cap) && |Feed(EMPTY_INBOX, fs[..|fs| - 1]).cur| + |fs[|fs| - 1].data| <= cap)
  }

  /** The buffers of the ring take the messages the firmware sends, however it cuts them; and
      requests are refused only while read starts do not overlap. */
  predicate Supported(s: Rx, es: seq<Event>, pool: set<nat>, cap: nat)
  {
    && Fresh(s, pool) && Roomy(s.free, cap) && Sized(Run(s, es).wire, cap)
    && (NoneRefused(es) || NoOverlap(s, es))
  }

  // ---------------------------------------------------------------- Sizes

  /** A fragment of a message fits what the fragments before it have left. */
  lemma {:induction false} PartFits(b: Inbox, a: Addr, m: Msg, mtu: nat, part: seq<Frag>, f: Frag)
    requires mtu > 0 && part + [f] <= Fragments(a, m, mtu)
    ensures |Feed(b, part).cur| + |f.data| <= |b.cur| + |m|
    decreases |m|
  {
    var fs := Fragments(a, m, mtu);
    assert (part + [f])[|part|] == fs[|part|];
    if part != [] {
      assert |m| > mtu;
      assert part[0] == fs[0] by { assert (part + [f])[0] == fs[0]; }
      var rest := part[1..];
      assert part == [part[0]] + rest;
      assert part + [f] == [part[0]] + (rest + [f]);
      assert fs == [fs[0]] + Fragments(a, m[mtu..], mtu);
      assert rest + [f] == (part + [f])[1..] == fs[..|part| + 1][1..] == fs[1..][..|part|];
      FeedConcat(b, [part[0]], rest);
      assert [part[0]][..0] == [];
      PartFits(Feed(b, [part[0]]), a, m[mtu..], mtu, rest, f);
    }
  }

  /** The next fragment of a stream of messages fits a buffer that takes every message. */
  lemma {:induction false} NextFits(a: Addr, ms: seq<Msg>, mtu: nat, cap: nat, wire: seq<Frag>, f: Frag)
    requires mtu > 0 && Within(ms, cap) && wire + [f] <= FragmentsOfAll(a, ms, mtu)
    ensures |Feed(EMPTY_INBOX, wire).cur| + |f.data| <= cap
  {
    if ms != [] {
      hide Fragments, Feed;
      var init, last := ms[..|ms| - 1], ms[|ms| - 1];
      var head := FragmentsOfAll(a, init, mtu);
      SplitAt(head, Fragments(a, last, mtu), wire, f);
      if |wire| < |head| {
        NextFits(a, init, mtu, cap, wire, f);
      } else {
        var part := wire[|head|..];
        FeedConcat(EMPTY_INBOX, head, part);
        RoundTrip(a, init, mtu);
        PartFits(Inbox(init, []), a, last, mtu, part, f);
        assert last in ms;
      }
    }
  }

  /** A prefix of two parts ends in the first or in the second. */
  lemma {:induction false} SplitAt(head: seq<Frag>, tail: seq<Frag>, wire: seq<Frag>, f: Frag)
    requires wire + [f] <= head + tail
    ensures |wire| < |head| ==> wire + [f] <= head
    ensures |wire| >= |head| ==> wire == head + wire[|head|..] && wire[|head|..] + [f] <= tail
  {
    var all := head + tail;
    if |wire| < |head| {
      assert wire + [f] == all[..|wire| + 1] == head[..|wire| + 1];
    } else {
      assert wire == (wire + [f])[..|wire|] == all[..|wire|];
      assert wire[..|head|] == head;
      assert wire[|head|..] + [f] == (wire + [f])[|head|..] == all[..|wire| + 1][|head|..];
    }
  }

  /** A stream of messages that are short enough, up to any point. */
  lemma {:induction false} SizedStream(a: Addr, ms: seq<Msg>, mtu: nat, cap: nat, fs: seq<Frag>)
    requires mtu > 0 && Within(ms, cap) && fs <= FragmentsOfAll(a, ms, mtu)
    ensures Sized(fs, cap)
  {
    if fs != [] {
      hide FragmentsOfAll, Feed;
      var init := fs[..|fs| - 1];
      SizedStream(a, ms, mtu, cap, init);
      assert init + [fs[|fs| - 1]] == fs;
      NextFits(a, ms, mtu, cap, init, fs[|fs| - 1]);
    }
  }

  lemma {:induction false} SizedPrefix(fs: seq<Frag>, gs: seq<Frag>, cap: nat)
    requires fs <= gs && Sized(gs, cap)
    ensures Sized(fs, cap)
  {
    if |fs| == |gs| {
      assert fs == gs;
    } else {
      SizedPrefix(fs, gs[..|gs| - 1], cap);
    }
  }

  predicate AllRoomy(s: Rx, cap: nat)
  {
    Roomy(s.free, cap) && Roomy(s.posted, cap) && Roomy(s.inProcess, cap) && Roomy(s.held, cap) && Roomy(s.popped, cap)
  }

  lemma {:induction false} RoomyRecv(s: Rx, f: Frag, slack: seq<Byte>, accept: bool, cap: nat)
    requires AllRoomy(s, cap) && |slack| <= 3
    ensures AllRoomy(Receive(s, f, slack, accept), cap)
  {
    if s.posted != [] {
      assert s.posted[0] in s.posted;
    }
  }

  lemma {:induction false} RoomyMove(s: seq<Rb>, i: nat, t: seq<Rb>, rb: Rb, cap: nat)
    requires Roomy(s, cap) && Roomy(t, cap) && i < |s| && |rb.val.mem| == |s[i].val.mem|
    ensures Roomy(RemoveAt(s, i), cap) && Roomy(t + [rb], cap)
  {
    assert s[i] in s;
  }

  lemma {:induction false} RoomyStep(s: Rx, e: Event, cap: nat)
    requires AllRoomy(s, cap) && UndoClean(s, e)
    ensures AllRoomy(Next(s, e), cap)
  {
    hide Roomy;
    if Enabled(s, e) {
      match e
      case Recycle(i) => RoomyMove(s.held, i, s.free, s.held[i], cap);
      case Pop =>
        if s.free != [] {
          assert RemoveAt(s.free, 0) == s.free[1..];
          RoomyMove(s.free, 0, s.popped, s.free[0], cap);
        }
      case Post(i) => RoomyMove(s.popped, i, s.posted, Emptied(s.popped[i]), cap);
      case Undo(i) =>
        UndoTakesPosted(s, i);
        var j := IndexOf(s.posted, s.undoing[i]);
        RoomyMove(s.posted, j, s.free, s.posted[j], cap);
      case Recv(f, slack, accept) => RoomyRecv(s, f, slack, accept, cap);
      case Take =>
        assert RemoveAt(s.inProcess, 0) == s.inProcess[1..];
        RoomyMove(s.inProcess, 0, s.held, s.inProcess[0], cap);
      case _ =>
    }
  }

  // ---------------------------------------------------------------- Calls

  /** While a read start is under way, and no other, no credit is out and its buffer is posted. */
  predicate Quiet(s: Rx)
  {
    && (UnderWay(s) > 0 ==> s.creds == 0)
    && (forall id :: id in s.requesting + s.undoing ==> id in Ids(s.posted))
  }

  lemma {:induction false} QuietRecv(s: Rx, e: Event)
    requires Enabled(s, e) && e.Recv? && Orderly(s, e) && CreditInv(s) && Quiet(s)
    ensures UnderWay(Apply(s, e)) == 0 && Quiet(Apply(s, e))
  {
    assert UnderWay(s) == 0;
  }

  lemma {:induction false} QuietStep(s: Rx, e: Event)
    requires Enabled(s, e) && Orderly(s, e) && CreditInv(s) && Quiet(s)
    requires UnderWay(s) <= 1 && UnderWay(Apply(s, e)) <= 1
    ensures Quiet(Apply(s, e))
  {
    hide Ids, IndexOf, Without, Find, Receive;
    match e
    case Post(i) => IdsPush(s.posted, Emptied(s.popped[i]));
    case Recv(_, _, _) => QuietRecv(s, e);
    case _ =>
  }

  // ---------------------------------------------------------------- Every step goes as meant

  /** No request was refused, or the refused one is the only read start there is. */
  predicate UndoReady(s: Rx)
  {
    s.undoing == [] || (Quiet(s) && UnderWay(s) <= 1)
  }

  lemma {:induction false} FitsBuffer(s: Rx, f: Frag, cap: nat)
    requires ContentInv(s) && AllRoomy(s, cap) && Sized(s.wire + [f], cap)
    ensures Fits(s, f)
  {
    hide Feed;
    assert (s.wire + [f])[..|s.wire|] == s.wire;
    if s.posted != [] {
      assert s.posted[0] in s.posted;
      assert |Partial(s)| == s.posted[0].val.idx;
    }
  }

  lemma {:induction false} StepIsOrderly(s: Rx, e: Event, cap: nat)
    requires ContentInv(s) && CreditInv(s) && AllRoomy(s, cap) && UndoReady(s) && Sized(Next(s, e).wire, cap)
    ensures Orderly(s, e)
  {
    hide Feed, Sized, Ids, AllRoomy, ContentInv;
    if Enabled(s, e) {
      match e
      case Recv(f, slack, accept) => FitsBuffer(s, f, cap);
      case Undo(i) =>
        assert s.undoing[i] in s.requesting + s.undoing;
      case _ =>
    }
  }

  lemma {:induction false} WireGrows(s: Rx, e: Event)
    ensures s.wire <= Next(s, e).wire
  {
  }

  ghost predicate Kept(s: Rx, pool: set<nat>, cap: nat)
  {
    Safe(s, pool) && AllRoomy(s, cap)
  }

  lemma {:induction false} KeptStep(s: Rx, e: Event, pool: set<nat>, cap: nat)
    requires Kept(s, pool, cap) && Orderly(s, e)
    ensures Kept(Next(s, e), pool, cap)
  {
    hide AllRoomy, PlacesInv, CreditInv, ShapeInv, ContentInv;
    SafeStep(s, e, pool);
    if e.Undo? && e.i < |s.undoing| {
      OrderlyUndo(s, e, pool);
    }
    RoomyStep(s, e, cap);
  }

  lemma {:induction false} RefusalStep(s: Rx, e: Event, overlap: bool)
    requires Orderly(s, e) && CreditInv(s)
    requires if overlap then s.undoing == [] && !e.Refuse? else Quiet(s) && UnderWay(s) <= 1 && UnderWay(Next(s, e)) <= 1
    ensures if overlap then Next(s, e).undoing == [] else Quiet(Next(s, e))
  {
    hide Receive;
    if overlap {
      if e.Recv? {
        RecvUndoing(s, e);
      }
    } else if Enabled(s, e) {
      QuietStep(s, e);
    }
  }

  lemma {:induction false} RecvUndoing(s: Rx, e: Event)
    requires e.Recv?
    ensures Next(s, e).undoing == s.undoing
  {
  }

  lemma {:induction false} FollowsFresh(s: Rx, pool: set<nat>, cap: nat)
    requires Fresh(s, pool) && Roomy(s.free, cap)
    ensures Kept(s, pool, cap) && s.undoing == [] && Quiet(s)
  {
    FreshSafe(s, pool);
  }

  /** What holds after every prefix of a supported run, in either of its two forms. */
  ghost predicate Arrived(t: Rx, pool: set<nat>, cap: nat, overlap: bool)
  {
    Kept(t, pool, cap) && if overlap then t.undoing == [] else Quiet(t) && UnderWay(t) <= 1
  }

  lemma {:induction false} ArrivedStep(t: Rx, e: Event, pool: set<nat>, cap: nat, overlap: bool)
    requires Arrived(t, pool, cap, overlap) && Sized(Next(t, e).wire, cap)
    requires if overlap then !e.Refuse? else UnderWay(Next(t, e)) <= 1
    ensures Orderly(t, e) && Arrived(Next(t, e), pool, cap, overlap)
  {
    hide AllRoomy, Quiet, Next, Orderly, Sized, PlacesInv, ShapeInv, ContentInv, CreditInv;
    StepIsOrderly(t, e, cap);
    KeptStep(t, e, pool, cap);
    RefusalStep(t, e, overlap);
  }

  lemma {:induction false} FollowsEither(s: Rx, es: seq<Event>, pool: set<nat>, cap: nat, overlap: bool)
    requires Fresh(s, pool) && Roomy(s.free, cap) && Sized(Run(s, es).wire, cap)
    requires if overlap then NoneRefused(es) else NoOverlap(s, es)
    ensures OrderlyRun(s, es) && Arrived(Run(s, es), pool, cap, overlap)
  {
    if es == [] {
      FollowsFresh(s, pool, cap);
    } else {
      hide Arrived, Sized, Next, Orderly, UnderWay;
      var init, e := es[..|es| - 1], es[|es| - 1];
      WireGrows(Run(s, init), e);
      SizedPrefix(Run(s, init).wire, Run(s, es).wire, cap);
      assert e in es && forall x :: x in init ==> x in es;
      FollowsEither(s, init, pool, cap, overlap);
      ArrivedStep(Run(s, init), e, pool, cap, overlap);
    }
  }

  /** On a supported run every step goes as meant. */
  lemma {:induction false} Follows(s: Rx, es: seq<Event>, pool: set<nat>, cap: nat)
    requires Supported(s, es, pool, cap)
    ensures OrderlyRun(s, es)
  {
    FollowsEither(s, es, pool, cap, NoneRefused(es));
  }

  // ---------------------------------------------------------------- All runs

  /** Receive credit safety and exact delivery, over every run of messages that their buffers can
      take: at most one credit is out, a credit is backed by a posted buffer, every buffer is at
      exactly one place, and the messages completed are exactly those the fragments make up, in
      order, with the buffers still in process holding the last of them and `idx` their sizes. */
  lemma {:induction false} ReceiveSafety(s: Rx, es: seq<Event>, pool: set<nat>, cap: nat)
    requires Supported(s, es, pool, cap)
    ensures var t := Run(s, es);
            && t.creds <= 1 && t.creds <= |t.posted|
            && PlacesInv(t, pool)
            && Feed(EMPTY_INBOX, t.wire) == Inbox(t.delivered, Partial(t))
            && |t.inProcess| <= |t.delivered|
            && (forall k :: 0 <= k < |t.inProcess| ==>
                  && Content(t.inProcess[k].val) == t.delivered[|t.delivered| - |t.inProcess| + k]
                  && t.inProcess[k].val.idx == |t.delivered[|t.delivered| - |t.inProcess| + k]|)
  {
    Follows(s, es, pool, cap);
    OrderlySafety(s, es, pool);
  }

  /** Messages that the firmware cuts as the host does arrive whole and in order. */
  lemma {:induction false} DeliveredAsSent(s: Rx, es: seq<Event>, pool: set<nat>, cap: nat, a: Addr, ms: seq<Msg>, mtu: nat)
    requires Fresh(s, pool) && Roomy(s.free, cap) && (NoneRefused(es) || NoOverlap(s, es))
    requires mtu > 0 && Within(ms, cap) && Run(s, es).wire <= FragmentsOfAll(a, ms, mtu)
    ensures Run(s, es).delivered <= ms
    ensures Run(s, es).wire == FragmentsOfAll(a, ms, mtu) ==> Run(s, es).delivered == ms
  {
    SizedStream(a, ms, mtu, cap, Run(s, es).wire);
    Follows(s, es, pool, cap);
    OrderlySafety(s, es, pool);
    PrefixRoundTrip(a, ms, mtu, Run(s, es).wire);
    RoundTrip(a, ms, mtu);
  }

  // ---------------------------------------------------------------- Messages get through

  /** The firmware sends these fragments one after another. */
  function Recvs(fs: seq<Frag>): (es: seq<Event>)
    ensures forall e :: e in es ==> e.Recv? && e.accept
  {
    if fs == [] then [] else Recvs(fs[..|fs| - 1]) + [Recv(fs[|fs| - 1], [], true)]
  }

  /** With a credit, or in mid-message, a whole message is heard. */
  lemma {:induction false} AllHeard(s: Rx, fs: seq<Frag>)
    requires s.fwBusy || s.fwCredits > 0
    requires forall k :: 0 <= k < |fs| - 1 ==> !fs[k].complete
    ensures Run(s, Recvs(fs)).wire == s.wire + fs
    ensures fs != [] && !fs[|fs| - 1].complete ==> Run(s, Recvs(fs)).fwBusy
  {
    hide Next, Run;
    if fs == [] {
      RunNone(s);
    } else {
      var (init, f) := (fs[..|fs| - 1], fs[|fs| - 1]);
      AllHeard(s, init);
      RunAppend(s, Recvs(init), Recv(f, [], true));
      HeardStep(Run(s, Recvs(init)), Recv(f, [], true));
      assert fs == init + [f];
      if init == [] {
        RunNone(s);
      }
    }
  }

  lemma {:induction false} RunNone(s: Rx)
    ensures Run(s, []) == s
  {
  }

  /** After any run that leaves no call running, every flow-control message accepted and every
      message so far taken and given back, the next message arrives, whatever it is that the
      buffers take: it is the next the client is given, whole. */
  lemma {:induction false} NextMessageArrives(s: Rx, es: seq<Event>, pool: set<nat>, cap: nat,
                                              a: Addr, ms: seq<Msg>, m: Msg, mtu: nat)
    requires mtu > 0 && Fresh(s, pool) && Roomy(s.free, cap) && AllAccepted(es) && Within(ms + [m], cap)
    requires var t := Run(s, es);
             && t.wire == FragmentsOfAll(a, ms, mtu)
             && t.checking == 0 && UnderWay(t) == 0 && t.inProcess == [] && t.held == []
    ensures HeardIn(s, es + Recvs(Fragments(a, m, mtu))) == HeardIn(s, es) + Fragments(a, m, mtu)
    ensures Run(s, es + Recvs(Fragments(a, m, mtu))).delivered == ms + [m]
  {
    hide Run, Fragments, FragmentsOfAll, Feed, Recvs, HeardIn, Sized;
    var (t, fs) := (Run(s, es), Fragments(a, m, mtu));
    var more := es + Recvs(fs);
    assert Within(ms, cap) by {
      assert forall x :: x in ms ==> x in ms + [m];
    }
    SizedStream(a, ms, mtu, cap, t.wire);
    NoReceiveStall(s, es, pool, cap);
    CreditHeld(s, es, pool, cap);
    FragmentsShape(a, m, mtu);
    AllHeard(t, fs);
    RunConcat(s, es, Recvs(fs));
    HeardExact(s, es);
    HeardExact(s, more);
    assert [] + HeardIn(s, es) == HeardIn(s, es) && [] + HeardIn(s, more) == HeardIn(s, more);
    FragmentsOfAllAppend(a, ms, m, mtu);
    DeliveredAsSent(s, more, pool, cap, a, ms + [m], mtu);
  }

  lemma {:induction false} CreditHeld(s: Rx, es: seq<Event>, pool: set<nat>, cap: nat)
    requires Supported(s, es, pool, cap) && Run(s, es).creds == 1
    ensures Run(s, es).fwBusy || Run(s, es).fwCredits > 0
  {
    Follows(s, es, pool, cap);
    SafeRun(s, es, pool);
  }

  /** When no call is running and every flow-control message was accepted, a free buffer means
      that a credit is out; and a credit is out in any case, unless the client still has a
      message that it has not taken or a buffer that it has not given back. Recycles may
      interleave in any way. */
  lemma {:induction false} NoReceiveStall(s: Rx, es: seq<Event>, pool: set<nat>, cap: nat)
    requires Supported(s, es, pool, cap) && AllAccepted(es)
    requires Run(s, es).checking == 0 && UnderWay(Run(s, es)) == 0
    ensures Run(s, es).free != [] ==> Run(s, es).creds == 1
    ensures Run(s, es).inProcess == [] && Run(s, es).held == [] ==> Run(s, es).creds == 1
  {
    Follows(s, es, pool, cap);
    ProgressRun(s, es, pool);
    SafeRun(s, es, pool);
  }
}

/** What goes wrong on the receive path outside the assumptions of RxRuns: messages that overrun
    their buffer, and refused requests of read starts that overlap. */
module RxFaults {
  import opened Wire
  import opened Lists
  import opened RxEngine
  import opened RxRuns

  // ---------------------------------------------------------------- Oversize messages

  /** A credit is out, and the firmware has neither a credit left nor a message under way. */
  predicate Spent(s: Rx)
  {
    s.creds == 1 && s.fwCredits == 0 && !s.fwBusy
  }

  /** A credit is out, no buffer is posted for it, and no read start can post one. */
  predicate Stuck(s: Rx)
  {
    s.creds == 1 && s.fwCredits == 0 && s.posted == [] && s.popped == [] && s.starting == 0
  }

  lemma {:induction false} SpentStep(s: Rx, e: Event)
    requires Spent(s) || Stuck(s)
    ensures Spent(Next(s, e)) || Stuck(Next(s, e))
    ensures Next(s, e).delivered == s.delivered
  {
  }

  /** From either no event ever brings the client another message, whatever the firmware sends
      and however many buffers are recycled. */
  lemma {:induction false} StuckForever(s: Rx, es: seq<Event>)
    requires Spent(s) || Stuck(s)
    ensures Spent(Run(s, es)) || Stuck(Run(s, es))
    ensures Run(s, es).delivered == s.delivered
  {
    if es != [] {
      StuckForever(s, es[..|es| - 1]);
      SpentStep(Run(s, es[..|es| - 1]), es[|es| - 1]);
    }
  }

  /** The state after an overrun. */
  lemma {:induction false} AfterOverrun(s: Rx, f: Frag, slack: seq<Byte>, accept: bool)
    requires Enabled(s, Recv(f, slack, accept)) && CreditInv(s) && Oversize(s, f)
    ensures Apply(s, Recv(f, slack, accept))
         == s.(posted := s.posted[1..], free := s.free + [s.posted[0]], wire := s.wire + [f],
               fwBusy := !f.complete, fwCredits := 0)
    ensures s.creds == 1
  {
  }

  /** A client can still get a message: one is under way, and a buffer is posted for it, or is
      about to be. */
  predicate Hopeful(s: Rx)
  {
    s.fwBusy && (s.posted != [] || s.popped != [] || s.starting > 0)
  }

  const LAST := Frag(Addr(1, 1), true, [])

  /** One fragment, or a post and one, or a pop, a post and one. */
  function HopefulRun(s: Rx): seq<Event>
  {
    if s.posted != [] then [Recv(LAST, [], true)]
    else if s.popped != [] then [Post(0)] + [Recv(LAST, [], true)]
    else [Pop] + [Post(0)] + [Recv(LAST, [], true)]
  }

  lemma {:induction false} OneMore(s: Rx)
    requires s.fwBusy && s.posted != [] && Size(s.posted[0].val) > 0
    ensures Next(s, Recv(LAST, [], true)).delivered == s.delivered + [Content(s.posted[0].val)]
  {
    StoreNothing(s.posted[0]);
  }

  lemma {:induction false} HopefulDelivers(s: Rx)
    requires Hopeful(s) && s.free != [] && AllRoomy(s, 0)
    ensures Run(s, HopefulRun(s)).delivered != s.delivered
  {
    if s.posted != [] {
      RunMore(s, [], s, Recv(LAST, [], true), Next(s, Recv(LAST, [], true)));
      assert [] + [Recv(LAST, [], true)] == [Recv(LAST, [], true)];
      OneMore(s);
    } else if s.popped != [] {
      PostedDelivers(s, []);
      assert [] + [Post(0)] == [Post(0)];
    } else {
      var t := Next(s, Pop);
      RunMore(s, [], s, Pop, t);
      assert [] + [Pop] == [Pop];
      PostedDelivers(s, [Pop]);
    }
  }

  lemma {:induction false} PostedDelivers(s: Rx, es: seq<Event>)
    requires var t := Run(s, es); t.fwBusy && t.popped != [] && t.posted == [] && t.delivered == s.delivered
    requires Size(Run(s, es).popped[0].val) > 0
    ensures Run(s, es + [Post(0)] + [Recv(LAST, [], true)]).delivered != s.delivered
  {
    var t := Run(s, es);
    var u := Next(t, Post(0));
    RunMore(s, es, t, Post(0), u);
    RunMore(s, es + [Post(0)], u, Recv(LAST, [], true), Next(u, Recv(LAST, [], true)));
    OneMore(u);
  }

  /** After an overrun the client never gets another message, whatever happens, if and only if
      the fragment was the last of its message, or no other buffer was posted and no read start
      was on its way to post one. */
  lemma {:induction false} OverrunStopsExactly(s: Rx, f: Frag, slack: seq<Byte>, accept: bool)
    requires Enabled(s, Recv(f, slack, accept)) && CreditInv(s) && Oversize(s, f) && AllRoomy(s, 0)
    ensures (forall es :: Run(Apply(s, Recv(f, slack, accept)), es).delivered == s.delivered)
       <==> f.complete || (|s.posted| == 1 && s.popped == [] && s.starting == 0)
  {
    AfterOverrun(s, f, slack, accept);
    var t := Apply(s, Recv(f, slack, accept));
    if f.complete || (|s.posted| == 1 && s.popped == [] && s.starting == 0) {
      forall es ensures Run(t, es).delivered == s.delivered {
        StuckForever(t, es);
      }
    } else {
      HopefulDelivers(t);
    }
  }

  /** The fragments that end a message: unmarked ones, then a marked one. */
  predicate Ends(fs: seq<Frag>)
  {
    fs != [] && fs[|fs| - 1].complete && forall k :: 0 <= k < |fs| - 1 ==> !fs[k].complete
  }

  lemma {:induction false} PayloadPush(fs: seq<Frag>)
    requires fs != []
    ensures Payload(fs) == Payload(fs[..|fs| - 1]) + fs[|fs| - 1].data
  {
    if |fs| > 1 {
      var (init, last) := (fs[..|fs| - 1], fs[|fs| - 1]);
      PayloadPush(fs[1..]);
      assert fs[1..][..|fs| - 2] == init[1..] && fs[1..][|fs| - 2] == last;
      var rest := Payload(init[1..]);
      assert fs[0].data + (rest + last.data) == fs[0].data + rest + last.data;
    } else {
      assert fs[1..] == [] && fs[..0] == [];
    }
  }

  lemma {:induction false} FilledOne(t: Rx, f: Frag)
    requires t.fwBusy && t.posted != [] && Takes(t.posted[0].val, |f.data|)
    ensures var u := Next(t, Recv(f, [], true));
            && (f.complete ==> u.delivered == t.delivered + [Content(t.posted[0].val) + f.data])
            && (!f.complete ==>
                  && u.fwBusy && u.posted != [] && u.delivered == t.delivered
                  && Size(u.posted[0].val) == Size(t.posted[0].val)
                  && Content(u.posted[0].val) == Content(t.posted[0].val) + f.data)
  {
  }

  /** In `t` the oldest posted buffer is that of `s`, with `more` added, and nothing was delivered. */
  predicate FilledBy(s: Rx, t: Rx, more: Msg)
  {
    && s.posted != [] && t.fwBusy && t.posted != [] && t.delivered == s.delivered
    && Size(t.posted[0].val) == Size(s.posted[0].val)
    && Content(t.posted[0].val) == Content(s.posted[0].val) + more
  }

  lemma {:induction false} FilledMore(s: Rx, t: Rx, more: Msg, f: Frag)
    requires FilledBy(s, t, more) && Takes(s.posted[0].val, |more| + |f.data|) && !f.complete
    ensures FilledBy(s, Next(t, Recv(f, [], true)), more + f.data)
  {
    var idx := t.posted[0].val.idx;
    assert idx == |Content(t.posted[0].val)| == |Content(s.posted[0].val)| + |more|;
    FilledOne(t, f);
  }

  /** The fragments before the last fill the oldest posted buffer. */
  lemma {:induction false} Filled(s: Rx, fs: seq<Frag>)
    requires s.fwBusy && s.posted != [] && Takes(s.posted[0].val, |Payload(fs)|)
    requires forall k :: 0 <= k < |fs| ==> !fs[k].complete
    ensures FilledBy(s, Run(s, Recvs(fs)), Payload(fs))
  {
    if fs != [] {
      hide Next, Payload, FilledBy;
      var init, f := fs[..|fs| - 1], fs[|fs| - 1];
      PayloadPush(fs);
      Filled(s, init);
      FilledMore(s, Run(s, Recvs(init)), Payload(init), f);
      RunAppend(s, Recvs(init), Recv(f, [], true));
    }
  }

  /** If the message goes on and another buffer is posted, the rest of it is delivered, as a
      message of its own. */
  lemma {:induction false} OverrunDeliversRest(s: Rx, f: Frag, slack: seq<Byte>, accept: bool, rest: seq<Frag>)
    requires Enabled(s, Recv(f, slack, accept)) && CreditInv(s) && ShapeInv(s) && Oversize(s, f)
    requires !f.complete && |s.posted| >= 2 && Ends(rest) && Takes(s.posted[1].val, |Payload(rest)|)
    ensures Run(Apply(s, Recv(f, slack, accept)), Recvs(rest)).delivered == s.delivered + [Payload(rest)]
  {
    AfterOverrun(s, f, slack, accept);
    var t := Apply(s, Recv(f, slack, accept));
    var init, last := rest[..|rest| - 1], rest[|rest| - 1];
    PayloadPush(rest);
    assert t.posted[0] == s.posted[1] && Content(s.posted[1].val) == [];
    Filled(t, init);
    FilledOne(Run(t, Recvs(init)), last);
    RunAppend(t, Recvs(init), Recv(last, [], true));
    assert [] + Payload(init) == Payload(init);
  }

  // ---------------------------------------------------------------- Refused requests

  /** The buffer is free again, or still posted and without bytes. */
  predicate Untouched(s: Rx, id: nat)
  {
    || IndexOf(s.free, id) < |s.free|
    || (IndexOf(s.posted, id) < |s.posted| && s.posted[IndexOf(s.posted, id)].val.idx == 0)
  }

  /** A read start whose request was refused takes its buffer back without harm (every buffer
      stays at one place, no completed message leaves the in-process list, and the message under
      way keeps its bytes) if and only if the buffer is still posted and empty, or free. */
  lemma {:induction false} UndoExact(s: Rx, i: nat, pool: set<nat>)
    requires PlacesInv(s, pool) && ShapeInv(s) && i < |s.undoing| && s.undoing[i] in pool
    ensures var t := Apply(s, Undo(i));
            (PlacesInv(t, pool) && t.inProcess == s.inProcess && Partial(t) == Partial(s)
             <==> Untouched(s, s.undoing[i]))
  {
    var id := s.undoing[i];
    assert Places(s, id) == 1;
    UndoPlaces(s, i);
    assert Places(Apply(s, Undo(i)), id) == 1 + Ids(s.held)[id] + Ids(s.popped)[id];
    InIds(s.free, id);
    InIds(s.posted, id);
    InIds(s.inProcess, id);
    UndoPartial(s, i);
  }

  lemma {:induction false} UndoPartial(s: Rx, i: nat)
    requires ShapeInv(s) && i < |s.undoing|
    ensures var (id, t) := (s.undoing[i], Apply(s, Undo(i)));
            var j := IndexOf(s.posted, id);
            (Partial(t) == Partial(s) <==> j == |s.posted| || s.posted[j].val.idx == 0)
  {
  }

  /** When read starts do not overlap, that is always so. */
  lemma {:induction false} UndoHarmless(s: Rx, es: seq<Event>, pool: set<nat>, cap: nat, i: nat)
    requires Supported(s, es, pool, cap) && NoOverlap(s, es) && i < |Run(s, es).undoing|
    ensures Untouched(Run(s, es), Run(s, es).undoing[i])
  {
    hide Sized, Run, OrderlyRun, NoneRefused, AllRoomy, PlacesInv, CreditInv, ShapeInv, ContentInv, Untouched, Quiet;
    FollowsEither(s, es, pool, cap, false);
    QuietUntouched(Run(s, es), i);
  }

  lemma {:induction false} QuietUntouched(t: Rx, i: nat)
    requires CreditInv(t) && ShapeInv(t) && Quiet(t) && i < |t.undoing|
    ensures Untouched(t, t.undoing[i])
  {
    assert t.undoing[i] in t.requesting + t.undoing;
    InIds(t.posted, t.undoing[i]);
  }

  lemma {:induction false} UndoPlaces(s: Rx, i: nat)
    requires i < |s.undoing| && Places(s, s.undoing[i]) == 1
    ensures forall x :: Places(Apply(s, Undo(i)), x)
                     == if x == s.undoing[i] then 1 + Ids(s.held)[x] + Ids(s.popped)[x] else Places(s, x)
  {
    forall x
      ensures Places(Apply(s, Undo(i)), x)
           == if x == s.undoing[i] then 1 + Ids(s.held)[x] + Ids(s.popped)[x] else Places(s, x)
    {
      UndoPlacesOf(s, i, x);
    }
  }

  lemma {:induction false} FoundId(s: seq<Rb>, id: nat)
    ensures Find(s, id).id == id
  {
  }

  lemma {:induction false} UndoPlacesOf(s: Rx, i: nat, x: nat)
    requires i < |s.undoing| && Places(s, s.undoing[i]) == 1
    ensures Places(Apply(s, Undo(i)), x)
         == if x == s.undoing[i] then 1 + Ids(s.held)[x] + Ids(s.popped)[x] else Places(s, x)
  {
    hide IndexOf, Ids, Without, Find;
    var id, t := s.undoing[i], Apply(s, Undo(i));
    var rb := Find(s.posted + s.inProcess + s.held + s.popped + s.free, id);
    FoundId(s.posted + s.inProcess + s.held + s.popped + s.free, id);
    var free := Without(s.free, id);
    IdsPush(free, rb);
    assert Ids(t.free)[x] == Ids(free)[x] + if x == id then 1 else 0;
    assert Ids(s.free)[id] <= 1 && Ids(s.posted)[id] <= 1 && Ids(s.inProcess)[id] <= 1;
    WithoutIds(s.free, id, x);
    WithoutIds(s.posted, id, x);
    WithoutIds(s.inProcess, id, x);
  }

  lemma {:induction false} WithoutIds(s: seq<Rb>, id: nat, x: nat)
    requires Ids(s)[id] <= 1
    ensures Ids(Without(s, id))[x] == if x == id then 0 else Ids(s)[x]
  {
    InIds(s, id);
    if IndexOf(s, id) < |s| {
      IdsRemoveAt(s, IndexOf(s, id));
    }
  }

  const A := Node(0, Buf([0, 0, 0, 0], 0))
  const B := Node(1, Buf([0, 0, 0, 0], 0))
  const DONE := Frag(Addr(1, 1), true, [])

  lemma {:induction false} RunMore(s: Rx, es: seq<Event>, t: Rx, e: Event, u: Rx)
    requires Run(s, es) == t && Next(t, e) == u
    ensures Run(s, es + [e]) == u
  {
  }

  /** Two recycles race and one request is refused. If its buffer is taken back before the client
      takes the message in it, the message is lost. */
  lemma {:induction false} RefusedRequestLosesMessage(s: Rx)
    requires s.posted == [A, B] && s.requesting == [0, 1] && s.creds == 0 && s.undoing == []
    requires s.free == s.inProcess == s.held == s.popped == [] && s.fwCredits == 0 && !s.fwBusy
    ensures var t := Run(s, [] + [Refuse(0)] + [Request(0)] + [Recv(DONE, [], true)] + [Undo(0)]);
            t.delivered == s.delivered + [[]] && t.inProcess == [] && t.held == [] && t.free == [A]
  {
    RefusedFirstHalf(s);
    var es3 := [] + [Refuse(0)] + [Request(0)] + [Recv(DONE, [], true)];
    var s3 := Run(s, es3);
    assert [B] + [A] + [] + [] + [] == [B, A] && IndexOf([A], 0) == 0 && RemoveAt([A], 0) == [];
    assert [B, A][1..] == [A] && IndexOf([B], 0) == 1 && IndexOf([B, A], 0) == 1;
    RunMore(s, es3, s3, Undo(0), s3.(undoing := [], inProcess := [], free := [A]));
  }

  /** If the client takes it first, the buffer ends both on the free list and with the client. */
  lemma {:induction false} RefusedRequestDuplicatesBuffer(s: Rx)
    requires s.posted == [A, B] && s.requesting == [0, 1] && s.creds == 0 && s.undoing == []
    requires s.free == s.inProcess == s.held == s.popped == [] && s.fwCredits == 0 && !s.fwBusy
    ensures var t := Run(s, [] + [Refuse(0)] + [Request(0)] + [Recv(DONE, [], true)] + [Take] + [Undo(0)]);
            t.free == [A] && t.held == [A]
  {
    RefusedFirstHalf(s);
    var es3 := [] + [Refuse(0)] + [Request(0)] + [Recv(DONE, [], true)];
    var s3 := Run(s, es3);
    var s4 := s3.(inProcess := [], held := [A]);
    RunMore(s, es3, s3, Take, s4);
    assert [B] + [] + [A] + [] + [] == [B, A] && [B, A][1..] == [A];
    assert IndexOf([B], 0) == 1;
    assert IndexOf([B, A], 0) == 1;
    RunMore(s, es3 + [Take], s4, Undo(0), s4.(undoing := [], free := [A]));
  }

  lemma {:induction false} RefusedFirstHalf(s: Rx)
    requires s.posted == [A, B] && s.requesting == [0, 1] && s.creds == 0 && s.undoing == []
    requires s.free == s.inProcess == s.held == s.popped == [] && s.fwCredits == 0 && !s.fwBusy
    ensures Run(s, [] + [Refuse(0)] + [Request(0)] + [Recv(DONE, [], true)])
         == s.(requesting := [], undoing := [0], posted := [B], inProcess := [A],
               wire := s.wire + [DONE], delivered := s.delivered + [[]])
  {
    var s1 := s.(requesting := [1], undoing := [0]);
    RunMore(s, [], s, Refuse(0), s1);
    var s2 := s1.(requesting := [], creds := 1, fwCredits := 1);
    RunMore(s, [] + [Refuse(0)], s1, Request(0), s2);
    var s3 := s2.(posted := [B], inProcess := [A], delivered := s.delivered + [[]], creds := 0, fwCredits := 0,
                  wire := s.wire + [DONE]);
    RunMore(s, [] + [Refuse(0)] + [Request(0)], s2, Recv(DONE, [], true), s3);
  }

  /** That race can be reached from a ring of two buffers. */
  lemma {:induction false} RaceIsReachable()
    ensures var s := Rx([A, B], [], [], [], [], 0, 0, 1, [], [], 0, false, [], []);
            var es := [] + [Pop] + [Post(0)] + [Request(0)] + [Recv(DONE, [], true)] + [Recv(DONE, [], true)] + [Take] + [Take]
                      + [Recycle(0)] + [Recycle(0)] + [Check] + [Check] + [Pop] + [Pop] + [Post(0)] + [Post(0)];
            && Fresh(s, {0, 1})
            && Run(s, es) == Rx([], [A, B], [], [], [], 0, 0, 0, [0, 1], [], 0, false, [DONE, DONE], [[], []])
  {
    var s := Rx([A, B], [], [], [], [], 0, 0, 1, [], [], 0, false, [], []);
    IdsPush([A], B);
    IdsPush([], A);
    assert [A] + [B] == [A, B] && [] + [A] == [A];
    RaceFirstHalf(s);
    var es7 := [] + [Pop] + [Post(0)] + [Request(0)] + [Recv(DONE, [], true)] + [Recv(DONE, [], true)] + [Take] + [Take];
    RaceSecondHalf(s, es7);
  }

  lemma {:induction false} RaceFirstHalf(s: Rx)
    requires s == Rx([A, B], [], [], [], [], 0, 0, 1, [], [], 0, false, [], [])
    ensures Run(s, [] + [Pop] + [Post(0)] + [Request(0)] + [Recv(DONE, [], true)] + [Recv(DONE, [], true)] + [Take] + [Take])
         == Rx([], [], [], [A, B], [], 0, 0, 0, [], [], 0, false, [DONE, DONE], [[], []])
  {
    var t1 := s.(free := [B], starting := 0, popped := [A]);
    RunMore(s, [], s, Pop, t1);
    var t2 := t1.(popped := [], posted := [A], requesting := [0]);
    RunMore(s, [] + [Pop], t1, Post(0), t2);
    var t3 := t2.(requesting := [], creds := 1, fwCredits := 1);
    RunMore(s, [] + [Pop] + [Post(0)], t2, Request(0), t3);
    RaceDeliveries(s, [] + [Pop] + [Post(0)] + [Request(0)]);
  }

  lemma {:induction false} RaceDeliveries(s: Rx, es: seq<Event>)
    requires Run(s, es) == Rx([B], [A], [], [], [], 1, 0, 0, [], [], 1, false, [], [])
    ensures Run(s, es + [Recv(DONE, [], true)] + [Recv(DONE, [], true)] + [Take] + [Take])
         == Rx([], [], [], [A, B], [], 0, 0, 0, [], [], 0, false, [DONE, DONE], [[], []])
  {
    StoreNothing(A);
    StoreNothing(B);
    var t3 := Run(s, es);
    var t4 := t3.(posted := [B], free := [], inProcess := [A], wire := [DONE], delivered := [[]]);
    RunMore(s, es, t3, Recv(DONE, [], true), t4);
    var t5 := t4.(posted := [], inProcess := [A, B], wire := [DONE, DONE], delivered := [[], []], creds := 0, fwCredits := 0);
    RunMore(s, es + [Recv(DONE, [], true)], t4, Recv(DONE, [], true), t5);
    RaceTakes(s, es + [Recv(DONE, [], true)] + [Recv(DONE, [], true)], t5);
  }

  lemma {:induction false} StoreNothing(rb: Rb)
    ensures Node(rb.id, Store(rb.val, [], [])) == rb
  {
    assert Store(rb.val, [], []).mem == rb.val.mem;
  }

  lemma {:induction false} RaceTakes(s: Rx, es: seq<Event>, t5: Rx)
    requires Run(s, es) == t5
    requires t5.inProcess == [A, B] && t5.held == []
    ensures Run(s, es + [Take] + [Take]) == t5.(inProcess := [], held := [A, B])
  {
  }

  lemma {:induction false} RaceSecondHalf(s: Rx, es: seq<Event>)
    requires Run(s, es) == Rx([], [], [], [A, B], [], 0, 0, 0, [], [], 0, false, [DONE, DONE], [[], []])
    ensures Run(s, es + [Recycle(0)] + [Recycle(0)] + [Check] + [Check] + [Pop] + [Pop] + [Post(0)] + [Post(0)])
         == Rx([], [A, B], [], [], [], 0, 0, 0, [0, 1], [], 0, false, [DONE, DONE], [[], []])
  {
    var t0 := Run(s, es);
    var t1 := t0.(held := [B], free := [A], checking := 1);
    RunMore(s, es, t0, Recycle(0), t1);
    var t2 := t1.(held := [], free := [A, B], checking := 2);
    RunMore(s, es + [Recycle(0)], t1, Recycle(0), t2);
    var t3 := t2.(checking := 1, starting := 1);
    RunMore(s, es + [Recycle(0)] + [Recycle(0)], t2, Check, t3);
    var t4 := t3.(checking := 0, starting := 2);
    RunMore(s, es + [Recycle(0)] + [Recycle(0)] + [Check], t3, Check, t4);
    var t5 := t4.(starting := 1, free := [B], popped := [A]);
    RunMore(s, es + [Recycle(0)] + [Recycle(0)] + [Check] + [Check], t4, Pop, t5);
    var t6 := t5.(starting := 0, free := [], popped := [A, B]);
    RunMore(s, es + [Recycle(0)] + [Recycle(0)] + [Check] + [Check] + [Pop], t5, Pop, t6);
    var t7 := t6.(popped := [B], posted := [A], requesting := [0]);
    RunMore(s, es + [Recycle(0)] + [Recycle(0)] + [Check] + [Check] + [Pop] + [Pop], t6, Post(0), t7);
    var t8 := t7.(popped := [], posted := [A, B], requesting := [0, 1]);
    RunMore(s, es + [Recycle(0)] + [Recycle(0)] + [Check] + [Check] + [Pop] + [Pop] + [Post(0)], t7, Post(0), t8);
  }
}

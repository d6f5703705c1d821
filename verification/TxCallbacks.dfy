/** Client transmission in the 5.15 driver as it runs: one fragment per call of ipc_tx_callback, each
    call triggered by the IPC queue when the fragment before has left for the hardware. The queue
    drain, the callback and the enqueue call each other. Every client is proved to do what
    CallbackEngine says, and so all results about its runs hold. */
module TxCallbacks {
  import opened Wire
  import opened CallbackEngine
  import opened CallbackContent
  import TxContent
  import TxEngine

  datatype Status = Queued | NotConnected | NoDevice | NoFwClient | TooLong | NoBuffer

  datatype Callback = NoCallback | TxCallback(client: nat)

  /** `struct wr_msg_ctl_info`: a fragment and the callback for when it has left. */
  datatype QNode = QNode(frag: Frag, cb: Callback)

  /** What happened to a client, in the events of its engine. */
  type Trace = seq<Event>

  /** The clients' addresses, the mtu and the size of each transmit ring. */
  datatype Env = Env(addrs: seq<Addr>, mtu: nat, ring: nat)

  function Callbacks(q: seq<QNode>, c: nat): nat
  {
    if q == [] then 0 else Callbacks(q[..|q| - 1], c) + if q[|q| - 1].cb == TxCallback(c) then 1 else 0
  }

  lemma {:induction false} CallbacksPush(q: seq<QNode>, n: QNode, c: nat)
    ensures Callbacks(q + [n], c) == Callbacks(q, c) + if n.cb == TxCallback(c) then 1 else 0
  {
    assert (q + [n])[..|q|] == q;
  }

  lemma {:induction false} CallbacksPop(q: seq<QNode>, c: nat)
    requires q != []
    ensures Callbacks(q, c) == Callbacks(q[1..], c) + if q[0].cb == TxCallback(c) then 1 else 0
  {
    if |q| > 1 {
      assert q[1..][..|q| - 2] == q[..|q| - 1][1..];
      CallbacksPop(q[..|q| - 1], c);
    } else {
      assert q[..0] == [] && q[1..] == [];
    }
  }

  // ---------------------------------------------------------------- Measures

  function Credits(cls: seq<Cl>): nat
  {
    if cls == [] then 0 else Credits(cls[..|cls| - 1]) + cls[|cls| - 1].creds
  }

  /** Unsent bytes of the message in flight, and one for its being in flight. */
  function Remaining(cl: Cl): nat
  {
    if cl.sending && cl.txList != [] && !Beyond(cl) then 1 + |cl.txList[0]| - cl.offs else 0
  }

  function Unsent(cls: seq<Cl>): nat
  {
    if cls == [] then 0 else Unsent(cls[..|cls| - 1]) + Remaining(cls[|cls| - 1])
  }

  lemma {:induction false} MeasuresUpdate(cls: seq<Cl>, c: nat, cl: Cl)
    requires c < |cls|
    ensures Credits(cls[c := cl]) == Credits(cls) - cls[c].creds + cl.creds
    ensures Unsent(cls[c := cl]) == Unsent(cls) - Remaining(cls[c]) + Remaining(cl)
  {
    var n := |cls| - 1;
    if c == n {
      assert cls[c := cl][..n] == cls[..n];
    } else {
      assert cls[c := cl][..n] == cls[..n][c := cl];
      MeasuresUpdate(cls[..n], c, cl);
    }
  }

  /** A client after a pass up to its write. */
  function Advanced(cl: Cl, mtu: nat): Cl
    requires cl.txList != [] && !Beyond(cl)
  {
    if |cl.txList[0]| - cl.offs <= mtu then Left(cl) else cl.(offs := cl.offs + mtu)
  }

  /** A pass makes the credits fewer, or failing that the unsent bytes. */
  lemma {:induction false} PassLowers(cls: seq<Cl>, c: nat, mtu: nat)
    requires mtu > 0 && c < |cls| && Passes(cls[c]) && !Beyond(cls[c])
    ensures var cls' := cls[c := Advanced(Begun(cls[c]), mtu)];
            Credits(cls') <= Credits(cls) && (Credits(cls') == Credits(cls) ==> Unsent(cls') < Unsent(cls))
  {
    MeasuresUpdate(cls, c, Advanced(Begun(cls[c]), mtu));
  }

  /** The order in which the device's methods terminate, not strictly: credits, unsent bytes, nodes. */
  predicate NotAbove(cls': seq<Cl>, nodes': nat, cls: seq<Cl>, nodes: nat)
  {
    || Credits(cls') < Credits(cls)
    || (Credits(cls') == Credits(cls) && (Unsent(cls') < Unsent(cls) || (Unsent(cls') == Unsent(cls) && nodes' <= nodes)))
  }

  // ---------------------------------------------------------------- What has left

  function Frags(q: seq<QNode>): (fs: seq<Frag>)
    ensures |fs| == |q|
  {
    seq(|q|, i requires 0 <= i < |q| => q[i].frag)
  }

  /** What was accepted has left, in order, or waits. */
  predicate Out(log: seq<Frag>, sent: seq<Frag>, q: seq<QNode>)
  {
    log == sent + Frags(q)
  }

  lemma {:induction false} OutMore(log: seq<Frag>, sent: seq<Frag>, q: seq<QNode>, n: QNode)
    requires Out(log, sent, q)
    ensures Out(log + [n.frag], sent, q + [n])
  {
    assert Frags(q + [n]) == Frags(q) + [n.frag];
    assert sent + (Frags(q) + [n.frag]) == sent + Frags(q) + [n.frag];
  }

  lemma {:induction false} OutFirst(log: seq<Frag>, sent: seq<Frag>, q: seq<QNode>)
    requires Out(log, sent, q) && q != []
    ensures Out(log, sent + [q[0].frag], q[1..])
  {
    assert Frags(q) == [q[0].frag] + Frags(q[1..]);
    assert sent + ([q[0].frag] + Frags(q[1..])) == sent + [q[0].frag] + Frags(q[1..]);
  }

  predicate AllLossless(es: seq<Trace>)
  {
    forall c :: 0 <= c < |es| ==> Lossless(es[c])
  }

  lemma {:induction false} LosslessMore(es: seq<Trace>, c: nat, xs: Trace)
    requires c < |es| && AllLossless(es) && Lossless(xs)
    ensures AllLossless(es[c := es[c] + xs])
  {
  }

  lemma {:induction false} LosslessEvent(e: Event)
    ensures Lossless([e]) <==> match e
                               case Enter(up) => up
                               case WritePart(_, accept) => accept
                               case WriteLast(_, accept) => accept
                               case _ => true
  {
    assert e in [e];
  }

  // ---------------------------------------------------------------- Following the engine

  function At(es: seq<Trace>, c: nat, env: Env): Tx
    requires c < |es| == |env.addrs|
  {
    Run(Fresh(env.ring), es[c], env.addrs[c], env.mtu)
  }

  /** The driver's state is that of the engine, with no fragment chosen and not written. */
  predicate Stands(t: Tx, cl: Cl, wire: seq<Frag>, callbacks: nat)
  {
    t.cl == cl && t.wire == wire && t.callbacks == callbacks && t.parts == [] && t.lasts == []
  }

  predicate Distinct(addrs: seq<Addr>)
  {
    forall i, j :: 0 <= i < j < |addrs| ==> addrs[i] != addrs[j]
  }

  predicate Owned(q: seq<QNode>, clients: nat)
  {
    forall n :: n in q && n.cb.TxCallback? ==> n.cb.client < clients
  }

  predicate AllStand(cls: seq<Cl>, es: seq<Trace>, log: seq<Frag>, q: seq<QNode>, env: Env)
  {
    && env.mtu > 0 && |cls| == |es| == |env.addrs| && Distinct(env.addrs) && Owned(q, |cls|)
    && forall c :: 0 <= c < |cls| ==> Stands(At(es, c, env), cls[c], Project(log, env.addrs[c]), Callbacks(q, c))
  }

  /** Client `c` goes through `xs`; for the others nothing changes. */
  lemma {:induction false} Moves(cls: seq<Cl>, es: seq<Trace>, log: seq<Frag>, q: seq<QNode>, c: nat,
                                 xs: Trace, cl: Cl, log': seq<Frag>, q': seq<QNode>, env: Env)
    requires AllStand(cls, es, log, q, env) && c < |cls| && Owned(q', |cls|)
    requires Stands(Run(At(es, c, env), xs, env.addrs[c], env.mtu), cl, Project(log', env.addrs[c]), Callbacks(q', c))
    requires forall d :: 0 <= d < |cls| && d != c ==>
               Project(log', env.addrs[d]) == Project(log, env.addrs[d]) && Callbacks(q', d) == Callbacks(q, d)
    ensures AllStand(cls[c := cl], es[c := es[c] + xs], log', q', env)
  {
    hide Run, Project, Callbacks;
    AtMore(es, c, xs, env);
    var es' := es[c := es[c] + xs];
    forall d | 0 <= d < |cls| && d != c ensures At(es', d, env) == At(es, d, env) {
      assert es'[d] == es[d];
    }
  }

  lemma {:induction false} AtMore(es: seq<Trace>, c: nat, xs: Trace, env: Env)
    requires c < |es| == |env.addrs|
    ensures At(es[c := es[c] + xs], c, env) == Run(At(es, c, env), xs, env.addrs[c], env.mtu)
  {
    RunConcat(Fresh(env.ring), es[c], xs, env.addrs[c], env.mtu);
  }

  /** Client `c` goes through `xs` without the IPC queue. */
  lemma {:induction false} MovesAlone(cls: seq<Cl>, es: seq<Trace>, log: seq<Frag>, q: seq<QNode>, c: nat,
                                      xs: Trace, cl: Cl, env: Env)
    requires AllStand(cls, es, log, q, env) && c < |cls|
    requires Stands(Run(At(es, c, env), xs, env.addrs[c], env.mtu), cl, Project(log, env.addrs[c]), Callbacks(q, c))
    ensures AllStand(cls[c := cl], es[c := es[c] + xs], log, q, env)
  {
    hide Run, Project, Callbacks, At, Stands;
    assert Owned(q, |cls|);
    Moves(cls, es, log, q, c, xs, cl, log, q, env);
  }

  /** Client `c` goes through `xs`, and its fragment into the IPC queue. */
  lemma {:induction false} MovesInto(cls: seq<Cl>, es: seq<Trace>, log: seq<Frag>, q: seq<QNode>, c: nat,
                                     xs: Trace, cl: Cl, n: QNode, env: Env)
    requires AllStand(cls, es, log, q, env) && c < |cls|
    requires n.frag.addr == env.addrs[c] && (n.cb.TxCallback? ==> n.cb.client == c)
    requires Stands(Run(At(es, c, env), xs, env.addrs[c], env.mtu), cl,
                    Project(log, env.addrs[c]) + [n.frag], Callbacks(q, c) + if n.cb.TxCallback? then 1 else 0)
    ensures AllStand(cls[c := cl], es[c := es[c] + xs], log + [n.frag], q + [n], env)
  {
    hide Run, At, Stands, Callbacks;
    assert (log + [n.frag])[..|log|] == log;
    forall d ensures Callbacks(q + [n], d) == Callbacks(q, d) + if n.cb == TxCallback(d) then 1 else 0 {
      CallbacksPush(q, n, d);
    }
    Moves(cls, es, log, q, c, xs, cl, log + [n.frag], q + [n], env);
  }

  // ---------------------------------------------------------------- What nested calls change

  /** Events of calls and callbacks that have begun to send. */
  predicate Continues(e: Event)
  {
    e.Fire? || e.Enter? || e.MoveOffs? || e.WritePart? || e.WriteLast? || e.ReturnFree?
  }

  predicate Continued(es: Trace, es': Trace)
  {
    es <= es' && forall k :: |es| <= k < |es'| ==> Continues(es'[k])
  }

  /** The calls under way that have not chosen a fragment, or have written it. */
  datatype Calls = Calls(taken: int, returning: int, senderChecks: int, fcChecks: int, kicks: int, waiting: int)

  function CallsOf(t: Tx): Calls
  {
    Calls(t.taken, t.returning, t.senderChecks, t.fcChecks, t.kicks, t.waiting)
  }

  /** Calls and callbacks have come and gone; those under way before still are. */
  predicate Went(es: seq<Trace>, es': seq<Trace>, env: Env)
  {
    && |es| == |es'| == |env.addrs|
    && forall c :: 0 <= c < |es| ==>
         Continued(es[c], es'[c]) && CallsOf(At(es', c, env)) == CallsOf(At(es, c, env))
  }

  /** That, but client `c` went through `xs` before, with `calls` under way then. */
  predicate WentOn(es: seq<Trace>, es': seq<Trace>, c: nat, xs: Trace, calls: Calls, env: Env)
  {
    && c < |es| == |es'| == |env.addrs|
    && Continued(es[c] + xs, es'[c]) && CallsOf(At(es', c, env)) == calls
    && forall d :: 0 <= d < |es| && d != c ==>
         Continued(es[d], es'[d]) && CallsOf(At(es', d, env)) == CallsOf(At(es, d, env))
  }

  lemma {:induction false} WentNowhere(es: seq<Trace>, env: Env)
    requires |es| == |env.addrs|
    ensures Went(es, es, env)
  {
    hide At;
  }

  lemma {:induction false} ContinuedTwice(es: Trace, es': Trace, es'': Trace)
    requires Continued(es, es') && Continued(es', es'')
    ensures Continued(es, es'')
  {
    assert forall k :: |es| <= k < |es'| ==> es''[k] == es'[k];
  }

  /** First client `c` goes through `xs`, then things go on. */
  lemma {:induction false} WentAfter(es: seq<Trace>, c: nat, xs: Trace, es': seq<Trace>, env: Env)
    requires c < |es| == |env.addrs| && Went(es[c := es[c] + xs], es', env)
    ensures WentOn(es, es', c, xs, CallsOf(At(es[c := es[c] + xs], c, env)), env)
  {
    hide At, Continued;
    var mid := es[c := es[c] + xs];
    forall d | 0 <= d < |es| && d != c
      ensures Continued(es[d], es'[d]) && CallsOf(At(es', d, env)) == CallsOf(At(es, d, env))
    {
      assert mid[d] == es[d];
      SameTrace(mid, es, d, env);
    }
  }

  lemma {:induction false} SameTrace(es: seq<Trace>, es': seq<Trace>, c: nat, env: Env)
    requires c < |es| == |es'| == |env.addrs| && es[c] == es'[c]
    ensures At(es, c, env) == At(es', c, env)
  {
  }

  /** Things go on, and then client `c` once more. */
  lemma {:induction false} WentThen(es: seq<Trace>, es': seq<Trace>, c: nat, xs: Trace, calls: Calls,
                                    ys: Trace, calls': Calls, env: Env)
    requires WentOn(es, es', c, xs, calls, env) && forall y :: y in ys ==> Continues(y)
    requires CallsOf(Run(At(es', c, env), ys, env.addrs[c], env.mtu)) == calls'
    ensures WentOn(es, es'[c := es'[c] + ys], c, xs, calls', env)
  {
    hide Run;
    var es'' := es'[c := es'[c] + ys];
    AtMore(es', c, ys, env);
    assert Continued(es'[c], es''[c]);
    ContinuedTwice(es[c] + xs, es'[c], es''[c]);
    forall d | 0 <= d < |es| && d != c ensures At(es'', d, env) == At(es', d, env) {
      SameTrace(es'', es', d, env);
    }
  }

  /** What client `c` went through before belongs to calls that had begun to send, too. */
  lemma {:induction false} WentShort(es: seq<Trace>, es': seq<Trace>, c: nat, xs: Trace, calls: Calls, env: Env)
    requires WentOn(es, es', c, xs, calls, env) && forall x :: x in xs ==> Continues(x)
    ensures WentOn(es, es', c, [], calls, env)
  {
    hide At;
    assert Continued(es[c], es[c] + xs) && es[c] + [] == es[c];
    ContinuedTwice(es[c], es[c] + xs, es'[c]);
  }

  /** Client `c` goes through `xs`, and a call for it begins and goes on. */
  lemma {:induction false} WentBefore(es: seq<Trace>, c: nat, xs: Trace, es': seq<Trace>, calls: Calls, env: Env)
    requires c < |es| == |env.addrs| && WentOn(es[c := es[c] + xs], es', c, [], calls, env)
    ensures WentOn(es, es', c, xs, calls, env)
  {
    hide At, Continued;
    var mid := es[c := es[c] + xs];
    assert mid[c] + [] == es[c] + xs;
    forall d | 0 <= d < |es| && d != c
      ensures Continued(es[d], es'[d]) && CallsOf(At(es', d, env)) == CallsOf(At(es, d, env))
    {
      assert mid[d] == es[d];
      SameTrace(mid, es, d, env);
    }
  }

  lemma {:induction false} WentBack(es: seq<Trace>, es': seq<Trace>, c: nat, env: Env)
    requires c < |es| == |env.addrs| && WentOn(es, es', c, [], CallsOf(At(es, c, env)), env)
    ensures Went(es, es', env)
  {
    hide At;
    assert es[c] + [] == es[c];
  }

  // ---------------------------------------------------------------- The pieces of a pass

  /** Nothing under the lock but the credit check. */
  lemma {:induction false} Idles(cls: seq<Cl>, es: seq<Trace>, log: seq<Frag>, q: seq<QNode>, c: nat, up: bool, env: Env)
    requires AllStand(cls, es, log, q, env) && c < |cls| && At(es, c, env).waiting > 0
    requires !up || !Passes(cls[c])
    ensures var es' := es[c := es[c] + [Enter(up)]];
            && AllStand(cls, es', log, q, env)
            && WentOn(es, es', c, [], CallsOf(At(es, c, env)).(waiting := At(es, c, env).waiting - 1), env)
  {
    hide Run, Project, Callbacks;
    var t := At(es, c, env);
    RunNone(t, env.addrs[c], env.mtu);
    RunMore(t, [], Enter(up), env.addrs[c], env.mtu);
    assert [] + [Enter(up)] == [Enter(up)];
    MovesAlone(cls, es, log, q, c, [Enter(up)], cls[c], env);
    assert cls[c := cls[c]] == cls;
    GoesOn(es, c, [Enter(up)], CallsOf(t).(waiting := t.waiting - 1), env);
  }

  /** Only client `c` goes on. */
  lemma {:induction false} GoesOn(es: seq<Trace>, c: nat, xs: Trace, calls: Calls, env: Env)
    requires c < |es| == |env.addrs| && forall x :: x in xs ==> Continues(x)
    requires CallsOf(Run(At(es, c, env), xs, env.addrs[c], env.mtu)) == calls
    ensures WentOn(es, es[c := es[c] + xs], c, [], calls, env)
  {
    hide Run;
    var es' := es[c := es[c] + xs];
    AtMore(es, c, xs, env);
    assert es[c] + [] == es[c] && es'[c] == es[c] + xs;
    forall d | 0 <= d < |es| && d != c ensures At(es', d, env) == At(es, d, env) {
      SameTrace(es', es, d, env);
    }
  }

  /** The offset lies beyond the message. */
  lemma {:induction false} Overreads(cls: seq<Cl>, es: seq<Trace>, log: seq<Frag>, q: seq<QNode>, c: nat, env: Env)
    requires AllStand(cls, es, log, q, env) && c < |cls| && At(es, c, env).waiting > 0
    requires Passes(cls[c]) && Beyond(Begun(cls[c]))
    ensures var es' := es[c := es[c] + [Enter(true)]];
            && AllStand(cls[c := Begun(cls[c]).(overread := true)], es', log, q, env)
            && WentOn(es, es', c, [], CallsOf(At(es, c, env)).(waiting := At(es, c, env).waiting - 1), env)
  {
    hide Run, Project, Callbacks;
    var t := At(es, c, env);
    RunNone(t, env.addrs[c], env.mtu);
    RunMore(t, [], Enter(true), env.addrs[c], env.mtu);
    assert [] + [Enter(true)] == [Enter(true)];
    MovesAlone(cls, es, log, q, c, [Enter(true)], Begun(cls[c]).(overread := true), env);
    GoesOn(es, c, [Enter(true)], CallsOf(t).(waiting := t.waiting - 1), env);
  }

  function PassEvents(last: bool, accept: bool): (xs: Trace)
    ensures forall x :: x in xs ==> Continues(x)
  {
    if last then LastEvents(accept) else PartEvents(accept)
  }

  lemma {:induction false} LosslessPass(last: bool)
    ensures Lossless(PassEvents(last, true))
  {
  }

  /** What a call of ipc_tx_callback goes through before anything else happens to its client, where
      it finds the client up or not, and room in the IPC queue or not. */
  function Pass(cl: Cl, a: Addr, mtu: nat, up: bool, room: bool): Trace
  {
    if !up then [Enter(false)]
    else if !Passes(cl) || Beyond(Begun(cl)) then [Enter(true)]
    else PassEvents(NextFrag(Begun(cl), a, mtu).complete, room)
  }

  /** The calls under way after a pass: the buffer of a message that is out is still to be returned. */
  function CallsAfter(t: Tx, last: bool): Calls
  {
    CallsOf(t).(waiting := t.waiting - 1, returning := if last then t.returning + 1 else t.returning)
  }

  lemma {:induction false} FireLossless(es: seq<Trace>, c: nat)
    requires c < |es|
    ensures AllLossless(es) ==> AllLossless(es[c := es[c] + [Fire]])
  {
    hide AllLossless, Lossless;
    LosslessEvent(Fire);
    if AllLossless(es) {
      LosslessMore(es, c, [Fire]);
    }
  }

  lemma {:induction false} WentPrefix(es: seq<Trace>, es': seq<Trace>, c: nat, xs: Trace, calls: Calls, env: Env)
    requires WentOn(es, es', c, xs, calls, env)
    ensures es[c] + xs <= es'[c]
  {
    hide At;
  }

  /** A client that is found beyond its message has no more unsent bytes. */
  lemma {:induction false} OverreadsLower(cls: seq<Cl>, c: nat)
    requires c < |cls| && Passes(cls[c]) && Beyond(Begun(cls[c]))
    ensures var cls' := cls[c := Begun(cls[c]).(overread := true)];
            Credits(cls') <= Credits(cls) && Unsent(cls') <= Unsent(cls)
  {
    MeasuresUpdate(cls, c, Begun(cls[c]).(overread := true));
  }

  lemma {:induction false} PassRuns(t: Tx, accept: bool, a: Addr, mtu: nat)
    requires mtu > 0 && t.waiting > 0 && Passes(t.cl) && !Beyond(t.cl) && t.parts == [] && t.lasts == []
    ensures var f := NextFrag(Begun(t.cl), a, mtu);
            var u := Run(t, PassEvents(f.complete, accept), a, mtu);
            && Stands(u, Advanced(Begun(t.cl), mtu), if accept then t.wire + [f] else t.wire,
                      if accept && !f.complete then t.callbacks + 1 else t.callbacks)
            && CallsOf(u) == CallsAfter(t, f.complete)
  {
    hide Run, PartEvents, LastEvents;
    var f := NextFrag(Begun(t.cl), a, mtu);
    if f.complete {
      LastPass(t, f, accept, a, mtu);
    } else {
      PartPass(t, f, accept, a, mtu);
    }
  }

  /** What the write at the end of a pass requires, accepted or refused. */
  lemma {:induction false} Chooses(cls: seq<Cl>, es: seq<Trace>, log: seq<Frag>, q: seq<QNode>, c: nat, env: Env)
    requires AllStand(cls, es, log, q, env) && c < |cls| && At(es, c, env).waiting > 0
    requires Passes(cls[c]) && !Beyond(cls[c])
    ensures var f := NextFrag(Begun(cls[c]), env.addrs[c], env.mtu);
            var cls' := cls[c := Advanced(Begun(cls[c]), env.mtu)];
            var n := QNode(f, if f.complete then NoCallback else TxCallback(c));
            var (yes, no) := (es[c := es[c] + PassEvents(f.complete, true)], es[c := es[c] + PassEvents(f.complete, false)]);
            && AllStand(cls', yes, log + [f], q + [n], env) && AllStand(cls', no, log, q, env)
            && CallsOf(At(yes, c, env)) == CallsOf(At(no, c, env)) == CallsAfter(At(es, c, env), f.complete)
  {
    hide Run, Project, Callbacks, PassEvents;
    var t, a := At(es, c, env), env.addrs[c];
    var f := NextFrag(Begun(cls[c]), a, env.mtu);
    var cl := Advanced(Begun(cls[c]), env.mtu);
    PassRuns(t, true, a, env.mtu);
    PassRuns(t, false, a, env.mtu);
    var n := QNode(f, if f.complete then NoCallback else TxCallback(c));
    MovesInto(cls, es, log, q, c, PassEvents(f.complete, true), cl, n, env);
    MovesAlone(cls, es, log, q, c, PassEvents(f.complete, false), cl, env);
    AtMore(es, c, PassEvents(f.complete, true), env);
    AtMore(es, c, PassEvents(f.complete, false), env);
  }

  /** The first node of the queue leaves for the hardware. */
  lemma {:induction false} Leaves(cls: seq<Cl>, es: seq<Trace>, log: seq<Frag>, q: seq<QNode>, env: Env)
    requires AllStand(cls, es, log, q, env) && q != []
    ensures q[0].cb.NoCallback? ==> AllStand(cls, es, log, q[1..], env)
    ensures q[0].cb.TxCallback? ==>
              var c := q[0].cb.client;
              && c < |cls|
              && var es' := es[c := es[c] + [Fire]];
                 && AllStand(cls, es', log, q[1..], env)
                 && CallsOf(At(es', c, env)) == CallsOf(At(es, c, env)).(waiting := At(es, c, env).waiting + 1)
  {
    hide Run, Project, Callbacks, Stands;
    assert q[0] in q;
    forall d ensures Callbacks(q, d) == Callbacks(q[1..], d) + if q[0].cb == TxCallback(d) then 1 else 0 {
      CallbacksPop(q, d);
    }
    if q[0].cb.TxCallback? {
      var c := q[0].cb.client;
      Fires(At(es, c, env), cls[c], Project(log, env.addrs[c]), Callbacks(q, c), env.addrs[c], env.mtu);
      Moves(cls, es, log, q, c, [Fire], cls[c], log, q[1..], env);
      assert cls[c := cls[c]] == cls;
      AtMore(es, c, [Fire], env);
    }
  }

  lemma {:induction false} Fires(t: Tx, cl: Cl, wire: seq<Frag>, callbacks: nat, a: Addr, mtu: nat)
    requires Stands(t, cl, wire, callbacks) && callbacks > 0
    ensures Stands(Run(t, [Fire], a, mtu), cl, wire, callbacks - 1)
    ensures CallsOf(Run(t, [Fire], a, mtu)) == CallsOf(t).(waiting := t.waiting + 1)
  {
    RunNone(t, a, mtu);
    RunMore(t, [], Fire, a, mtu);
    assert [] + [Fire] == [Fire];
  }

  /** ipc_tx_callback returns the buffer only after the write has come back. */
  lemma {:induction false} Returns(cls: seq<Cl>, es: seq<Trace>, log: seq<Frag>, q: seq<QNode>, c: nat, env: Env)
    requires AllStand(cls, es, log, q, env) && c < |cls| && At(es, c, env).returning > 0
    ensures AllStand(cls[c := cls[c].(freeSize := cls[c].freeSize + 1)], es[c := es[c] + [ReturnFree]], log, q, env)
    ensures CallsOf(Run(At(es, c, env), [ReturnFree], env.addrs[c], env.mtu))
         == CallsOf(At(es, c, env)).(returning := At(es, c, env).returning - 1)
  {
    hide Run, Project, Callbacks;
    var t := At(es, c, env);
    RunNone(t, env.addrs[c], env.mtu);
    RunMore(t, [], ReturnFree, env.addrs[c], env.mtu);
    assert [] + [ReturnFree] == [ReturnFree];
    MovesAlone(cls, es, log, q, c, [ReturnFree], cls[c].(freeSize := cls[c].freeSize + 1), env);
  }

  // ---------------------------------------------------------------- The pieces of other calls

  lemma {:induction false} Queues(cls: seq<Cl>, es: seq<Trace>, log: seq<Frag>, q: seq<QNode>, c: nat, m: Msg, env: Env)
    requires AllStand(cls, es, log, q, env) && c < |cls| && cls[c].freeSize > 0
    ensures AllStand(cls[c := cls[c].(freeSize := cls[c].freeSize - 1, txList := cls[c].txList + [m])],
                     es[c := es[c] + ([TakeFree] + [Submit(m)])], log, q, env)
  {
    hide Run, Project, Callbacks;
    var cl := cls[c].(freeSize := cls[c].freeSize - 1, txList := cls[c].txList + [m]);
    ThreeEvents(At(es, c, env), TakeFree, Submit(m), FcArrive, env.addrs[c], env.mtu);
    MovesAlone(cls, es, log, q, c, [TakeFree] + [Submit(m)], cl, env);
  }

  lemma {:induction false} Looks(cls: seq<Cl>, es: seq<Trace>, log: seq<Frag>, q: seq<QNode>, c: nat, e: Event, env: Env)
    requires AllStand(cls, es, log, q, env) && c < |cls| && (e.SenderCheck? || e.FcCheck?)
    ensures AllStand(cls, es[c := es[c] + [e]], log, q, env)
  {
    hide Run, Project, Callbacks;
    ThreeEvents(At(es, c, env), e, e, e, env.addrs[c], env.mtu);
    MovesAlone(cls, es, log, q, c, [e], cls[c], env);
    assert cls[c := cls[c]] == cls;
  }

  lemma {:induction false} Counts(cls: seq<Cl>, es: seq<Trace>, log: seq<Frag>, q: seq<QNode>, c: nat, env: Env)
    requires AllStand(cls, es, log, q, env) && c < |cls|
    ensures AllStand(if cls[c].creds == 0 then cls[c := cls[c].(creds := 1)] else cls,
                     es[c := es[c] + [FcArrive]], log, q, env)
  {
    hide Run, Project, Callbacks;
    ThreeEvents(At(es, c, env), FcArrive, FcArrive, FcArrive, env.addrs[c], env.mtu);
    MovesAlone(cls, es, log, q, c, [FcArrive], if cls[c].creds == 0 then cls[c].(creds := 1) else cls[c], env);
    assert cls[c := cls[c]] == cls;
  }

  lemma {:induction false} Resets(cls: seq<Cl>, es: seq<Trace>, log: seq<Frag>, q: seq<QNode>, c: nat, env: Env)
    requires AllStand(cls, es, log, q, env) && c < |cls| && At(es, c, env).kicks > 0
    ensures var es' := es[c := es[c] + [ResetOffs]];
            var t := At(es, c, env);
            && AllStand(cls[c := cls[c].(offs := 0)], es', log, q, env)
            && CallsOf(At(es', c, env)) == CallsOf(t).(kicks := t.kicks - 1, waiting := t.waiting + 1)
  {
    hide Run, Project, Callbacks;
    ThreeEvents(At(es, c, env), ResetOffs, ResetOffs, ResetOffs, env.addrs[c], env.mtu);
    MovesAlone(cls, es, log, q, c, [ResetOffs], cls[c].(offs := 0), env);
    AtMore(es, c, [ResetOffs], env);
  }

  // ---------------------------------------------------------------- What whole calls change

  /** As many calls are under way as before. */
  predicate SameCalls(es: seq<Trace>, es': seq<Trace>, env: Env)
    requires |es| == |es'| == |env.addrs|
  {
    forall c :: 0 <= c < |es| ==> CallsOf(At(es', c, env)) == CallsOf(At(es, c, env))
  }

  /** Client `c` is given the messages `ms` and so many credits; nobody is given anything else. */
  predicate Given(es: seq<Trace>, es': seq<Trace>, c: nat, ms: seq<Msg>, credits: nat, env: Env)
    requires |es| == |es'| == |env.addrs|
  {
    forall d :: 0 <= d < |es| ==>
      && At(es', d, env).submitted == At(es, d, env).submitted + (if d == c then ms else [])
      && At(es', d, env).accepted == At(es, d, env).accepted + if d == c then credits else 0
  }

  predicate CalmAt(es: seq<Trace>, c: nat, env: Env)
    requires c < |es| == |env.addrs|
  {
    Calm(env.ring, es[c], env.addrs[c], env.mtu)
  }

  /** Clients for which calls did not overlap are still such, if nothing was lost. */
  predicate StaysCalm(es: seq<Trace>, es': seq<Trace>, env: Env)
    requires |es| == |es'| == |env.addrs|
  {
    forall c :: 0 <= c < |es| && Lossless(es'[c]) && CalmAt(es, c, env) ==> CalmAt(es', c, env)
  }

  /** One client, in a call for another. */
  lemma {:induction false} OtherEnds(cls: seq<Cl>, es: seq<Trace>, es': seq<Trace>, log: seq<Frag>, q: seq<QNode>,
                                     d: nat, env: Env)
    requires AllStand(cls, es', log, q, env) && d < |es| == |es'| && Continued(es[d], es'[d])
    requires CallsOf(At(es', d, env)) == CallsOf(At(es, d, env))
    ensures At(es', d, env).submitted == At(es, d, env).submitted && At(es', d, env).accepted == At(es, d, env).accepted
    ensures CalmAt(es, d, env) ==> CalmAt(es', d, env)
  {
    hide Run, Paced, OneAtATime;
    FollowedBy(env.ring, es[d], es'[d], env.addrs[d], env.mtu);
  }

  lemma {:induction false} DrainEnds(cls: seq<Cl>, es: seq<Trace>, es': seq<Trace>, log: seq<Frag>, q: seq<QNode>, env: Env)
    requires AllStand(cls, es', log, q, env) && Went(es, es', env)
    ensures SameCalls(es, es', env) && Given(es, es', 0, [], 0, env) && StaysCalm(es, es', env)
  {
    hide At, Continued, CalmAt;
    forall d | 0 <= d < |es|
      ensures At(es', d, env).submitted == At(es, d, env).submitted + []
      ensures At(es', d, env).accepted == At(es, d, env).accepted
      ensures CalmAt(es, d, env) ==> CalmAt(es', d, env)
    {
      OtherEnds(cls, es, es', log, q, d, env);
    }
  }

  /** A call for client `c`, that first goes through `pre`, and then may send. */
  lemma {:induction false} CallEnds(cls: seq<Cl>, es: seq<Trace>, es': seq<Trace>, log: seq<Frag>, q: seq<QNode>, c: nat,
                                    pre: Trace, zs: Trace, ms: seq<Msg>, credits: nat, env: Env)
    requires AllStand(cls, es', log, q, env) && c < |es| == |es'|
    requires WentOn(es[c := es[c] + pre], es', c, zs, CallsOf(At(es, c, env)), env) && forall z :: z in zs ==> Follows(z)
    requires var u := Run(At(es, c, env), pre, env.addrs[c], env.mtu);
             u.submitted == At(es, c, env).submitted + ms && u.accepted == At(es, c, env).accepted + credits
    ensures SameCalls(es, es', env) && Given(es, es', c, ms, credits, env)
    ensures (Lossless(es'[c]) && CalmAt(es, c, env) ==>
               && Paced(Fresh(env.ring), es[c] + pre, env.addrs[c], env.mtu)
               && OneAtATime(Fresh(env.ring), es[c] + pre, env.addrs[c], env.mtu))
            ==> StaysCalm(es, es', env)
  {
    hide Run, Paced, OneAtATime, Lossless;
    var mid, a := es[c := es[c] + pre], env.addrs[c];
    RunConcat(Fresh(env.ring), es[c], pre, a, env.mtu);
    assert forall k :: |mid[c]| <= k < |es'[c]| ==> Follows(es'[c][k]) by {
      assert es'[c][..|mid[c] + zs|] == mid[c] + zs;
    }
    FollowedBy(env.ring, es[c] + pre, es'[c], a, env.mtu);
    forall d | 0 <= d < |es| && d != c
      ensures CallsOf(At(es', d, env)) == CallsOf(At(es, d, env))
      ensures At(es', d, env).submitted == At(es, d, env).submitted && At(es', d, env).accepted == At(es, d, env).accepted
      ensures CalmAt(es, d, env) ==> CalmAt(es', d, env)
    {
      assert mid[d] == es[d];
      SameTrace(mid, es, d, env);
      OtherEnds(cls, es, es', log, q, d, env);
    }
  }

  lemma {:induction false} TwoMoves(es: seq<Trace>, c: nat, xs: Trace, ys: Trace)
    requires c < |es|
    ensures var mid := es[c := es[c] + xs];
            es[c := es[c] + (xs + ys)] == mid[c := mid[c] + ys] && (ys == [] ==> mid == es[c := es[c] + (xs + ys)])
  {
    assert es[c] + xs + ys == es[c] + (xs + ys);
    assert ys == [] ==> xs + ys == xs;
  }

  lemma {:induction false} Stayed(es: seq<Trace>, c: nat, env: Env)
    requires c < |es| == |env.addrs|
    ensures WentOn(es, es, c, [], CallsOf(At(es, c, env)), env)
  {
    hide At;
    assert es[c] + [] == es[c];
  }

  /** ishtp_cl_send up to its decision. */
  function SendEvents(m: Msg, first: bool): Trace
  {
    [TakeFree] + [Submit(m)] + if first then [SenderCheck] else []
  }

  lemma {:induction false} SendDecides(t: Tx, m: Msg, a: Addr, mtu: nat)
    requires t.cl.freeSize > 0
    ensures var (first, u) := (t.cl.txList == [], Run(t, [TakeFree] + [Submit(m)], a, mtu));
            u.senderChecks == t.senderChecks + if first then 1 else 0
    ensures var (first, v) := (t.cl.txList == [], Run(t, SendEvents(m, t.cl.txList == []), a, mtu));
            && CallsOf(v) == CallsOf(t).(kicks := if first && t.cl.creds > 0 then t.kicks + 1 else t.kicks)
            && v.submitted == t.submitted + [m] && v.accepted == t.accepted
  {
    ThreeEvents(t, TakeFree, Submit(m), SenderCheck, a, mtu);
    assert [TakeFree] + [Submit(m)] + [] == [TakeFree] + [Submit(m)];
  }

  /** The end of an ishtp_cl_send. */
  lemma {:induction false} SendEnds(cls: seq<Cl>, es: seq<Trace>, es': seq<Trace>, log: seq<Frag>, q: seq<QNode>, c: nat,
                                    m: Msg, cl: Cl, zs: Trace, env: Env)
    requires AllStand(cls, es', log, q, env) && c < |es| == |es'| && At(es, c, env).cl == cl && cl.freeSize > 0
    requires At(es, c, env).parts == [] && At(es, c, env).lasts == []
    requires WentOn(es[c := es[c] + SendEvents(m, cl.txList == [])], es', c, zs, CallsOf(At(es, c, env)), env)
    requires forall z :: z in zs ==> Follows(z)
    ensures SameCalls(es, es', env) && Given(es, es', c, [m], 0, env) && StaysCalm(es, es', env)
  {
    hide Run, Paced, OneAtATime, WentOn, SameCalls, Given, StaysCalm;
    var (t, a) := (At(es, c, env), env.addrs[c]);
    var first := t.cl.txList == [];
    var pre := SendEvents(m, first);
    SendDecides(t, m, a, env.mtu);
    CallEnds(cls, es, es', log, q, c, pre, zs, [m], 0, env);
    if Lossless(es'[c]) && CalmAt(es, c, env) {
      Begins(es, es', c, pre, zs, CallsOf(t), env);
      assert forall e :: e in es[c] ==> e in es'[c];
      SendStaysCalm(env.ring, es[c], m, first, a, env.mtu);
      assert es[c] + pre == es[c] + ([TakeFree] + [Submit(m)]) + if first then [SenderCheck] else [];
    }
  }

  lemma {:induction false} Begins(es: seq<Trace>, es': seq<Trace>, c: nat, pre: Trace, zs: Trace, calls: Calls, env: Env)
    requires c < |es| && WentOn(es[c := es[c] + pre], es', c, zs, calls, env)
    ensures es[c] <= es'[c] && forall e :: e in es[c] || e in pre ==> e in es'[c]
  {
    hide At;
    assert es[c] + pre + zs <= es'[c];
    assert forall e :: e in es[c] || e in pre ==> e in es[c] + pre + zs;
  }

  /** recv_hbm up to its decision. */
  function CreditEvents(counted: bool): Trace
  {
    [FcArrive] + if counted then [FcCheck] else []
  }

  lemma {:induction false} CreditDecides(t: Tx, a: Addr, mtu: nat)
    ensures Run(t, [FcArrive], a, mtu).fcChecks == t.fcChecks + if t.cl.creds == 0 then 1 else 0
    ensures var (counted, v) := (t.cl.creds == 0, Run(t, CreditEvents(t.cl.creds == 0), a, mtu));
            && CallsOf(v) == CallsOf(t).(kicks := if counted && t.cl.txList != [] then t.kicks + 1 else t.kicks)
            && v.submitted == t.submitted && v.accepted == t.accepted + if counted then 1 else 0
  {
    ThreeEvents(t, FcArrive, FcCheck, FcCheck, a, mtu);
    assert [FcArrive] + [] == [FcArrive];
  }

  lemma {:induction false} CreditEnds(cls: seq<Cl>, es: seq<Trace>, es': seq<Trace>, log: seq<Frag>, q: seq<QNode>, c: nat,
                                      cl: Cl, zs: Trace, env: Env)
    requires AllStand(cls, es', log, q, env) && c < |es| == |es'| && At(es, c, env).cl == cl
    requires WentOn(es[c := es[c] + CreditEvents(cl.creds == 0)], es', c, zs, CallsOf(At(es, c, env)), env)
    requires forall z :: z in zs ==> Follows(z)
    ensures SameCalls(es, es', env) && Given(es, es', c, [], if cl.creds == 0 then 1 else 0, env)
    ensures Due(At(es, c, env), FcArrive) ==> StaysCalm(es, es', env)
  {
    hide Run, Paced, OneAtATime, WentOn, SameCalls, Given, StaysCalm, Due;
    var (t, a) := (At(es, c, env), env.addrs[c]);
    var counted := t.cl.creds == 0;
    var pre := CreditEvents(counted);
    CreditDecides(t, a, env.mtu);
    assert t.submitted + [] == t.submitted;
    CallEnds(cls, es, es', log, q, c, pre, zs, [], if counted then 1 else 0, env);
    if Due(t, FcArrive) && Lossless(es'[c]) && CalmAt(es, c, env) {
      Begins(es, es', c, pre, zs, CallsOf(t), env);
      assert forall e :: e in es[c] ==> e in es'[c];
      CreditStaysCalm(env.ring, es[c], counted, a, env.mtu);
      assert es[c] + pre == es[c] + [FcArrive] + if counted then [FcCheck] else [];
    }
  }

  // ---------------------------------------------------------------- What a call begins with

  predicate Began(es: seq<Trace>, es': seq<Trace>, c: nat, xs: Trace)
  {
    c < |es| == |es'| && es[c] + xs <= es'[c]
  }

  /** ishtp_cl_send_msg_ipc, if it is decided on. */
  function Kicked(cl: Cl, send: bool, a: Addr, mtu: nat, first: Look, second: Look): Trace
  {
    if send then [ResetOffs] + Pass(cl.(offs := 0), a, mtu, first.up, second.room) else []
  }

  /** ishtp_cl_send, in the client `cl`, up to the point where others are called again. */
  function SentTrace(cl: Cl, m: Msg, a: Addr, mtu: nat, first: Look, second: Look): Trace
    requires cl.freeSize > 0
  {
    SendEvents(m, cl.txList == [])
    + Kicked(cl.(freeSize := cl.freeSize - 1, txList := cl.txList + [m]), cl.txList == [] && cl.creds > 0,
             a, mtu, first, second)
  }

  function Counted(cl: Cl): Cl
  {
    if cl.creds == 0 then cl.(creds := 1) else cl
  }

  /** And recv_hbm. */
  function CreditTrace(cl: Cl, a: Addr, mtu: nat, first: Look, second: Look): Trace
  {
    CreditEvents(cl.creds == 0) + Kicked(Counted(cl), cl.creds == 0 && cl.txList != [], a, mtu, first, second)
  }

  lemma {:induction false} BeganThen(es: seq<Trace>, mid: seq<Trace>, es': seq<Trace>, c: nat, xs: Trace, ys: Trace)
    requires c < |es| && mid == es[c := es[c] + xs] && Began(mid, es', c, ys)
    ensures Began(es, es', c, xs + ys)
  {
  }

  lemma {:induction false} BeganNothing(es: seq<Trace>, c: nat)
    requires c < |es|
    ensures Began(es, es, c, [])
  {
    assert es[c] + [] == es[c];
  }

  lemma {:induction false} SendLossless(es: seq<Trace>, c: nat, m: Msg, first: bool)
    requires c < |es|
    ensures AllLossless(es) ==> AllLossless(es[c := es[c] + SendEvents(m, first)])
  {
    assert Lossless(SendEvents(m, first));
    hide Lossless, SendEvents;
    if AllLossless(es) {
      LosslessMore(es, c, SendEvents(m, first));
    }
  }

  lemma {:induction false} CreditLossless(es: seq<Trace>, c: nat, counted: bool)
    requires c < |es|
    ensures AllLossless(es) ==> AllLossless(es[c := es[c] + CreditEvents(counted)])
  {
    assert Lossless(CreditEvents(counted));
    hide Lossless, CreditEvents;
    if AllLossless(es) {
      LosslessMore(es, c, CreditEvents(counted));
    }
  }

  lemma {:induction false} WentTwice(es: seq<Trace>, es': seq<Trace>, es'': seq<Trace>, env: Env)
    requires Went(es, es', env) && Went(es', es'', env)
    ensures Went(es, es'', env)
  {
    hide At, Continued;
    forall c | 0 <= c < |es| ensures Continued(es[c], es''[c]) {
      ContinuedTwice(es[c], es'[c], es''[c]);
    }
  }

  lemma {:induction false} NothingWaits(log: seq<Frag>, sent: seq<Frag>)
    requires Out(log, sent, [])
    ensures sent == log
  {
    assert sent + [] == sent;
  }

  // ---------------------------------------------------------------- All that was paid for

  /** Client `c` has sent the first messages it was given, as many as it was given credits for; the
      others are still queued. */
  predicate AllPaidForSent(cls: seq<Cl>, es: seq<Trace>, sent: seq<Frag>, c: nat, env: Env)
    requires c < |cls| == |es| && |es| == |env.addrs|
  {
    env.mtu > 0
    && var t := At(es, c, env);
       var n := Min(t.accepted, |t.submitted|);
       && Project(sent, env.addrs[c]) == FragmentsOfAll(env.addrs[c], t.submitted[..n], env.mtu)
       && cls[c].txList == t.submitted[n..]
  }

  lemma {:induction false} QuietClient(cls: seq<Cl>, es: seq<Trace>, es': seq<Trace>, log: seq<Frag>, c: nat, env: Env)
    requires AllStand(cls, es', log, [], env) && c < |es| == |es'| && AllLossless(es')
    requires CalmAt(es, c, env) && StaysCalm(es, es', env)
    ensures AllPaidForSent(cls, es', log, c, env)
  {
    hide Run, Paced, OneAtATime, Lossless, Project, FragmentsOfAll;
    assert CalmAt(es', c, env);
    var t := At(es', c, env);
    assert Callbacks([], c) == 0;
    DrainedStream(env.ring, es'[c], env.addrs[c], env.mtu);
    assert t.submitted == t.submitted[..Min(t.accepted, |t.submitted|)] + cls[c].txList;
  }

  // ---------------------------------------------------------------- The device

  /** What a look at the surroundings finds: the device enabled and the doorbell clear; a free node
      in the pool; the client connected and the device enabled. */
  datatype Look = Look(ready: bool, room: bool, up: bool)

  class Device {
    const env: Env
    /** What each look finds, one after another. */
    const sees: nat -> Look
    var looks: nat
    var cls: seq<Cl>
    var processing: seq<QNode>
    /** All fragments in the order the IPC queue accepted them, and those that have left it. */
    ghost var log: seq<Frag>
    ghost var sent: seq<Frag>
    ghost var es: seq<Trace>

    /** Connected clients with their transmit rings, and an empty queue. */
    constructor (env: Env, sees: nat -> Look)
      requires env.mtu > 0 && Distinct(env.addrs)
      ensures Ok() && this.env == env && this.sees == sees && processing == [] && sent == log == []
      ensures cls == seq(|env.addrs|, _ => Fresh(env.ring).cl) && es == seq(|env.addrs|, _ => [])
      ensures AllLossless(es) && forall c :: 0 <= c < |es| ==> CalmAt(es, c, env)
    {
      this.env, this.sees, looks := env, sees, 0;
      cls, processing := seq(|env.addrs|, _ => Fresh(env.ring).cl), [];
      log, sent, es := [], [], seq(|env.addrs|, _ => []);
      new;
      forall c | 0 <= c < |es| ensures CalmAt(es, c, env) {
        CalmAtFirst(env.ring, env.addrs[c], env.mtu);
      }
    }

    ghost predicate Ok()
      reads this
    {
      AllStand(cls, es, log, processing, env) && Out(log, sent, processing)
    }

    /** Nothing is refused, and no client is found disconnected. */
    ghost predicate Good()
      reads this
    {
      forall n :: sees(n).room && sees(n).up
    }

    /** write_ipc_to_queue. The pool may be found empty; the callers ignore that. `yes` and `no` are
        what the clients have gone through if the fragment is accepted, and if it is not. */
    method WriteToQueue(n: QNode, ghost yes: seq<Trace>, ghost no: seq<Trace>) returns (ghost done: seq<Trace>)
      requires AllStand(cls, yes, log + [n.frag], processing + [n], env)
      requires AllStand(cls, no, log, processing, env) && Out(log, sent, processing)
      modifies this
      ensures Ok() && Went(done, es, env) && old(sent) <= sent
      ensures done == if sees(old(looks)).room then yes else no
      ensures old(log) + (if sees(old(looks)).room then [n.frag] else []) <= log
      ensures sees(old(looks)).room && sees(old(looks) + 1).ready ==>
                old(sent) + [(old(processing) + [n])[0].frag] <= sent
      ensures Good() && AllLossless(done) ==> AllLossless(es)
      ensures NotAbove(cls, |processing|, old(cls), |old(processing)| + 1)
      decreases Credits(cls), Unsent(cls), |processing| + 1, 1
    {
      hide AllStand, Went, AllLossless, Credits, Unsent, Out;
      var room := sees(looks).room;
      looks := looks + 1;
      if !room {
        es, done := no, no;
        Lengths(cls, no, log, processing, env);
        WentNowhere(no, env);
        return;
      }
      es, done := yes, yes;
      OutMore(log, sent, processing, n);
      log := log + [n.frag];
      processing := processing + [n];
      var ready := sees(looks).ready;
      looks := looks + 1;
      WriteFromQueue(ready);
    }

    /** write_ipc_from_queue; `ready` is whether the device is found enabled and the doorbell clear.
        Then the node that waited longest leaves, and its callback is called. */
    method WriteFromQueue(ready: bool)
      requires Ok()
      modifies this
      ensures Ok() && Went(old(es), es, env) && old(sent) <= sent && old(log) <= log
      ensures !ready || old(processing) == [] ==>
                (cls, es, log, sent, processing, looks) == old((cls, es, log, sent, processing, looks))
      ensures ready && old(processing) != [] ==>
                && old(sent) + [old(processing)[0].frag] <= sent
                && NotAbove(cls, |processing|, old(cls), |old(processing)| - 1)
                && (old(processing)[0].cb.TxCallback? ==>
                      var c := old(processing)[0].cb.client;
                      && c < |old(cls)| == |es| && |es| == |env.addrs| && |old(es)| == |es|
                      && old(es)[c] + [Fire]
                         + Pass(old(cls)[c], env.addrs[c], env.mtu, sees(old(looks)).up, sees(old(looks) + 1).room) <= es[c])
      ensures Good() && AllLossless(old(es)) ==> AllLossless(es)
      ensures NotAbove(cls, |processing|, old(cls), |old(processing)|)
      decreases Credits(cls), Unsent(cls), |processing|, 0
    {
      hide AllStand, Went, WentOn, At, AllLossless, Credits, Unsent, Out, Pass;
      ghost var es0 := es;
      Lengths(cls, es, log, processing, env);
      WentNowhere(es, env);
      if !ready {
        return;
      }
      if processing == [] {
        return;
      }
      Leaves(cls, es, log, processing, env);
      OutFirst(log, sent, processing);
      var n := processing[0];
      processing := processing[1..];
      sent := sent + [n.frag];
      if n.cb.TxCallback? {
        ghost var c := n.cb.client;
        es := es[c := es[c] + [Fire]];
        FireLossless(es0, c);
        IpcTxCallback(n.cb.client);
        WentBefore(es0, c, [Fire], es, CallsOf(At(es0, c, env)), env);
        WentShort(es0, es, c, [Fire], CallsOf(At(es0, c, env)), env);
        WentBack(es0, es, c, env);
      }
    }

    /** ipc_tx_callback, fired or called: the client may be found disconnected, or the device not
        enabled; and a message in flight, whoever began it. */
    method IpcTxCallback(c: nat)
      requires Ok() && c < |cls| == |es| && |es| == |env.addrs| && At(es, c, env).waiting > 0
      modifies this
      ensures Ok() && old(sent) <= sent && old(log) <= log && |es| == |old(es)|
      ensures WentOn(old(es), es, c, [], CallsOf(At(old(es), c, env)).(waiting := At(old(es), c, env).waiting - 1), env)
      ensures old(es)[c] + Pass(old(cls)[c], env.addrs[c], env.mtu, sees(old(looks)).up, sees(old(looks) + 1).room) <= es[c]
      ensures Good() && AllLossless(old(es)) ==> AllLossless(es)
      ensures NotAbove(cls, |processing|, old(cls), |old(processing)|)
      decreases Credits(cls), Unsent(cls), |processing|, 2
    {
      hide AllStand, WentOn, At, AllLossless, Credits, Unsent, Out, PassEvents, Lossless;
      ghost var es0 := es;
      var up := sees(looks).up;
      looks := looks + 1;
      LosslessEvent(Enter(true));
      if !up || cls[c].overread {
        Idles(cls, es, log, processing, c, up, env);
        es := es[c := es[c] + [Enter(up)]];
        if up && AllLossless(es0) {
          LosslessMore(es0, c, [Enter(true)]);
        }
        return;
      }
      if cls[c].txList == [] || (cls[c].creds != 1 && !cls[c].sending) {
        Idles(cls, es, log, processing, c, true, env);
        es := es[c := es[c] + [Enter(true)]];
        if AllLossless(es0) {
          LosslessMore(es0, c, [Enter(true)]);
        }
        return;
      }
      Serve(c);
    }

    /** The rest of it, for a client with a message and a credit, or with a message in flight. */
    method Serve(c: nat)
      requires Ok() && c < |cls| == |es| && |es| == |env.addrs| && At(es, c, env).waiting > 0 && Passes(cls[c])
      modifies this
      ensures Ok() && old(sent) <= sent && old(log) <= log && |es| == |old(es)|
      ensures WentOn(old(es), es, c, [], CallsOf(At(old(es), c, env)).(waiting := At(old(es), c, env).waiting - 1), env)
      ensures old(es)[c] + Pass(old(cls)[c], env.addrs[c], env.mtu, true, sees(old(looks)).room) <= es[c]
      ensures Good() && AllLossless(old(es)) ==> AllLossless(es)
      ensures NotAbove(cls, |processing|, old(cls), |old(processing)|)
      decreases Credits(cls), Unsent(cls), |processing|, 1
    {
      hide AllStand, Went, WentOn, At, Advanced, NextFrag, PassEvents, Credits, Unsent, AllLossless, Out, Lossless;
      ghost var es0 := es;
      var begun := BeginMessage(cls[c]);
      if begun.offs > |begun.txList[0]| {
        Overreads(cls, es, log, processing, c, env);
        OverreadsLower(cls, c);
        cls := cls[c := begun.(overread := true)];
        es := es[c := es[c] + [Enter(true)]];
        LosslessEvent(Enter(true));
        if AllLossless(es0) {
          LosslessMore(es0, c, [Enter(true)]);
        }
        return;
      }
      Mtu(cls, es, log, processing, env);
      Chooses(cls, es, log, processing, c, env);
      PassLowers(cls, c, env.mtu);
      ghost var cls0 := cls;
      var cl, frag := CutFragment(begun, env.addrs[c]);
      ghost var yes := es[c := es[c] + PassEvents(frag.complete, true)];
      ghost var no := es[c := es[c] + PassEvents(frag.complete, false)];
      ghost var xs := PassEvents(frag.complete, sees(looks).room);
      LosslessPass(frag.complete);
      if Good() && AllLossless(es0) {
        LosslessMore(es0, c, xs);
      }
      cls := cls[c := cl];
      ghost var done := WriteToQueue(QNode(frag, if frag.complete then NoCallback else TxCallback(c)), yes, no);
      WentAfter(es0, c, xs, es, env);
      WentPrefix(es0, es, c, xs, CallsAfter(At(es0, c, env), frag.complete), env);
      WentShort(es0, es, c, xs, CallsAfter(At(es0, c, env), frag.complete), env);
      Lengths(cls, es, log, processing, env);
      if frag.complete {
        ReturnBuffer(c, es0);
      } else {
        assert CallsAfter(At(es0, c, env), false) == CallsOf(At(es0, c, env)).(waiting := At(es0, c, env).waiting - 1);
      }
    }

    /** The buffer of a message that is out is free again. */
    method ReturnBuffer(c: nat, ghost es0: seq<Trace>)
      requires Ok() && c < |cls| == |es0| && |es0| == |env.addrs| && At(es0, c, env).waiting > 0
      requires WentOn(es0, es, c, [], CallsAfter(At(es0, c, env), true), env)
      modifies `cls, `es
      ensures Ok() && |cls| == |es| == |old(es)| && c < |old(es)| && old(es)[c] <= es[c]
      ensures WentOn(es0, es, c, [], CallsOf(At(es0, c, env)).(waiting := At(es0, c, env).waiting - 1), env)
      ensures AllLossless(old(es)) ==> AllLossless(es)
      ensures Credits(cls) == Credits(old(cls)) && Unsent(cls) == Unsent(old(cls))
    {
      hide AllStand, At, Run, AllLossless, Lossless, Credits, Unsent;
      ghost var es1 := es;
      Returns(cls, es, log, processing, c, env);
      WentThen(es0, es, c, [], CallsAfter(At(es0, c, env), true), [ReturnFree],
               CallsOf(At(es0, c, env)).(waiting := At(es0, c, env).waiting - 1), env);
      MeasuresUpdate(cls, c, cls[c].(freeSize := cls[c].freeSize + 1));
      cls := cls[c := cls[c].(freeSize := cls[c].freeSize + 1)];
      es := es[c := es[c] + [ReturnFree]];
      LosslessEvent(ReturnFree);
      if AllLossless(es1) {
        LosslessMore(es1, c, [ReturnFree]);
      }
    }

    /** The credit for a message that begins. */
    method BeginMessage(cl0: Cl) returns (cl: Cl)
      requires cl0.sending || cl0.creds == 1
      ensures cl == Begun(cl0)
    {
      cl := cl0;
      if !cl.sending {
        cl := cl.(creds := cl.creds - 1, sending := true);
      }
    }

    /** The next fragment: it is the first of those to come, and the others are to come after it.
        The message leaves the list with its last fragment. */
    method CutFragment(cl0: Cl, a: Addr) returns (cl: Cl, frag: Frag)
      requires env.mtu > 0 && cl0.sending && cl0.txList != [] && !Beyond(cl0)
      ensures [frag] + RestOf(cl, cl.offs, a, env.mtu) == RestOf(cl0, cl0.offs, a, env.mtu)
      ensures frag.complete == !cl.sending && cl.txList == if frag.complete then cl0.txList[1..] else cl0.txList
      ensures cl == Advanced(cl0, env.mtu) && frag == NextFrag(cl0, a, env.mtu)
    {
      CutAt(cl0.txList[0], cl0.offs, a, env.mtu);
      var m := cl0.txList[0];
      var rem := |m| - cl0.offs;
      if rem <= env.mtu {
        frag := Frag(a, true, m[cl0.offs..]);
        cl := cl0.(sending := false, txList := cl0.txList[1..]);
      } else {
        frag := Frag(a, false, m[cl0.offs..cl0.offs + env.mtu]);
        cl := cl0.(offs := cl0.offs + env.mtu);
      }
    }

    /** ishtp_cl_send, as far as its lock on the list: whether it was empty. */
    method QueueMessage(c: nat, m: Msg) returns (first: bool)
      requires Ok() && c < |cls| && cls[c].freeSize > 0
      modifies `cls, `es
      ensures Ok() && es == old(es)[c := old(es)[c] + ([TakeFree] + [Submit(m)])]
      ensures first == (old(cls)[c].txList == [])
      ensures cls == old(cls)[c := old(cls)[c].(freeSize := old(cls)[c].freeSize - 1, txList := old(cls)[c].txList + [m])]
    {
      Queues(cls, es, log, processing, c, m, env);
      first := cls[c].txList == [];
      cls := cls[c := cls[c].(freeSize := cls[c].freeSize - 1, txList := cls[c].txList + [m])];
      es := es[c := es[c] + ([TakeFree] + [Submit(m)])];
    }

    /** ishtp_cl_send, after it: is there a credit? */
    method SenderCheck(c: nat) returns (send: bool)
      requires Ok() && c < |cls| && At(es, c, env).senderChecks > 0
      modifies `es
      ensures Ok() && es == old(es)[c := old(es)[c] + [Event.SenderCheck]]
      ensures send == (cls[c].creds > 0)
    {
      Looks(cls, es, log, processing, c, Event.SenderCheck, env);
      es := es[c := es[c] + [Event.SenderCheck]];
      send := cls[c].creds > 0;
    }

    /** recv_hbm, the flow-control branch: the credit. */
    method CountCredit(c: nat) returns (counted: bool)
      requires Ok() && c < |cls|
      modifies `cls, `es
      ensures Ok() && es == old(es)[c := old(es)[c] + [FcArrive]]
      ensures counted == (old(cls)[c].creds == 0)
      ensures cls == if counted then old(cls)[c := old(cls)[c].(creds := 1)] else old(cls)
    {
      Counts(cls, es, log, processing, c, env);
      es := es[c := es[c] + [FcArrive]];
      counted := cls[c].creds == 0;
      if counted {
        cls := cls[c := cls[c].(creds := cls[c].creds + 1)];
      }
    }

    /** recv_hbm, after it: is something queued? */
    method FcCheck(c: nat) returns (send: bool)
      requires Ok() && c < |cls| && At(es, c, env).fcChecks > 0
      modifies `es
      ensures Ok() && es == old(es)[c := old(es)[c] + [Event.FcCheck]]
      ensures send == (cls[c].txList != [])
    {
      Looks(cls, es, log, processing, c, Event.FcCheck, env);
      es := es[c := es[c] + [Event.FcCheck]];
      send := cls[c].txList != [];
    }

    /** ishtp_cl_send_msg_ipc, once decided on; it may find the client sending. */
    method SendMsgIpc(c: nat)
      requires Ok() && c < |cls| == |es| && |es| == |env.addrs| && At(es, c, env).kicks > 0
      modifies this
      ensures Ok()
      ensures WentOn(old(es), es, c, [ResetOffs], CallsOf(At(old(es), c, env)).(kicks := At(old(es), c, env).kicks - 1), env)
      ensures old(sent) <= sent && old(log) <= log && |es| == |old(es)|
      ensures Began(old(es), es, c, [ResetOffs] + Pass(old(cls)[c].(offs := 0), env.addrs[c], env.mtu,
                                                       sees(old(looks)).up, sees(old(looks) + 1).room))
      ensures Good() && AllLossless(old(es)) ==> AllLossless(es)
    {
      hide AllStand, At, WentOn, AllLossless, Lossless, Out, Pass;
      ghost var es0 := es;
      LosslessEvent(ResetOffs);
      if AllLossless(es0) {
        LosslessMore(es0, c, [ResetOffs]);
      }
      Resets(cls, es, log, processing, c, env);
      cls := cls[c := cls[c].(offs := 0)];
      es := es[c := es[c] + [ResetOffs]];
      Lengths(cls, es, log, processing, env);
      IpcTxCallback(c);
      WentBefore(es0, c, [ResetOffs], es, CallsOf(At(es0, c, env)).(kicks := At(es0, c, env).kicks - 1), env);
    }

    /** The end of both callers: ishtp_cl_send_msg_ipc, if they decided on it. */
    method Kick(c: nat, send: bool)
      requires Ok() && c < |cls| == |es| && |es| == |env.addrs| && (send ==> At(es, c, env).kicks > 0)
      modifies this
      ensures Ok() && old(sent) <= sent && old(log) <= log
      ensures var t := At(old(es), c, env);
              WentOn(old(es), es, c, if send then [ResetOffs] else [],
                     CallsOf(t).(kicks := if send then t.kicks - 1 else t.kicks), env)
      ensures Began(old(es), es, c, Kicked(old(cls)[c], send, env.addrs[c], env.mtu, sees(old(looks)), sees(old(looks) + 1)))
      ensures !send ==> (cls, log, processing) == old((cls, log, processing))
      ensures Good() && AllLossless(old(es)) ==> AllLossless(es)
    {
      hide AllStand, WentOn, At, AllLossless, Out, Pass, Began, Good;
      Stayed(es, c, env);
      BeganNothing(es, c);
      if send {
        SendMsgIpc(c);
      }
    }

    /** ishtp_cl_send; the flags say what its first checks find, `maxLength` is the client's
        max_msg_length. */
    method ClSend(c: nat, m: Msg, connected: bool, enabled: bool, known: bool, maxLength: nat) returns (r: Status)
      requires Ok() && c < |cls|
      modifies this
      ensures Ok()
      ensures r == if !connected then NotConnected
                   else if !enabled then NoDevice
                   else if !known then NoFwClient
                   else if |m| > maxLength then TooLong
                   else if old(cls)[c].freeSize == 0 then NoBuffer
                   else Queued
      ensures r != Queued ==> cls == old(cls) && es == old(es) && log == old(log) && processing == old(processing)
      ensures r == Queued ==>
                && SameCalls(old(es), es, env) && Given(old(es), es, c, [m], 0, env)
                && StaysCalm(old(es), es, env)
                && Began(old(es), es, c,
                         SentTrace(old(cls)[c], m, env.addrs[c], env.mtu, sees(old(looks)), sees(old(looks) + 1)))
      ensures old(sent) <= sent && old(log) <= log
      ensures Good() && AllLossless(old(es)) ==> AllLossless(es)
    {
      if !connected { return NotConnected; }
      if !enabled { return NoDevice; }
      if !known { return NoFwClient; }
      if |m| > maxLength { return TooLong; }
      if cls[c].freeSize <= 0 { return NoBuffer; }
      SendQueued(c, m);
      return Queued;
    }

    /** ishtp_cl_send up to its decision: the message is queued, and whether to send it. */
    method DecideSend(c: nat, m: Msg) returns (send: bool)
      requires Ok() && c < |cls| == |es| && |es| == |env.addrs| && cls[c].freeSize > 0
      modifies `cls, `es
      ensures Ok() && es == old(es)[c := old(es)[c] + SendEvents(m, old(cls)[c].txList == [])]
      ensures cls == old(cls)[c := old(cls)[c].(freeSize := old(cls)[c].freeSize - 1, txList := old(cls)[c].txList + [m])]
      ensures send == (old(cls)[c].txList == [] && old(cls)[c].creds > 0) && (send ==> At(es, c, env).kicks > 0)
      ensures AllLossless(old(es)) ==> AllLossless(es)
    {
      hide AllStand, At, Run, AllLossless, Out;
      Standing(cls, es, log, processing, c, env);
      SendDecides(At(es, c, env), m, env.addrs[c], env.mtu);
      AtMore(es, c, [TakeFree] + [Submit(m)], env);
      AtMore(es, c, SendEvents(m, cls[c].txList == []), env);
      SendLossless(es, c, m, cls[c].txList == []);
      ghost var es0 := es;
      var first := QueueMessage(c, m);
      send := false;
      if first {
        send := this.SenderCheck(c);
      }
      TwoMoves(es0, c, [TakeFree] + [Submit(m)], if first then [Event.SenderCheck] else []);
    }

    /** The rest of it, with a free buffer. */
    method SendQueued(c: nat, m: Msg)
      requires Ok() && c < |cls| && cls[c].freeSize > 0
      modifies this
      ensures Ok() && SameCalls(old(es), es, env) && Given(old(es), es, c, [m], 0, env) && StaysCalm(old(es), es, env)
      ensures Began(old(es), es, c, SentTrace(old(cls)[c], m, env.addrs[c], env.mtu, sees(old(looks)), sees(old(looks) + 1)))
      ensures old(sent) <= sent && old(log) <= log
      ensures Good() && AllLossless(old(es)) ==> AllLossless(es)
    {
      hide AllStand, WentOn, At, SameCalls, Given, StaysCalm, Run, AllLossless, Out, Began, Kicked, SendEvents, Good;
      ghost var (es0, cl) := (es, cls[c]);
      Standing(cls, es, log, processing, c, env);
      SendDecides(At(es, c, env), m, env.addrs[c], env.mtu);
      AtMore(es, c, SendEvents(m, cl.txList == []), env);
      var send := DecideSend(c, m);
      ghost var (mid, q, l1, l2) := (es, cls[c], sees(looks), sees(looks + 1));
      Lengths(cls, es, log, processing, env);
      Kick(c, send);
      Lengths(cls, es, log, processing, env);
      BeganThen(es0, mid, es, c, SendEvents(m, cl.txList == []), Kicked(q, send, env.addrs[c], env.mtu, l1, l2));
      SendEnds(cls, es0, es, log, processing, c, m, cl, if send then [ResetOffs] else [], env);
    }

    /** recv_hbm, the flow-control branch, up to its decision: the credit is counted, and whether to
        send. */
    method DecideCredit(c: nat) returns (send: bool)
      requires Ok() && c < |cls| == |es| && |es| == |env.addrs|
      modifies `cls, `es
      ensures Ok() && es == old(es)[c := old(es)[c] + CreditEvents(old(cls)[c].creds == 0)]
      ensures cls == old(cls)[c := Counted(old(cls)[c])]
      ensures send == (old(cls)[c].creds == 0 && old(cls)[c].txList != []) && (send ==> At(es, c, env).kicks > 0)
      ensures AllLossless(old(es)) ==> AllLossless(es)
    {
      hide AllStand, At, Run, AllLossless, Out;
      Standing(cls, es, log, processing, c, env);
      CreditDecides(At(es, c, env), env.addrs[c], env.mtu);
      AtMore(es, c, [FcArrive], env);
      AtMore(es, c, CreditEvents(cls[c].creds == 0), env);
      CreditLossless(es, c, cls[c].creds == 0);
      ghost var es0 := es;
      var counted := CountCredit(c);
      send := false;
      if counted {
        send := this.FcCheck(c);
      }
      TwoMoves(es0, c, [FcArrive], if counted then [Event.FcCheck] else []);
    }

    /** recv_hbm, the flow-control branch. */
    method FlowControl(c: nat)
      requires Ok() && c < |cls|
      modifies this
      ensures Ok() && SameCalls(old(es), es, env)
      ensures Given(old(es), es, c, [], if old(cls)[c].creds == 0 then 1 else 0, env)
      ensures old(cls)[c].creds != 0 ==> cls == old(cls) && log == old(log) && processing == old(processing)
      ensures Due(At(old(es), c, env), FcArrive) ==> StaysCalm(old(es), es, env)
      ensures Began(old(es), es, c, CreditTrace(old(cls)[c], env.addrs[c], env.mtu, sees(old(looks)), sees(old(looks) + 1)))
      ensures old(sent) <= sent && old(log) <= log
      ensures Good() && AllLossless(old(es)) ==> AllLossless(es)
    {
      hide AllStand, WentOn, At, SameCalls, Given, StaysCalm, Run, Due, AllLossless, Out, Began, Kicked, CreditEvents, Good;
      ghost var (es0, cl) := (es, cls[c]);
      Standing(cls, es, log, processing, c, env);
      CreditDecides(At(es, c, env), env.addrs[c], env.mtu);
      AtMore(es, c, CreditEvents(cl.creds == 0), env);
      var send := DecideCredit(c);
      ghost var (mid, q, l1, l2) := (es, cls[c], sees(looks), sees(looks + 1));
      Lengths(cls, es, log, processing, env);
      Kick(c, send);
      Lengths(cls, es, log, processing, env);
      BeganThen(es0, mid, es, c, CreditEvents(cl.creds == 0), Kicked(q, send, env.addrs[c], env.mtu, l1, l2));
      CreditEnds(cls, es0, es, log, processing, c, cl, if send then [ResetOffs] else [], env);
    }

    /** The firmware's receive-complete interrupt. */
    method Drain(ready: bool)
      requires Ok()
      modifies this
      ensures Ok() && SameCalls(old(es), es, env) && Given(old(es), es, 0, [], 0, env) && StaysCalm(old(es), es, env)
      ensures old(log) <= log && old(sent) <= sent
      ensures ready && old(processing) != [] ==> old(sent) + [old(processing)[0].frag] <= sent
      ensures !ready || old(processing) == [] ==>
                (cls, es, log, sent, processing) == old((cls, es, log, sent, processing))
      ensures Good() && AllLossless(old(es)) ==> AllLossless(es)
    {
      WriteFromQueue(ready);
      DrainEnds(cls, old(es), es, log, processing, env);
    }

    /** Such interrupts, one after another, at a clear doorbell: whatever else is found, the queue runs
        empty, and then every client has sent what it was given credits for. */
    method DrainAll()
      requires Ok()
      modifies this
      ensures Ok() && SameCalls(old(es), es, env) && Given(old(es), es, 0, [], 0, env) && StaysCalm(old(es), es, env)
      ensures processing == [] && sent == log && old(log) <= log
      ensures Good() && AllLossless(old(es)) ==> AllLossless(es)
      ensures Good() && AllLossless(old(es)) ==>
                forall c :: 0 <= c < |old(es)| && CalmAt(old(es), c, env) ==> AllPaidForSent(cls, es, sent, c, env)
    {
      hide AllStand, Went, At, AllLossless, Credits, Unsent, SameCalls, Given, StaysCalm, Out, CalmAt, AllPaidForSent;
      ghost var es0 := es;
      Lengths(cls, es, log, processing, env);
      WentNowhere(es, env);
      while processing != []
        invariant Ok() && Went(es0, es, env) && old(log) <= log
        invariant Good() && AllLossless(es0) ==> AllLossless(es)
        decreases Credits(cls), Unsent(cls), |processing|
      {
        ghost var es1 := es;
        WriteFromQueue(true);
        WentTwice(es0, es1, es, env);
      }
      Lengths(cls, es, log, processing, env);
      DrainEnds(cls, es0, es, log, processing, env);
      NothingWaits(log, sent);
      if Good() && AllLossless(es0) {
        forall c | 0 <= c < |es0| && CalmAt(es0, c, env) ensures AllPaidForSent(cls, es, sent, c, env) {
          QuietClient(cls, es0, es, log, c, env);
        }
      }
    }

    /** Anything else that is sent: bus messages, other connections. */
    method WriteOther(f: Frag)
      requires Ok() && f.addr !in env.addrs
      modifies this
      ensures Ok() && SameCalls(old(es), es, env) && Given(old(es), es, 0, [], 0, env) && StaysCalm(old(es), es, env)
      ensures old(sent) <= sent && old(log) + (if sees(old(looks)).room then [f] else []) <= log
      ensures sees(old(looks)).room && sees(old(looks) + 1).ready ==>
                old(sent) + [(old(processing) + [QNode(f, NoCallback)])[0].frag] <= sent
      ensures Good() && AllLossless(old(es)) ==> AllLossless(es)
    {
      WritesOther(cls, es, log, processing, f, env);
      ghost var done := WriteToQueue(QNode(f, NoCallback), es, es);
      DrainEnds(cls, old(es), es, log, processing, env);
    }
  }

  lemma {:induction false} WritesOther(cls: seq<Cl>, es: seq<Trace>, log: seq<Frag>, q: seq<QNode>, f: Frag, env: Env)
    requires AllStand(cls, es, log, q, env) && f.addr !in env.addrs
    ensures AllStand(cls, es, log + [f], q + [QNode(f, NoCallback)], env)
  {
    hide At;
    assert (log + [f])[..|log|] == log;
    forall d ensures Callbacks(q + [QNode(f, NoCallback)], d) == Callbacks(q, d) {
      CallbacksPush(q, QNode(f, NoCallback), d);
    }
  }

  lemma {:induction false} Standing(cls: seq<Cl>, es: seq<Trace>, log: seq<Frag>, q: seq<QNode>, c: nat, env: Env)
    requires AllStand(cls, es, log, q, env) && c < |cls|
    ensures |cls| == |es| == |env.addrs|
    ensures At(es, c, env).cl == cls[c] && At(es, c, env).parts == [] && At(es, c, env).lasts == []
  {
  }

  lemma {:induction false} Lengths(cls: seq<Cl>, es: seq<Trace>, log: seq<Frag>, q: seq<QNode>, env: Env)
    requires AllStand(cls, es, log, q, env)
    ensures |cls| == |es| == |env.addrs|
  {
  }

  lemma {:induction false} Mtu(cls: seq<Cl>, es: seq<Trace>, log: seq<Frag>, q: seq<QNode>, env: Env)
    requires AllStand(cls, es, log, q, env)
    ensures env.mtu > 0
  {
  }

  // ---------------------------------------------------------------- The two drivers agree

  /** The 6.5 loop and the 5.15 callback chain, given the same messages and as many credits, with
      all their fragments accepted, put the same fragments into the IPC queue in the same order,
      and end with the same credits and the same messages still queued, whatever other clients did
      in between. On either side messages are one fragment each, or calls that send do not overlap. */
  lemma {:induction false} DriversAgree(cls: seq<Cl>, es: seq<Trace>, log: seq<Frag>, c: nat, env: Env,
                                        s: TxEngine.Tx, xs: seq<TxEngine.Event>, pool: set<nat>)
    requires AllStand(cls, es, log, [], env) && c < |cls|
    requires var t := At(es, c, env); t.senderChecks == t.fcChecks == t.kicks == t.waiting == 0
    requires var (r, a) := (Fresh(env.ring), env.addrs[c]);
             Paced(r, es[c], a, env.mtu) && Lossless(es[c]) && NoRace(r, es[c], a, env.mtu)
    requires TxEngine.Fresh(s, pool) && TxEngine.NonEmptyMessages(xs)
    requires TxContent.NoRace(s, xs, env.addrs[c], env.mtu) && TxContent.AllTaken(xs)
    requires var u := TxEngine.Run(s, xs, env.addrs[c], env.mtu);
             && TxEngine.Resting(u)
             && u.submitted == At(es, c, env).submitted && u.accepted == At(es, c, env).accepted
    ensures var u := TxEngine.Run(s, xs, env.addrs[c], env.mtu);
            && u.wire == Project(log, env.addrs[c])
            && u.started == At(es, c, env).started
            && u.creds == cls[c].creds
            && TxEngine.Contents(u.txList) == cls[c].txList
  {
    hide Run, Paced, Lossless, NoRace, TxEngine.Run, TxContent.NoRace, FragmentsOfAll, Project;
    var a := env.addrs[c];
    var u := TxEngine.Run(s, xs, a, env.mtu);
    assert Callbacks([], c) == 0;
    DrainedStream(env.ring, es[c], a, env.mtu);
    AccountsKept(env.ring, es[c], a, env.mtu);
    TxEngine.TransmitConservation(s, xs, a, env.mtu, pool);
    TxEngine.RingAndOrder(s, xs, a, env.mtu, pool);
    TxContent.StreamOfStarted(s, xs, a, env.mtu, pool);
    assert u.started == u.submitted[..|u.started|];
    assert |TxEngine.Contents(u.txList)| == |u.txList|;
    assert TxEngine.Contents(u.txList) == u.submitted[|u.started|..];
  }
}

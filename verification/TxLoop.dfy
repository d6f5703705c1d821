/** The fragment loop of the linux-6.5 sender, one access of the client's offset at a time.
    ishtp_cl_send_msg_ipc resets that offset before it takes the lock under which another call
    may be in this loop, so a reset can fall between any two accesses. */
module TxLoop {
  import opened Wire

  /** Where the loop is: about to write a fragment, to move the offset on, or to measure what is
      left. */
  datatype Phase = Writing | Advancing | Measuring

  /** `rem` is the loop's own variable, `offs` the client's; `out` is history. */
  datatype Loop = Loop(offs: nat, rem: nat, phase: Phase, out: seq<Frag>, done: bool)

  predicate LoopOk(l: Loop, m: Msg, mtu: nat)
  {
    !l.done &&
    match l.phase
    case Writing => l.rem > 0 && l.offs + l.rem <= |m|
    case Advancing => l.offs + mtu < |m|
    case Measuring => l.offs < |m|
  }

  function Start(m: Msg): Loop
  {
    Loop(0, |m|, Writing, [], false)
  }

  function Reset(l: Loop): Loop
  {
    l.(offs := 0)
  }

  function NextFrag(l: Loop, m: Msg, a: Addr, mtu: nat): Frag
    requires mtu > 0 && LoopOk(l, m, mtu) && l.phase == Writing
  {
    if l.rem <= mtu then Frag(a, true, m[l.offs..l.offs + l.rem]) else Frag(a, false, m[l.offs..l.offs + mtu])
  }

  function SubStep(l: Loop, m: Msg, a: Addr, mtu: nat): (r: Loop)
    requires mtu > 0 && LoopOk(l, m, mtu)
    ensures !r.done ==> LoopOk(r, m, mtu)
  {
    match l.phase
    case Writing =>
      var out := l.out + [NextFrag(l, m, a, mtu)];
      if l.rem <= mtu then Loop(0, l.rem, Writing, out, true) else l.(phase := Advancing, out := out)
    case Advancing => l.(offs := l.offs + mtu, phase := Measuring)
    case Measuring => l.(rem := |m| - l.offs, phase := Writing)
  }

  function Rank(p: Phase): nat
  {
    match p case Measuring => 2 case Writing => 1 case Advancing => 0
  }

  /** The loop from here to its end. */
  function Finish(l: Loop, m: Msg, a: Addr, mtu: nat): Loop
    requires mtu > 0 && (l.done || LoopOk(l, m, mtu))
    decreases !l.done, |m| - l.offs, Rank(l.phase)
  {
    if l.done then l else Finish(SubStep(l, m, a, mtu), m, a, mtu)
  }

  /** What the loop, left alone from here, is still going to send. */
  function Left(l: Loop, m: Msg, a: Addr, mtu: nat): (fs: seq<Frag>)
    requires mtu > 0 && LoopOk(l, m, mtu)
  {
    match l.phase
    case Writing =>
      if l.rem <= mtu then [NextFrag(l, m, a, mtu)]
      else [NextFrag(l, m, a, mtu)] + Fragments(a, m[l.offs + mtu..], mtu)
    case Advancing => Fragments(a, m[l.offs + mtu..], mtu)
    case Measuring => Fragments(a, m[l.offs..], mtu)
  }

  /** One sub-step sends what it adds to `out`, and leaves the rest. */
  lemma {:induction false} LeftStep(l: Loop, m: Msg, a: Addr, mtu: nat)
    requires mtu > 0 && LoopOk(l, m, mtu)
    ensures var r := SubStep(l, m, a, mtu);
            var now := if l.phase == Writing then [NextFrag(l, m, a, mtu)] else [];
            && r.out == l.out + now
            && Left(l, m, a, mtu) == now + if r.done then [] else Left(r, m, a, mtu)
  {
    if l.phase == Measuring {
      CutAt(m, l.offs, a, mtu);
      assert m[l.offs..l.offs + (|m| - l.offs)] == m[l.offs..];
    }
  }

  lemma {:induction false} FinishSends(l: Loop, m: Msg, a: Addr, mtu: nat)
    requires mtu > 0 && LoopOk(l, m, mtu)
    ensures Finish(l, m, a, mtu).out == l.out + Left(l, m, a, mtu)
    decreases |m| - l.offs, Rank(l.phase)
  {
    hide Left, Fragments;
    var r := SubStep(l, m, a, mtu);
    LeftStep(l, m, a, mtu);
    if !r.done {
      FinishSends(r, m, a, mtu);
    }
  }

  /** From the start it sends the fragments of the message. */
  lemma {:induction false} StartSends(m: Msg, a: Addr, mtu: nat)
    requires mtu > 0 && m != []
    ensures Left(Start(m), m, a, mtu) == Fragments(a, m, mtu)
  {
    CutAt(m, 0, a, mtu);
    assert m[0..] == m && m[0..|m|] == m;
  }

  // ---------------------------------------------------------------- A reset in the middle

  /** The loop after `k` sub-steps. */
  function After(k: nat, m: Msg, a: Addr, mtu: nat): (l: Loop)
    requires mtu > 0 && m != []
    ensures l.done || LoopOk(l, m, mtu)
    ensures !l.done && l.phase == Writing ==> l.offs + l.rem == |m|
    ensures !l.done && l.phase == Measuring ==> l.offs >= mtu
  {
    if k == 0 then Start(m)
    else
      var l := After(k - 1, m, a, mtu);
      if l.done then l else SubStep(l, m, a, mtu)
  }

  lemma {:induction false} Assoc(s: seq<Frag>, t: seq<Frag>, u: seq<Frag>)
    ensures s + (t + u) == (s + t) + u && [] + u == u
  {
  }

  lemma {:induction false} AfterNext(k: nat, m: Msg, a: Addr, mtu: nat)
    requires mtu > 0 && m != [] && k > 0 && !After(k, m, a, mtu).done
    ensures !After(k - 1, m, a, mtu).done && After(k, m, a, mtu) == SubStep(After(k - 1, m, a, mtu), m, a, mtu)
  {
  }

  /** What was sent and what is left to send are the fragments of the message. */
  lemma {:induction false} AfterSends(k: nat, m: Msg, a: Addr, mtu: nat)
    requires mtu > 0 && m != [] && !After(k, m, a, mtu).done
    ensures var l := After(k, m, a, mtu); l.out + Left(l, m, a, mtu) == Fragments(a, m, mtu)
  {
    if k == 0 {
      StartSends(m, a, mtu);
      Assoc([], [], Fragments(a, m, mtu));
    } else {
      hide Left, Fragments, SubStep, After;
      AfterNext(k, m, a, mtu);
      AfterSends(k - 1, m, a, mtu);
      var p, l := After(k - 1, m, a, mtu), After(k, m, a, mtu);
      LeftStep(p, m, a, mtu);
      var now := if p.phase == Writing then [NextFrag(p, m, a, mtu)] else [];
      Assoc(p.out, now, Left(l, m, a, mtu));
    }
  }

  /** A reset changes nothing that is still to be sent only at offset 0, or if the last fragment is
      about to be written and the message begins as it ends. */
  lemma {:induction false} LeftReset(l: Loop, m: Msg, a: Addr, mtu: nat)
    requires mtu > 0 && LoopOk(l, m, mtu) && (l.phase == Writing ==> l.offs + l.rem == |m|)
    ensures LoopOk(Reset(l), m, mtu)
    ensures Left(Reset(l), m, a, mtu) == Left(l, m, a, mtu)
       <==> l.offs == 0 || (l.phase == Writing && l.rem <= mtu && m[..l.rem] == m[l.offs..])
  {
    if l.phase == Writing && l.rem <= mtu {
      assert m[0..l.rem] == m[..l.rem] && m[l.offs..l.offs + l.rem] == m[l.offs..];
    } else if l.phase == Writing {
      assert m[0..] == m;
      CutAt(m, 0, a, mtu);
      CutAt(m, l.offs, a, mtu);
      SamePayload(m, m[l.offs..], a, mtu);
    } else if l.phase == Advancing {
      SamePayload(m[mtu..], m[l.offs + mtu..], a, mtu);
    } else {
      assert m[0..] == m;
      SamePayload(m, m[l.offs..], a, mtu);
    }
  }

  lemma {:induction false} SamePayload(m: Msg, n: Msg, a: Addr, mtu: nat)
    requires mtu > 0
    ensures Fragments(a, m, mtu) == Fragments(a, n, mtu) ==> m == n
  {
    FragmentsPayload(a, m, mtu);
    FragmentsPayload(a, n, mtu);
  }

  /** A reset between any two accesses of the offset leaves the fragments of the message right if
      and only if nothing was sent and the offset not moved, or only the last fragment is left and
      the message begins as it ends. */
  lemma {:induction false} ResetExact(k: nat, m: Msg, a: Addr, mtu: nat)
    requires mtu > 0 && m != [] && !After(k, m, a, mtu).done
    ensures var l := After(k, m, a, mtu);
            LoopOk(Reset(l), m, mtu) &&
            (Finish(Reset(l), m, a, mtu).out == Fragments(a, m, mtu)
             <==> l.offs == 0 || (l.phase == Writing && l.rem <= mtu && m[..l.rem] == m[l.offs..]))
  {
    hide Left, Fragments, Finish, After;
    var l := After(k, m, a, mtu);
    AfterSends(k, m, a, mtu);
    LeftReset(l, m, a, mtu);
    FinishSends(Reset(l), m, a, mtu);
    SameTail(l.out, Left(Reset(l), m, a, mtu), Left(l, m, a, mtu));
  }

  lemma {:induction false} SameTail(s: seq<Frag>, t: seq<Frag>, u: seq<Frag>)
    ensures s + t == s + u <==> t == u
  {
    assert (s + t)[|s|..] == t && (s + u)[|s|..] == u;
  }

  /** The fragments are right wherever the reset falls. */
  ghost predicate ResetHarmless(m: Msg, a: Addr, mtu: nat)
    requires mtu > 0 && m != []
  {
    forall k :: var l := After(k, m, a, mtu);
                !l.done && LoopOk(Reset(l), m, mtu) ==> Finish(Reset(l), m, a, mtu).out == Fragments(a, m, mtu)
  }

  lemma {:induction false} OneFragmentStays(k: nat, m: Msg, a: Addr, mtu: nat)
    requires mtu > 0 && m != [] && |m| <= mtu
    ensures var l := After(k, m, a, mtu); l.done || l.offs == 0
    ensures After(k, m, a, mtu) == if k == 0 then Start(m) else After(1, m, a, mtu)
    ensures After(1, m, a, mtu).done
  {
    if k > 0 {
      OneFragmentStays(k - 1, m, a, mtu);
    }
  }

  /** A message is safe from resets if and only if it is one fragment. */
  lemma {:induction false} ResetHarmlessExact(m: Msg, a: Addr, mtu: nat)
    requires mtu > 0 && m != []
    ensures ResetHarmless(m, a, mtu) <==> |m| <= mtu
  {
    hide Finish, Fragments;
    if |m| <= mtu {
      forall k | !After(k, m, a, mtu).done && LoopOk(Reset(After(k, m, a, mtu)), m, mtu)
        ensures Finish(Reset(After(k, m, a, mtu)), m, a, mtu).out == Fragments(a, m, mtu)
      {
        OneFragmentStays(k, m, a, mtu);
        ResetExact(k, m, a, mtu);
      }
    } else {
      SecondAccess(m, a, mtu);
      ResetExact(2, m, a, mtu);
    }
  }

  /** The first fragment is written, and the offset moved on. */
  lemma {:induction false} FirstSubSteps(m: Msg, a: Addr, mtu: nat)
    requires mtu > 0 && |m| > mtu
    ensures var f := Frag(a, false, m[..mtu]);
            && SubStep(Start(m), m, a, mtu) == Loop(0, |m|, Advancing, [f], false)
            && SubStep(Loop(0, |m|, Advancing, [f], false), m, a, mtu) == Loop(mtu, |m|, Measuring, [f], false)
  {
    assert m[0..mtu] == m[..mtu] && [] + [Frag(a, false, m[..mtu])] == [Frag(a, false, m[..mtu])];
  }

  lemma {:induction false} SecondAccess(m: Msg, a: Addr, mtu: nat)
    requires mtu > 0 && |m| > mtu
    ensures After(2, m, a, mtu) == Loop(mtu, |m|, Measuring, [Frag(a, false, m[..mtu])], false)
  {
    FirstSubSteps(m, a, mtu);
    assert After(0, m, a, mtu) == Start(m);
    assert After(1, m, a, mtu) == SubStep(Start(m), m, a, mtu);
  }
}

/** What travels between the host and the firmware: client messages, the fragments
    they are cut into, and the meaning of a stream of fragments. */
module Wire {

  type Byte = x: int | 0 <= x < 0x100
  type Msg = seq<Byte>

  /** A client connection: host_client_id and fw_client_id of `struct ishtp_cl`. */
  datatype Addr = Addr(host: nat, fw: nat)

  /** One ISHTP fragment. Its header length is `|data|`, its msg_complete bit `complete`. */
  datatype Frag = Frag(addr: Addr, complete: bool, data: Msg)

  // ---------------------------------------------------------------- Cutting a message

  /** The fragments of one message: full ones, then one non-full or exactly full last one. */
  function Fragments(a: Addr, m: Msg, mtu: nat): (fs: seq<Frag>)
    requires mtu > 0
    decreases |m|
  {
    if |m| <= mtu then [Frag(a, true, m)]
    else [Frag(a, false, m[..mtu])] + Fragments(a, m[mtu..], mtu)
  }

  function FragmentsOfAll(a: Addr, ms: seq<Msg>, mtu: nat): (fs: seq<Frag>)
    requires mtu > 0
  {
    if ms == [] then [] else FragmentsOfAll(a, ms[..|ms| - 1], mtu) + Fragments(a, ms[|ms| - 1], mtu)
  }

  function Payload(fs: seq<Frag>): (m: Msg)
  {
    if fs == [] then [] else fs[0].data + Payload(fs[1..])
  }

  /** The part of a stream that belongs to one connection. */
  function Project(fs: seq<Frag>, a: Addr): (mine: seq<Frag>)
    ensures forall f :: f in mine ==> f.addr == a
  {
    if fs == [] then []
    else
      var rest := Project(fs[..|fs| - 1], a);
      if fs[|fs| - 1].addr == a then rest + [fs[|fs| - 1]] else rest
  }

  // ---------------------------------------------------------------- Joining fragments

  /** What a receiver has got so far: whole messages, and the bytes of the current one. */
  datatype Inbox = Inbox(done: seq<Msg>, cur: Msg)

  const EMPTY_INBOX := Inbox([], [])

  function Absorb(b: Inbox, f: Frag): Inbox
  {
    if f.complete then Inbox(b.done + [b.cur + f.data], []) else Inbox(b.done, b.cur + f.data)
  }

  function Feed(b: Inbox, fs: seq<Frag>): Inbox
  {
    if fs == [] then b else Absorb(Feed(b, fs[..|fs| - 1]), fs[|fs| - 1])
  }

  // ---------------------------------------------------------------- Facts

  lemma {:induction false} ProjectConcat(s: seq<Frag>, t: seq<Frag>, a: Addr)
    ensures Project(s + t, a) == Project(s, a) + Project(t, a)
  {
    if t == [] {
      assert s + t == s;
    } else {
      assert (s + t)[..|s + t| - 1] == s + t[..|t| - 1];
      ProjectConcat(s, t[..|t| - 1], a);
    }
  }

  lemma {:induction false} ProjectOwn(s: seq<Frag>, a: Addr)
    requires forall f :: f in s ==> f.addr == a
    ensures Project(s, a) == s
  {
    if s != [] {
      ProjectOwn(s[..|s| - 1], a);
      assert s == s[..|s| - 1] + [s[|s| - 1]];
    }
  }

  lemma {:induction false} ProjectForeign(s: seq<Frag>, a: Addr)
    requires forall f :: f in s ==> f.addr != a
    ensures Project(s, a) == []
  {
    if s != [] {
      ProjectForeign(s[..|s| - 1], a);
    }
  }

  lemma {:induction false} FeedSingle(b: Inbox, f: Frag)
    ensures Feed(b, [f]) == Absorb(b, f)
  {
    assert [f][..0] == [] && Feed(b, []) == b;
  }

  lemma {:induction false} FeedConcat(b: Inbox, s: seq<Frag>, t: seq<Frag>)
    ensures Feed(b, s + t) == Feed(Feed(b, s), t)
  {
    if t == [] {
      assert s + t == s;
    } else {
      assert (s + t)[..|s + t| - 1] == s + t[..|t| - 1];
      FeedConcat(b, s, t[..|t| - 1]);
    }
  }

  /** Fragments that follow the cutting rule: every one but the last is full and unmarked,
      only the last is marked complete, and a non-empty message has no empty fragment. */
  predicate WellCut(fs: seq<Frag>, a: Addr, mtu: nat, nonEmpty: bool)
  {
    && |fs| > 0
    && (forall k :: 0 <= k < |fs| ==> fs[k].addr == a && |fs[k].data| <= mtu && (nonEmpty ==> fs[k].data != []))
    && (forall k :: 0 <= k < |fs| - 1 ==> !fs[k].complete && |fs[k].data| == mtu)
    && fs[|fs| - 1].complete
  }

  lemma {:induction false} FragmentsShape(a: Addr, m: Msg, mtu: nat)
    requires mtu > 0
    ensures WellCut(Fragments(a, m, mtu), a, mtu, m != [])
    decreases |m|
  {
    if |m| > mtu {
      FragmentsShape(a, m[mtu..], mtu);
      var rest := Fragments(a, m[mtu..], mtu);
      var fs := Fragments(a, m, mtu);
      assert forall k :: 1 <= k < |fs| ==> fs[k] == rest[k - 1];
    }
  }

  lemma {:induction false} FragmentsPayload(a: Addr, m: Msg, mtu: nat)
    requires mtu > 0
    ensures Payload(Fragments(a, m, mtu)) == m
    decreases |m|
  {
    if |m| > mtu {
      FragmentsPayload(a, m[mtu..], mtu);
      assert Fragments(a, m, mtu)[1..] == Fragments(a, m[mtu..], mtu);
      assert m[..mtu] + m[mtu..] == m;
    } else {
      assert Payload([Frag(a, true, m)]) == m + Payload([]);
    }
  }

  /** How many fragments a message needs: its size over the mtu, rounded up, at least one. */
  lemma {:induction false} FragmentCount(a: Addr, m: Msg, mtu: nat)
    requires mtu > 0
    ensures var n := |Fragments(a, m, mtu)|;
            n >= 1 && |m| <= n * mtu && (m != [] ==> (n - 1) * mtu < |m|)
    decreases |m|
  {
    if |m| > mtu {
      FragmentCount(a, m[mtu..], mtu);
      var n := |Fragments(a, m[mtu..], mtu)|;
      assert (n + 1) * mtu == n * mtu + mtu;
      assert (n - 1 + 1) * mtu == (n - 1) * mtu + mtu;
    }
  }

  /** Joining the fragments of a message onto what was already received appends the message. */
  lemma {:induction false} FeedFragments(b: Inbox, a: Addr, m: Msg, mtu: nat)
    requires mtu > 0
    ensures Feed(b, Fragments(a, m, mtu)) == Inbox(b.done + [b.cur + m], [])
    decreases |m|
  {
    if |m| <= mtu {
      assert Feed(b, [Frag(a, true, m)]) == Absorb(Feed(b, []), Frag(a, true, m));
    } else {
      var head := [Frag(a, false, m[..mtu])];
      FeedConcat(b, head, Fragments(a, m[mtu..], mtu));
      assert Feed(b, head) == Absorb(Feed(b, []), head[0]);
      FeedFragments(Feed(b, head), a, m[mtu..], mtu);
      assert b.cur + m[..mtu] + m[mtu..] == b.cur + m;
    }
  }

  /** Cutting any messages into fragments and joining them again is the identity. */
  lemma {:induction false} RoundTrip(a: Addr, ms: seq<Msg>, mtu: nat)
    requires mtu > 0
    ensures Feed(EMPTY_INBOX, FragmentsOfAll(a, ms, mtu)) == Inbox(ms, [])
  {
    if ms != [] {
      var init, last := ms[..|ms| - 1], ms[|ms| - 1];
      RoundTrip(a, init, mtu);
      FeedConcat(EMPTY_INBOX, FragmentsOfAll(a, init, mtu), Fragments(a, last, mtu));
      FeedFragments(Inbox(init, []), a, last, mtu);
      assert [] + last == last;
      assert init + [last] == ms;
    }
  }

  /** More fragments never take back a message that was completed. */
  lemma {:induction false} FeedGrows(b: Inbox, fs: seq<Frag>)
    ensures b.done <= Feed(b, fs).done
  {
    if fs != [] {
      FeedGrows(b, fs[..|fs| - 1]);
    }
  }

  /** A receiver that has seen any prefix of the stream holds a prefix of the messages. */
  lemma {:induction false} PrefixRoundTrip(a: Addr, ms: seq<Msg>, mtu: nat, seen: seq<Frag>)
    requires mtu > 0 && seen <= FragmentsOfAll(a, ms, mtu)
    ensures Feed(EMPTY_INBOX, seen).done <= ms
  {
    var all := FragmentsOfAll(a, ms, mtu);
    RoundTrip(a, ms, mtu);
    assert all == seen + all[|seen|..];
    FeedConcat(EMPTY_INBOX, seen, all[|seen|..]);
    FeedGrows(Feed(EMPTY_INBOX, seen), all[|seen|..]);
  }

  lemma {:induction false} FragmentsOfAllAppend(a: Addr, ms: seq<Msg>, m: Msg, mtu: nat)
    requires mtu > 0
    ensures FragmentsOfAll(a, ms + [m], mtu) == FragmentsOfAll(a, ms, mtu) + Fragments(a, m, mtu)
  {
  }

  /** The fragments from `offs` on begin with the one there. */
  lemma {:induction false} CutAt(m: Msg, offs: nat, a: Addr, mtu: nat)
    requires mtu > 0 && offs <= |m|
    ensures offs + mtu < |m| ==>
              Fragments(a, m[offs..], mtu) == [Frag(a, false, m[offs..offs + mtu])] + Fragments(a, m[offs + mtu..], mtu)
    ensures offs + mtu >= |m| ==> Fragments(a, m[offs..], mtu) == [Frag(a, true, m[offs..])]
  {
    if offs + mtu < |m| {
      assert m[offs..][..mtu] == m[offs..offs + mtu];
      assert m[offs..][mtu..] == m[offs + mtu..];
    }
  }
}

/** Receiving for all clients at once: they share one read list, in which a fragment finds its
    buffer by address. Seen by one client, the shared list behaves as a list of its own. */
module RxDevice {
  import opened Wire
  import opened Lists
  import opened RxEngine
  import opened RxRuns

  /** An element of `dev->read_list`: a posted buffer and the client it belongs to. */
  datatype Entry = Entry(addr: Addr, rb: Rb)

  function Mine(list: seq<Entry>, a: Addr): (rbs: seq<Rb>)
  {
    if list == [] then []
    else Mine(list[..|list| - 1], a) + if list[|list| - 1].addr == a then [list[|list| - 1].rb] else []
  }

  /** The first element of that client, or the length of the list. */
  function FirstOf(list: seq<Entry>, a: Addr): (i: nat)
    ensures i <= |list|
    ensures i < |list| ==> list[i].addr == a
    ensures forall k :: 0 <= k < i ==> list[k].addr != a
  {
    if list == [] || list[0].addr == a then 0 else 1 + FirstOf(list[1..], a)
  }

  /** What recv_ishtp_cl_msg does to the shared list. */
  function RecvList(list: seq<Entry>, free: seq<Rb>, a: Addr, f: Frag, slack: seq<Byte>): seq<Entry>
    requires |slack| <= 3
  {
    var i := FirstOf(list, a);
    if i == |list| then list
    else if !Takes(list[i].rb.val, |f.data|) then RemoveAt(list, i)
    else if !f.complete then list[i := Entry(a, Node(list[i].rb.id, Store(list[i].rb.val, f.data, slack)))]
    else RemoveAt(list, i) + if free == [] then [] else [Entry(a, Emptied(free[0]))]
  }

  // ---------------------------------------------------------------- The shared list

  lemma {:induction false} MineConcat(s: seq<Entry>, t: seq<Entry>, a: Addr)
    ensures Mine(s + t, a) == Mine(s, a) + Mine(t, a)
  {
    if t == [] {
      assert s + t == s;
    } else {
      assert (s + t)[..|s + t| - 1] == s + t[..|t| - 1];
      MineConcat(s, t[..|t| - 1], a);
    }
  }

  lemma {:induction false} MineOne(e: Entry, a: Addr)
    ensures Mine([e], a) == if e.addr == a then [e.rb] else []
  {
  }

  lemma {:induction false} MineNone(s: seq<Entry>, a: Addr)
    requires forall k :: 0 <= k < |s| ==> s[k].addr != a
    ensures Mine(s, a) == []
  {
    if s != [] {
      MineNone(s[..|s| - 1], a);
    }
  }

  /** Everything before, at, and after one element. */
  lemma {:induction false} MineSplit(list: seq<Entry>, i: nat, e: Entry, b: Addr)
    requires i < |list|
    ensures Mine(list, b) == Mine(list[..i], b) + (if list[i].addr == b then [list[i].rb] else []) + Mine(list[i + 1..], b)
    ensures Mine(RemoveAt(list, i), b) == Mine(list[..i], b) + Mine(list[i + 1..], b)
    ensures Mine(list[i := e], b) == Mine(list[..i], b) + (if e.addr == b then [e.rb] else []) + Mine(list[i + 1..], b)
  {
    var front, back := list[..i], list[i + 1..];
    assert list == front + [list[i]] + back;
    assert list[i := e] == front + [e] + back;
    MineConcat(front, [list[i]], b);
    MineConcat(front + [list[i]], back, b);
    MineConcat(front, [e], b);
    MineConcat(front + [e], back, b);
    MineConcat(front, back, b);
    MineOne(list[i], b);
    MineOne(e, b);
  }

  /** The first element of a client in the shared list is the first of its own list. */
  lemma {:induction false} FirstIsFirst(list: seq<Entry>, a: Addr)
    ensures var i := FirstOf(list, a);
            if i == |list| then Mine(list, a) == []
            else Mine(list, a) == [list[i].rb] + Mine(list[i + 1..], a) && Mine(list[..i], a) == []
  {
    var i := FirstOf(list, a);
    if i == |list| {
      MineNone(list, a);
    } else {
      MineNone(list[..i], a);
      MineSplit(list, i, list[i], a);
    }
  }

  /** A fragment does to its client's buffers what RxEngine says, and nothing to the others'. */
  lemma {:induction false} RecvListMine(list: seq<Entry>, s: Rx, a: Addr, f: Frag, slack: seq<Byte>, accept: bool, b: Addr)
    requires |slack| <= 3 && s.posted == Mine(list, a)
    ensures Mine(RecvList(list, s.free, a, f, slack), b)
         == if b == a then Receive(s, f, slack, accept).posted else Mine(list, b)
  {
    FirstIsFirst(list, a);
    if FirstOf(list, a) < |list| {
      if b == a {
        RecvOwn(list, s, a, f, slack, accept);
      } else {
        RecvOther(list, s.free, a, f, slack, b);
      }
    }
  }

  lemma {:induction false} RecvOther(list: seq<Entry>, free: seq<Rb>, a: Addr, f: Frag, slack: seq<Byte>, b: Addr)
    requires |slack| <= 3 && FirstOf(list, a) < |list| && b != a
    ensures Mine(RecvList(list, free, a, f, slack), b) == Mine(list, b)
  {
    var i := FirstOf(list, a);
    var rb := list[i].rb;
    if !Takes(rb.val, |f.data|) {
      MineSplit(list, i, list[i], b);
    } else {
      MineSplit(list, i, Entry(a, Node(rb.id, Store(rb.val, f.data, slack))), b);
      RefillList(RemoveAt(list, i), free, a, b);
    }
  }

  lemma {:induction false} RefillList(list: seq<Entry>, free: seq<Rb>, a: Addr, b: Addr)
    ensures Mine(list + (if free == [] then [] else [Entry(a, Emptied(free[0]))]), b)
         == Mine(list, b) + if free == [] || b != a then [] else [Emptied(free[0])]
  {
    if free == [] {
      assert list + [] == list;
    } else {
      MineConcat(list, [Entry(a, Emptied(free[0]))], b);
      MineOne(Entry(a, Emptied(free[0])), b);
    }
  }

  lemma {:induction false} ReceivePosted(s: Rx, rb: Rb, rest: seq<Rb>, f: Frag, slack: seq<Byte>, accept: bool)
    requires |slack| <= 3 && s.posted == [rb] + rest
    ensures Receive(s, f, slack, accept).posted
         == if !Takes(rb.val, |f.data|) then rest
            else if !f.complete then [Node(rb.id, Store(rb.val, f.data, slack))] + rest
            else rest + if s.free == [] then [] else [Emptied(s.free[0])]
  {
  }

  lemma {:induction false} RecvOwn(list: seq<Entry>, s: Rx, a: Addr, f: Frag, slack: seq<Byte>, accept: bool)
    requires |slack| <= 3 && s.posted == Mine(list, a) && FirstOf(list, a) < |list|
    ensures Mine(RecvList(list, s.free, a, f, slack), a) == Receive(s, f, slack, accept).posted
  {
    var i := FirstOf(list, a);
    FirstIsFirst(list, a);
    ReceivePosted(s, list[i].rb, Mine(list[i + 1..], a), f, slack, accept);
    RecvListOwn(list, s.free, a, f, slack);
  }

  lemma {:induction false} RecvListOwn(list: seq<Entry>, free: seq<Rb>, a: Addr, f: Frag, slack: seq<Byte>)
    requires |slack| <= 3 && FirstOf(list, a) < |list|
    ensures var (rb, rest) := (list[FirstOf(list, a)].rb, Mine(list[FirstOf(list, a) + 1..], a));
            Mine(RecvList(list, free, a, f, slack), a) == (
              if !Takes(rb.val, |f.data|) then rest
              else if !f.complete then [Node(rb.id, Store(rb.val, f.data, slack))] + rest
              else rest + if free == [] then [] else [Emptied(free[0])])
  {
    hide Mine, FirstOf;
    var i := FirstOf(list, a);
    FirstIsFirst(list, a);
    var rb := list[i].rb;
    if !Takes(rb.val, |f.data|) {
      MineSplit(list, i, list[i], a);
    } else {
      MineSplit(list, i, Entry(a, Node(rb.id, Store(rb.val, f.data, slack))), a);
      RefillList(RemoveAt(list, i), free, a, a);
    }
  }

  /** Where the buffer with this identity stands in the shared list. */
  function EntryOf(list: seq<Entry>, a: Addr, id: nat): (i: nat)
    ensures i <= |list|
    ensures i < |list| ==> list[i].addr == a && list[i].rb.id == id
    ensures forall k :: 0 <= k < i ==> list[k].addr != a || list[k].rb.id != id
  {
    if list == [] || (list[0].addr == a && list[0].rb.id == id) then 0 else 1 + EntryOf(list[1..], a, id)
  }

  /** list_del on the shared list. */
  function UndoList(list: seq<Entry>, a: Addr, id: nat): seq<Entry>
  {
    if EntryOf(list, a, id) < |list| then RemoveAt(list, EntryOf(list, a, id)) else list
  }

  lemma {:induction false} MineLacks(list: seq<Entry>, a: Addr, id: nat)
    requires forall k :: 0 <= k < |list| ==> list[k].addr != a || list[k].rb.id != id
    ensures forall k :: 0 <= k < |Mine(list, a)| ==> Mine(list, a)[k].id != id
  {
    if list != [] {
      MineLacks(list[..|list| - 1], a, id);
    }
  }

  lemma {:induction false} UndoListMine(list: seq<Entry>, a: Addr, id: nat, b: Addr)
    ensures Mine(UndoList(list, a, id), b) == if b == a then Without(Mine(list, a), id) else Mine(list, b)
  {
    var i := EntryOf(list, a, id);
    if i == |list| {
      MineLacks(list, a, id);
    } else {
      MineSplit(list, i, list[i], b);
      if b == a {
        MineLacks(list[..i], a, id);
        RemoveFirstWith(Mine(list[..i], a), list[i].rb, Mine(list[i + 1..], a));
      }
    }
  }

  lemma {:induction false} RemoveFirstWith(s: seq<Rb>, rb: Rb, t: seq<Rb>)
    requires forall k :: 0 <= k < |s| ==> s[k].id != rb.id
    ensures Without(s + [rb] + t, rb.id) == s + t
  {
    var all := s + [rb] + t;
    assert all[|s|] == rb;
    assert forall k :: 0 <= k < |s| ==> all[k] == s[k];
    assert IndexOf(all, rb.id) == |s|;
    assert all[..|s|] == s && all[|s| + 1..] == t;
  }

  // ---------------------------------------------------------------- The device

  /** The shared list, and each client without its posted buffers, which are on that list. */
  datatype Dev = Dev(list: seq<Entry>, cls: map<Addr, Rx>, wire: seq<Frag>)

  function View(d: Dev, a: Addr): Rx
    requires a in d.cls
  {
    d.cls[a].(posted := Mine(d.list, a))
  }

  datatype DevEvent = On(addr: Addr, e: Event)

  predicate Possible(d: Dev, x: DevEvent)
  {
    x.addr in d.cls && Enabled(View(d, x.addr), x.e) && (x.e.Recv? ==> x.e.f.addr == x.addr)
  }

  function NextList(list: seq<Entry>, s: Rx, a: Addr, e: Event): seq<Entry>
    requires Enabled(s, e)
  {
    match e
    case Post(i) => list + [Entry(a, Emptied(s.popped[i]))]
    case Undo(i) => UndoList(list, a, s.undoing[i])
    case Recv(f, slack, _) => RecvList(list, s.free, a, f, slack)
    case _ => list
  }

  function DevNext(d: Dev, x: DevEvent): Dev
  {
    if !Possible(d, x) then d
    else
      var s := View(d, x.addr);
      Dev(NextList(d.list, s, x.addr, x.e),
          d.cls[x.addr := Apply(s, x.e).(posted := [])],
          if x.e.Recv? then d.wire + [x.e.f] else d.wire)
  }

  function DevRun(d: Dev, xs: seq<DevEvent>): Dev
  {
    if xs == [] then d else DevNext(DevRun(d, xs[..|xs| - 1]), xs[|xs| - 1])
  }

  lemma {:induction false} NextListMine(list: seq<Entry>, s: Rx, a: Addr, e: Event, b: Addr)
    requires Enabled(s, e) && s.posted == Mine(list, a)
    ensures Mine(NextList(list, s, a, e), b) == if b == a then Apply(s, e).posted else Mine(list, b)
  {
    match e
    case Post(i) =>
      MineConcat(list, [Entry(a, Emptied(s.popped[i]))], b);
      MineOne(Entry(a, Emptied(s.popped[i])), b);
    case Undo(i) => UndoListMine(list, a, s.undoing[i], b);
    case Recv(f, slack, accept) => RecvListMine(list, s, a, f, slack, accept, b);
    case _ =>
  }

  /** One step of the device is one step of the client it concerns, and leaves all others as
      they were. */
  lemma {:induction false} DevStep(d: Dev, x: DevEvent, b: Addr)
    requires b in d.cls
    ensures DevNext(d, x).cls.Keys == d.cls.Keys
    ensures View(DevNext(d, x), b) == if b == x.addr && Possible(d, x) then Apply(View(d, b), x.e) else View(d, b)
  {
    if Possible(d, x) {
      NextListMine(d.list, View(d, x.addr), x.addr, x.e, b);
    }
  }

  /** The events of a run that concern one client and can happen. */
  function EventsOf(d: Dev, xs: seq<DevEvent>, a: Addr): seq<Event>
  {
    if xs == [] then []
    else
      var before, x := xs[..|xs| - 1], xs[|xs| - 1];
      if x.addr == a && Possible(DevRun(d, before), x) then EventsOf(d, before, a) + [x.e] else EventsOf(d, before, a)
  }

  /** Every run of the device is, seen by one client, a run of that client alone. */
  lemma {:induction false} DevRunView(d: Dev, xs: seq<DevEvent>, a: Addr)
    requires a in d.cls
    ensures DevRun(d, xs).cls.Keys == d.cls.Keys
    ensures View(DevRun(d, xs), a) == Run(View(d, a), EventsOf(d, xs, a))
  {
    if xs != [] {
      var before, x := xs[..|xs| - 1], xs[|xs| - 1];
      DevRunView(d, before, a);
      DevStep(DevRun(d, before), x, a);
      if x.addr == a && Possible(DevRun(d, before), x) {
        RunAppend(View(d, a), EventsOf(d, before, a), x.e);
      }
    }
  }

  /** The fragments of one client in the stream of all are those it has seen. */
  lemma {:induction false} WireView(d: Dev, xs: seq<DevEvent>, a: Addr)
    requires a in d.cls && d.cls[a].wire == Project(d.wire, a)
    ensures a in DevRun(d, xs).cls
    ensures View(DevRun(d, xs), a).wire == Project(DevRun(d, xs).wire, a)
  {
    if xs != [] {
      var before, x := xs[..|xs| - 1], xs[|xs| - 1];
      DevRunView(d, before, a);
      WireView(d, before, a);
      DevRunView(d, xs, a);
      WireStep(DevRun(d, before), x, a);
    }
  }

  lemma {:induction false} WireStep(t: Dev, x: DevEvent, a: Addr)
    requires a in t.cls && View(t, a).wire == Project(t.wire, a) && a in DevNext(t, x).cls
    ensures View(DevNext(t, x), a).wire == Project(DevNext(t, x).wire, a)
  {
    DevStep(t, x, a);
    if Possible(t, x) {
      ApplyWire(View(t, x.addr), x.e);
      if x.e.Recv? {
        assert (t.wire + [x.e.f])[..|t.wire|] == t.wire;
      }
    }
  }

  lemma {:induction false} ApplyWire(s: Rx, e: Event)
    requires Enabled(s, e)
    ensures Apply(s, e).wire == if e.Recv? then s.wire + [e.f] else s.wire
  {
  }

  /** The fragments that came for a client, with its address, while the firmware had a message under
      way for it or a credit. */
  function HeardByAll(d: Dev, xs: seq<DevEvent>): (fs: seq<Frag>)
  {
    if xs == [] then []
    else
      var (t, x) := (DevRun(d, xs[..|xs| - 1]), xs[|xs| - 1]);
      HeardByAll(d, xs[..|xs| - 1])
      + if x.e.Recv? && x.addr in t.cls && x.e.f.addr == x.addr && |x.e.slack| <= 3
           && (t.cls[x.addr].fwBusy || t.cls[x.addr].fwCredits > 0) then [x.e.f] else []
  }

  lemma {:induction false} HeardByAllExact(d: Dev, xs: seq<DevEvent>)
    ensures DevRun(d, xs).wire == d.wire + HeardByAll(d, xs)
  {
    if xs != [] {
      HeardByAllExact(d, xs[..|xs| - 1]);
    }
  }

  predicate FreshDev(d: Dev, pools: map<Addr, set<nat>>)
  {
    && d.list == [] && d.wire == [] && pools.Keys == d.cls.Keys
    && forall a :: a in d.cls ==> Fresh(d.cls[a], pools[a])
  }

  /** Of one client: its ring takes the messages of its fragments in the common stream, and its
      requests are refused only while its read starts do not overlap. */
  predicate ClientSupported(d: Dev, xs: seq<DevEvent>, pools: map<Addr, set<nat>>, a: Addr, cap: nat)
  {
    && FreshDev(d, pools) && a in d.cls && Roomy(d.cls[a].free, cap)
    && Sized(Project(DevRun(d, xs).wire, a), cap)
    && (NoneRefused(EventsOf(d, xs, a)) || NoOverlap(View(d, a), EventsOf(d, xs, a)))
  }

  lemma {:induction false} ClientRunSupported(d: Dev, xs: seq<DevEvent>, pools: map<Addr, set<nat>>, a: Addr, cap: nat)
    requires ClientSupported(d, xs, pools, a, cap)
    ensures Supported(View(d, a), EventsOf(d, xs, a), pools[a], cap)
    ensures a in DevRun(d, xs).cls
    ensures View(DevRun(d, xs), a) == Run(View(d, a), EventsOf(d, xs, a))
    ensures View(DevRun(d, xs), a).wire == Project(DevRun(d, xs).wire, a)
  {
    assert View(d, a) == d.cls[a];
    DevRunView(d, xs, a);
    WireView(d, xs, a);
  }

  /** Whatever the interleaving of fragments and calls of all clients: what each client is
      given are exactly the messages that its own fragments in the common stream make up. */
  lemma {:induction false} DeviceDelivery(d: Dev, xs: seq<DevEvent>, pools: map<Addr, set<nat>>, a: Addr, cap: nat)
    requires ClientSupported(d, xs, pools, a, cap)
    ensures a in DevRun(d, xs).cls
    ensures var t := View(DevRun(d, xs), a);
            && Feed(EMPTY_INBOX, Project(DevRun(d, xs).wire, a)) == Inbox(t.delivered, Partial(t))
            && t.creds <= 1 && t.creds <= |t.posted| && PlacesInv(t, pools[a])
  {
    hide Feed, Project, Run, DevRun, EventsOf, View, Supported, Partial;
    ClientRunSupported(d, xs, pools, a, cap);
    ReceiveSafety(View(d, a), EventsOf(d, xs, a), pools[a], cap);
  }

  /** Fragmenting and reassembling is the identity for every client of the device whose messages
      its buffers can take. */
  lemma {:induction false} DeviceRoundTrip(d: Dev, xs: seq<DevEvent>, pools: map<Addr, set<nat>>, a: Addr, cap: nat,
                                           ms: seq<Msg>, mtu: nat)
    requires FreshDev(d, pools) && a in d.cls && Roomy(d.cls[a].free, cap) && mtu > 0 && Within(ms, cap)
    requires NoneRefused(EventsOf(d, xs, a)) || NoOverlap(View(d, a), EventsOf(d, xs, a))
    requires Project(DevRun(d, xs).wire, a) <= FragmentsOfAll(a, ms, mtu)
    ensures a in DevRun(d, xs).cls && View(DevRun(d, xs), a).delivered <= ms
    ensures Project(DevRun(d, xs).wire, a) == FragmentsOfAll(a, ms, mtu) ==> View(DevRun(d, xs), a).delivered == ms
  {
    hide Feed, Project, Run, DevRun, EventsOf, View, FragmentsOfAll;
    SizedStream(a, ms, mtu, cap, Project(DevRun(d, xs).wire, a));
    DeviceDelivery(d, xs, pools, a, cap);
    PrefixRoundTrip(a, ms, mtu, Project(DevRun(d, xs).wire, a));
    RoundTrip(a, ms, mtu);
  }
}

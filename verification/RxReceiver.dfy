/** The receive path as the driver runs it: list walks and in-place updates of the device's
    read list and of each client's free list, in-process list and credit. */
module RxReceiver {
  import opened Wire
  import opened Lists
  import opened Options
  import opened RxEngine
  import opened RxDevice

  /** The receive side of `struct ishtp_cl`. */
  datatype Cl = Cl(connected: bool, free: seq<Rb>, inProcess: seq<Rb>, creds: nat)

  datatype History = History(fwCredits: nat, delivered: seq<Msg>)

  const IPC_PAYLOAD_SIZE := 128

  /** An uninterrupted ishtp_cl_read_start; `accept` is whether the IPC queue takes the
      flow-control message. */
  function ReadStartCall(s: Rx, accept: bool): Rx
  {
    if s.free == [] then s
    else
      var rb := Emptied(s.free[0]);
      if s.creds != 0 || accept then Credited(s.(free := s.free[1..], posted := s.posted + [rb]))
      else s.(free := s.free[1..] + [rb])
  }

  /** An uninterrupted ishtp_cl_io_rb_recycle; `up` is whether the device is enabled, the
      client connected and its firmware client in the table, without which ishtp_cl_read_start does nothing. */
  function RecycleCall(s: Rx, rb: Rb, accept: bool, up: bool): Rx
  {
    var t := s.(free := s.free + [rb]);
    if s.creds == 0 && up then ReadStartCall(t, accept) else t
  }

  /** recv_ishtp_cl_msg with the recycle that an overrun makes it do. */
  function ReceiveCall(s: Rx, f: Frag, slack: seq<Byte>, accept: bool, up: bool): Rx
    requires |slack| <= 3
  {
    if s.posted != [] && Size(s.posted[0].val) == 0 then s.(posted := s.posted[1..])
    else if Oversize(s, f) then RecycleCall(s.(posted := s.posted[1..]), s.posted[0], accept, up)
    else Receive(s, f, slack, accept)
  }

  /** Nobody is inside a call. */
  predicate AtRest(s: Rx)
  {
    s.popped == [] && s.requesting == s.undoing == [] && s.checking == s.starting == 0
  }

  /** The uninterrupted calls are runs of the atomic steps. */
  lemma {:induction false} ReadStartCallIsRun(s: Rx, accept: bool)
    requires AtRest(s)
    ensures (accept || s.creds != 0) ==>
              ReadStartCall(s, accept) == Next(Next(Next(s.(starting := 1), Pop), Post(0)), Request(0))
  {
  }

  lemma {:induction false} ReadStartRefusedIsRun(s: Rx, pool: set<nat>)
    requires AtRest(s) && s.free != [] && s.creds == 0 && PlacesInv(s, pool)
    ensures ReadStartCall(s, false) == Next(Next(Next(Next(s.(starting := 1), Pop), Post(0)), Refuse(0)), Undo(0))
  {
    var rb := s.free[0];
    var s1 := s.(free := s.free[1..], popped := [rb]);
    assert Next(s.(starting := 1), Pop) == s1;
    var s2 := s.(free := s.free[1..], posted := s.posted + [Emptied(rb)], requesting := [rb.id]);
    assert RemoveAt(s1.popped, 0) == [];
    assert Next(s1, Post(0)) == s2;
    var s3 := s2.(requesting := [], undoing := [rb.id]);
    assert RemoveAt(s2.requesting, 0) == [];
    assert Next(s2, Refuse(0)) == s3;
    FirstIsOnlyFree(s, pool);
    UndoPosted(s3, s.posted, Emptied(rb));
  }

  lemma {:induction false} FirstIsOnlyFree(s: Rx, pool: set<nat>)
    requires s.free != [] && PlacesInv(s, pool)
    ensures var id := s.free[0].id;
            IndexOf(s.free[1..], id) == |s.free| - 1 && IndexOf(s.posted, id) == |s.posted|
            && IndexOf(s.inProcess, id) == |s.inProcess|
  {
    var id := s.free[0].id;
    IdsFirst(s.free);
    assert Places(s, id) <= 1;
    InIds(s.free[1..], id);
    InIds(s.posted, id);
    InIds(s.inProcess, id);
  }

  lemma {:induction false} UndoPosted(s: Rx, before: seq<Rb>, rb: Rb)
    requires s.undoing == [rb.id] && s.posted == before + [rb]
    requires IndexOf(before, rb.id) == |before| && IndexOf(s.free, rb.id) == |s.free|
    requires IndexOf(s.inProcess, rb.id) == |s.inProcess|
    ensures Next(s, Undo(0)) == s.(undoing := [], posted := before, free := s.free + [rb])
  {
    RemoveFirstWith(before, rb, []);
    assert before + [rb] + [] == s.posted && before + [] == before;
    UndoTakesPosted(s, 0);
    assert RemoveAt(s.undoing, 0) == [];
    assert s.posted[|before|] == rb;
    assert IndexOf(s.posted, rb.id) == |before|;
  }

  /** ishtp_cl_io_rb_recycle of a buffer the client holds, up to the read start it may do. */
  lemma {:induction false} RecycleCallIsRun(s: Rx, rb: Rb)
    requires AtRest(s) && s.held == [rb]
    ensures var t := s.(held := [], free := s.free + [rb]);
            && Next(Next(s, Recycle(0)), Check) == (if s.creds == 0 then t.(starting := 1) else t)
            && forall accept :: RecycleCall(s.(held := []), rb, accept, true)
                             == if s.creds == 0 then ReadStartCall(t, accept) else t
  {
  }

  /** A buffer that is given back is the last on the free list. With a credit out, or with the device
      or the client down, nothing else happens; else the first free buffer is posted against a new
      credit, or goes behind the others if its request is refused. */
  lemma {:induction false} RecycleCallExact(s: Rx, rb: Rb, accept: bool, up: bool)
    ensures var t := RecycleCall(s, rb, accept, up);
            var all := s.free + [rb];
            var first := Node(all[0].id, Buf(all[0].val.mem, 0));
            && (t.inProcess, t.held, t.delivered, t.wire) == (s.inProcess, s.held, s.delivered, s.wire)
            && if s.creds != 0 || !up then
                 t.free == all && t.posted == s.posted && t.creds == s.creds && t.fwCredits == s.fwCredits
               else if accept then
                 t.free == all[1..] && t.posted == s.posted + [first] && t.creds == 1 && t.fwCredits == s.fwCredits + 1
               else
                 t.free == all[1..] + [first] && t.posted == s.posted && t.creds == 0 && t.fwCredits == s.fwCredits
  {
  }

  /** A fragment that does not overrun its buffer does what the engine's step does. */
  lemma {:induction false} ReceiveCallIsStep(s: Rx, f: Frag, slack: seq<Byte>, accept: bool, up: bool)
    requires |slack| <= 3 && !Oversize(s, f)
    ensures ReceiveCall(s, f, slack, accept, up) == Receive(s, f, slack, accept)
  {
  }

  /** The overrun of recv_ishtp_cl_msg is the engine's step, with the read start it leads to. */
  lemma {:induction false} OverrunCallIsRun(s: Rx, f: Frag, slack: seq<Byte>, accept: bool)
    requires |slack| <= 3 && Oversize(s, f) && s.starting == 0
    ensures var t := Receive(s, f, slack, accept).(starting := 0);
            && Receive(s, f, slack, accept).starting == (if s.creds == 0 then 1 else 0)
            && ReceiveCall(s, f, slack, accept, true) == if s.creds == 0 then ReadStartCall(t, accept) else t
  {
  }

  class Receiver {
    var list: seq<Entry>
    var cls: map<Addr, Cl>
    var enabled: bool
    ghost var hist: map<Addr, History>

    ghost predicate Valid()
      reads this
    {
      cls.Keys == hist.Keys && forall k :: 0 <= k < |list| ==> list[k].addr in cls
    }

    ghost function Abs(a: Addr): Rx
      requires Valid() && a in cls
      reads this
    {
      Rx(cls[a].free, Mine(list, a), cls[a].inProcess, [], [], cls[a].creds, 0, 0, [], [],
         hist[a].fwCredits, false, [], hist[a].delivered)
    }

    /** ishtp_hbm_cl_flow_control_req */
    method FlowControlReq(a: Addr, accept: bool) returns (ok: bool)
      requires Valid() && a in cls
      modifies `cls, `hist
      ensures Valid() && cls.Keys == old(cls).Keys
      ensures ok == (old(cls)[a].creds != 0 || accept)
      ensures Abs(a) == if ok then Credited(old(Abs(a))) else old(Abs(a))
      ensures cls[a].connected == old(cls)[a].connected
      ensures forall b :: b in cls && b != a ==> cls[b] == old(cls)[b] && hist[b] == old(hist)[b]
    {
      if cls[a].creds != 0 {
        return true;
      }
      if accept {
        cls := cls[a := cls[a].(creds := cls[a].creds + 1)];
        hist := hist[a := hist[a].(fwCredits := hist[a].fwCredits + 1)];
      }
      return accept;
    }

    /** The first free buffer goes to the end of the read list. */
    method PostFirst(a: Addr)
      requires Valid() && a in cls && cls[a].free != []
      modifies `list, `cls
      ensures Valid() && cls.Keys == old(cls).Keys
      ensures list == old(list) + [Entry(a, Emptied(old(cls)[a].free[0]))]
      ensures Abs(a) == old(Abs(a)).(free := old(cls)[a].free[1..],
                                     posted := old(Abs(a)).posted + [Emptied(old(cls)[a].free[0])])
      ensures forall b :: b in cls && b != a ==> Abs(b) == old(Abs(b))
      ensures forall b :: b in cls ==> cls[b].connected == old(cls)[b].connected
    {
      hide Mine;
      var rb := Emptied(cls[a].free[0]);
      cls := cls[a := cls[a].(free := cls[a].free[1..])];
      AppendMine(list, a, rb);
      list := list + [Entry(a, rb)];
    }

    /** ishtp_cl_read_start; `fwKnown` is whether ishtp_fw_cl_by_id finds the firmware client. */
    method ReadStart(a: Addr, accept: bool, fwKnown: bool) returns (ok: bool)
      requires Valid() && a in cls
      modifies `list, `cls, `hist
      ensures Valid() && cls.Keys == old(cls).Keys
      ensures !(old(cls)[a].connected && enabled && fwKnown) ==> !ok && Abs(a) == old(Abs(a))
      ensures old(cls)[a].connected && enabled && fwKnown ==>
                && Abs(a) == ReadStartCall(old(Abs(a)), accept)
                && ok == (old(cls)[a].free != [] && (old(cls)[a].creds != 0 || accept))
      ensures forall b :: b in cls && b != a ==> Abs(b) == old(Abs(b))
      ensures forall b :: b in cls ==> cls[b].connected == old(cls)[b].connected
    {
      hide Mine;
      if !cls[a].connected || !enabled || !fwKnown {
        return false;
      }
      if cls[a].free == [] {
        return false;
      }
      var rb := Emptied(cls[a].free[0]);
      ghost var list0 := list;
      PostFirst(a);
      ok := FlowControlReq(a, accept);
      if !ok {
        TakeBack(a, rb, list0);
      }
    }

    /** The buffer at the end of the read list goes back to the free list. */
    method TakeBack(a: Addr, rb: Rb, ghost list0: seq<Entry>)
      requires Valid() && a in cls && list == list0 + [Entry(a, rb)]
      modifies `list, `cls
      ensures Valid() && cls.Keys == old(cls).Keys && list == list0
      ensures Abs(a) == old(Abs(a)).(free := old(Abs(a)).free + [rb], posted := Mine(list0, a))
      ensures forall b :: b in cls && b != a ==> Abs(b) == old(Abs(b))
      ensures forall b :: b in cls ==> cls[b].connected == old(cls)[b].connected
    {
      hide Mine;
      AppendMine(list0, a, rb);
      assert list[..|list| - 1] == list0;
      list := list[..|list| - 1];
      cls := cls[a := cls[a].(free := cls[a].free + [rb])];
    }

    /** ishtp_cl_io_rb_recycle */
    method Recycle(a: Addr, rb: Rb, accept: bool, fwKnown: bool)
      requires Valid() && a in cls
      modifies `list, `cls, `hist
      ensures Valid() && cls.Keys == old(cls).Keys
      ensures Abs(a) == RecycleCall(old(Abs(a)), rb, accept, enabled && old(cls)[a].connected && fwKnown)
      ensures old(cls)[a].creds != 0 || !(enabled && old(cls)[a].connected && fwKnown) ==>
                && cls[a].free == old(cls)[a].free + [rb] && cls[a].creds == old(cls)[a].creds
                && Mine(list, a) == old(Mine(list, a))
      ensures forall b :: b in cls && b != a ==> Abs(b) == old(Abs(b))
    {
      cls := cls[a := cls[a].(free := cls[a].free + [rb])];
      if cls[a].creds == 0 {
        var ok := ReadStart(a, accept, fwKnown);
      }
    }

    /** ishtp_cl_rx_get_rb */
    method RxGetRb(a: Addr) returns (r: Option<Rb>)
      requires Valid() && a in cls
      modifies `cls
      ensures Valid() && cls.Keys == old(cls).Keys
      ensures r == if old(cls)[a].inProcess == [] then None else Some(old(cls)[a].inProcess[0])
      ensures r.None? ==> cls == old(cls)
      ensures r.Some? ==> cls == old(cls)[a := old(cls)[a].(inProcess := old(cls)[a].inProcess[1..])]
    {
      if cls[a].inProcess == [] {
        return None;
      }
      r := Some(cls[a].inProcess[0]);
      cls := cls[a := cls[a].(inProcess := cls[a].inProcess[1..])];
    }

    /** The walk of recv_ishtp_cl_msg along the read list. */
    method FindBuffer(a: Addr) returns (i: nat)
      requires Valid()
      ensures i == if a in cls && cls[a].connected then FirstOf(list, a) else |list|
    {
      i := 0;
      while i < |list|
        invariant 0 <= i <= |list|
        invariant forall k :: 0 <= k < i ==> list[k].addr != a || !cls[a].connected
      {
        var e := list[i];
        if e.addr == a && cls[e.addr].connected {
          return;
        }
        i := i + 1;
      }
    }

    /** ishtp_read_list_flush: the buffers deleted from the list are released. */
    method ReadListFlush(a: Addr)
      requires Valid()
      modifies `list
      ensures Valid()
      ensures forall b :: Mine(list, b) == if b == a then [] else old(Mine(list, b))
    {
      var i := 0;
      while i < |list|
        invariant 0 <= i <= |list| && Valid()
        invariant forall k :: 0 <= k < i ==> list[k].addr != a
        invariant forall b :: b != a ==> Mine(list, b) == old(Mine(list, b))
        decreases |list| - i
      {
        if list[i].addr == a {
          DeleteMine(list, i);
          list := RemoveAt(list, i);
        } else {
          i := i + 1;
        }
      }
      MineNone(list, a);
    }

    /** recv_ishtp_cl_msg. `reserved` is the reserved field of the header, `slack` what the
        last register word carries beyond the fragment. */
    method RecvClMsg(f: Frag, reserved: nat, slack: seq<Byte>, accept: bool, fwKnown: bool)
      requires Valid() && |slack| <= 3
      modifies `list, `cls, `hist
      ensures Valid() && cls.Keys == old(cls).Keys
      ensures reserved != 0 || |f.data| > IPC_PAYLOAD_SIZE ==> list == old(list) && cls == old(cls) && hist == old(hist)
      ensures reserved == 0 && |f.data| <= IPC_PAYLOAD_SIZE && f.addr in cls && old(cls)[f.addr].connected ==>
                Abs(f.addr) == ReceiveCall(old(Abs(f.addr)), f, slack, accept, enabled && fwKnown)
      ensures f.addr !in cls || !old(cls)[f.addr].connected ==> list == old(list) && cls == old(cls) && hist == old(hist)
      ensures forall b :: b in cls && b != f.addr ==> Abs(b) == old(Abs(b))
    {
      if reserved != 0 || |f.data| > IPC_PAYLOAD_SIZE {
        return;
      }
      var a := f.addr;
      var i := FindBuffer(a);
      if i == |list| {
        if a in cls { FirstIsFirst(list, a); }
        return;
      }
      if Size(list[i].rb.val) == 0 {
        FirstIsFirst(list, a);
        Unlink(i);
      } else if list[i].rb.val.idx + |f.data| > Size(list[i].rb.val) {
        Overrun(i, f, slack, accept, fwKnown);
      } else {
        StoreFragment(i, f, slack, accept);
      }
    }

    /** The overflow branch. */
    method Overrun(i: nat, f: Frag, slack: seq<Byte>, accept: bool, fwKnown: bool)
      requires Valid() && i < |list| && i == FirstOf(list, f.addr) && cls[f.addr].connected && |slack| <= 3
      requires Size(list[i].rb.val) > 0 && !Takes(list[i].rb.val, |f.data|)
      modifies `list, `cls, `hist
      ensures Valid() && cls.Keys == old(cls).Keys
      ensures Abs(f.addr) == ReceiveCall(old(Abs(f.addr)), f, slack, accept, enabled && fwKnown)
      ensures forall b :: b in cls && b != f.addr ==> Abs(b) == old(Abs(b))
    {
      var a, rb := f.addr, list[i].rb;
      FirstIsFirst(list, a);
      Unlink(i);
      Recycle(a, rb, accept, fwKnown);
    }

    /** The branch that takes the fragment in. */
    method StoreFragment(i: nat, f: Frag, slack: seq<Byte>, accept: bool)
      requires Valid() && i < |list| && i == FirstOf(list, f.addr) && |slack| <= 3
      requires Takes(list[i].rb.val, |f.data|)
      modifies `list, `cls, `hist
      ensures Valid() && cls.Keys == old(cls).Keys
      ensures Abs(f.addr) == Receive(old(Abs(f.addr)), f, slack, accept)
      ensures forall b :: b in cls && b != f.addr ==> Abs(b) == old(Abs(b))
    {
      var a := f.addr;
      FirstIsFirst(list, a);
      var rb := Node(list[i].rb.id, Store(list[i].rb.val, f.data, slack));
      if f.complete {
        CompleteMessage(i, a, rb, accept);
      } else {
        UpdateMine(list, i, rb);
        list := list[i := Entry(a, rb)];
      }
    }

    /** list_del, for the first buffer of its client on the read list. */
    method Unlink(i: nat)
      requires Valid() && i < |list| && i == FirstOf(list, list[i].addr)
      modifies `list
      ensures Valid() && old(Mine(list, list[i].addr)) != []
      ensures forall b :: Mine(list, b) == if b == old(list)[i].addr then old(Mine(list, b))[1..] else old(Mine(list, b))
    {
      RemoveMine(list, i);
      list := RemoveAt(list, i);
    }

    /** The last fragment is in: the buffer goes to the in-process list, and the next free one
        is posted with a new flow-control message. */
    method CompleteMessage(i: nat, a: Addr, rb: Rb, accept: bool)
      requires Valid() && i < |list| && i == FirstOf(list, a)
      modifies `list, `cls, `hist
      ensures Valid() && cls.Keys == old(cls).Keys
      ensures old(Mine(list, a)) != []
      ensures Abs(a) == Refilled(Completed(old(Abs(a)), rb), accept)
      ensures forall b :: b in cls && b != a ==> Abs(b) == old(Abs(b))
    {
      Unlink(i);
      cls := cls[a := cls[a].(creds := if cls[a].creds > 0 then cls[a].creds - 1 else 255,
                              inProcess := cls[a].inProcess + [rb])];
      hist := hist[a := hist[a].(delivered := hist[a].delivered + [Content(rb.val)])];
      assert Abs(a) == Completed(old(Abs(a)), rb);
      Refill(a, accept);
    }

    /** A free buffer is posted for the next message; whether the flow-control message was
        accepted is ignored. */
    method Refill(a: Addr, accept: bool)
      requires Valid() && a in cls
      modifies `list, `cls, `hist
      ensures Valid() && cls.Keys == old(cls).Keys
      ensures Abs(a) == Refilled(old(Abs(a)), accept)
      ensures forall b :: b in cls && b != a ==> Abs(b) == old(Abs(b))
    {
      if cls[a].free != [] {
        PostFirst(a);
        var ok := FlowControlReq(a, accept);
      }
    }
  }

  lemma {:induction false} RemoveMine(list: seq<Entry>, i: nat)
    requires i < |list| && i == FirstOf(list, list[i].addr)
    ensures Mine(list, list[i].addr) != []
    ensures forall b :: Mine(RemoveAt(list, i), b) == if b == list[i].addr then Mine(list, b)[1..] else Mine(list, b)
  {
    FirstIsFirst(list, list[i].addr);
    forall b ensures Mine(RemoveAt(list, i), b) == if b == list[i].addr then Mine(list, b)[1..] else Mine(list, b) {
      MineSplit(list, i, list[i], b);
    }
  }

  lemma {:induction false} DeleteMine(list: seq<Entry>, i: nat)
    requires i < |list|
    ensures forall b :: b != list[i].addr ==> Mine(RemoveAt(list, i), b) == Mine(list, b)
  {
    forall b | b != list[i].addr ensures Mine(RemoveAt(list, i), b) == Mine(list, b) {
      MineSplit(list, i, list[i], b);
    }
  }

  lemma {:induction false} UpdateMine(list: seq<Entry>, i: nat, rb: Rb)
    requires i < |list| && i == FirstOf(list, list[i].addr)
    ensures Mine(list, list[i].addr) != [] && Mine(list, list[i].addr)[0] == list[i].rb
    ensures forall b :: Mine(list[i := Entry(list[i].addr, rb)], b)
                     == if b == list[i].addr then Mine(list, b)[0 := rb] else Mine(list, b)
  {
    FirstIsFirst(list, list[i].addr);
    var a := list[i].addr;
    forall b ensures Mine(list[i := Entry(a, rb)], b) == if b == a then Mine(list, b)[0 := rb] else Mine(list, b) {
      MineSplit(list, i, Entry(a, rb), b);
    }
  }

  lemma {:induction false} AppendMine(list: seq<Entry>, a: Addr, rb: Rb)
    ensures forall b :: Mine(list + [Entry(a, rb)], b) == Mine(list, b) + if b == a then [rb] else []
  {
  }
}

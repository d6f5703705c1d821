/** Receiving for one client: receive buffers, the single receive credit, and reassembly.
    Steps are critical sections; any number of read starts and recycles may interleave. */
module RxEngine {
  import opened Wire
  import opened Lists

  /** A receive buffer: its memory, and how many bytes of the message have arrived. Whole words
      are read from the registers, so the memory has three bytes more than `buffer.size`. */
  datatype RawBuf = Buf(mem: seq<Byte>, idx: nat)
  type Buf = b: RawBuf | b.idx + 3 <= |b.mem| witness Buf([0, 0, 0], 0)
  type Rb = Node<Buf>

  /** `starting`, `popped` and `requesting` are the calls of ishtp_cl_read_start under way: about
      to take a buffer, holding one, and about to ask for the flow-control message of a posted
      one. `undoing` are those whose request was refused. `fwCredits` and `fwBusy` are the
      firmware's side; `wire` and `delivered` are history. */
  datatype Rx = Rx(
    free: seq<Rb>, posted: seq<Rb>, inProcess: seq<Rb>, held: seq<Rb>, popped: seq<Rb>,
    creds: nat, checking: nat, starting: nat, requesting: seq<nat>, undoing: seq<nat>,
    fwCredits: nat, fwBusy: bool, wire: seq<Frag>, delivered: seq<Msg>)

  datatype Event =
    | Recycle(i: nat)              // ishtp_cl_io_rb_recycle: append to the free list
    | Check                        // ishtp_cl_io_rb_recycle: is there a credit out?
    | Pop                          // ishtp_cl_read_start: take a free buffer
    | Post(i: nat)                 // ishtp_cl_read_start: append it to the read list
    | Request(i: nat)              // ishtp_hbm_cl_flow_control_req, accepted by the IPC queue
    | Refuse(i: nat)               // ishtp_hbm_cl_flow_control_req, refused by the IPC queue
    | Undo(i: nat)                 // ishtp_cl_read_start: take the buffer back
    | Recv(f: Frag, slack: seq<Byte>, accept: bool)  // recv_ishtp_cl_msg
    | Take                         // ishtp_cl_rx_get_rb

  function Content(b: Buf): Msg
  {
    b.mem[..b.idx]
  }

  /** `buffer.size` */
  function Size(b: Buf): nat
  {
    |b.mem| - 3
  }

  /** Registers are read in words: up to three bytes beyond the fragment are written too. */
  function Store(b: Buf, data: Msg, slack: seq<Byte>): (r: Buf)
    requires |slack| <= 3 && b.idx + |data| <= Size(b)
    ensures |r.mem| == |b.mem| && r.idx == b.idx + |data|
    ensures Content(r) == Content(b) + data
  {
    Buf(b.mem[..b.idx] + data + slack + b.mem[b.idx + |data| + |slack|..], b.idx + |data|)
  }

  /** The bytes of the message under way. */
  function Partial(s: Rx): Msg
  {
    if s.posted == [] then [] else Content(s.posted[0].val)
  }

  /** The buffer has memory, and that takes `n` more bytes. */
  predicate Takes(b: Buf, n: nat)
  {
    Size(b) > 0 && b.idx + n <= Size(b)
  }

  /** A fragment that overruns the buffer it is meant for. */
  predicate Oversize(s: Rx, f: Frag)
  {
    s.posted != [] && Size(s.posted[0].val) > 0 && !Takes(s.posted[0].val, |f.data|)
  }

  /** A fragment that is taken in, or that finds no buffer. */
  predicate Fits(s: Rx, f: Frag)
  {
    s.posted != [] ==> Takes(s.posted[0].val, |f.data|)
  }

  function IndexOf(s: seq<Rb>, id: nat): (j: nat)
    ensures j <= |s|
    ensures forall k :: 0 <= k < j ==> s[k].id != id
    ensures j < |s| ==> s[j].id == id
  {
    if s == [] || s[0].id == id then 0 else 1 + IndexOf(s[1..], id)
  }

  /** list_del: the node leaves whatever list it is on. */
  function Without(s: seq<Rb>, id: nat): seq<Rb>
  {
    if IndexOf(s, id) < |s| then RemoveAt(s, IndexOf(s, id)) else s
  }

  /** The node with this identity, whatever list it is on. */
  function Find(s: seq<Rb>, id: nat): Rb
  {
    if IndexOf(s, id) < |s| then s[IndexOf(s, id)] else Node(id, Buf([0, 0, 0], 0))
  }

  /** What may happen, given that the firmware starts a message only against a credit. */
  predicate Enabled(s: Rx, e: Event)
  {
    match e
    case Recycle(i) => i < |s.held|
    case Check => s.checking > 0
    case Pop => s.starting > 0
    case Post(i) => i < |s.popped|
    case Request(i) => i < |s.requesting|
    case Refuse(i) => i < |s.requesting| && s.creds == 0
    case Undo(i) => i < |s.undoing|
    case Recv(f, slack, accept) => (s.fwBusy || s.fwCredits > 0) && |slack| <= 3
    case Take => s.inProcess != []
  }

  /** A read start that has popped `rb` and put it on the read list, or a receive path that
      does both at once, then asks for a credit if none is out. */
  function Credited(s: Rx): Rx
  {
    if s.creds != 0 then s else s.(creds := s.creds + 1, fwCredits := s.fwCredits + 1)
  }

  function Emptied(rb: Rb): Rb
  {
    Node(rb.id, Buf(rb.val.mem, 0))
  }

  /** The oldest posted buffer, now `rb`, holds a whole message. */
  function Completed(s: Rx, rb: Rb): Rx
    requires s.posted != []
  {
    s.(posted := s.posted[1..], inProcess := s.inProcess + [rb], delivered := s.delivered + [Content(rb.val)],
       creds := if s.creds > 0 then s.creds - 1 else 255)
  }

  /** recv_ishtp_cl_msg posts another buffer for the next message, if one is free; it ignores
      whether the IPC queue accepted the flow-control message that goes with it. */
  function Refilled(s: Rx, accept: bool): Rx
  {
    if s.free == [] then s
    else
      var t := s.(free := s.free[1..], posted := s.posted + [Emptied(s.free[0])]);
      if accept then Credited(t) else t
  }

  /** recv_ishtp_cl_msg for a fragment that finds this client connected. */
  function Receive(s: Rx, f: Frag, slack: seq<Byte>, accept: bool): Rx
    requires |slack| <= 3
  {
    if s.posted == [] then s
    else if Size(s.posted[0].val) == 0 then s.(posted := s.posted[1..])  // and the buffer is freed
    else if Oversize(s, f) then
      var rb := s.posted[0];
      s.(posted := s.posted[1..], free := s.free + [rb],
         starting := if s.creds == 0 then s.starting + 1 else s.starting)
    else
      var rb := Node(s.posted[0].id, Store(s.posted[0].val, f.data, slack));
      if f.complete then Refilled(Completed(s, rb), accept) else s.(posted := s.posted[0 := rb])
  }

  function Apply(s: Rx, e: Event): Rx
    requires Enabled(s, e)
  {
    match e
    case Recycle(i) =>
      s.(held := RemoveAt(s.held, i), free := s.free + [s.held[i]], checking := s.checking + 1)
    case Check =>
      s.(checking := s.checking - 1, starting := if s.creds == 0 then s.starting + 1 else s.starting)
    case Pop =>
      if s.free == [] then s.(starting := s.starting - 1)
      else s.(starting := s.starting - 1, free := s.free[1..], popped := s.popped + [s.free[0]])
    case Post(i) =>
      s.(popped := RemoveAt(s.popped, i), posted := s.posted + [Emptied(s.popped[i])],
         requesting := s.requesting + [s.popped[i].id])
    case Request(i) =>
      Credited(s.(requesting := RemoveAt(s.requesting, i)))
    case Refuse(i) =>
      s.(requesting := RemoveAt(s.requesting, i), undoing := s.undoing + [s.requesting[i]])
    case Undo(i) =>
      var id := s.undoing[i];
      s.(undoing := RemoveAt(s.undoing, i),
         posted := Without(s.posted, id), inProcess := Without(s.inProcess, id),
         free := Without(s.free, id) + [Find(s.posted + s.inProcess + s.held + s.popped + s.free, id)])
    case Recv(f, slack, accept) =>
      Receive(s, f, slack, accept).(wire := s.wire + [f], fwBusy := !f.complete,
                            fwCredits := if s.fwBusy then Receive(s, f, slack, accept).fwCredits
                                         else Receive(s, f, slack, accept).fwCredits - 1)
    case Take =>
      s.(inProcess := s.inProcess[1..], held := s.held + [s.inProcess[0]])
  }

  function Next(s: Rx, e: Event): Rx
  {
    if Enabled(s, e) then Apply(s, e) else s
  }

  /** A run: events that cannot happen where they stand are skipped. */
  function Run(s: Rx, es: seq<Event>): Rx
  {
    if es == [] then s else Next(Run(s, es[..|es| - 1]), es[|es| - 1])
  }

  lemma {:induction false} RunAppend(s: Rx, es: seq<Event>, e: Event)
    ensures Run(s, es + [e]) == Next(Run(s, es), e)
  {
  }

  lemma {:induction false} RunConcat(s: Rx, es: seq<Event>, fs: seq<Event>)
    ensures Run(s, es + fs) == Run(Run(s, es), fs)
  {
    if fs == [] {
      assert es + fs == es;
    } else {
      hide Next;
      assert (es + fs)[..|es + fs| - 1] == es + fs[..|fs| - 1];
      RunConcat(s, es, fs[..|fs| - 1]);
    }
  }

  /** The fragments that came while the firmware had a message under way or a credit for one. */
  function HeardIn(s: Rx, es: seq<Event>): (fs: seq<Frag>)
  {
    if es == [] then []
    else
      var (t, e) := (Run(s, es[..|es| - 1]), es[|es| - 1]);
      HeardIn(s, es[..|es| - 1]) + if e.Recv? && (t.fwBusy || t.fwCredits > 0) && |e.slack| <= 3 then [e.f] else []
  }

  lemma {:induction false} HeardStep(s: Rx, e: Event)
    ensures Next(s, e).wire == s.wire + if e.Recv? && (s.fwBusy || s.fwCredits > 0) && |e.slack| <= 3 then [e.f] else []
    ensures e.Recv? && (s.fwBusy || s.fwCredits > 0) && |e.slack| <= 3 ==> Next(s, e).fwBusy == !e.f.complete
  {
    hide Receive, Without, Find, IndexOf;
  }

  /** On every run from any state, the fragments recorded are those that came. */
  lemma {:induction false} HeardExact(s: Rx, es: seq<Event>)
    ensures Run(s, es).wire == s.wire + HeardIn(s, es)
  {
    if es != [] {
      hide Next;
      HeardExact(s, es[..|es| - 1]);
      HeardStep(Run(s, es[..|es| - 1]), es[|es| - 1]);
    }
  }

  /** A client that has just connected: a ring of empty buffers, and ishtp_cl_connect about to
      call ishtp_cl_read_start. */
  predicate Fresh(s: Rx, pool: set<nat>)
  {
    && s == Rx(s.free, [], [], [], [], 0, 0, 1, [], [], 0, false, [], [])
    && s.free != [] && Ids(s.free) == multiset(pool)
  }

  /** A step that goes as meant: a fragment fits its buffer, and a read start whose
      request was refused finds its buffer still posted and without bytes of a message. */
  predicate Orderly(s: Rx, e: Event)
  {
    Enabled(s, e) ==>
    match e
    case Recv(f, _, _) => Fits(s, f)
    case Undo(i) => s.undoing[i] in Ids(s.posted) && !(s.fwBusy && s.posted[0].id == s.undoing[i])
    case _ => true
  }

  predicate OrderlyRun(s: Rx, es: seq<Event>)
  {
    es == [] || (OrderlyRun(s, es[..|es| - 1]) && Orderly(Run(s, es[..|es| - 1]), es[|es| - 1]))
  }

  predicate AllAccepted(es: seq<Event>)
  {
    forall e :: e in es ==> !e.Refuse? && (e.Recv? ==> e.accept)
  }

  // ---------------------------------------------------------------- Invariants

  /** At how many places a buffer is. */
  function Places(s: Rx, id: nat): nat
  {
    Ids(s.free)[id] + Ids(s.posted)[id] + Ids(s.inProcess)[id] + Ids(s.held)[id] + Ids(s.popped)[id]
  }

  /** Every buffer of the ring is at exactly one place. */
  ghost predicate PlacesInv(s: Rx, pool: set<nat>)
  {
    forall id :: Places(s, id) == if id in pool then 1 else 0
  }

  /** The credit and the firmware agree, and a credit is backed by a posted buffer. */
  predicate CreditInv(s: Rx)
  {
    && s.creds <= 1
    && s.creds == s.fwCredits + (if s.fwBusy then 1 else 0)
    && |s.posted| >= s.creds + |s.requesting| + |s.undoing|
  }

  /** Only the oldest posted buffer can have bytes, and only in mid-message. */
  predicate ShapeInv(s: Rx)
  {
    forall k :: 0 <= k < |s.posted| && s.posted[k].val.idx != 0 ==> k == 0 && s.fwBusy
  }

  function Contents(rbs: seq<Rb>): (ms: seq<Msg>)
  {
    if rbs == [] then [] else Contents(rbs[..|rbs| - 1]) + [Content(rbs[|rbs| - 1].val)]
  }

  /** What has been joined so far is what the fragments say, and the buffers in process hold
      the last messages delivered, one each, in order. */
  predicate ContentInv(s: Rx)
  {
    && Feed(EMPTY_INBOX, s.wire) == Inbox(s.delivered, Partial(s))
    && |s.inProcess| <= |s.delivered|
    && Contents(s.inProcess) == s.delivered[|s.delivered| - |s.inProcess|..]
  }

  /** No credit is out only while the host has something left to do about it. */
  predicate ProgressInv(s: Rx)
  {
    s.creds == 0 ==>
      && (s.free != [] ==> s.checking + s.starting + |s.popped| + |s.requesting| > 0)
      && (|| s.popped != [] || s.requesting != []
          || s.inProcess != [] || s.held != []
          || (s.free != [] && s.checking + s.starting > 0))
  }

  // ---------------------------------------------------------------- Steps

  /** The node at `i` of one list moves to the end of another. */
  lemma {:induction false} Move(s: seq<Rb>, i: nat, t: seq<Rb>, rb: Rb)
    requires i < |s| && rb.id == s[i].id
    ensures forall id :: Ids(RemoveAt(s, i))[id] + Ids(t + [rb])[id] == Ids(s)[id] + Ids(t)[id]
  {
    IdsRemoveAt(s, i);
    IdsPush(t, rb);
  }

  lemma {:induction false} MoveFirst(s: seq<Rb>, t: seq<Rb>, rb: Rb)
    requires s != [] && rb.id == s[0].id
    ensures forall id :: Ids(s[1..])[id] + Ids(t + [rb])[id] == Ids(s)[id] + Ids(t)[id]
  {
    IdsFirst(s);
    IdsPush(t, rb);
  }

  lemma {:induction false} InIds(s: seq<Rb>, id: nat)
    ensures id in Ids(s) <==> IndexOf(s, id) < |s|
  {
    if IndexOf(s, id) < |s| {
      IdIn(s, IndexOf(s, id));
    } else {
      NotInIds(s, id);
    }
  }

  lemma {:induction false} NotInIds(s: seq<Rb>, id: nat)
    requires forall k :: 0 <= k < |s| ==> s[k].id != id
    ensures id !in Ids(s)
  {
    if s != [] {
      NotInIds(s[..|s| - 1], id);
    }
  }

  /** If the step takes a buffer back, that buffer is posted and nowhere else. */
  predicate UndoClean(s: Rx, e: Event)
  {
    e.Undo? && e.i < |s.undoing| ==>
      var id := s.undoing[e.i];
      && IndexOf(s.posted, id) < |s.posted|
      && IndexOf(s.free, id) == |s.free| && IndexOf(s.inProcess, id) == |s.inProcess|
  }

  /** A read start whose request was refused takes back the buffer it posted. */
  lemma {:induction false} UndoTakesPosted(s: Rx, i: nat)
    requires i < |s.undoing| && UndoClean(s, Undo(i))
    ensures var (id, t) := (s.undoing[i], Apply(s, Undo(i)));
            var j := IndexOf(s.posted, id);
            && j < |s.posted|
            && t == s.(undoing := RemoveAt(s.undoing, i), posted := RemoveAt(s.posted, j), free := s.free + [s.posted[j]])
  {
    var id := s.undoing[i];
    IndexInFirst(s.posted, s.inProcess + s.held + s.popped + s.free, id);
    assert s.posted + s.inProcess + s.held + s.popped + s.free == s.posted + (s.inProcess + s.held + s.popped + s.free);
  }

  lemma {:induction false} OnlyPosted(s: Rx, id: nat, pool: set<nat>)
    requires PlacesInv(s, pool) && id in Ids(s.posted)
    ensures IndexOf(s.posted, id) < |s.posted|
    ensures IndexOf(s.free, id) == |s.free| && IndexOf(s.inProcess, id) == |s.inProcess|
  {
    assert Places(s, id) <= 1;
    InIds(s.posted, id);
    InIds(s.free, id);
    InIds(s.inProcess, id);
  }

  lemma {:induction false} OrderlyUndo(s: Rx, e: Event, pool: set<nat>)
    requires PlacesInv(s, pool) && Orderly(s, e)
    ensures UndoClean(s, e)
  {
    if e.Undo? && e.i < |s.undoing| {
      OnlyPosted(s, s.undoing[e.i], pool);
    }
  }

  lemma {:induction false} IndexInFirst(s: seq<Rb>, t: seq<Rb>, id: nat)
    requires IndexOf(s, id) < |s|
    ensures IndexOf(s + t, id) == IndexOf(s, id)
  {
    var j := IndexOf(s, id);
    assert (s + t)[j] == s[j];
    assert forall k :: 0 <= k < j ==> (s + t)[k] == s[k];
  }

  /** The step from `s` to `t` only moves buffers. */
  ghost predicate Moves(s: Rx, t: Rx)
  {
    forall id :: Places(t, id) == Places(s, id)
  }

  lemma {:induction false} EventMoves(s: Rx, e: Event)
    requires Enabled(s, e) && UndoClean(s, e) && (e.Recv? ==> Fits(s, e.f))
    ensures Moves(s, Apply(s, e))
  {
    match e
    case Recycle(i) => RecycleMoves(s, i);
    case Pop => PopMoves(s);
    case Post(i) => PostMoves(s, i);
    case Undo(i) => UndoMoves(s, i);
    case Recv(f, slack, accept) => ReceiveMoves(s, f, slack, accept);
    case Take => TakeMoves(s);
    case _ =>
  }

  lemma {:induction false} RecycleMoves(s: Rx, i: nat)
    requires i < |s.held|
    ensures Moves(s, Apply(s, Recycle(i)))
  {
    Move(s.held, i, s.free, s.held[i]);
  }

  lemma {:induction false} PopMoves(s: Rx)
    requires s.starting > 0
    ensures Moves(s, Apply(s, Pop))
  {
    var t := Apply(s, Pop);
    if s.free != [] {
      MoveFirst(s.free, s.popped, s.free[0]);
      assert t.free == s.free[1..] && t.popped == s.popped + [s.free[0]];
    }
    forall id ensures Places(t, id) == Places(s, id) {
    }
  }

  lemma {:induction false} PostMoves(s: Rx, i: nat)
    requires i < |s.popped|
    ensures Moves(s, Apply(s, Post(i)))
  {
    Move(s.popped, i, s.posted, Emptied(s.popped[i]));
  }

  lemma {:induction false} UndoMoves(s: Rx, i: nat)
    requires i < |s.undoing| && UndoClean(s, Undo(i))
    ensures Moves(s, Apply(s, Undo(i)))
  {
    UndoTakesPosted(s, i);
    var j := IndexOf(s.posted, s.undoing[i]);
    Move(s.posted, j, s.free, s.posted[j]);
  }

  lemma {:induction false} TakeMoves(s: Rx)
    requires s.inProcess != []
    ensures Moves(s, Apply(s, Take))
  {
    MoveFirst(s.inProcess, s.held, s.inProcess[0]);
  }

  lemma {:induction false} CompletedMoves(s: Rx, rb: Rb)
    requires s.posted != [] && rb.id == s.posted[0].id
    ensures Moves(s, Completed(s, rb))
  {
    MoveFirst(s.posted, s.inProcess, rb);
  }

  lemma {:induction false} RefilledMoves(s: Rx, accept: bool)
    ensures Moves(s, Refilled(s, accept))
  {
    if s.free != [] {
      MoveFirst(s.free, s.posted, Emptied(s.free[0]));
    }
  }

  lemma {:induction false} ReceiveMoves(s: Rx, f: Frag, slack: seq<Byte>, accept: bool)
    requires |slack| <= 3 && Fits(s, f)
    ensures Moves(s, Receive(s, f, slack, accept))
  {
    if s.posted != [] {
      var rb := Node(s.posted[0].id, Store(s.posted[0].val, f.data, slack));
      if f.complete {
        CompletedMoves(s, rb);
        RefilledMoves(Completed(s, rb), accept);
      } else {
        IdsUpdate(s.posted, 0, rb);
      }
    }
  }

  lemma {:induction false} CreditStep(s: Rx, e: Event)
    requires Enabled(s, e) && Orderly(s, e) && UndoClean(s, e) && CreditInv(s) && ShapeInv(s)
    ensures CreditInv(Apply(s, e))
  {
    match e
    case Undo(i) => UndoTakesPosted(s, i);
    case Recv(f, slack, accept) => ReceiveCredit(s, f, slack, accept);
    case _ =>
  }

  lemma {:induction false} ReceiveCredit(s: Rx, f: Frag, slack: seq<Byte>, accept: bool)
    requires Enabled(s, Recv(f, slack, accept)) && Fits(s, f) && CreditInv(s)
    ensures CreditInv(Apply(s, Recv(f, slack, accept)))
  {
  }

  lemma {:induction false} ShapeStep(s: Rx, e: Event)
    requires Enabled(s, e) && Orderly(s, e) && UndoClean(s, e) && CreditInv(s) && ShapeInv(s)
    ensures ShapeInv(Apply(s, e))
  {
    match e
    case Undo(i) => UndoShape(s, i);
    case Recv(f, slack, accept) => ReceiveShape(s, f, slack, accept);
    case _ =>
  }

  lemma {:induction false} UndoShape(s: Rx, i: nat)
    requires UndoClean(s, Undo(i)) && ShapeInv(s) && i < |s.undoing| && Orderly(s, Undo(i))
    ensures ShapeInv(Apply(s, Undo(i)))
  {
  }

  lemma {:induction false} ReceiveShape(s: Rx, f: Frag, slack: seq<Byte>, accept: bool)
    requires |slack| <= 3 && s.posted != [] && ShapeInv(s) && Fits(s, f)
    ensures ShapeInv(Receive(s, f, slack, accept).(fwBusy := !f.complete))
  {
  }

  lemma {:induction false} ContentsPush(rbs: seq<Rb>, rb: Rb)
    ensures Contents(rbs + [rb]) == Contents(rbs) + [Content(rb.val)]
  {
  }

  lemma {:induction false} ContentsPop(rbs: seq<Rb>)
    requires rbs != []
    ensures |Contents(rbs)| == |rbs| && Contents(rbs[1..]) == Contents(rbs)[1..]
    ensures Contents(rbs)[0] == Content(rbs[0].val)
  {
    if |rbs| > 1 {
      ContentsPop(rbs[..|rbs| - 1]);
      assert rbs[1..][..|rbs| - 2] == rbs[..|rbs| - 1][1..];
    }
  }

  lemma {:induction false} ContentStep(s: Rx, e: Event)
    requires Enabled(s, e) && Orderly(s, e) && UndoClean(s, e) && CreditInv(s) && ShapeInv(s) && ContentInv(s)
    ensures ContentInv(Apply(s, e))
  {
    hide ContentInv, ShapeInv, CreditInv, UndoClean, Apply;
    match e
    case Undo(i) => UndoContent(s, i);
    case Recv(f, slack, accept) => ReceiveContent(s, f, slack, accept);
    case Post(i) => PostContent(s, i);
    case Take => TakeContent(s);
    case _ => OtherContent(s, e);
  }

  lemma {:induction false} OtherContent(s: Rx, e: Event)
    requires Enabled(s, e) && ContentInv(s) && (e.Recycle? || e.Check? || e.Pop? || e.Request? || e.Refuse?)
    ensures ContentInv(Apply(s, e))
  {
    hide Contents, Feed;
  }

  lemma {:induction false} PostContent(s: Rx, i: nat)
    requires i < |s.popped| && ContentInv(s)
    ensures ContentInv(Apply(s, Post(i)))
  {
  }

  lemma {:induction false} UndoContent(s: Rx, i: nat)
    requires UndoClean(s, Undo(i)) && ShapeInv(s) && ContentInv(s) && i < |s.undoing| && Orderly(s, Undo(i))
    ensures ContentInv(Apply(s, Undo(i)))
  {
  }

  lemma {:induction false} TakeContent(s: Rx)
    requires s.inProcess != [] && ContentInv(s)
    ensures ContentInv(Apply(s, Take))
  {
    ContentsPop(s.inProcess);
    var k := |s.delivered| - |s.inProcess|;
    assert s.delivered[k..][1..] == s.delivered[k + 1..];
  }

  lemma {:induction false} ReceiveContent(s: Rx, f: Frag, slack: seq<Byte>, accept: bool)
    requires Enabled(s, Recv(f, slack, accept)) && Fits(s, f) && CreditInv(s) && ShapeInv(s) && ContentInv(s)
    ensures ContentInv(Apply(s, Recv(f, slack, accept)))
  {
    hide Contents, Feed, ShapeInv;
    var t := Receive(s, f, slack, accept);
    FeedOne(s.wire, f, Inbox(s.delivered, Partial(s)));
    if f.complete {
      ReceiveLast(s, f, slack, accept);
    } else {
      ReceiveMore(s, f, slack, accept);
    }
    var u := Apply(s, Recv(f, slack, accept));
    assert u.wire == s.wire + [f] && Partial(u) == Partial(t) && u.delivered == t.delivered && u.inProcess == t.inProcess;
  }

  lemma {:induction false} ReceiveMore(s: Rx, f: Frag, slack: seq<Byte>, accept: bool)
    requires |slack| <= 3 && s.posted != [] && !f.complete && Fits(s, f)
    ensures var t := Receive(s, f, slack, accept);
            Partial(t) == Partial(s) + f.data && t.delivered == s.delivered && t.inProcess == s.inProcess
  {
  }

  /** The last fragment of a message completes it and leaves no bytes of the next. */
  lemma {:induction false} ReceiveLast(s: Rx, f: Frag, slack: seq<Byte>, accept: bool)
    requires |slack| <= 3 && s.posted != [] && f.complete && Fits(s, f) && ShapeInv(s) && ContentInv(s)
    ensures var t := Receive(s, f, slack, accept);
            && Partial(t) == [] && t.delivered == s.delivered + [Partial(s) + f.data]
            && |t.inProcess| <= |t.delivered|
            && Contents(t.inProcess) == t.delivered[|t.delivered| - |t.inProcess|..]
  {
    hide Contents, ShapeInv, Completed, Refilled, Feed;
    var rb := Node(s.posted[0].id, Store(s.posted[0].val, f.data, slack));
    assert Receive(s, f, slack, accept) == Refilled(Completed(s, rb), accept);
    ContentsPush(s.inProcess, rb);
    CompletedContent(s, f, rb, accept);
  }

  lemma {:induction false} FeedOne(wire: seq<Frag>, f: Frag, b: Inbox)
    requires Feed(EMPTY_INBOX, wire) == b
    ensures Feed(EMPTY_INBOX, wire + [f]) == Absorb(b, f)
  {
  }

  lemma {:induction false} CompletedContent(s: Rx, f: Frag, rb: Rb, accept: bool)
    requires s.posted != [] && ShapeInv(s) && |s.inProcess| <= |s.delivered|
    requires Contents(s.inProcess) == s.delivered[|s.delivered| - |s.inProcess|..]
    requires Contents(s.inProcess + [rb]) == Contents(s.inProcess) + [Content(rb.val)]
    ensures var t := Refilled(Completed(s, rb), accept);
            && Partial(t) == [] && t.delivered == s.delivered + [Content(rb.val)]
            && |t.inProcess| <= |t.delivered|
            && Contents(t.inProcess) == t.delivered[|t.delivered| - |t.inProcess|..]
  {
  }

  lemma {:induction false} ProgressStep(s: Rx, e: Event)
    requires Orderly(s, e) && CreditInv(s) && ProgressInv(s)
    requires s.undoing == [] && !e.Refuse? && (e.Recv? ==> e.accept)
    ensures ProgressInv(Next(s, e)) && Next(s, e).undoing == []
  {
  }

  // ---------------------------------------------------------------- All runs

  ghost predicate Safe(s: Rx, pool: set<nat>)
  {
    PlacesInv(s, pool) && CreditInv(s) && ShapeInv(s) && ContentInv(s)
  }

  lemma {:induction false} FreshSafe(s: Rx, pool: set<nat>)
    requires Fresh(s, pool)
    ensures Safe(s, pool) && ProgressInv(s)
  {
  }

  lemma {:induction false} SafeStep(s: Rx, e: Event, pool: set<nat>)
    requires Safe(s, pool) && Orderly(s, e)
    ensures Safe(Next(s, e), pool)
  {
    if Enabled(s, e) {
      OrderlyUndo(s, e, pool);
      EventMoves(s, e);
      CreditStep(s, e);
      ShapeStep(s, e);
      ContentStep(s, e);
    }
  }

  lemma {:induction false} SafeRun(s: Rx, es: seq<Event>, pool: set<nat>)
    requires Fresh(s, pool) && OrderlyRun(s, es)
    ensures Safe(Run(s, es), pool)
  {
    if es == [] {
      FreshSafe(s, pool);
    } else {
      SafeRun(s, es[..|es| - 1], pool);
      SafeStep(Run(s, es[..|es| - 1]), es[|es| - 1], pool);
    }
  }

  /** Receive credit safety and exact delivery, over every orderly run: at most one credit is out, a
      credit is backed by a posted buffer, every buffer is at exactly one place, and the
      messages completed are exactly the messages the fragments make up, in order, with the
      buffers still in process holding the last of them and `idx` their sizes. */
  lemma {:induction false} OrderlySafety(s: Rx, es: seq<Event>, pool: set<nat>)
    requires Fresh(s, pool) && OrderlyRun(s, es)
    ensures var t := Run(s, es);
            && t.creds <= 1 && t.creds <= |t.posted|
            && PlacesInv(t, pool)
            && Feed(EMPTY_INBOX, t.wire) == Inbox(t.delivered, Partial(t))
            && |t.inProcess| <= |t.delivered|
            && (forall k :: 0 <= k < |t.inProcess| ==>
                  && Content(t.inProcess[k].val) == t.delivered[|t.delivered| - |t.inProcess| + k]
                  && t.inProcess[k].val.idx == |t.delivered[|t.delivered| - |t.inProcess| + k]|)
  {
    SafeRun(s, es, pool);
    DeliveredBuffers(Run(s, es));
  }

  lemma {:induction false} DeliveredBuffers(t: Rx)
    requires ContentInv(t)
    ensures forall k :: 0 <= k < |t.inProcess| ==>
              && Content(t.inProcess[k].val) == t.delivered[|t.delivered| - |t.inProcess| + k]
              && t.inProcess[k].val.idx == |t.delivered[|t.delivered| - |t.inProcess| + k]|
  {
    ContentsAt(t.inProcess);
    assert forall k :: 0 <= k < |t.inProcess| ==> Contents(t.inProcess)[k] == t.delivered[|t.delivered| - |t.inProcess| + k];
  }

  lemma {:induction false} ContentsAt(rbs: seq<Rb>)
    ensures |Contents(rbs)| == |rbs|
    ensures forall k :: 0 <= k < |rbs| ==> Contents(rbs)[k] == Content(rbs[k].val)
  {
    if rbs != [] {
      ContentsAt(rbs[..|rbs| - 1]);
    }
  }

  lemma {:induction false} ProgressRun(s: Rx, es: seq<Event>, pool: set<nat>)
    requires Fresh(s, pool) && OrderlyRun(s, es) && AllAccepted(es)
    ensures Run(s, es).undoing == [] && ProgressInv(Run(s, es))
  {
    if es == [] {
      FreshSafe(s, pool);
    } else {
      var t, e := Run(s, es[..|es| - 1]), es[|es| - 1];
      ProgressRun(s, es[..|es| - 1], pool);
      SafeRun(s, es[..|es| - 1], pool);
      assert e in es;
      ProgressStep(t, e);
    }
  }
}

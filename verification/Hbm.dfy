/** The host bus message protocol: the start handshake, the enumeration of firmware clients
    over a 256-bit address map, and reset cycles. */
module Hbm {
  import opened Options
  import opened Wire

  const CLIENTS_MAX := 256

  datatype DevState = Initializing | InitClients | Enabled | Resetting | Disabled

  datatype HbmState = Idle | Start | Started | EnumClients | ClientProperties | Working | Stopped

  datatype Props = Zeroed | Given(value: nat)

  /** `struct ishtp_fw_client` */
  datatype FwClient = FwClient(id: Byte, props: Props)

  /** What goes wrong where the counters of eight bits do not suffice. */
  datatype Fault = NoTable | OutOfTable | EndlessLoop

  /** History since the last accepted enumeration: its map, the property requests sent, the
      responses accepted, and the clients announced on the bus. */
  datatype Log = Log(accepted: set<Byte>, requested: seq<Byte>, answered: seq<FwClient>, announced: seq<Props>)

  /** The bus part of `struct ishtp_device`. `resetHandled`: the reset work has run
      ishtp_reset_handler and not yet ishtp_reset_compl_handler. */
  datatype Dev = Dev(
    dev: DevState, hbm: HbmState, addrs: set<Byte>, table: Option<seq<FwClient>>,
    num: Byte, presNum: Byte, index: Byte,
    resetHandled: bool, fault: Option<Fault>, log: Log)

  /** A bus message. `memOk`: there is memory for the table that the response asks for. `stray`:
      what memory holds where a response finds no table entry. */
  datatype BusMsg =
    | StartRes(supported: bool)
    | EnumRes(addrs: set<Byte>, memOk: bool)
    | PropsRes(status: nat, address: Byte, props: Props, stray: Byte)
    | StopRes
    | FwStopReq
    | OtherMsg

  /** `writeOk`: the IPC queue accepts the message sent in the step; `resetOk`: a hardware reset
      made in the step succeeds. */
  datatype Event =
    | ResetHandler
    | ResetComplete(writeOk: bool, resetOk: bool)
    | StartTimeout
    | Disable
    | Dispatch(msg: BusMsg, writeOk: bool, resetOk: bool)

  // ---------------------------------------------------------------- The address map

  /** find_next_bit */
  function NextBit(addrs: set<Byte>, from: nat): (b: nat)
    ensures b <= CLIENTS_MAX && (b < CLIENTS_MAX ==> from <= b && b in addrs)
    decreases CLIENTS_MAX - from
  {
    if from >= CLIENTS_MAX then CLIENTS_MAX
    else if from in addrs then from
    else NextBit(addrs, from + 1)
  }

  /** The set bits from `from` up, in ascending order. */
  function Bits(addrs: set<Byte>, from: nat): (bits: seq<Byte>)
    decreases CLIENTS_MAX - from
  {
    if from >= CLIENTS_MAX then []
    else if from in addrs then [from] + Bits(addrs, from + 1)
    else Bits(addrs, from + 1)
  }

  /** After each bit, the next one is found; after the last, none. */
  lemma {:induction false} BitsAt(addrs: set<Byte>, from: nat, k: nat)
    requires k < |Bits(addrs, from)|
    ensures var bits := Bits(addrs, from);
            && from <= bits[k] && bits[k] in addrs
            && bits[0] == NextBit(addrs, from)
            && NextBit(addrs, bits[k] as nat + 1) == (if k + 1 < |bits| then bits[k + 1] else CLIENTS_MAX)
    decreases CLIENTS_MAX - from
  {
    if from in addrs {
      if k > 0 {
        BitsAt(addrs, from + 1, k - 1);
      } else {
        BitsNone(addrs, from + 1);
        if Bits(addrs, from + 1) != [] {
          BitsAt(addrs, from + 1, 0);
        }
      }
    } else {
      BitsAt(addrs, from + 1, k);
    }
  }

  lemma {:induction false} BitsNone(addrs: set<Byte>, from: nat)
    ensures Bits(addrs, from) == [] <==> NextBit(addrs, from) == CLIENTS_MAX
    ensures NextBit(addrs, from) == CLIENTS_MAX ==> forall b :: b in addrs ==> b < from
    decreases CLIENTS_MAX - from
  {
    if from < CLIENTS_MAX && from !in addrs {
      BitsNone(addrs, from + 1);
    }
  }

  lemma {:induction false} BitsCount(addrs: set<Byte>, from: nat)
    ensures |Bits(addrs, from)| == |set b | b in addrs && b >= from|
    decreases CLIENTS_MAX - from
  {
    if from < CLIENTS_MAX {
      BitsCount(addrs, from + 1);
      if from in addrs {
        assert (set b | b in addrs && b >= from) == {from} + set b | b in addrs && b >= from + 1;
      } else {
        assert (set b | b in addrs && b >= from) == set b | b in addrs && b >= from + 1;
      }
    } else {
      assert (set b | b in addrs && b >= from) == {};
    }
  }

  lemma {:induction false} AllBits(addrs: set<Byte>)
    ensures |Bits(addrs, 0)| == |addrs| <= CLIENTS_MAX
    ensures addrs != {} ==> Bits(addrs, 0)[0] == NextBit(addrs, 0) && (255 in addrs <==> Bits(addrs, 0)[|addrs| - 1] == 255)
    ensures addrs == {} ==> NextBit(addrs, 0) == CLIENTS_MAX
  {
    BitsCount(addrs, 0);
    assert addrs == set b | b in addrs && b >= 0;
    BitsBound(addrs, 0);
    BitsNone(addrs, 0);
    if addrs != {} {
      BitsAt(addrs, 0, 0);
      BitsAt(addrs, 0, |addrs| - 1);
      BitsNone(addrs, Bits(addrs, 0)[|addrs| - 1] as nat + 1);
    }
  }

  lemma {:induction false} BitsBound(addrs: set<Byte>, from: nat)
    ensures from <= CLIENTS_MAX ==> |Bits(addrs, from)| <= CLIENTS_MAX - from
    decreases CLIENTS_MAX - from
  {
    if from < CLIENTS_MAX {
      BitsBound(addrs, from + 1);
    }
  }

  // ---------------------------------------------------------------- The steps

  function Wrap(n: nat): Byte
  {
    n % 0x100
  }

  /** ish_hw_reset */
  function HwReset(d: Dev, ok: bool): Dev
  {
    if ok then d.(dev := Resetting) else d
  }

  function Entries(d: Dev): seq<FwClient>
  {
    if d.table.None? then [] else d.table.value
  }

  function PropsOf(cs: seq<FwClient>): (ps: seq<Props>)
    ensures |ps| == |cs|
  {
    seq(|cs|, i requires 0 <= i < |cs| => cs[i].props)
  }

  /** ishtp_hbm_prop_req, when no set bit is left: the announcing loop counts `presNum`, a
      uint8_t, from 1 up to the number of clients. */
  function AllReceived(d: Dev): Dev
  {
    var on := d.(hbm := Working, dev := Enabled);
    if d.presNum == 255 then on.(fault := Some(EndlessLoop))
    else if d.presNum > |Entries(d)| then on.(fault := Some(OutOfTable))
    else on.(presNum := d.presNum + 1,
             log := d.log.(announced := d.log.announced + PropsOf(Entries(d)[..d.presNum])))
  }

  /** ishtp_hbm_prop_req */
  function PropReq(d: Dev, writeOk: bool, resetOk: bool): Dev
  {
    var b := NextBit(d.addrs, d.index);
    if b == CLIENTS_MAX then AllReceived(d)
    else if d.table.None? then d.(fault := Some(NoTable))
    else if d.presNum >= |d.table.value| then d.(fault := Some(OutOfTable))
    else
      var t := d.(table := Some(d.table.value[d.presNum := d.table.value[d.presNum].(id := b)]));
      if writeOk then t.(index := b, log := t.log.(requested := t.log.requested + [b]))
      else HwReset(t.(dev := Resetting), resetOk)
  }

  /** ishtp_hbm_fw_cl_allocate: the count is a uint8_t that is not cleared first. */
  function FwClAllocate(d: Dev, memOk: bool, resetOk: bool): Dev
  {
    var num := Wrap(d.num + |d.addrs|);
    if num == 0 then d.(num := num)
    else if !memOk then HwReset(d.(num := num, dev := Resetting), resetOk)
    else d.(num := num, table := Some(seq(num, _ => FwClient(0, Zeroed))))
  }

  /** An enumeration response in its phase, up to the first request. */
  function AcceptEnum(d: Dev, addrs: set<Byte>, memOk: bool, resetOk: bool): Dev
  {
    FwClAllocate(d.(addrs := addrs, presNum := 0, index := 0, log := Log(addrs, [], [], [])), memOk, resetOk)
      .(hbm := ClientProperties)
  }

  /** ishtp_hbm_enum_clients_req */
  function EnumClientsReq(d: Dev, writeOk: bool, resetOk: bool): Dev
  {
    (if writeOk then d else HwReset(d.(dev := Resetting), resetOk)).(hbm := EnumClients)
  }

  /** Whether a start, enumeration or properties response is in its phase. */
  predicate InPhase(d: Dev, phase: HbmState)
  {
    d.dev == InitClients && d.hbm == phase
  }

  /** The client_id that a properties response is compared with. */
  function CurrentId(d: Dev, stray: Byte): Byte
  {
    if d.presNum < |Entries(d)| then Entries(d)[d.presNum].id else stray
  }

  /** The properties response as ishtp_hbm_dispatch accepts it. */
  predicate Matches(d: Dev, m: BusMsg)
  {
    && m.PropsRes? && m.status == 0 && d.table.Some?
    && CurrentId(d, m.stray) == m.address && InPhase(d, ClientProperties)
  }

  function StoreProps(d: Dev, address: Byte, props: Props): Dev
    requires d.presNum < |Entries(d)|
  {
    d.(table := Some(Entries(d)[d.presNum := Entries(d)[d.presNum].(props := props)]),
       index := Wrap(d.index + 1), presNum := Wrap(d.presNum + 1),
       log := d.log.(answered := d.log.answered + [FwClient(address, props)]))
  }

  function DispatchMsg(d: Dev, m: BusMsg, writeOk: bool, resetOk: bool): Dev
  {
    match m
    case StartRes(supported) =>
      if !supported then d.(hbm := Stopped)
      else if InPhase(d, Start) then EnumClientsReq(d.(hbm := Started), writeOk, resetOk)
      else HwReset(d, resetOk)
    case EnumRes(addrs, memOk) =>
      // The map is copied before the phase is checked.
      if InPhase(d, EnumClients) then PropReq(AcceptEnum(d, addrs, memOk, resetOk), writeOk, resetOk)
      else HwReset(d.(addrs := addrs), resetOk)
    case PropsRes(_, address, props, _) =>
      if !Matches(d, m) then HwReset(d, resetOk)
      else if d.presNum >= |Entries(d)| then d.(fault := Some(OutOfTable))
      else PropReq(StoreProps(d, address, props), writeOk, resetOk)
    case StopRes => HwReset(d.(dev := Disabled), resetOk)
    case FwStopReq => d.(hbm := Stopped)
    case OtherMsg => d
  }

  /** ishtp_reset_handler, with ishtp_bus_remove_all_clients. */
  function Cleared(d: Dev): Dev
  {
    d.(dev := Resetting, table := None, num := 0, presNum := 0, index := 0, addrs := {}, resetHandled := true)
  }

  /** ishtp_reset_compl_handler and ishtp_hbm_start_req */
  function Restarted(d: Dev, writeOk: bool, resetOk: bool): Dev
  {
    if writeOk then d.(dev := InitClients, hbm := Start, resetHandled := false)
    else HwReset(d.(dev := Resetting, hbm := Idle, resetHandled := false), resetOk)
  }

  /** ishtp_hbm_start_wait, after the time has passed */
  function TimedOut(d: Dev): Dev
  {
    if d.hbm in {Idle, Start} then d.(hbm := Idle) else d
  }

  /** A device at fault does nothing any more. The reset work completes only what it began. */
  function Next(d: Dev, e: Event): Dev
  {
    if d.fault.Some? then d
    else
      match e
      case ResetHandler => Cleared(d)
      case ResetComplete(w, r) => if d.resetHandled then Restarted(d, w, r) else d
      case StartTimeout => TimedOut(d)
      case Disable => d.(dev := Disabled)
      case Dispatch(m, w, r) => DispatchMsg(d, m, w, r)
  }

  function Run(d: Dev, es: seq<Event>): Dev
  {
    if es == [] then d else Next(Run(d, es[..|es| - 1]), es[|es| - 1])
  }

  /** A device that has just been set up. */
  predicate Fresh(d: Dev)
  {
    d == Dev(Initializing, Idle, {}, None, 0, 0, 0, false, None, Log({}, [], [], []))
  }

  // ---------------------------------------------------------------- Handshake, whatever happens

  /** ENABLED goes with WORKING or STOPPED, and no count is left over when an enumeration
      response can be accepted. */
  predicate HandshakeInv(d: Dev)
  {
    && (d.dev == Enabled ==> d.hbm in {Working, Stopped})
    && (d.resetHandled ==> d.num == 0 && d.table.None? && d.dev !in {InitClients, Enabled})
    && (d.dev == InitClients && d.hbm in {Idle, Start, Started, EnumClients} ==> d.num == 0 && d.table.None?)
  }

  lemma {:induction false} PropReqHandshake(d: Dev, w: bool, r: bool)
    requires !d.resetHandled && (InPhase(d, ClientProperties) || (d.dev == Resetting && d.table.None? && d.addrs != {}))
    ensures HandshakeInv(PropReq(d, w, r)) && !PropReq(d, w, r).resetHandled
  {
  }

  lemma {:induction false} HandshakeStep(d: Dev, e: Event)
    requires HandshakeInv(d)
    ensures HandshakeInv(Next(d, e))
  {
    if e.Dispatch? {
      match e.msg
      case EnumRes(addrs, memOk) =>
        if InPhase(d, EnumClients) {
          PropReqHandshake(AcceptEnum(d, addrs, memOk, e.resetOk), e.writeOk, e.resetOk);
        }
      case PropsRes(_, address, props, _) =>
        if Matches(d, e.msg) && d.presNum < |Entries(d)| {
          PropReqHandshake(StoreProps(d, address, props), e.writeOk, e.resetOk);
        }
      case _ =>
    }
  }

  lemma {:induction false} HandshakeRun(d: Dev, es: seq<Event>)
    requires Fresh(d)
    ensures HandshakeInv(Run(d, es))
  {
    if es != [] {
      HandshakeRun(d, es[..|es| - 1]);
      HandshakeStep(Run(d, es[..|es| - 1]), es[|es| - 1]);
    }
  }

  // ---------------------------------------------------------------- Enumeration

  /** What the counters of eight bits can enumerate. */
  predicate GoodMap(addrs: set<Byte>)
  {
    255 !in addrs && |addrs| <= 254
  }

  function IdsOf(cs: seq<FwClient>): (ids: seq<Byte>)
    ensures |ids| == |cs|
  {
    seq(|cs|, i requires 0 <= i < |cs| => cs[i].id)
  }

  /** A property request is out: for the next bit of `accepted` in ascending order, with all before
      it answered and stored. */
  predicate Collecting(d: Dev, accepted: set<Byte>)
  {
    var all := Bits(accepted, 0);
    && InPhase(d, ClientProperties) && d.fault.None? && !d.resetHandled && d.table.Some?
    && accepted != {} && |accepted| <= 255
    && d.presNum < |all| == |Entries(d)|
    && d.index == all[d.presNum] == Entries(d)[d.presNum].id
    && Entries(d)[..d.presNum] == d.log.answered
    && IdsOf(d.log.answered) == all[..d.presNum]
    && d.log.requested == all[..d.presNum + 1]
    && d.log.announced == []
  }

  /** That, and the map is still the one that was accepted. */
  predicate Requested(d: Dev)
  {
    d.addrs == d.log.accepted && Collecting(d, d.addrs)
  }

  /** The table holds every set address in ascending order, each with the properties of its own
      response, and each was requested and announced once. */
  predicate Enumerated(d: Dev)
  {
    && d.dev == Enabled && d.fault.None?
    && d.addrs == d.log.accepted && GoodMap(d.addrs)
    && Entries(d) == d.log.answered
    && IdsOf(d.log.answered) == Bits(d.addrs, 0) == d.log.requested
    && d.log.announced == PropsOf(d.log.answered)
    && d.presNum == |d.log.answered| + 1
  }

  /** Accepting a map leads to the first request, or with no bit set to WORKING at once; with
      every bit set the count wraps to 0 and there is no table. */
  lemma {:induction false} Accept(d: Dev, addrs: set<Byte>, resetOk: bool)
    requires d.fault.None? && InPhase(d, EnumClients) && HandshakeInv(d)
    ensures var t := Next(d, Dispatch(EnumRes(addrs, true), true, resetOk));
            && t.addrs == addrs
            && (addrs == {} ==> Enumerated(t))
            && (addrs != {} && |addrs| <= 255 ==> Requested(t) && t.presNum == 0)
            && (|addrs| == 256 ==> t.fault == Some(NoTable))
            && |addrs| <= 256
  {
    hide Bits, NextBit;
    AllBits(addrs);
    var c := AcceptEnum(d, addrs, true, resetOk);
    assert Next(d, Dispatch(EnumRes(addrs, true), true, resetOk)) == PropReq(c, true, resetOk);
    if addrs != {} && |addrs| <= 255 {
      FirstRequest(c, resetOk);
    }
  }

  lemma {:induction false} FirstRequest(c: Dev, resetOk: bool)
    requires InPhase(c, ClientProperties) && c.fault.None? && !c.resetHandled
    requires c.addrs != {} && |c.addrs| <= 255 && c.presNum == c.index == 0 && c.log == Log(c.addrs, [], [], [])
    requires c.table.Some? && |c.table.value| == |c.addrs| == |Bits(c.addrs, 0)|
    requires Bits(c.addrs, 0)[0] == NextBit(c.addrs, 0)
    ensures Requested(PropReq(c, true, resetOk)) && PropReq(c, true, resetOk).presNum == 0
  {
  }

  /** The properties of the outstanding request are stored. */
  lemma {:induction false} Stored(d: Dev, accepted: set<Byte>, props: Props)
    requires Collecting(d, accepted)
    ensures var u := StoreProps(d, d.index, props);
            var all := Bits(accepted, 0);
            && u.presNum == d.presNum + 1 && u.index == (if d.index == 255 then 0 else d.index + 1)
            && |Entries(u)| == |all| == |accepted|
            && Entries(u)[..u.presNum] == u.log.answered == d.log.answered + [FwClient(d.index, props)]
            && IdsOf(u.log.answered) == all[..u.presNum]
            && u.log.requested == all[..u.presNum]
            && (u.presNum < |all| ==> d.index < 255)
            && NextBit(accepted, d.index as nat + 1) == (if u.presNum < |all| then all[u.presNum] else CLIENTS_MAX)
  {
    hide Bits, NextBit;
    var all := Bits(accepted, 0);
    AllBits(accepted);
    BitsAt(accepted, 0, d.presNum);
    IdsOfPush(d.log.answered, FwClient(d.index, props));
    assert all[..d.presNum + 1] == all[..d.presNum] + [all[d.presNum]];
    var e := Entries(d)[d.presNum := Entries(d)[d.presNum].(props := props)];
    assert e[..d.presNum + 1] == Entries(d)[..d.presNum] + [e[d.presNum]];
  }

  lemma {:induction false} IdsOfPush(cs: seq<FwClient>, c: FwClient)
    ensures IdsOf(cs + [c]) == IdsOf(cs) + [c.id]
  {
  }

  /** One accepted response leads to the next request; the last one leads to WORKING, unless
      its address is 255, which wraps the index, or there are 255 clients, which makes the
      announcing loop endless. */
  lemma {:induction false} Answer(d: Dev, props: Props, stray: Byte, resetOk: bool)
    requires Requested(d)
    ensures var t := Next(d, Dispatch(PropsRes(0, d.index, props, stray), true, resetOk));
            && t.addrs == d.addrs && t.log.answered == d.log.answered + [FwClient(d.index, props)]
            && (if d.presNum + 1 < |d.addrs| then Requested(t) && t.presNum == d.presNum + 1
                else if 255 in d.addrs then t.fault == Some(OutOfTable)
                else if |d.addrs| == 255 then t.fault == Some(EndlessLoop)
                else Enumerated(t) && t.hbm == Working)
  {
    hide Bits, NextBit;
    AllBits(d.addrs);
    Stored(d, d.addrs, props);
    var u := StoreProps(d, d.index, props);
    assert Matches(d, PropsRes(0, d.index, props, stray));
    assert Next(d, Dispatch(PropsRes(0, d.index, props, stray), true, resetOk)) == PropReq(u, true, resetOk);
    if u.presNum < |d.addrs| {
      NextRequest(u, d.addrs, resetOk);
    } else if 255 in d.addrs {
      assert NextBit(d.addrs, 0) == Bits(d.addrs, 0)[0];
    } else {
      assert Entries(u)[..u.presNum] == Entries(u);
      assert Bits(d.addrs, 0)[..u.presNum] == Bits(d.addrs, 0);
    }
  }

  lemma {:induction false} NextRequest(u: Dev, accepted: set<Byte>, resetOk: bool)
    requires InPhase(u, ClientProperties) && u.fault.None? && !u.resetHandled && u.table.Some?
    requires accepted != {} && |accepted| <= 255
    requires u.presNum < |Bits(accepted, 0)| == |Entries(u)|
    requires NextBit(u.addrs, u.index) == Bits(accepted, 0)[u.presNum]
    requires Entries(u)[..u.presNum] == u.log.answered
    requires IdsOf(u.log.answered) == Bits(accepted, 0)[..u.presNum] == u.log.requested
    requires u.log.announced == []
    ensures var t := PropReq(u, true, resetOk);
            && Collecting(t, accepted) && t.presNum == u.presNum && t.addrs == u.addrs
            && t.log.answered == u.log.answered && t.log.accepted == u.log.accepted
  {
  }

  // ---------------------------------------------------------------- Enumeration is exact

  /** The outstanding request is answered. */
  function AnswerOne(d: Dev, props: Byte -> Props): Dev
  {
    Next(d, Dispatch(PropsRes(0, d.index, props(d.index), 0), true, true))
  }

  /** A firmware that answers `n` requests, one after the other. */
  function Answered(d: Dev, props: Byte -> Props, n: nat): Dev
  {
    if n == 0 then d else AnswerOne(Answered(d, props, n - 1), props)
  }

  /** Each client has its own properties. */
  predicate Faithful(cs: seq<FwClient>, props: Byte -> Props)
  {
    forall k :: 0 <= k < |cs| ==> cs[k].props == props(cs[k].id)
  }

  lemma {:induction false} FaithfulPush(cs: seq<FwClient>, c: FwClient, props: Byte -> Props)
    requires Faithful(cs, props) && c.props == props(c.id)
    ensures Faithful(cs + [c], props)
  {
  }

  lemma {:induction false} AnswerOneMore(t: Dev, props: Byte -> Props)
    requires Requested(t) && Faithful(t.log.answered, props)
    ensures var u := AnswerOne(t, props);
            && u.addrs == t.addrs && Faithful(u.log.answered, props)
            && (if t.presNum + 1 < |t.addrs| then Requested(u) && u.presNum == t.presNum + 1
                else if GoodMap(t.addrs) then Enumerated(u)
                else u.fault.Some?)
  {
    AllBits(t.addrs);
    Answer(t, props(t.index), 0, true);
    FaithfulPush(t.log.answered, FwClient(t.index, props(t.index)), props);
  }

  lemma {:induction false} AnsweredSome(d: Dev, props: Byte -> Props, n: nat)
    requires Requested(d) && d.presNum == 0 && n < |d.addrs|
    ensures var t := Answered(d, props, n);
            Requested(t) && t.presNum == n && t.addrs == d.addrs && Faithful(t.log.answered, props)
  {
    hide Next;
    if n > 0 {
      AnsweredSome(d, props, n - 1);
      AnswerOneMore(Answered(d, props, n - 1), props);
    }
  }

  lemma {:induction false} AnsweredAll(d: Dev, props: Byte -> Props)
    requires Requested(d) && d.presNum == 0
    ensures var t := Answered(d, props, |d.addrs|);
            if GoodMap(d.addrs) then Enumerated(t) && t.addrs == d.addrs && Faithful(t.log.answered, props)
            else t.fault.Some?
  {
    hide Next;
    AnsweredSome(d, props, |d.addrs| - 1);
    AnswerOneMore(Answered(d, props, |d.addrs| - 1), props);
  }

  lemma {:induction false} FaultStays(d: Dev, props: Byte -> Props, n: nat)
    requires d.fault.Some?
    ensures Answered(d, props, n) == d
  {
    if n > 0 {
      FaultStays(d, props, n - 1);
    }
  }

  /** Enumeration terminates in WORKING with exactly the set addresses, ascending, each with its
      own properties, if and only if address 255 is not set and at most 254 addresses are. */
  lemma {:induction false} EnumerationExact(d: Dev, addrs: set<Byte>, props: Byte -> Props)
    requires d.fault.None? && InPhase(d, EnumClients) && HandshakeInv(d)
    ensures var t := Answered(Next(d, Dispatch(EnumRes(addrs, true), true, true)), props, |addrs|);
            && (Enumerated(t) <==> GoodMap(addrs))
            && (GoodMap(addrs) ==> t.addrs == addrs && Faithful(Entries(t), props))
            && (!GoodMap(addrs) ==> t.fault.Some?)
  {
    Accept(d, addrs, true);
    var c := Next(d, Dispatch(EnumRes(addrs, true), true, true));
    if |addrs| == 256 {
      FaultStays(c, props, |addrs|);
    } else if addrs != {} {
      AnsweredAll(c, props);
    }
  }

  // ---------------------------------------------------------------- From a reset to WORKING

  /** Once a reset is handled, its completion opens the handshake if and only if the start request
      goes out; else the device is back in reset, to try again. What was enumerated stays cleared. */
  lemma {:induction false} RestartExact(d: Dev, writeOk: bool, resetOk: bool)
    requires d.fault.None? && d.resetHandled
    ensures var t := Next(d, ResetComplete(writeOk, resetOk));
            && (t.dev, t.hbm) == (if writeOk then (InitClients, Start) else (Resetting, Idle))
            && (InPhase(t, Start) <==> writeOk) && !t.resetHandled && t.fault.None?
            && (t.table, t.num, t.presNum, t.index, t.addrs) == (d.table, d.num, d.presNum, d.index, d.addrs)
  {
  }

  /** The start response, in its phase, leads to the enumeration request; if that does not go out, the
      device is back in reset. */
  lemma {:induction false} StartExact(d: Dev, writeOk: bool, resetOk: bool)
    requires d.fault.None? && InPhase(d, Start)
    ensures var t := Next(d, Dispatch(StartRes(true), writeOk, resetOk));
            && (InPhase(t, EnumClients) <==> writeOk) && (!writeOk ==> t.dev == Resetting)
            && t == d.(dev := t.dev, hbm := EnumClients)
  {
  }

  /** A reset, and the firmware's first two responses. */
  function Boot(addrs: set<Byte>): (es: seq<Event>)
  {
    [ResetHandler] + [ResetComplete(true, true)] + [Dispatch(StartRes(true), true, true)]
    + [Dispatch(EnumRes(addrs, true), true, true)]
  }

  lemma {:induction false} RunOfBoot(d: Dev, addrs: set<Byte>)
    ensures var s := Next(Next(d, ResetHandler), ResetComplete(true, true));
            Run(d, Boot(addrs)) ==
            Next(Next(s, Dispatch(StartRes(true), true, true)), Dispatch(EnumRes(addrs, true), true, true))
  {
    hide Next;
    var (e1, e2) := (ResetHandler, ResetComplete(true, true));
    var (e3, e4) := (Dispatch(StartRes(true), true, true), Dispatch(EnumRes(addrs, true), true, true));
    assert [e1][..0] == [] && ([e1] + [e2])[..1] == [e1];
    assert ([e1] + [e2] + [e3])[..2] == [e1] + [e2];
    assert ([e1] + [e2] + [e3] + [e4])[..3] == [e1] + [e2] + [e3];
    assert Run(d, [e1]) == Next(Run(d, []), e1);
    assert Run(d, [e1] + [e2]) == Next(Run(d, [e1]), e2);
    assert Run(d, [e1] + [e2] + [e3]) == Next(Run(d, [e1] + [e2]), e3);
  }

  /** From any device not at fault, whatever it went through before: a reset that completes, a
      firmware that answers, and memory lead to an enabled device that holds every address of the
      map with its own properties, if and only if the counters can enumerate the map. */
  lemma {:induction false} BootExact(d: Dev, addrs: set<Byte>, props: Byte -> Props)
    requires d.fault.None?
    ensures var t := Answered(Run(d, Boot(addrs)), props, |addrs|);
            && (Enumerated(t) <==> GoodMap(addrs))
            && (GoodMap(addrs) ==>
                  t.dev == Enabled && t.addrs == addrs && IdsOf(Entries(t)) == Bits(addrs, 0) && Faithful(Entries(t), props))
            && (!GoodMap(addrs) ==> t.fault.Some?)
  {
    hide Answered, Run, Boot, Bits, Enumerated, GoodMap, Faithful;
    RunOfBoot(d, addrs);
    var u := Next(Next(Next(d, ResetHandler), ResetComplete(true, true)), Dispatch(StartRes(true), true, true));
    EnumerationExact(u, addrs, props);
    EnumeratedIds(Answered(Run(d, Boot(addrs)), props, |addrs|));
  }

  lemma {:induction false} EnumeratedIds(t: Dev)
    ensures Enumerated(t) ==> t.dev == Enabled && IdsOf(Entries(t)) == Bits(t.addrs, 0)
  {
    hide Bits;
  }

  /** A message that does not move the handshake on changes nothing but what it names: out of its
      phase, or for another address, a response makes the hardware reset (an enumeration response
      has overwritten the map by then); a refusal or a stop request stops the protocol. */
  lemma {:induction false} RejectsExact(d: Dev, m: BusMsg, writeOk: bool, resetOk: bool)
    requires d.fault.None?
    ensures var t := Next(d, Dispatch(m, writeOk, resetOk));
            var reset := d.(dev := if resetOk then Resetting else d.dev);
            match m
            case StartRes(supported) =>
              && (!supported ==> t == d.(hbm := Stopped))
              && (supported && (d.dev != InitClients || d.hbm != Start) ==> t == reset)
            case EnumRes(addrs, _) => d.dev != InitClients || d.hbm != EnumClients ==> t == reset.(addrs := addrs)
            case PropsRes(status, address, _, stray) =>
              (|| status != 0 || d.table.None? || d.dev != InitClients || d.hbm != ClientProperties
               || address != (if d.presNum < |d.table.value| then d.table.value[d.presNum].id else stray))
              ==> t == reset
            case StopRes => t == d.(dev := if resetOk then Resetting else Disabled)
            case FwStopReq => t == d.(hbm := Stopped)
            case OtherMsg => t == d
  {
  }

  /** Without memory for its table, an enumeration response with any address in it makes the
      driver write through a null pointer, reset or not. */
  lemma {:induction false} NoMemoryFaults(d: Dev, addrs: set<Byte>, writeOk: bool, resetOk: bool)
    requires d.fault.None? && InPhase(d, EnumClients) && HandshakeInv(d)
    ensures Next(d, Dispatch(EnumRes(addrs, false), writeOk, resetOk)).fault == (if addrs == {} then None else Some(NoTable))
  {
    hide Bits, NextBit, PropsOf;
    AllBits(addrs);
    BitsNone(addrs, 0);
  }

  // ---------------------------------------------------------------- All runs

  /** What the firmware and the hardware are relied on for: a hardware reset succeeds,
      there is memory, and address maps are such as the counters can enumerate. */
  predicate Benign(e: Event)
  {
    e.Dispatch? ==> e.resetOk && (e.msg.EnumRes? ==> e.msg.memOk && GoodMap(e.msg.addrs))
  }

  predicate TableInv(d: Dev)
  {
    && d.fault.None?
    && (InPhase(d, ClientProperties) ==> Requested(d))
    && (d.dev == Enabled ==> Enumerated(d))
  }

  /** A request that the IPC queue refuses ends the phase. */
  lemma {:induction false} RefusedRequest(d: Dev, resetOk: bool)
    requires d.fault.None? && d.table.Some? && d.presNum < |d.table.value| && NextBit(d.addrs, d.index) < CLIENTS_MAX
    ensures PropReq(d, false, resetOk).dev == Resetting && PropReq(d, false, resetOk).fault.None?
  {
  }

  lemma {:induction false} EnumStep(d: Dev, e: Event)
    requires TableInv(d) && HandshakeInv(d) && Benign(e) && e.Dispatch? && e.msg.EnumRes?
    ensures TableInv(Next(d, e))
  {
    if InPhase(d, EnumClients) {
      var addrs := e.msg.addrs;
      Accept(d, addrs, e.resetOk);
      AllBits(addrs);
      var c := AcceptEnum(d, addrs, true, e.resetOk);
      assert Next(d, e) == PropReq(c, e.writeOk, e.resetOk);
      if !e.writeOk && addrs != {} {
        RefusedRequest(c, e.resetOk);
      }
    }
  }

  lemma {:induction false} PropsStep(d: Dev, e: Event)
    requires TableInv(d) && HandshakeInv(d) && Benign(e) && e.Dispatch? && e.msg.PropsRes?
    requires Requested(d) ==> GoodMap(d.addrs)
    ensures TableInv(Next(d, e))
  {
    if Matches(d, e.msg) {
      assert e.msg.address == d.index;
      Answer(d, e.msg.props, e.msg.stray, e.resetOk);
      Stored(d, d.addrs, e.msg.props);
      AllBits(d.addrs);
      var u := StoreProps(d, e.msg.address, e.msg.props);
      assert Next(d, e) == PropReq(u, e.writeOk, e.resetOk);
      if !e.writeOk && u.presNum < |d.addrs| {
        RefusedRequest(u, e.resetOk);
      } else if !e.writeOk {
        assert Next(d, e) == Next(d, Dispatch(PropsRes(0, d.index, e.msg.props, e.msg.stray), true, e.resetOk));
      }
    }
  }

  lemma {:induction false} TableStep(d: Dev, e: Event)
    requires TableInv(d) && HandshakeInv(d) && Benign(e)
    requires Requested(d) ==> GoodMap(d.addrs)
    ensures TableInv(Next(d, e))
  {
    if e.Dispatch? && e.msg.EnumRes? {
      EnumStep(d, e);
    } else if e.Dispatch? && e.msg.PropsRes? {
      PropsStep(d, e);
    }
  }

  lemma {:induction false} MapStep(d: Dev, e: Event)
    requires GoodMap(d.addrs) && Benign(e)
    ensures GoodMap(Next(d, e).addrs)
  {
  }

  lemma {:induction false} TableRun(d: Dev, es: seq<Event>)
    requires Fresh(d) && forall e :: e in es ==> Benign(e)
    ensures TableInv(Run(d, es)) && GoodMap(Run(d, es).addrs)
  {
    if es != [] {
      var t, e := Run(d, es[..|es| - 1]), es[|es| - 1];
      TableRun(d, es[..|es| - 1]);
      HandshakeRun(d, es[..|es| - 1]);
      assert e in es;
      TableStep(t, e);
      MapStep(t, e);
    }
  }

  /** Handshake safety over every run, any number of resets included: no counter faults, and an
      enabled device is in WORKING or STOPPED and holds, for every address of the map it
      accepted, the properties of that address's own response. */
  lemma {:induction false} EnabledIsEnumerated(d: Dev, es: seq<Event>)
    requires Fresh(d) && forall e :: e in es ==> Benign(e)
    ensures var t := Run(d, es);
            && t.fault.None?
            && (t.dev == Enabled ==>
                  && t.hbm in {Working, Stopped}
                  && IdsOf(Entries(t)) == Bits(t.log.accepted, 0) == t.log.requested
                  && Entries(t) == t.log.answered
                  && t.log.announced == PropsOf(Entries(t))
                  && (forall a :: a in t.log.accepted ==> a in IdsOf(Entries(t))))
  {
    TableRun(d, es);
    HandshakeRun(d, es);
    var t := Run(d, es);
    forall a | a in t.log.accepted ensures a in Bits(t.log.accepted, 0) {
      BitIn(t.log.accepted, 0, a);
    }
  }

  lemma {:induction false} BitIn(addrs: set<Byte>, from: nat, a: Byte)
    requires a in addrs && from <= a
    ensures a in Bits(addrs, from)
    decreases CLIENTS_MAX - from
  {
    if from < a {
      BitIn(addrs, from + 1, a);
    }
  }

  /** On every run, failed hardware resets and any maps included: the count is zero whenever an
      enumeration response can be accepted, so the table that is allocated has one entry for
      each address of that response, whatever earlier cycles enumerated. */
  lemma {:induction false} CountNeverCarriesOver(d: Dev, es: seq<Event>, addrs: set<Byte>, resetOk: bool)
    requires Fresh(d) && InPhase(Run(d, es), EnumClients)
    ensures Run(d, es).num == 0
    ensures AcceptEnum(Run(d, es), addrs, true, resetOk).num == |addrs| % 256
    ensures addrs != {} && |addrs| <= 255 ==> |Entries(AcceptEnum(Run(d, es), addrs, true, resetOk))| == |addrs|
  {
    HandshakeRun(d, es);
    AllBits(addrs);
  }

  /** Which message moves the protocol on, exactly: any other, or the same one out of its phase
      or for another address, does not. */
  lemma {:induction false} PhaseExact(d: Dev, e: Event)
    requires d.fault.None? && HandshakeInv(d)
    ensures d.hbm != EnumClients ==>
              (Next(d, e).hbm == EnumClients <==>
                 e.Dispatch? && e.msg == StartRes(true) && InPhase(d, Start))
    ensures d.hbm !in {ClientProperties, Working} ==>
              (Next(d, e).hbm in {ClientProperties, Working} <==>
                 e.Dispatch? && e.msg.EnumRes? && InPhase(d, EnumClients))
    ensures d.hbm == ClientProperties && Next(d, e).hbm == Working ==>
              e.Dispatch? && Matches(d, e.msg)
    ensures d.log.answered < Next(d, e).log.answered ==> e.Dispatch? && Matches(d, e.msg)
    ensures e.Dispatch? && Matches(d, e.msg) && d.presNum < |Entries(d)| ==>
              Next(d, e).log.answered == d.log.answered + [FwClient(e.msg.address, e.msg.props)]
    ensures d.dev != Enabled && Next(d, e).dev == Enabled ==> Next(d, e).hbm == Working && d.dev == InitClients
  {
    hide NextBit, Wrap, PropsOf;
  }

  // ---------------------------------------------------------------- A late map

  /** The enumeration ends as that of `accepted` should. */
  predicate EnumeratedAs(u: Dev, accepted: set<Byte>)
  {
    && u.dev == Enabled && u.hbm == Working && u.fault.None?
    && Entries(u) == u.log.answered
    && IdsOf(Entries(u)) == Bits(accepted, 0)
    && u.log.announced == PropsOf(Entries(u))
  }

  /** It has ended otherwise, or a wrong address has been stored at `p`. */
  predicate Lost(u: Dev, accepted: set<Byte>, p: nat)
  {
    || u.fault.Some?
    || (!InPhase(u, ClientProperties) && (u.dev == Enabled ==> |u.log.announced| < |Entries(u)|))
    || (&& p < |Entries(u)| == |Bits(accepted, 0)| <= 254 && IdsOf(Entries(u))[p] != Bits(accepted, 0)[p]
        && (InPhase(u, ClientProperties) ==> p <= u.presNum))
  }

  lemma {:induction false} LostStep(u: Dev, accepted: set<Byte>, p: nat, props: Byte -> Props)
    requires Lost(u, accepted, p)
    ensures Lost(AnswerOne(u, props), accepted, p)
  {
    hide Bits, NextBit;
  }

  lemma {:induction false} LostStays(u: Dev, accepted: set<Byte>, p: nat, props: Byte -> Props, n: nat)
    requires Lost(u, accepted, p)
    ensures Lost(Answered(u, props, n), accepted, p)
  {
    hide Lost, AnswerOne;
    if n > 0 {
      LostStays(u, accepted, p, props, n - 1);
      LostStep(Answered(u, props, n - 1), accepted, p, props);
    }
  }

  lemma {:induction false} AnsweredFirst(d: Dev, props: Byte -> Props, n: nat)
    requires n > 0
    ensures Answered(d, props, n) == Answered(AnswerOne(d, props), props, n - 1)
  {
    if n > 1 {
      AnsweredFirst(d, props, n - 1);
    }
  }

  /** The bits from `from` up begin with the next one. */
  lemma {:induction false} BitsFrom(addrs: set<Byte>, from: nat)
    ensures var b := NextBit(addrs, from);
            Bits(addrs, from) == if b == CLIENTS_MAX then [] else [b] + Bits(addrs, b as nat + 1)
    decreases CLIENTS_MAX - from
  {
    if from < CLIENTS_MAX && from !in addrs {
      BitsFrom(addrs, from + 1);
    }
  }

  /** Two maps agree from `from` up if their next bits do, and they agree above it. */
  lemma {:induction false} BitsAgree(addrs: set<Byte>, others: set<Byte>, from: nat)
    ensures var b := NextBit(addrs, from);
            Bits(addrs, from) == Bits(others, from) <==>
              b == NextBit(others, from) && (b < CLIENTS_MAX ==> Bits(addrs, b + 1) == Bits(others, b + 1))
  {
    hide Bits, NextBit;
    BitsFrom(addrs, from);
    BitsFrom(others, from);
    var b := NextBit(addrs, from);
    if b != NextBit(others, from) {
      assert Bits(addrs, from) != [] ==> Bits(addrs, from)[0] == b;
      assert Bits(others, from) != [] ==> Bits(others, from)[0] == NextBit(others, from);
    } else if b < CLIENTS_MAX {
      assert ([b] + Bits(addrs, b + 1))[1..] == Bits(addrs, b + 1);
      assert ([b] + Bits(others, b + 1))[1..] == Bits(others, b + 1);
    }
  }

  /** One answer under a map that may not be the accepted one. */
  lemma {:induction false} LateAnswer(u: Dev, accepted: set<Byte>, props: Byte -> Props)
    requires Collecting(u, accepted) && GoodMap(accepted)
    ensures var v := AnswerOne(u, props);
            var same := Bits(u.addrs, u.index as nat + 1) == Bits(accepted, u.index as nat + 1);
            if NextBit(u.addrs, u.index as nat + 1) != NextBit(accepted, u.index as nat + 1) then
              !same && Lost(v, accepted, u.presNum + 1)
            else if u.presNum + 1 < |accepted| then
              && Collecting(v, accepted) && v.presNum == u.presNum + 1 && v.addrs == u.addrs
              && (same <==> Bits(v.addrs, v.index as nat + 1) == Bits(accepted, v.index as nat + 1))
            else same && EnumeratedAs(v, accepted)
  {
    hide Bits, NextBit;
    AllBits(accepted);
    BitsAt(accepted, 0, u.presNum);
    Stored(u, accepted, props(u.index));
    BitsAgree(u.addrs, accepted, u.index as nat + 1);
    var w := StoreProps(u, u.index, props(u.index));
    assert Matches(u, PropsRes(0, u.index, props(u.index), 0));
    assert AnswerOne(u, props) == PropReq(w, true, true);
    if NextBit(u.addrs, w.index) == NextBit(accepted, w.index) && w.presNum < |accepted| {
      NextRequest(w, accepted, true);
    } else if w.presNum == |accepted| {
      assert Entries(w)[..w.presNum] == Entries(w);
      assert Bits(accepted, 0)[..w.presNum] == Bits(accepted, 0);
    }
  }

  lemma {:induction false} LateAnswers(u: Dev, accepted: set<Byte>, props: Byte -> Props, n: nat)
    requires Collecting(u, accepted) && GoodMap(accepted)
    ensures |accepted| > u.presNum
    ensures Bits(u.addrs, u.index as nat + 1) == Bits(accepted, u.index as nat + 1) ==>
              EnumeratedAs(Answered(u, props, |accepted| - u.presNum), accepted)
    ensures Bits(u.addrs, u.index as nat + 1) != Bits(accepted, u.index as nat + 1) ==>
              !EnumeratedAs(Answered(u, props, n), accepted)
    decreases |accepted| - u.presNum
  {
    hide Bits, NextBit, AnswerOne;
    AllBits(accepted);
    LateAnswer(u, accepted, props);
    var v := AnswerOne(u, props);
    AnsweredFirst(u, props, |accepted| - u.presNum);
    if n > 0 {
      AnsweredFirst(u, props, n);
      if NextBit(u.addrs, u.index as nat + 1) != NextBit(accepted, u.index as nat + 1) {
        LostStays(v, accepted, u.presNum + 1, props, n - 1);
      }
    }
    if Collecting(v, accepted) && v.presNum == u.presNum + 1 {
      LateAnswers(v, accepted, props, if n > 0 then n - 1 else 0);
    }
  }

  lemma {:induction false} LateArrives(d: Dev, late: set<Byte>, memOk: bool, writeOk: bool, resetOk: bool)
    requires Requested(d)
    ensures var t := Next(d, Dispatch(EnumRes(late, memOk), writeOk, resetOk));
            && (resetOk ==> t.dev == Resetting)
            && (!resetOk ==>
                  Collecting(t, d.log.accepted) && t.addrs == late && t.index == d.index && t.presNum == d.presNum)
  {
    hide Bits, NextBit;
  }

  /** A late enumeration response overwrites the map before it is rejected. If the hardware reset
      that it causes succeeds, that ends the enumeration under way. If the reset fails, the
      enumeration goes on under the late map, and ends in WORKING with exactly the accepted
      addresses, all announced, if and only if both maps agree above the address asked for last;
      otherwise it never does, however many answers come. */
  lemma {:induction false} LateMapExact(d: Dev, late: set<Byte>, memOk: bool, props: Byte -> Props,
                                        writeOk: bool, resetOk: bool, n: nat)
    requires Requested(d) && GoodMap(d.log.accepted)
    ensures var t := Next(d, Dispatch(EnumRes(late, memOk), writeOk, resetOk));
            var accepted := d.log.accepted;
            if resetOk then t.dev == Resetting
            else if Bits(late, d.index as nat + 1) == Bits(accepted, d.index as nat + 1) then
              d.presNum < |accepted| && EnumeratedAs(Answered(t, props, |accepted| - d.presNum), accepted)
            else !EnumeratedAs(Answered(t, props, n), accepted)
  {
    hide *;
    LateArrives(d, late, memOk, writeOk, resetOk);
    if !resetOk {
      LateAnswers(Next(d, Dispatch(EnumRes(late, memOk), writeOk, resetOk)), d.log.accepted, props, n);
    }
  }

  /** While properties are collected a response looks up an entry of the table; once all are
      there, `presNum` lies beyond it. Then whatever is found there, the response only makes the
      hardware reset. */
  lemma {:induction false} LookupExact(d: Dev, m: BusMsg, writeOk: bool, resetOk: bool)
    requires m.PropsRes? && (Requested(d) || Enumerated(d))
    ensures d.presNum < |Entries(d)| <==> Requested(d)
    ensures Enumerated(d) ==> Next(d, Dispatch(m, writeOk, resetOk)) == HwReset(d, resetOk)
  {
  }
}

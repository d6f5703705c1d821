/** The bus part of `struct ishtp_device` as the driver updates it, proved against Hbm. */
module HbmDevice {
  import opened Options
  import opened Wire
  import opened Hbm

  /** The set bits below `n`. */
  function Below(addrs: set<Byte>, n: nat): set<Byte>
  {
    set b | b in addrs && b < n
  }

  lemma {:induction false} BelowNext(addrs: set<Byte>, n: nat)
    requires n < CLIENTS_MAX
    ensures |Below(addrs, n + 1)| == |Below(addrs, n)| + if n in addrs then 1 else 0
  {
    if n in addrs {
      assert Below(addrs, n + 1) == Below(addrs, n) + {n};
    } else {
      assert Below(addrs, n + 1) == Below(addrs, n);
    }
  }

  class Device {
    var dev: DevState
    var hbm: HbmState
    var fwClientsMap: set<Byte>
    var fwClients: array?<FwClient>
    var num: Byte
    var presNum: Byte
    var index: Byte
    var resetHandled: bool
    var fault: Option<Fault>  // what the source would then do is undefined, or does not end
    ghost var log: Log

    ghost function Abs(): Dev
      reads this, fwClients
    {
      Dev(dev, hbm, fwClientsMap, if fwClients == null then None else Some(fwClients[..]),
          num, presNum, index, resetHandled, fault, log)
    }

    constructor ()
      ensures Fresh(Abs())
    {
      dev, hbm, fwClientsMap, fwClients := Initializing, Idle, {}, null;
      num, presNum, index, resetHandled, fault := 0, 0, 0, false, None;
      log := Log({}, [], [], []);
    }

    /** ish_hw_reset */
    method HwReset(ok: bool)
      modifies `dev
      ensures Abs() == Hbm.HwReset(old(Abs()), ok)
    {
      if ok {
        dev := Resetting;
      }
    }

    method FindNextBit(from: nat) returns (b: nat)
      ensures b == NextBit(fwClientsMap, from)
    {
      b := from;
      while b < CLIENTS_MAX && b !in fwClientsMap
        invariant NextBit(fwClientsMap, b) == NextBit(fwClientsMap, from)
      {
        b := b + 1;
      }
      if b > CLIENTS_MAX {
        b := CLIENTS_MAX;
      }
    }

    /** for_each_set_bit, counting */
    method CountClients()
      modifies `num
      ensures num == Wrap(old(num) + |fwClientsMap|)
    {
      var b := 0;
      assert Below(fwClientsMap, 0) == {};
      while b < CLIENTS_MAX
        invariant b <= CLIENTS_MAX
        invariant num == Wrap(old(num) + |Below(fwClientsMap, b)|)
      {
        BelowNext(fwClientsMap, b);
        if b in fwClientsMap {
          num := Wrap(num + 1);
        }
        b := b + 1;
      }
      assert Below(fwClientsMap, CLIENTS_MAX) == fwClientsMap;
    }

    /** ishtp_hbm_fw_cl_allocate */
    method FwClAllocate(memOk: bool, resetOk: bool)
      modifies `num, `fwClients, `dev
      ensures Abs() == Hbm.FwClAllocate(old(Abs()), memOk, resetOk)
      ensures fwClients == old(fwClients) || fresh(fwClients)
    {
      CountClients();
      if num <= 0 {
        return;
      }
      if !memOk {
        dev := Resetting;
        HwReset(resetOk);
        return;
      }
      fwClients := new FwClient[num](_ => FwClient(0, Zeroed));
      assert fwClients[..] == seq(num, _ => FwClient(0, Zeroed));
    }

    /** ishtp_bus_new_client, for the client before `presNum` */
    method BusNewClient()
      requires fwClients != null && 1 <= presNum <= fwClients.Length
      modifies `log
      ensures log == old(log).(announced := old(log).announced + [fwClients[presNum - 1].props])
    {
      var i := presNum - 1;
      log := log.(announced := log.announced + [fwClients[i].props]);
    }

    /** ishtp_hbm_prop_req, where no client is left */
    method AnnounceAll(clientNum: Byte)
      requires clientNum == presNum
      modifies `dev, `hbm, `presNum, `fault, `log
      ensures Abs() == AllReceived(old(Abs()))
    {
      hbm := Working;
      dev := Enabled;
      if clientNum == 255 {
        fault := Some(EndlessLoop);
        return;
      }
      if clientNum > (if fwClients == null then 0 else fwClients.Length) {
        fault := Some(OutOfTable);
        return;
      }
      ghost var table := Entries(Abs());
      presNum := 1;
      assert PropsOf(table[..0]) == [];
      while presNum < clientNum + 1
        invariant 1 <= presNum <= clientNum + 1 && dev == Enabled && hbm == Working && fault == old(fault)
        invariant log == old(log).(announced := old(log).announced + PropsOf(table[..presNum - 1]))
      {
        BusNewClient();
        assert table[..presNum] == table[..presNum - 1] + [table[presNum - 1]];
        presNum := presNum + 1;
      }
    }

    /** ishtp_hbm_prop_req */
    method PropReq(writeOk: bool, resetOk: bool)
      modifies this, fwClients
      ensures Abs() == Hbm.PropReq(old(Abs()), writeOk, resetOk)
      ensures fwClients == old(fwClients)
    {
      var clientNum := presNum;
      var next := FindNextBit(index);
      if next == CLIENTS_MAX {
        AnnounceAll(clientNum);
        return;
      }
      if fwClients == null {
        fault := Some(NoTable);
        return;
      }
      if clientNum >= fwClients.Length {
        fault := Some(OutOfTable);
        return;
      }
      fwClients[clientNum] := fwClients[clientNum].(id := next);
      if !writeOk {
        dev := Resetting;
        HwReset(resetOk);
        return;
      }
      log := log.(requested := log.requested + [next]);
      index := next;
    }

    /** ishtp_hbm_enum_clients_req */
    method EnumClientsReq(writeOk: bool, resetOk: bool)
      modifies `dev, `hbm
      ensures Abs() == Hbm.EnumClientsReq(old(Abs()), writeOk, resetOk)
    {
      if !writeOk {
        dev := Resetting;
        HwReset(resetOk);
      }
      hbm := EnumClients;
    }

    /** ishtp_hbm_dispatch, HOST_START_RES_CMD */
    method OnStartRes(supported: bool, writeOk: bool, resetOk: bool)
      modifies `dev, `hbm
      ensures Abs() == DispatchMsg(old(Abs()), StartRes(supported), writeOk, resetOk)
    {
      if !supported {
        hbm := Stopped;
        return;
      }
      if dev == InitClients && hbm == Start {
        hbm := Started;
        EnumClientsReq(writeOk, resetOk);
      } else {
        HwReset(resetOk);
      }
    }

    /** ishtp_hbm_dispatch, HOST_ENUM_RES_CMD */
    method OnEnumRes(addrs: set<Byte>, memOk: bool, writeOk: bool, resetOk: bool)
      modifies this, fwClients
      ensures Abs() == DispatchMsg(old(Abs()), EnumRes(addrs, memOk), writeOk, resetOk)
      ensures fwClients == old(fwClients) || fresh(fwClients)
    {
      hide Hbm.PropReq, NextBit, AllReceived, Hbm.FwClAllocate;
      fwClientsMap := addrs;
      if dev == InitClients && hbm == EnumClients {
        presNum, index := 0, 0;
        log := Log(addrs, [], [], []);
        FwClAllocate(memOk, resetOk);
        hbm := ClientProperties;
        PropReq(writeOk, resetOk);
      } else {
        HwReset(resetOk);
      }
    }

    /** ishtp_hbm_dispatch, HOST_CLIENT_PROPERTIES_RES_CMD; `stray` is what is found where the
        entry looked up lies beyond the table. */
    method OnPropsRes(status: nat, address: Byte, props: Props, stray: Byte, writeOk: bool, resetOk: bool)
      modifies this, fwClients
      ensures Abs() == DispatchMsg(old(Abs()), PropsRes(status, address, props, stray), writeOk, resetOk)
      ensures fwClients == old(fwClients)
    {
      hide Hbm.PropReq, NextBit, AllReceived;
      if status != 0 || fwClients == null {
        HwReset(resetOk);
        return;
      }
      var id := if presNum < fwClients.Length then fwClients[presNum].id else stray;
      if id != address {
        HwReset(resetOk);
        return;
      }
      if dev != InitClients || hbm != ClientProperties {
        HwReset(resetOk);
        return;
      }
      if presNum >= fwClients.Length {
        fault := Some(OutOfTable);
        return;
      }
      fwClients[presNum] := fwClients[presNum].(props := props);
      index := Wrap(index + 1);
      presNum := Wrap(presNum + 1);
      log := log.(answered := log.answered + [FwClient(address, props)]);
      PropReq(writeOk, resetOk);
    }

    /** ishtp_hbm_dispatch, for the messages of the handshake */
    method Dispatch(m: BusMsg, writeOk: bool, resetOk: bool)
      modifies this, fwClients
      ensures Abs() == Next(old(Abs()), Event.Dispatch(m, writeOk, resetOk))
      ensures fwClients == old(fwClients) || fresh(fwClients)
    {
      if fault.Some? {
        return;
      }
      match m
      case StartRes(supported) => OnStartRes(supported, writeOk, resetOk);
      case EnumRes(addrs, memOk) => OnEnumRes(addrs, memOk, writeOk, resetOk);
      case PropsRes(status, address, props, stray) => OnPropsRes(status, address, props, stray, writeOk, resetOk);
      case StopRes =>
        dev := Disabled;
        HwReset(resetOk);
      case FwStopReq => hbm := Stopped;
      case OtherMsg =>
    }

    /** ishtp_reset_handler, and of ishtp_bus_remove_all_clients what concerns enumeration */
    method ResetHandler()
      modifies this
      ensures Abs() == Cleared(old(Abs())) && fwClients == null
      ensures dev == Resetting && fwClientsMap == {} && num == presNum == index == 0 && resetHandled && hbm == old(hbm)
    {
      dev := Resetting;
      fwClients := null;
      num, presNum, index := 0, 0, 0;
      fwClientsMap := {};
      resetHandled := true;
    }

    /** ishtp_hbm_start_req */
    method StartReq(writeOk: bool, resetOk: bool) returns (ok: bool)
      modifies `dev, `hbm
      ensures ok == writeOk
      ensures hbm == if writeOk then Start else Idle
      ensures dev == if writeOk then old(dev) else Resetting
    {
      hbm := Start;
      if !writeOk {
        dev := Resetting;
        hbm := Idle;
        HwReset(resetOk);
        return false;
      }
      return true;
    }

    /** ishtp_reset_compl_handler */
    method ResetComplHandler(writeOk: bool, resetOk: bool)
      requires resetHandled
      modifies `dev, `hbm, `resetHandled
      ensures Abs() == Restarted(old(Abs()), writeOk, resetOk)
      ensures (dev, hbm) == (if writeOk then (InitClients, Start) else (Resetting, Idle)) && !resetHandled
    {
      dev := InitClients;
      hbm := Start;
      resetHandled := false;
      var ok := StartReq(writeOk, resetOk);
    }

    /** ishtp_hbm_start_wait; `timedOut` is whether the wait ends without the state it waits for. */
    method StartWait(timedOut: bool) returns (ok: bool)
      modifies `hbm
      ensures Abs() == if timedOut then TimedOut(old(Abs())) else old(Abs())
      ensures ok == !(timedOut && old(hbm) in {Idle, Start})
      ensures hbm == if ok then old(hbm) else Idle
    {
      if hbm !in {Idle, Start} {
        return true;
      }
      if timedOut {
        hbm := Idle;
        return false;
      }
      return true;
    }
  }
}

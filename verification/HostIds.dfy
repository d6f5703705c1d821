/** Host client ids: a bitmap of 256, at most 255 open handles, and the list of linked clients. */
module HostIds {
  import opened Lists
  import opened Wire

  const CLIENTS_MAX := 256
  const MAX_OPEN_HANDLES := 255

  /** A client on `dev->cl_list`, with its host_client_id. */
  datatype Linked = Linked(cl: nat, id: Byte)

  /** `hostId` is the host_client_id field of every client; `refused` counts, as history, the
      links that found the device not enabled. */
  datatype Hosts = Hosts(bits: set<Byte>, handles: nat, list: seq<Linked>, hostId: map<nat, Byte>, refused: nat)

  datatype Status = LinkedOk | TooManyHandles | IdExceeded | NoDevice

  datatype Event = Link(cl: nat, enabled: bool) | Unlink(cl: nat)

  /** find_first_zero_bit */
  function FirstZero(bits: set<Byte>, from: nat): (i: nat)
    ensures i <= CLIENTS_MAX || i == from
    ensures i < CLIENTS_MAX ==> from <= i && i !in bits
    ensures forall b :: from <= b < i && b < CLIENTS_MAX ==> b in bits
    decreases CLIENTS_MAX - from
  {
    if from >= CLIENTS_MAX || from !in bits then from else FirstZero(bits, from + 1)
  }

  function IndexOfId(list: seq<Linked>, id: Byte): (i: nat)
    ensures i <= |list|
    ensures i < |list| ==> list[i].id == id
    ensures forall k :: 0 <= k < i ==> list[k].id != id
  {
    if list == [] || list[0].id == id then 0 else 1 + IndexOfId(list[1..], id)
  }

  function HostIdOf(s: Hosts, cl: nat): Byte
  {
    if cl in s.hostId then s.hostId[cl] else 0
  }

  function LinkStatus(s: Hosts, enabled: bool): Status
  {
    if s.handles >= MAX_OPEN_HANDLES then TooManyHandles
    else if FirstZero(s.bits, 0) >= CLIENTS_MAX then IdExceeded
    else if !enabled then NoDevice
    else LinkedOk
  }

  /** ishtp_cl_link: a refused link has taken its handle and its id all the same. */
  function AfterLink(s: Hosts, cl: nat, enabled: bool): Hosts
  {
    var id := FirstZero(s.bits, 0);
    match LinkStatus(s, enabled)
    case LinkedOk => Hosts(s.bits + {id}, s.handles + 1, s.list + [Linked(cl, id)], s.hostId[cl := id], s.refused)
    case NoDevice => s.(handles := s.handles + 1, hostId := s.hostId[cl := id], refused := s.refused + 1)
    case _ => s
  }

  /** ishtp_cl_unlink: by host id, whoever has it. */
  function AfterUnlink(s: Hosts, cl: nat): Hosts
  {
    var id := HostIdOf(s, cl);
    var t := if s.handles > 0 then s.(bits := s.bits - {id}, handles := s.handles - 1) else s;
    if IndexOfId(s.list, id) < |s.list| then t.(list := RemoveAt(s.list, IndexOfId(s.list, id))) else t
  }

  function Next(s: Hosts, e: Event): Hosts
  {
    match e
    case Link(cl, enabled) => AfterLink(s, cl, enabled)
    case Unlink(cl) => AfterUnlink(s, cl)
  }

  function Run(s: Hosts, es: seq<Event>): Hosts
  {
    if es == [] then s else Next(Run(s, es[..|es| - 1]), es[|es| - 1])
  }

  /** ishtp_device_init: id 0 is the bus itself. */
  const FRESH := Hosts({0}, 0, [], map[], 0)

  predicate IsLinked(s: Hosts, cl: nat)
  {
    exists k :: 0 <= k < |s.list| && s.list[k].cl == cl
  }

  /** A client is linked once at a time, and unlinked only when linked. */
  predicate Proper(s: Hosts, e: Event)
  {
    if e.Link? then !IsLinked(s, e.cl) else IsLinked(s, e.cl)
  }

  predicate ProperRun(es: seq<Event>)
  {
    es == [] || (ProperRun(es[..|es| - 1]) && Proper(Run(FRESH, es[..|es| - 1]), es[|es| - 1]))
  }

  function IdSet(list: seq<Linked>): (ids: set<Byte>)
  {
    set k | 0 <= k < |list| :: list[k].id
  }

  /** No id twice, none of them the reserved one, and every client's field is its id. */
  predicate DistinctInv(s: Hosts)
  {
    && (forall j, k :: 0 <= j < k < |s.list| ==> s.list[j].id != s.list[k].id && s.list[j].cl != s.list[k].cl)
    && (forall k :: 0 <= k < |s.list| ==> s.list[k].id != 0 && HostIdOf(s, s.list[k].cl) == s.list[k].id)
  }

  /** The set bits are those of the linked clients and the reserved one, and a handle is counted
      at least for every linked client. */
  predicate Balanced(s: Hosts)
  {
    && DistinctInv(s)
    && s.bits == IdSet(s.list) + {0}
    && s.handles >= |s.list|
  }

  /** A handle is counted for every linked client and for every refused link. */
  predicate HostsInv(s: Hosts)
  {
    Balanced(s) && s.handles == |s.list| + s.refused
  }

  lemma {:induction false} IdSetSize(list: seq<Linked>)
    requires forall j, k :: 0 <= j < k < |list| ==> list[j].id != list[k].id
    ensures |IdSet(list)| == |list|
  {
    if list == [] {
      assert IdSet(list) == {};
    } else {
      var init := list[..|list| - 1];
      IdSetSize(init);
      IdSetPush(init, list[|list| - 1]);
      assert init + [list[|list| - 1]] == list;
    }
  }

  lemma {:induction false} IdSetPush(list: seq<Linked>, x: Linked)
    ensures IdSet(list + [x]) == IdSet(list) + {x.id}
  {
    var all := list + [x];
    assert all[|list|] == x;
    forall id | id in IdSet(list) + {x.id} ensures id in IdSet(all) {
      if id in IdSet(list) {
        var k :| 0 <= k < |list| && list[k].id == id;
        assert all[k] == list[k];
      }
    }
  }

  lemma {:induction false} IdSetRemove(list: seq<Linked>, i: nat)
    requires i < |list| && forall j, k :: 0 <= j < k < |list| ==> list[j].id != list[k].id
    ensures IdSet(RemoveAt(list, i)) == IdSet(list) - {list[i].id}
  {
    var rest := RemoveAt(list, i);
    forall id | id in IdSet(list) - {list[i].id} ensures id in IdSet(rest) {
      var k :| 0 <= k < |list| && list[k].id == id;
      assert rest[if k < i then k else k - 1] == list[k];
    }
    forall id | id in IdSet(rest) ensures id in IdSet(list) - {list[i].id} {
      var k :| 0 <= k < |rest| && rest[k].id == id;
      assert rest[k] == list[if k < i then k else k + 1];
    }
  }

  /** Pigeonhole: there is a free id as long as the handles are not used up. */
  lemma {:induction false} FreeId(s: Hosts)
    requires Balanced(s) && s.handles < MAX_OPEN_HANDLES
    ensures FirstZero(s.bits, 0) < CLIENTS_MAX
  {
    IdSetSize(s.list);
    assert |s.bits| <= |s.list| + 1;
    if FirstZero(s.bits, 0) >= CLIENTS_MAX {
      FullSize(s.bits, CLIENTS_MAX);
      assert false;
    }
  }

  lemma {:induction false} FullSize(bits: set<Byte>, n: nat)
    requires n <= CLIENTS_MAX && forall b :: 0 <= b < n ==> b in bits
    ensures |bits| >= n
  {
    if n > 0 {
      FullSize(bits - {n - 1}, n - 1);
    }
  }

  lemma {:induction false} LinkStep(s: Hosts, cl: nat, enabled: bool)
    requires HostsInv(s) && !IsLinked(s, cl)
    ensures HostsInv(AfterLink(s, cl, enabled))
  {
    hide FirstZero;
    var id := FirstZero(s.bits, 0);
    if LinkStatus(s, enabled) == LinkedOk {
      IdSetPush(s.list, Linked(cl, id));
      assert forall k :: 0 <= k < |s.list| ==> s.list[k].id in IdSet(s.list);
    }
  }

  lemma {:induction false} LinkedAt(s: Hosts, cl: nat)
    requires DistinctInv(s) && IsLinked(s, cl)
    ensures var i := IndexOfId(s.list, HostIdOf(s, cl)); i < |s.list| && s.list[i] == Linked(cl, HostIdOf(s, cl))
  {
  }

  lemma {:induction false} UnlinkStep(s: Hosts, cl: nat)
    requires HostsInv(s) && IsLinked(s, cl)
    ensures HostsInv(AfterUnlink(s, cl)) && !IsLinked(AfterUnlink(s, cl), cl)
  {
    hide IndexOfId, IdSet;
    LinkedAt(s, cl);
    var i := IndexOfId(s.list, HostIdOf(s, cl));
    var rest := RemoveAt(s.list, i);
    IdSetRemove(s.list, i);
    assert forall k :: 0 <= k < |rest| ==> rest[k] == s.list[if k < i then k else k + 1];
  }

  lemma {:induction false} HostsRun(es: seq<Event>)
    requires ProperRun(es)
    ensures HostsInv(Run(FRESH, es))
  {
    if es != [] {
      var t, e := Run(FRESH, es[..|es| - 1]), es[|es| - 1];
      HostsRun(es[..|es| - 1]);
      match e
      case Link(cl, enabled) => LinkStep(t, cl, enabled);
      case Unlink(cl) => UnlinkStep(t, cl);
    }
  }

  /** Over every proper run: linked clients have distinct ids from 1 to 255, exactly the set
      bits besides the reserved one; handles are counted for linked clients and refused links;
      and running out of ids is impossible. */
  lemma {:induction false} HostIdsExact(es: seq<Event>, enabled: bool)
    requires ProperRun(es)
    ensures var t := Run(FRESH, es);
            && 0 in t.bits && t.bits - {0} == IdSet(t.list) && |IdSet(t.list)| == |t.list|
            && t.handles == |t.list| + t.refused
            && LinkStatus(t, enabled) != IdExceeded
            && |t.list| + t.refused <= MAX_OPEN_HANDLES
  {
    HostsRun(es);
    var t := Run(FRESH, es);
    IdSetSize(t.list);
    assert 0 !in IdSet(t.list);
    if t.handles < MAX_OPEN_HANDLES {
      FreeId(t);
    }
    HandlesBound(es);
  }

  /** After any proper run a link succeeds if and only if the device is enabled and fewer than 255
      handles are counted. The client then is the last on the list, with the least id that no
      linked client has, 0 being reserved; if the device is not enabled, the handle is gone. */
  lemma {:induction false} LinkExact(es: seq<Event>, cl: nat, enabled: bool)
    requires ProperRun(es)
    ensures var t := Run(FRESH, es);
            var u := Next(t, Link(cl, enabled));
            var id := HostIdOf(u, cl);
            && LinkStatus(t, enabled) == (if |t.list| + t.refused >= MAX_OPEN_HANDLES then TooManyHandles
                                          else if !enabled then NoDevice else LinkedOk)
            && if |t.list| + t.refused < MAX_OPEN_HANDLES then
                 && id != 0 && id !in IdSet(t.list) && (forall b: Byte :: 0 < b < id ==> b in IdSet(t.list))
                 && u.handles == t.handles + 1
                 && u.list == (if enabled then t.list + [Linked(cl, id)] else t.list)
                 && u.bits == (if enabled then t.bits + {id} else t.bits)
                 && u.refused == (if enabled then t.refused else t.refused + 1)
               else u == t
  {
    HostIdsExact(es, enabled);
    HostIdsExact(es, true);
    var t := Run(FRESH, es);
    var id := FirstZero(t.bits, 0);
    assert t.bits == IdSet(t.list) + {0};
    if |t.list| + t.refused < MAX_OPEN_HANDLES {
      assert id < CLIENTS_MAX;
    }
  }

  /** And unlinking a linked client gives back its own id and its handle, and leaves all others as
      they were, in their order. */
  lemma {:induction false} UnlinkExact(es: seq<Event>, cl: nat, i: nat)
    requires ProperRun(es) && i < |Run(FRESH, es).list| && Run(FRESH, es).list[i].cl == cl
    ensures var t := Run(FRESH, es);
            var u := Next(t, Unlink(cl));
            && u.list == t.list[..i] + t.list[i + 1..] && !IsLinked(u, cl)
            && u.bits == t.bits - {t.list[i].id} && u.handles == t.handles - 1 && u.refused == t.refused
  {
    HostsRun(es);
    var t := Run(FRESH, es);
    LinkedAt(t, cl);
    assert IndexOfId(t.list, HostIdOf(t, cl)) == i;
    UnlinkStep(t, cl);
  }

  lemma {:induction false} HandlesBound(es: seq<Event>)
    ensures Run(FRESH, es).handles <= MAX_OPEN_HANDLES
  {
    if es != [] {
      HandlesBound(es[..|es| - 1]);
    }
  }

  /** Refused links are never given back: after 255 of them no link succeeds ever again. */
  lemma {:induction false} RefusedLinksLeak(es: seq<Event>, more: seq<Event>)
    requires ProperRun(es) && ProperRun(es + more) && Run(FRESH, es).refused == MAX_OPEN_HANDLES
    ensures Run(FRESH, es + more).list == []
    ensures forall enabled :: LinkStatus(Run(FRESH, es + more), enabled) == TooManyHandles
  {
    RefusedGrows(es, more);
    HostIdsExact(es + more, true);
  }

  lemma {:induction false} RefusedGrows(es: seq<Event>, more: seq<Event>)
    ensures Run(FRESH, es).refused <= Run(FRESH, es + more).refused
  {
    if more == [] {
      assert es + more == es;
    } else {
      RefusedGrows(es, more[..|more| - 1]);
      assert (es + more)[..|es + more| - 1] == es + more[..|more| - 1];
    }
  }

  /** `n` links of a device that is not enabled. */
  function Refusals(cl: nat, n: nat): (es: seq<Event>)
  {
    if n == 0 then [] else Refusals(cl, n - 1) + [Link(cl, false)]
  }

  /** And 255 links can be refused: of one client, one after the other. */
  lemma {:induction false} RefusalsReachable(cl: nat, n: nat)
    requires n <= MAX_OPEN_HANDLES
    ensures ProperRun(Refusals(cl, n))
    ensures var t := Run(FRESH, Refusals(cl, n)); t.bits == {0} && t.list == [] && t.handles == t.refused == n
  {
    if n > 0 {
      RefusalsReachable(cl, n - 1);
      assert Refusals(cl, n)[..|Refusals(cl, n)| - 1] == Refusals(cl, n - 1);
    }
  }

  /** Unlinking a client that is not linked leaves the linked clients, the bits and enough handles
      exactly when no handle is counted, or there is a handle of a refused link to give back and
      the client's host id is neither the reserved one nor that of a linked client. Then it is
      the refused link that is undone. */
  lemma {:induction false} ForeignUnlinkExact(s: Hosts, cl: nat)
    requires HostsInv(s) && !IsLinked(s, cl)
    ensures var t, id := AfterUnlink(s, cl), HostIdOf(s, cl);
            && (t.list == s.list && Balanced(t)
                <==> s.handles == 0 || (s.refused > 0 && id != 0 && id !in IdSet(s.list)))
            && (t.list == s.list && Balanced(t) ==> HostsInv(t.(refused := if s.handles == 0 then 0 else s.refused - 1)))
  {
    var id := HostIdOf(s, cl);
    if IndexOfId(s.list, id) < |s.list| {
      assert id in IdSet(s.list);
      assert |AfterUnlink(s, cl).list| < |s.list|;
    } else {
      assert id !in IdSet(s.list);
    }
  }

  // ---------------------------------------------------------------- The driver's functions

  class Device {
    var hostClientsMap: set<Byte>
    var openHandleCount: nat
    var clList: seq<Linked>
    var hostClientId: map<nat, Byte>
    ghost var refused: nat

    ghost function Abs(): Hosts
      reads this
    {
      Hosts(hostClientsMap, openHandleCount, clList, hostClientId, refused)
    }

    /** ishtp_device_init */
    constructor ()
      ensures Abs() == FRESH
    {
      hostClientsMap, openHandleCount, clList, hostClientId, refused := {0}, 0, [], map[], 0;
    }

    method FindFirstZeroBit() returns (i: nat)
      ensures i == FirstZero(hostClientsMap, 0) <= CLIENTS_MAX
    {
      i := 0;
      while i < CLIENTS_MAX && i in hostClientsMap
        invariant i <= CLIENTS_MAX && FirstZero(hostClientsMap, i) == FirstZero(hostClientsMap, 0)
      {
        i := i + 1;
      }
    }

    /** ishtp_cl_link */
    method Link(cl: nat, enabled: bool) returns (r: Status)
      modifies this
      ensures r == LinkStatus(old(Abs()), enabled)
      ensures Abs() == AfterLink(old(Abs()), cl, enabled)
    {
      if openHandleCount >= MAX_OPEN_HANDLES {
        return TooManyHandles;
      }
      var id := FindFirstZeroBit();
      if id >= CLIENTS_MAX {
        return IdExceeded;
      }
      openHandleCount := openHandleCount + 1;
      hostClientId := hostClientId[cl := id];
      if !enabled {
        refused := refused + 1;
        return NoDevice;
      }
      clList := clList + [Linked(cl, id)];
      hostClientsMap := hostClientsMap + {id};
      return LinkedOk;
    }

    /** ishtp_cl_unlink */
    method Unlink(cl: nat)
      modifies `hostClientsMap, `openHandleCount, `clList
      ensures Abs() == AfterUnlink(old(Abs()), cl)
    {
      var id := if cl in hostClientId then hostClientId[cl] else 0;
      if openHandleCount > 0 {
        hostClientsMap := hostClientsMap - {id};
        openHandleCount := openHandleCount - 1;
      }
      RemoveById(id);
    }

    /** The walk along the client list. */
    method RemoveById(id: Byte)
      modifies `clList
      ensures var i := IndexOfId(old(clList), id);
              clList == if i < |old(clList)| then RemoveAt(old(clList), i) else old(clList)
    {
      var i := 0;
      while i < |clList|
        invariant 0 <= i <= |clList| && clList == old(clList)
        invariant forall k :: 0 <= k < i ==> clList[k].id != id
      {
        if clList[i].id == id {
          assert i == IndexOfId(old(clList), id);
          clList := RemoveAt(clList, i);
          return;
        }
        i := i + 1;
      }
    }
  }
}

/** The slot map of the DMA transmit buffer: a first-fit search that skips ahead, and release. */
module DmaSlots {
  import opened Bits
  import opened Lists
  import opened Options
  import opened Wire

  const DMA_SLOT_SIZE := 4096

  /** How many slots `size` bytes take. */
  function Slots(size: nat): (n: nat)
    ensures (n == 0 <==> size == 0) && (size > 0 ==> (n - 1) * DMA_SLOT_SIZE < size <= n * DMA_SLOT_SIZE)
  {
    size / DMA_SLOT_SIZE + if size % DMA_SLOT_SIZE != 0 then 1 else 0
  }

  // ---------------------------------------------------------------- First fit

  /** `n` slots from `i` on are in range and free. */
  predicate FreeRun(used: seq<bool>, i: nat, n: nat)
  {
    i + n <= |used| && forall k :: i <= k < i + n ==> !used[k]
  }

  /** The plain search: every start in turn. */
  function FirstFit(used: seq<bool>, n: nat, from: nat): (r: Option<nat>)
    ensures r.Some? ==> from <= r.value && FreeRun(used, r.value, n)
    ensures forall k :: from <= k < (if r.Some? then r.value else |used| + 1) ==> !FreeRun(used, k, n)
    decreases |used| + 1 - from
  {
    if from > |used| then None
    else if FreeRun(used, from, n) then Some(from)
    else FirstFit(used, n, from + 1)
  }

  function Mark(used: seq<bool>, i: nat, n: nat, value: bool): (r: seq<bool>)
    requires i + n <= |used|
    ensures |r| == |used|
    ensures forall k :: 0 <= k < |used| ==> r[k] == if i <= k < i + n then value else used[k]
  {
    seq(|used|, k requires 0 <= k < |used| => if i <= k < i + n then value else used[k])
  }

  /** Starts that were shown not to fit need not be looked at. */
  lemma {:induction false} FirstFitSkip(used: seq<bool>, n: nat, from: nat, to: nat)
    requires from <= to && forall k :: from <= k < to ==> !FreeRun(used, k, n)
    ensures FirstFit(used, n, from) == FirstFit(used, n, to)
    decreases |used| + 1 - from
  {
  }

  /** A used slot rules out every start less than `n` before it. */
  lemma {:induction false} UsedBlocks(used: seq<bool>, n: nat, start: nat, j: nat)
    requires j < n && start + j < |used| && used[start + j]
    ensures forall k :: start <= k <= start + j ==> !FreeRun(used, k, n)
  {
  }

  // ---------------------------------------------------------------- Release

  /** Slots from `i` on are freed, until one that is free already or does not exist. */
  function Released(used: seq<bool>, i: nat, n: nat): (r: seq<bool>)
    ensures |r| == |used|
    decreases n
  {
    if n == 0 || i >= |used| || !used[i] then used else Released(used[i := false], i + 1, n - 1)
  }

  lemma {:induction false} ReleasedAll(used: seq<bool>, i: nat, n: nat)
    requires i + n <= |used| && forall k :: i <= k < i + n ==> used[k]
    ensures Released(used, i, n) == Mark(used, i, n, false)
    decreases n
  {
    if n > 0 {
      ReleasedAll(used[i := false], i + 1, n - 1);
    }
  }

  /** Releasing with the width the caller has undoes an allocation. */
  lemma {:induction false} ReleaseUndoes(used: seq<bool>, i: nat, n: nat)
    requires FreeRun(used, i, n)
    ensures Released(Mark(used, i, n, true), i, n) == used
  {
    ReleasedAll(Mark(used, i, n, true), i, n);
  }

  /** Releasing through the uint8_t parameter undoes an allocation exactly when the size is
      zero, or at most one slot and no multiple of 256. */
  lemma {:induction false} NarrowReleaseExact(used: seq<bool>, i: nat, size: nat)
    requires FreeRun(used, i, Slots(size))
    ensures Released(Mark(used, i, Slots(size), true), i, Slots(size % 256)) == used
       <==> size == 0 || (size <= DMA_SLOT_SIZE && size % 256 != 0)
  {
    var n, n8 := Slots(size), Slots(size % 256);
    var marked := Mark(used, i, n, true);
    assert n8 <= n;
    ReleasedAll(marked, i, n8);
    assert Slots(size % 256) == if size % 256 == 0 then 0 else 1;
    if n8 < n {
      assert Mark(marked, i, n8, false)[i + n8] && !used[i + n8];
    } else {
      assert Mark(marked, i, n, false) == used;
    }
  }

  // ---------------------------------------------------------------- All runs

  /** An allocation that was not acknowledged yet. */
  datatype Slice = Slice(start: nat, size: nat)

  predicate Covers(s: Slice, i: nat)
  {
    s.start <= i < s.start + Slots(s.size)
  }

  /** How many of the allocations cover slot `i`. */
  function Cover(live: seq<Slice>, i: nat): nat
  {
    if live == [] then 0 else Cover(live[..|live| - 1], i) + if Covers(live[|live| - 1], i) then 1 else 0
  }

  datatype Dma = Dma(used: seq<bool>, live: seq<Slice>)

  datatype Event = Alloc(size: nat) | Ack(k: nat)

  /** `narrow`: the size goes through a uint8_t on release. */
  function Next(d: Dma, e: Event, narrow: bool): Dma
  {
    match e
    case Alloc(size) =>
      var r := FirstFit(d.used, Slots(size), 0);
      if r.None? then d else Dma(Mark(d.used, r.value, Slots(size), true), d.live + [Slice(r.value, size)])
    case Ack(k) =>
      if k >= |d.live| then d
      else
        var s := d.live[k];
        Dma(Released(d.used, s.start, Slots(if narrow then s.size % 256 else s.size)), RemoveAt(d.live, k))
  }

  function Run(d: Dma, es: seq<Event>, narrow: bool): Dma
  {
    if es == [] then d else Next(Run(d, es[..|es| - 1], narrow), es[|es| - 1], narrow)
  }

  /** The map is exactly the union of the live allocations, and no two of them overlap. */
  ghost predicate Exact(d: Dma)
  {
    && (forall i :: 0 <= i < |d.used| ==> Cover(d.live, i) == if d.used[i] then 1 else 0)
    && (forall k :: 0 <= k < |d.live| ==> d.live[k].start + Slots(d.live[k].size) <= |d.used|)
  }

  lemma {:induction false} CoverConcat(s: seq<Slice>, t: seq<Slice>, i: nat)
    ensures Cover(s + t, i) == Cover(s, i) + Cover(t, i)
  {
    if t == [] {
      assert s + t == s;
    } else {
      assert (s + t)[..|s + t| - 1] == s + t[..|t| - 1];
      CoverConcat(s, t[..|t| - 1], i);
    }
  }

  lemma {:induction false} CoverRemove(live: seq<Slice>, k: nat, i: nat)
    requires k < |live|
    ensures Cover(live, i) == Cover(RemoveAt(live, k), i) + if Covers(live[k], i) then 1 else 0
  {
    var front, back := live[..k], live[k + 1..];
    assert live == front + [live[k]] + back;
    CoverConcat(front + [live[k]], back, i);
    CoverConcat(front, [live[k]], i);
    CoverConcat(front, back, i);
    assert [live[k]][..0] == [];
  }

  lemma {:induction false} AllocExact(d: Dma, size: nat)
    requires Exact(d)
    ensures Exact(Next(d, Alloc(size), false))
  {
  }

  lemma {:induction false} AckExact(d: Dma, k: nat)
    requires Exact(d) && k < |d.live|
    ensures var s := d.live[k];
            Next(d, Ack(k), false) == Dma(Mark(d.used, s.start, Slots(s.size), false), RemoveAt(d.live, k))
    ensures Exact(Next(d, Ack(k), false))
  {
    var s := d.live[k];
    forall i | s.start <= i < s.start + Slots(s.size) ensures d.used[i] {
      CoverRemove(d.live, k, i);
    }
    ReleasedAll(d.used, s.start, Slots(s.size));
    var t := Next(d, Ack(k), false);
    forall i | 0 <= i < |t.used| ensures Cover(t.live, i) == if t.used[i] then 1 else 0 {
      CoverRemove(d.live, k, i);
    }
  }

  /** Over every run of allocations and acknowledgements the map is the union of the live
      allocations, which are pairwise disjoint; so with none live every slot is free. */
  lemma {:induction false} SlotsExact(n: nat, es: seq<Event>)
    ensures var t := Run(Dma(seq(n, _ => false), []), es, false);
            && |t.used| == n && Exact(t)
            && (forall j, k, i :: 0 <= j < k < |t.live| && 0 <= i < n && Covers(t.live[j], i) ==> !Covers(t.live[k], i))
            && (t.live == [] ==> t.used == seq(n, _ => false))
  {
    ExactRun(n, es);
    var t := Run(Dma(seq(n, _ => false), []), es, false);
    forall j, k, i | 0 <= j < k < |t.live| && 0 <= i < n && Covers(t.live[j], i) ensures !Covers(t.live[k], i) {
      CoverRemove(t.live, k, i);
      CoverRemove(RemoveAt(t.live, k), j, i);
    }
    if t.live == [] {
      assert forall i :: 0 <= i < n ==> Cover(t.live, i) == 0;
    }
  }

  lemma {:induction false} ExactRun(n: nat, es: seq<Event>)
    ensures var t := Run(Dma(seq(n, _ => false), []), es, false);
            |t.used| == n && Exact(t)
  {
    if es != [] {
      ExactRun(n, es[..|es| - 1]);
      var t, e := Run(Dma(seq(n, _ => false), []), es[..|es| - 1], false), es[|es| - 1];
      match e
      case Alloc(size) => AllocExact(t, size);
      case Ack(k) => if k < |t.live| { AckExact(t, k); }
    }
  }

  predicate SafeSize(size: nat)
  {
    size == 0 || (size <= DMA_SLOT_SIZE && size % 256 != 0)
  }

  lemma {:induction false} SafeSizes(es: seq<Event>, n: nat)
    requires forall e :: e in es && e.Alloc? ==> SafeSize(e.size)
    ensures forall s :: s in Run(Dma(seq(n, _ => false), []), es, false).live ==> SafeSize(s.size)
  {
    if es != [] {
      SafeSizes(es[..|es| - 1], n);
      assert es[|es| - 1] in es;
    }
  }

  lemma {:induction false} NarrowSame(size: nat)
    requires SafeSize(size)
    ensures Slots(size % 256) == Slots(size)
  {
  }

  /** The driver as it stands keeps the map exact as long as all sizes are such that the narrow
      parameter does no harm. */
  lemma {:induction false} NarrowRunIsExact(n: nat, es: seq<Event>)
    requires forall e :: e in es && e.Alloc? ==> SafeSize(e.size)
    ensures Run(Dma(seq(n, _ => false), []), es, true) == Run(Dma(seq(n, _ => false), []), es, false)
  {
    if es != [] {
      NarrowRunIsExact(n, es[..|es| - 1]);
      SafeSizes(es[..|es| - 1], n);
      var t, e := Run(Dma(seq(n, _ => false), []), es[..|es| - 1], false), es[|es| - 1];
      if e.Ack? && e.k < |t.live| {
        assert t.live[e.k] in t.live;
        NarrowSame(t.live[e.k].size);
      }
    }
  }

  /** And one allocation of any other size leaves slots used for good, once acknowledged. */
  lemma {:induction false} OtherSizesLeak(n: nat, size: nat)
    requires Slots(size) <= n
    ensures var t := Run(Dma(seq(n, _ => false), []), [Alloc(size), Ack(0)], true);
            t.live == [] && (t.used == seq(n, _ => false) <==> SafeSize(size))
  {
    var d := Dma(seq(n, _ => false), []);
    assert [Alloc(size), Ack(0)][..1] == [Alloc(size)] && [Alloc(size)][..0] == [];
    assert FreeRun(d.used, 0, Slots(size));
    assert FirstFit(d.used, Slots(size), 0) == Some(0);
    NarrowReleaseExact(d.used, 0, size);
    assert Run(d, [Alloc(size)], true) == Next(d, Alloc(size), true);
    assert RemoveAt([Slice(0, size)], 0) == [];
  }

  // ---------------------------------------------------------------- Acknowledging several transfers

  /** A transfer as an acknowledgement names it: the offset into the buffer, and the length. */
  datatype Xfer = Xfer(offs: nat, length: Word)

  /** The transfer lies within a buffer of `n` slots. */
  predicate Inside(n: nat, x: Xfer)
  {
    x.offs <= n * DMA_SLOT_SIZE && x.length <= n * DMA_SLOT_SIZE - x.offs
  }

  predicate AllInside(n: nat, xs: seq<Xfer>)
  {
    forall x :: x in xs ==> Inside(n, x)
  }

  lemma {:induction false} InsideExact(n: nat, xs: seq<Xfer>)
    ensures AllInside(n, xs) <==> forall k :: 0 <= k < |xs| ==> xs[k].offs + xs[k].length <= n * DMA_SLOT_SIZE
  {
    forall k | 0 <= k < |xs| ensures Inside(n, xs[k]) <==> xs[k].offs + xs[k].length <= n * DMA_SLOT_SIZE {
    }
    assert AllInside(n, xs) ==> forall k :: 0 <= k < |xs| ==> Inside(n, xs[k]);
  }

  /** One transfer is released; its length is cut to eight bits on the way. */
  function AckOne(used: seq<bool>, x: Xfer): (r: seq<bool>)
    ensures |r| == |used|
  {
    if x.offs % DMA_SLOT_SIZE != 0 then used else Released(used, x.offs / DMA_SLOT_SIZE, Slots(x.length % 256))
  }

  /** An acknowledgement is worked off up to the first transfer that does not lie inside. */
  function AckAll(used: seq<bool>, xs: seq<Xfer>): (r: seq<bool>)
    ensures |r| == |used|
  {
    if xs == [] then used
    else
      var t := AckAll(used, xs[..|xs| - 1]);
      if AllInside(|used|, xs) then AckOne(t, xs[|xs| - 1]) else t
  }

  lemma {:induction false} AckStops(used: seq<bool>, xs: seq<Xfer>, i: nat)
    requires i < |xs| && !Inside(|used|, xs[i])
    ensures AckAll(used, xs) == AckAll(used, xs[..i])
  {
    assert xs[i] in xs;
    if i < |xs| - 1 {
      AckStops(used, xs[..|xs| - 1], i);
      assert xs[..|xs| - 1][..i] == xs[..i];
    }
  }

  function XferOf(s: Slice): Xfer
    requires s.size < 0x1_0000_0000
  {
    Xfer(s.start * DMA_SLOT_SIZE, s.size)
  }

  function XfersOf(live: seq<Slice>): (xs: seq<Xfer>)
    requires forall s :: s in live ==> s.size < 0x1_0000_0000
    ensures |xs| == |live|
  {
    if live == [] then [] else XfersOf(live[..|live| - 1]) + [XferOf(live[|live| - 1])]
  }

  function Acks(n: nat): (es: seq<Event>)
    ensures |es| == n
  {
    if n == 0 then [] else Acks(n - 1) + [Ack(0)]
  }

  lemma {:induction false} AckFirst(used: seq<bool>, live: seq<Slice>)
    requires live != [] && live[0].size < 0x1_0000_0000 && live[0].start + Slots(live[0].size) <= |used|
    ensures Inside(|used|, XferOf(live[0]))
    ensures Next(Dma(used, live), Ack(0), true) == Dma(AckOne(used, XferOf(live[0])), live[1..])
  {
    hide Released;
    assert XferOf(live[0]).offs / DMA_SLOT_SIZE == live[0].start && XferOf(live[0]).offs % DMA_SLOT_SIZE == 0;
    assert RemoveAt(live, 0) == live[1..];
  }

  lemma {:induction false} AckMore(used: seq<bool>, xs: seq<Xfer>, x: Xfer)
    requires AllInside(|used|, xs) && Inside(|used|, x)
    ensures AllInside(|used|, xs + [x]) && AckAll(used, xs + [x]) == AckOne(AckAll(used, xs), x)
  {
    assert (xs + [x])[..|xs|] == xs;
  }

  /** One message that acknowledges the first `n` live allocations does what `n` messages do, one
      for each. */
  lemma {:induction false} AckAllIsRun(d: Dma, n: nat)
    requires n <= |d.live| && forall s :: s in d.live ==> s.size < 0x1_0000_0000
    requires forall k :: 0 <= k < |d.live| ==> d.live[k].start + Slots(d.live[k].size) <= |d.used|
    ensures AllInside(|d.used|, XfersOf(d.live[..n]))
    ensures Run(d, Acks(n), true) == Dma(AckAll(d.used, XfersOf(d.live[..n])), d.live[n..])
  {
    if n == 0 {
      assert d.live[0..] == d.live;
    } else {
      hide Next, AckAll, AckOne, Slots, Inside, AllInside, XferOf;
      AckAllIsRun(d, n - 1);
      var rest := d.live[n - 1..];
      assert d.live[..n][..n - 1] == d.live[..n - 1] && rest[0] == d.live[n - 1] && rest[1..] == d.live[n..];
      AckFirst(AckAll(d.used, XfersOf(d.live[..n - 1])), rest);
      AckMore(d.used, XfersOf(d.live[..n - 1]), XferOf(rest[0]));
      assert Acks(n)[..n - 1] == Acks(n - 1);
    }
  }

  // ---------------------------------------------------------------- The driver's functions

  class TxBuffer {
    var txMap: array?<bool>

    /** ishtp_cl_get_dma_send_buf: the offset of the buffer, or nothing. */
    method GetDmaSendBuf(size: Word) returns (r: Option<nat>)
      modifies txMap
      ensures txMap == null ==> r == None
      ensures txMap != null ==>
                var first := FirstFit(old(txMap[..]), Slots(size), 0);
                && r.Some? == first.Some?
                && (r.Some? ==> r.value == first.value * DMA_SLOT_SIZE)
                && txMap[..] == if first.Some? then Mark(old(txMap[..]), first.value, Slots(size), true) else old(txMap[..])
    {
      var required := size / DMA_SLOT_SIZE + if size % DMA_SLOT_SIZE != 0 then 1 else 0;
      if txMap == null {
        return None;
      }
      var i := 0;
      while i <= txMap.Length - required
        invariant 0 <= i
        invariant txMap[..] == old(txMap[..])
        invariant FirstFit(old(txMap[..]), required, 0) == FirstFit(old(txMap[..]), required, i)
      {
        var free := true;
        var start := i;
        var j := 0;
        while j < required
          invariant j <= required && free && i == start
          invariant forall k :: i <= k < i + j ==> !txMap[k]
        {
          if txMap[i + j] {
            free := false;
            i := i + j;
            break;
          }
          j := j + 1;
        }
        if free {
          MarkSlots(i, required);
          return Some(i * DMA_SLOT_SIZE);
        }
        UsedBlocks(txMap[..], required, start, j);
        FirstFitSkip(txMap[..], required, start, i + 1);
        i := i + 1;
      }
      NoRoom(txMap[..], required, i);
      return None;
    }

    method MarkSlots(i: nat, n: nat)
      requires txMap != null && i + n <= txMap.Length
      modifies txMap
      ensures txMap[..] == Mark(old(txMap[..]), i, n, true)
    {
      var j := 0;
      while j < n
        invariant j <= n
        invariant forall k :: 0 <= k < txMap.Length ==> txMap[k] == if i <= k < i + j then true else old(txMap[..])[k]
      {
        txMap[i + j] := true;
        j := j + 1;
      }
    }

    /** ishtp_cl_release_dma_acked_mem, given the offset into the buffer. */
    method ReleaseDmaAckedMem(offs: nat, size: Byte)
      modifies txMap
      ensures txMap != null ==>
                txMap[..] == if offs % DMA_SLOT_SIZE != 0 then old(txMap[..])
                             else Released(old(txMap[..]), offs / DMA_SLOT_SIZE, Slots(size))
    {
      var acked := size / DMA_SLOT_SIZE + if size % DMA_SLOT_SIZE != 0 then 1 else 0;
      if offs % DMA_SLOT_SIZE != 0 {
        return;
      }
      if txMap == null {
        return;
      }
      var i := offs / DMA_SLOT_SIZE;
      var j := 0;
      while j < acked
        invariant j <= acked
        invariant Released(txMap[..], i + j, acked - j) == Released(old(txMap[..]), i, acked)
      {
        if i + j >= txMap.Length || !txMap[i + j] {
          return;
        }
        ghost var before := txMap[..];
        txMap[i + j] := false;
        assert txMap[..] == before[i + j := false];
        j := j + 1;
      }
    }

    /** ishtp_hbm_dma_xfer_ack, as to the map: `xs` are the transfers that the message names. */
    method DmaXferAck(xs: seq<Xfer>) returns (ok: bool)
      requires txMap != null
      modifies txMap
      ensures ok == AllInside(txMap.Length, xs)
      ensures ok <==> forall k :: 0 <= k < |xs| ==> xs[k].offs + xs[k].length <= txMap.Length * DMA_SLOT_SIZE
      ensures txMap[..] == AckAll(old(txMap[..]), xs)
    {
      hide Released;
      InsideExact(txMap.Length, xs);
      var k := 0;
      while k < |xs|
        invariant k <= |xs| && AllInside(txMap.Length, xs[..k])
        invariant txMap[..] == AckAll(old(txMap[..]), xs[..k])
      {
        assert xs[k] in xs;
        if xs[k].offs > txMap.Length * DMA_SLOT_SIZE {
          AckStops(old(txMap[..]), xs, k);
          return false;
        }
        if xs[k].length > txMap.Length * DMA_SLOT_SIZE - xs[k].offs {
          AckStops(old(txMap[..]), xs, k);
          return false;
        }
        ReleaseDmaAckedMem(xs[k].offs, xs[k].length % 256);
        assert xs[..k + 1] == xs[..k] + [xs[k]];
        assert xs[..k + 1][..k] == xs[..k];
        k := k + 1;
      }
      assert xs[..k] == xs;
      return true;
    }
  }

  lemma {:induction false} NoRoom(used: seq<bool>, n: nat, from: nat)
    requires from > |used| - n
    ensures FirstFit(used, n, from) == None
  {
  }
}

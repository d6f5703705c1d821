/** The firmware loader: two loops that cut an image into chunks, with 32-bit offsets. */
module FwLoader {
  import opened Bits
  import opened Wire

  const TWO32 := 0x1_0000_0000
  const LOADER_SHIM_IPC_BUF_SIZE := 3968
  /** Offset of the data in `struct loader_xfer_ipc_fragment`: after 20 bytes, on the next cache
      line. */
  const IPC_FRAGMENT_DATA_PREAMBLE := 64
  const L1_CACHE_BYTES := 64

  /** What one command to the loader carries. */
  datatype Chunk = Chunk(offset: nat, data: seq<Byte>, last: bool)

  // ---------------------------------------------------------------- The partition

  /** The image from `offs` on, in chunks of `limit` bytes and a last one. */
  function Cut(image: seq<Byte>, offs: nat, limit: nat): (cs: seq<Chunk>)
    requires limit > 0
    decreases |image| - offs
  {
    if offs >= |image| then []
    else if offs + limit < |image| then [Chunk(offs, image[offs..offs + limit], false)] + Cut(image, offs + limit, limit)
    else [Chunk(offs, image[offs..], true)]
  }

  function Joined(cs: seq<Chunk>): (bytes: seq<Byte>)
  {
    if cs == [] then [] else cs[0].data + Joined(cs[1..])
  }

  /** Each chunk begins where the one before ends, all but the final one are as long as the limit
      allows, none is empty, and only the final one is marked last. */
  predicate Contiguous(cs: seq<Chunk>, offs: nat, end: nat, limit: nat)
  {
    && (forall k :: 0 <= k < |cs| ==> 0 < |cs[k].data| <= limit && (cs[k].last <==> k == |cs| - 1))
    && (forall k :: 0 <= k < |cs| - 1 ==> |cs[k].data| == limit)
    && (forall k :: 0 <= k < |cs| ==> cs[k].offset + |cs[k].data| == if k == |cs| - 1 then end else cs[k + 1].offset)
    && (cs != [] ==> cs[0].offset == offs)
  }

  lemma {:induction false} ContiguousFront(c: Chunk, rest: seq<Chunk>, end: nat, limit: nat)
    requires rest != [] && Contiguous(rest, c.offset + |c.data|, end, limit)
    requires 0 < |c.data| == limit && !c.last
    ensures Contiguous([c] + rest, c.offset, end, limit)
  {
  }

  lemma {:induction false} CutLast(image: seq<Byte>, offs: nat, limit: nat)
    requires offs < |image| <= offs + limit
    ensures var cs := Cut(image, offs, limit);
            Contiguous(cs, offs, |image|, limit) && Joined(cs) == image[offs..] && cs != []
  {
    assert Joined(Cut(image, offs, limit)[1..]) == [];
  }

  lemma {:induction false} JoinedFront(c: Chunk, rest: seq<Chunk>)
    ensures Joined([c] + rest) == c.data + Joined(rest)
  {
    assert ([c] + rest)[1..] == rest;
  }

  /** The chunks are a partition of the image. */
  lemma {:induction false} CutPartitions(image: seq<Byte>, offs: nat, limit: nat)
    requires limit > 0 && offs <= |image|
    ensures var cs := Cut(image, offs, limit);
            Contiguous(cs, offs, |image|, limit) && Joined(cs) == image[offs..] && (cs == [] <==> offs == |image|)
    decreases |image| - offs
  {
    if offs < |image| {
      hide Contiguous, Joined;
      if offs + limit < |image| {
        var c, rest := Chunk(offs, image[offs..offs + limit], false), Cut(image, offs + limit, limit);
        CutPartitions(image, offs + limit, limit);
        ContiguousFront(c, rest, |image|, limit);
        JoinedFront(c, rest);
        assert c.data + image[offs + limit..] == image[offs..];
      } else {
        CutLast(image, offs, limit);
      }
    }
  }

  // ---------------------------------------------------------------- The loop as it counts

  function Wrap32(n: int): nat
  {
    n % TWO32
  }

  /** The size of the next fragment, and whether it is marked last, in 32-bit arithmetic. */
  function NextSize(offs: nat, size: nat, limit: nat): (n: nat)
  {
    if Wrap32(offs + limit) < size then limit else Wrap32(size - offs)
  }

  predicate NextLast(offs: nat, size: nat, limit: nat)
  {
    Wrap32(offs + limit) >= size
  }

  /** The loop never leaves the image and marks exactly its final fragment. */
  predicate LoopSound(offs: nat, size: nat, limit: nat)
    requires limit > 0
    decreases size - offs
  {
    offs >= size ||
    (var n := NextSize(offs, size, limit);
     0 < n && offs + n <= size && (NextLast(offs, size, limit) <==> offs + n == size) && LoopSound(offs + n, size, limit))
  }

  /** `size` rounded up to `offs` plus a multiple of `limit`. */
  function RoundUp(offs: nat, size: nat, limit: nat): (n: nat)
    requires limit > 0
    ensures n >= size && n >= offs && (n > offs ==> n - limit < size)
    decreases size - offs
  {
    if offs >= size then offs else RoundUp(offs + limit, size, limit)
  }

  /** A turn whose sum does not wrap does what was meant. */
  lemma {:induction false} PlainTurn(offs: nat, size: nat, limit: nat)
    requires 0 < limit && offs < size && offs + limit < TWO32
    ensures NextSize(offs, size, limit) == if offs + limit < size then limit else size - offs
    ensures NextLast(offs, size, limit) <==> offs + limit >= size
  {
  }

  /** A turn whose sum wraps runs beyond the image. */
  lemma {:induction false} WrappedTurn(offs: nat, size: nat, limit: nat)
    requires 0 < limit < TWO32 && offs < size < TWO32 && offs + limit >= TWO32
    ensures NextSize(offs, size, limit) == limit && offs + limit > size && !NextLast(offs, size, limit)
  {
  }

  /** An image whose size does not fit has no last fragment. */
  lemma {:induction false} NeverLast(offs: nat, size: nat, limit: nat)
    requires 0 < limit && offs < size && size >= TWO32
    ensures !LoopSound(offs, size, limit)
    decreases size - offs
  {
    if offs + limit < size {
      NeverLast(offs + limit, size, limit);
    }
  }

  /** The loop is sound exactly when the image size, rounded up to whole fragments, is still a
      32-bit number; otherwise some fragment reads beyond the image, or is not marked last. */
  lemma {:induction false} LoopSoundExact(offs: nat, size: nat, limit: nat)
    requires 0 < limit < TWO32 && offs < TWO32
    ensures LoopSound(offs, size, limit) <==> RoundUp(offs, size, limit) < TWO32
    decreases size - offs
  {
    if offs < size {
      if size >= TWO32 {
        NeverLast(offs, size, limit);
      } else if offs + limit >= TWO32 {
        WrappedTurn(offs, size, limit);
      } else {
        PlainTurn(offs, size, limit);
        if offs + limit < size {
          LoopSoundExact(offs + limit, size, limit);
        }
      }
    }
  }

  /** It is enough that size and limit together fit. */
  lemma {:induction false} EnoughRoom(size: nat, limit: nat)
    requires 0 < limit && size + limit <= TWO32
    ensures size > 0 ==> RoundUp(0, size, limit) < TWO32
  {
  }

  /** With no limit at all the loop stands still. */
  lemma {:induction false} NoLimitStalls(offs: nat, size: nat)
    requires offs < size < TWO32
    ensures NextSize(offs, size, 0) == 0 && !NextLast(offs, size, 0)
  {
  }

  /** min3 rounded down to whole cache lines. */
  function DmaLimit(size: nat, shimBufSize: nat, bufSizeLimit: nat): (limit: nat)
  {
    var m := if size <= shimBufSize && size <= bufSizeLimit then size
             else if shimBufSize <= bufSizeLimit then shimBufSize else bufSizeLimit;
    m - m % L1_CACHE_BYTES
  }

  /** The direct-DMA loop makes progress exactly when the image, the firmware's buffer and the
      configured limit each hold a cache line; a chunk is then the most whole cache lines that fit
      each of the three. */
  lemma {:induction false} DmaLimitExact(size: nat, shimBufSize: nat, bufSizeLimit: nat)
    ensures var limit := DmaLimit(size, shimBufSize, bufSizeLimit);
            && (limit > 0 <==> size >= L1_CACHE_BYTES && shimBufSize >= L1_CACHE_BYTES && bufSizeLimit >= L1_CACHE_BYTES)
            && limit % L1_CACHE_BYTES == 0 && limit <= size && limit <= shimBufSize && limit <= bufSizeLimit
            && forall lines: nat ::
                 (var n := lines * L1_CACHE_BYTES; n <= size && n <= shimBufSize && n <= bufSizeLimit ==> n <= limit)
  {
  }

  // ---------------------------------------------------------------- The driver's loops

  /** How a transfer ends: with every fragment acknowledged; with one that is not; with one that
      would be read from beyond the image; with an offset that wraps, from where the loop starts
      over; or never, with fragments of no size. */
  datatype Outcome = Completed | Refused | Overrun | Wrapped | Stalled

  /** What is sent until the first fragment that is not acknowledged, that one included. */
  predicate SentUntilRefused(cs: seq<Chunk>, sent: seq<Chunk>, ack: nat -> bool, ok: bool)
  {
    && sent <= cs
    && (forall k :: 0 <= k < |sent| - 1 ==> ack(k))
    && (if ok then sent == cs && (sent != [] ==> ack(|sent| - 1)) else sent != [] && !ack(|sent| - 1))
  }

  /** Which end a transfer takes, and what has been sent by then. */
  predicate Transferred(image: seq<Byte>, limit: nat, ack: nat -> bool, r: Outcome, sent: seq<Chunk>)
  {
    if limit == 0 then sent == [] && r == if image == [] then Completed else Stalled
    else if r == Overrun || r == Wrapped then
      && RoundUp(0, |image|, limit) >= TWO32 && (r == Wrapped <==> RoundUp(0, TWO32, limit) <= |image|)
      && sent <= Cut(image, 0, limit) && forall k :: 0 <= k < |sent| ==> ack(k)
    else
      && r != Stalled && SentUntilRefused(Cut(image, 0, limit), sent, ack, r == Completed)
      && (r == Completed ==> RoundUp(0, |image|, limit) < TWO32)
  }

  /** A turn of `n` bytes leaves the rounded size what it is; the last one shows that it fits. */
  predicate Rounded(image: seq<Byte>, offs: nat, n: nat, limit: nat)
    requires limit > 0
  {
    var size := RoundUp(offs, |image|, limit);
    if offs + n < |image| then
      RoundUp(offs + n, |image|, limit) == size && RoundUp(offs + n, TWO32, limit) == RoundUp(offs, TWO32, limit)
    else size < TWO32
  }

  /** One turn of the loop, where its sum does not wrap. */
  lemma {:induction false} Turn(image: seq<Byte>, offs: nat, limit: nat)
    requires 0 < limit && offs < |image| && offs + limit < TWO32
    ensures var n := NextSize(offs, |image|, limit);
            && 0 < n <= |image| - offs
            && Cut(image, offs, limit)
            == [Chunk(offs, image[offs..offs + n], NextLast(offs, |image|, limit))] + Cut(image, offs + n, limit)
            && Rounded(image, offs, n, limit)
  {
    PlainTurn(offs, |image|, limit);
    var n := NextSize(offs, |image|, limit);
    if offs + limit >= |image| {
      assert image[offs..offs + n] == image[offs..];
      assert Cut(image, offs + n, limit) == [];
    }
  }

  /** What the body of the loop comes to: a fragment to send, or data beyond the image, or an offset
      that does not fit. */
  datatype Fragment = Fragment(c: Chunk) | Beyond | Wraps

  /** The body of the loop: the fragment's offset, size, mark and data, and the offset after it. */
  method NextFragment(image: seq<Byte>, offs: nat, limit: nat) returns (f: Fragment)
    requires 0 < limit < TWO32 && offs < |image| && offs < TWO32
    ensures f.Fragment? <==> offs + limit < TWO32
    ensures !f.Fragment? ==> (f.Wraps? <==> offs + limit <= |image|)
    ensures f.Fragment? ==>
              && 0 < |f.c.data| <= |image| - offs && offs + |f.c.data| < TWO32
              && Cut(image, offs, limit) == [f.c] + Cut(image, offs + |f.c.data|, limit)
              && Rounded(image, offs, |f.c.data|, limit)
  {
    hide Cut, RoundUp;
    var size, last;
    if Wrap32(offs + limit) < |image| {
      size, last := limit, false;
    } else {
      size, last := Wrap32(|image| - offs), true;
    }
    if offs + limit < TWO32 {
      Turn(image, offs, limit);
    } else if |image| < TWO32 {
      WrappedTurn(offs, |image|, limit);
    }
    if offs + size > |image| {
      return Beyond;
    }
    if Wrap32(offs + size) != offs + size {
      return Wraps;
    }
    return Fragment(Chunk(offs, image[offs..offs + size], last));
  }

  /** What has been sent when the loop is at `offs`. */
  ghost predicate Progress(image: seq<Byte>, limit: nat, ack: nat -> bool, offs: nat, sent: seq<Chunk>)
  {
    && offs <= |image|
    && (limit == 0 ==> offs == 0 && sent == [])
    && (limit > 0 ==>
          && sent + Cut(image, offs, limit) == Cut(image, 0, limit)
          && offs < TWO32
          && (if offs < |image| then
                RoundUp(offs, |image|, limit) == RoundUp(0, |image|, limit)
                && RoundUp(offs, TWO32, limit) == RoundUp(0, TWO32, limit)
              else RoundUp(0, |image|, limit) < TWO32))
    && (forall k :: 0 <= k < |sent| ==> ack(k))
  }

  lemma {:induction false} ProgressMore(image: seq<Byte>, limit: nat, ack: nat -> bool, offs: nat, sent: seq<Chunk>,
                                        c: Chunk)
    requires limit > 0 && offs < |image| && Progress(image, limit, ack, offs, sent)
    requires 0 < |c.data| <= |image| - offs && offs + |c.data| < TWO32 && Rounded(image, offs, |c.data|, limit)
    requires Cut(image, offs, limit) == [c] + Cut(image, offs + |c.data|, limit)
    ensures ack(|sent|) ==> Progress(image, limit, ack, offs + |c.data|, sent + [c])
    ensures !ack(|sent|) ==> Transferred(image, limit, ack, Refused, sent + [c])
  {
    hide Cut, RoundUp;
    var rest := Cut(image, offs + |c.data|, limit);
    assert sent + ([c] + rest) == sent + [c] + rest;
  }

  lemma {:induction false} ProgressDone(image: seq<Byte>, limit: nat, ack: nat -> bool, sent: seq<Chunk>)
    requires Progress(image, limit, ack, |image|, sent)
    ensures Transferred(image, limit, ack, Completed, sent)
  {
    assert limit > 0 ==> Cut(image, |image|, limit) == [] && sent + [] == sent;
  }

  lemma {:induction false} ProgressWraps(image: seq<Byte>, limit: nat, ack: nat -> bool, offs: nat, sent: seq<Chunk>)
    requires 0 < limit && offs < |image| && offs + limit >= TWO32 && Progress(image, limit, ack, offs, sent)
    ensures Transferred(image, limit, ack, if offs + limit <= |image| then Wrapped else Overrun, sent)
  {
    assert RoundUp(offs, |image|, limit) >= RoundUp(offs + limit, |image|, limit) >= TWO32;
    assert RoundUp(offs, TWO32, limit) == RoundUp(offs + limit, TWO32, limit) == offs + limit;
  }

  /** The loop that ish_fw_xfer_ishtp and ish_fw_xfer_direct_dma both have; `ack(k)` is whether
      the k-th command is acknowledged. */
  method SendChunks(image: seq<Byte>, limit: nat, ack: nat -> bool) returns (r: Outcome, sent: seq<Chunk>)
    requires limit < TWO32
    ensures Transferred(image, limit, ack, r, sent)
  {
    ProgressStart(image, limit, ack);
    sent := [];
    var offs := 0;
    while offs < |image|
      invariant Progress(image, limit, ack, offs, sent)
    {
      if limit == 0 {
        return Stalled, sent;
      }
      hide Progress, Transferred, Cut, RoundUp;
      var next := NextFragment(image, offs, limit);
      if !next.Fragment? {
        ProgressWraps(image, limit, ack, offs, sent);
        return if next.Wraps? then Wrapped else Overrun, sent;
      }
      var c := next.c;
      ProgressMore(image, limit, ack, offs, sent, c);
      sent := sent + [c];
      if !ack(|sent| - 1) {
        return Refused, sent;
      }
      offs := offs + |c.data|;
    }
    ProgressDone(image, limit, ack, sent);
    return Completed, sent;
  }

  lemma {:induction false} ProgressStart(image: seq<Byte>, limit: nat, ack: nat -> bool)
    ensures Progress(image, limit, ack, 0, [])
  {
    assert limit > 0 ==> [] + Cut(image, 0, limit) == Cut(image, 0, limit);
  }

  /** ish_fw_xfer_ishtp */
  method XferIshtp(image: seq<Byte>, ack: nat -> bool) returns (r: Outcome, sent: seq<Chunk>)
    ensures Transferred(image, LOADER_SHIM_IPC_BUF_SIZE - IPC_FRAGMENT_DATA_PREAMBLE, ack, r, sent)
  {
    r, sent := SendChunks(image, LOADER_SHIM_IPC_BUF_SIZE - IPC_FRAGMENT_DATA_PREAMBLE, ack);
  }

  /** ish_fw_xfer_direct_dma */
  method XferDirectDma(image: seq<Byte>, shimBufSize: Word, bufSizeLimit: nat, ack: nat -> bool)
    returns (r: Outcome, sent: seq<Chunk>)
    ensures Transferred(image, DmaLimit(|image|, shimBufSize, bufSizeLimit), ack, r, sent)
  {
    DmaLimitExact(|image|, shimBufSize, bufSizeLimit);
    r, sent := SendChunks(image, DmaLimit(|image|, shimBufSize, bufSizeLimit), ack);
  }

  /** When every command is acknowledged, the transfer completes if and only if it can: with a
      limit and with the rounded size in 32 bits, or with nothing to send. Then what was sent is
      the image, in contiguous chunks of which only the final one is marked last. */
  lemma {:induction false} AllAcknowledged(image: seq<Byte>, limit: nat, sent: seq<Chunk>, ack: nat -> bool, r: Outcome)
    requires Transferred(image, limit, ack, r, sent) && forall k :: ack(k)
    ensures r == Completed ==> Joined(sent) == image && (limit > 0 ==> Contiguous(sent, 0, |image|, limit))
    ensures r == if limit == 0 then (if image == [] then Completed else Stalled)
                 else if RoundUp(0, |image|, limit) < TWO32 then Completed
                 else if RoundUp(0, TWO32, limit) <= |image| then Wrapped else Overrun
  {
    if limit > 0 {
      CutPartitions(image, 0, limit);
      assert image[0..] == image;
    }
  }
}

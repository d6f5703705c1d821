/** A message on its way through the doorbell and the message registers: headers packed into
    32-bit words, bytes written and read a word at a time. */
module Registers {
  import opened Bits
  import opened Options
  import opened Wire

  const MSG_WORDS := 32
  const IPC_PAYLOAD_SIZE := 128
  const IPC_FULL_MSG_SIZE := 132
  const MTU := 124
  const IPC_PROTOCOL_ISHTP := 1
  const IPC_PROTOCOL_MNG := 3

  // ---------------------------------------------------------------- Header bits

  /** IPC_BUILD_HEADER */
  function BuildHeader(length: Word, protocol: Word, busy: Word): Word
  {
    OrWord(Shl(busy, 31), Shl(protocol, 10));
    OrWord(Or(Shl(busy, 31), Shl(protocol, 10)), length);
    Or(Or(Shl(busy, 31), Shl(protocol, 10)), length)
  }

  /** IPC_BUILD_MNG_MSG */
  function BuildMngMsg(cmd: Word, length: Word): Word
  {
    var busy, protocol := Shl(1, 31), Shl(IPC_PROTOCOL_MNG, 10);
    OrWord(busy, protocol);
    OrWord(Or(busy, protocol), Shl(cmd, 16));
    OrWord(Or(Or(busy, protocol), Shl(cmd, 16)), length);
    Or(Or(Or(busy, protocol), Shl(cmd, 16)), length)
  }

  /** IPC_HEADER_GET_LENGTH */
  function GetLength(drbl: Word): (n: nat)
    ensures n == drbl % 1024
  {
    Mask10(drbl);
    Low10(drbl);
    And(drbl, 0x3FF)
  }

  /** IPC_HEADER_GET_PROTOCOL */
  function GetProtocol(drbl: Word): (n: nat)
    ensures n == drbl / 1024 % 16
  {
    High10(drbl);
    Mask4(Shr(drbl, 10));
    Low4(Shr(drbl, 10));
    And(Shr(drbl, 10), 0xF)
  }

  /** IPC_HEADER_GET_MNG_CMD */
  function GetMngCmd(drbl: Word): (n: nat)
    ensures n == drbl / 0x1_0000 % 16
  {
    High16(drbl);
    Mask4(Shr(drbl, 16));
    Low4(Shr(drbl, 16));
    And(Shr(drbl, 16), 0xF)
  }

  /** IPC_IS_BUSY */
  predicate IsBusy(drbl: Word)
    ensures IsBusy(drbl) <==> drbl / 0x8000_0000 == 1
  {
    Mask31(drbl);
    High31(drbl);
    And(drbl, 0x8000_0000) == 0x8000_0000
  }

  /** The fields of a header do not disturb each other, and the word is their weighted sum. */
  lemma {:induction false} HeaderFields(length: Word, protocol: Word, busy: Word)
    requires length < 1024 && protocol < 16 && busy < 2
    ensures var drbl := BuildHeader(length, protocol, busy);
            && GetLength(drbl) == length && GetProtocol(drbl) == protocol && (IsBusy(drbl) <==> busy == 1)
            && drbl == busy * 0x8000_0000 + protocol * 1024 + length
  {
    hide Or, And, Low, High, Shl, Pow2;
    Powers();
    var b, p := Shl(busy, 31), Shl(protocol, 10);
    ShlTimes(busy, 31);
    ShlTimes(protocol, 10);
    Split(b, busy, 0, 31);
    OrDisjoint(b, p, 31);
    Split(b + p, busy * 0x20_0000 + protocol, 0, 10);
    OrDisjoint(b + p, length, 10);
  }

  lemma {:induction false} MngLow(cmd: Word, length: Word)
    requires length < 1024 && cmd < 0x1_0000
    ensures var w := Or(Or(Or(0x8000_0000, 3 * 1024), cmd * 0x1_0000), length);
            Low(w, 10) == length && Low(High(w, 10), 4) == 3
  {
    hide Or, Low, High, Pow2;
    Powers();
    var b, p, c := 0x8000_0000, 3 * 1024, cmd * 0x1_0000;
    JoinedParts(b, p, c, length, 10);
    Split(b, 0x20_0000, 0, 10);
    Split(p, 3, 0, 10);
    Split(c, cmd * 64, 0, 10);
    Split(length, 0, length, 10);
    OrZero(0);
    OrZero(length);
    JoinedParts(0x20_0000, 3, cmd * 64, 0, 4);
    Split(0x20_0000, 0x2_0000, 0, 4);
    Split(3, 0, 3, 4);
    Split(cmd * 64, cmd * 4, 0, 4);
    Split(0, 0, 0, 4);
    OrZero(3);
  }

  lemma {:induction false} MngHigh(cmd: Word, length: Word)
    requires length < 1024 && cmd < 0x1_0000
    ensures var w := Or(Or(Or(0x8000_0000, 3 * 1024), cmd * 0x1_0000), length);
            Low(High(w, 16), 4) == cmd % 16 && High(w, 31) % 2 == 1
  {
    hide Or, Low, High, Pow2;
    Powers();
    var b, p, c := 0x8000_0000, 3 * 1024, cmd * 0x1_0000;
    JoinedParts(b, p, c, length, 16);
    Split(b, 0x8000, 0, 16);
    Split(p, 0, p, 16);
    Split(c, cmd, 0, 16);
    Split(length, 0, length, 16);
    JoinedParts(0x8000, 0, cmd, 0, 4);
    Split(0x8000, 0x800, 0, 4);
    Split(0, 0, 0, 4);
    Split(cmd, cmd / 16, cmd % 16, 4);
    OrZero(0);
    OrZero(cmd % 16);
    JoinedParts(b, p, c, length, 31);
    Split(b, 1, 0, 31);
    OddStays(Or(Or(1, High(p, 31)), High(c, 31)), High(length, 31));
    OddStays(Or(1, High(p, 31)), High(c, 31));
    OddStays(1, High(p, 31));
  }

  /** A management message comes back with its own command exactly when the command fits its
      four bits; a command such as MNG_SYNC_FW_CLOCK is then told from all others. */
  lemma {:induction false} MngFields(cmd: Word, length: Word)
    requires length < 1024 && cmd < 0x1_0000
    ensures var drbl := BuildMngMsg(cmd, length);
            && GetLength(drbl) == length && GetProtocol(drbl) == IPC_PROTOCOL_MNG && IsBusy(drbl)
            && (GetMngCmd(drbl) == cmd <==> cmd < 16)
  {
    hide Or, And, Low, High, Shl, Shr, Pow2, GetLength, GetProtocol, GetMngCmd, IsBusy;
    Powers();
    ShlTimes(1, 31);
    ShlTimes(3, 10);
    ShlTimes(cmd, 16);
    MngLow(cmd, length);
    MngHigh(cmd, length);
    var drbl := BuildMngMsg(cmd, length);
    Low10(drbl);
    High10(drbl);
    Low4(High(drbl, 10));
    High16(drbl);
    Low4(High(drbl, 16));
    High31(drbl);
  }

  // ---------------------------------------------------------------- Headers as words

  /** `struct ishtp_msg_hdr`: bit fields of 8, 8, 9, 6 and 1 bits. */
  datatype MsgHdr = MsgHdr(fw: nat, host: nat, length: nat, reserved: nat, complete: bool)

  predicate Fits(h: MsgHdr)
  {
    h.fw < 0x100 && h.host < 0x100 && h.length < 0x200 && h.reserved < 0x40
  }

  function HdrWord(h: MsgHdr): (w: Word)
    requires Fits(h)
  {
    h.fw + 0x100 * h.host + 0x1_0000 * h.length + 0x200_0000 * h.reserved + if h.complete then 0x8000_0000 else 0
  }

  function WordHdr(w: Word): MsgHdr
  {
    MsgHdr(w % 0x100, w / 0x100 % 0x100, w / 0x1_0000 % 0x200, w / 0x200_0000 % 0x40, w / 0x8000_0000 == 1)
  }

  lemma {:induction false} ShiftInSteps(w: Word)
    ensures w / 0x1_0000 == w / 0x100 / 0x100
    ensures w / 0x200_0000 == w / 0x1_0000 / 0x200
    ensures w / 0x8000_0000 == w / 0x200_0000 / 0x40
  {
  }

  lemma {:induction false} LowBits(n: nat, low: nat, high: nat)
    ensures low < 0x100 && n == low + 0x100 * high ==> n % 0x100 == low && n / 0x100 == high
    ensures low < 0x200 && n == low + 0x200 * high ==> n % 0x200 == low && n / 0x200 == high
    ensures low < 0x40 && n == low + 0x40 * high ==> n % 0x40 == low && n / 0x40 == high
  {
  }

  lemma {:induction false} HdrRoundTrip(h: MsgHdr)
    requires Fits(h)
    ensures WordHdr(HdrWord(h)) == h
  {
    var bit := if h.complete then 1 else 0;
    var top := h.reserved + 0x40 * bit;
    var upper := h.length + 0x200 * top;
    LowBits(HdrWord(h), h.fw, h.host + 0x100 * upper);
    LowBits(h.host + 0x100 * upper, h.host, upper);
    LowBits(upper, h.length, top);
    LowBits(top, h.reserved, bit);
    ShiftInSteps(HdrWord(h));
  }

  /** Each field is where the bit fields of the structure are laid out: firmware address in bits 0
      to 7, host address in 8 to 15, length in 16 to 24, reserved in 25 to 30, msg_complete in 31. */
  lemma {:induction false} HdrFields(h: MsgHdr)
    requires Fits(h)
    ensures var w := HdrWord(h);
            && Field(w, 0, 8) == h.fw && Field(w, 8, 8) == h.host && Field(w, 16, 9) == h.length
            && Field(w, 25, 6) == h.reserved && (Field(w, 31, 1) == 1 <==> h.complete)
  {
    hide Field, Pow2;
    Powers();
    MorePowers();
    var bit := if h.complete then 1 else 0;
    var w := HdrWord(h);
    FieldAt(w, h.host + 0x100 * h.length + 0x2_0000 * h.reserved + 0x80_0000 * bit, h.fw, 0, 0, 8);
    FieldAt(w, h.length + 0x200 * h.reserved + 0x8000 * bit, h.host, h.fw, 8, 8);
    FieldAt(w, h.reserved + 0x40 * bit, h.length, h.fw + 0x100 * h.host, 16, 9);
    FieldAt(w, bit, h.reserved, h.fw + 0x100 * h.host + 0x1_0000 * h.length, 25, 6);
    FieldAt(w, 0, bit, h.fw + 0x100 * h.host + 0x1_0000 * h.length + 0x200_0000 * h.reserved, 31, 1);
  }

  /** And it is read from where it is laid out, whatever the word. */
  lemma {:induction false} WordFields(w: Word)
    ensures WordHdr(w) == MsgHdr(Field(w, 0, 8), Field(w, 8, 8), Field(w, 16, 9), Field(w, 25, 6), Field(w, 31, 1) == 1)
  {
    hide Field;
    var h := WordHdr(w);
    assert w == w % 0x100 + 0x100 * (w / 0x100);
    assert w / 0x100 == w / 0x100 % 0x100 + 0x100 * (w / 0x1_0000);
    assert w / 0x1_0000 == w / 0x1_0000 % 0x200 + 0x200 * (w / 0x200_0000);
    assert w / 0x200_0000 == w / 0x200_0000 % 0x40 + 0x40 * (w / 0x8000_0000);
    assert HdrWord(h) == w;
    HdrFields(h);
  }

  /** The doorbell of a client or bus message: its length counts the header. */
  function Doorbell(length: nat): (w: Word)
    requires length < 1020
    ensures w == 0x8000_0000 + IPC_PROTOCOL_ISHTP * 1024 + (length + 4)
  {
    HeaderFields(length + 4, IPC_PROTOCOL_ISHTP, 1);
    BuildHeader(length + 4, IPC_PROTOCOL_ISHTP, 1)
  }

  // ---------------------------------------------------------------- Bytes and words

  function WordOf(b0: Byte, b1: Byte, b2: Byte, b3: Byte): Word
  {
    b0 + 0x100 * b1 + 0x1_0000 * b2 + 0x100_0000 * b3
  }

  function BytesOf(w: Word): (bs: seq<Byte>)
    ensures |bs| == 4
  {
    [w % 0x100, w / 0x100 % 0x100, w / 0x1_0000 % 0x100, w / 0x100_0000]
  }

  lemma {:induction false} BytesOfWord(b0: Byte, b1: Byte, b2: Byte, b3: Byte)
    ensures BytesOf(WordOf(b0, b1, b2, b3)) == [b0, b1, b2, b3]
  {
    var w := WordOf(b0, b1, b2, b3);
    LowBits(w, b0, b1 + 0x100 * (b2 + 0x100 * b3));
    LowBits(b1 + 0x100 * (b2 + 0x100 * b3), b1, b2 + 0x100 * b3);
    LowBits(b2 + 0x100 * b3, b2, b3);
    ShiftByBytes(w);
  }

  lemma {:induction false} ShiftByBytes(w: Word)
    ensures w / 0x1_0000 == w / 0x100 / 0x100
    ensures w / 0x100_0000 == w / 0x100 / 0x100 / 0x100
  {
  }

  lemma {:induction false} WordOfBytes(w: Word)
    ensures var bs := BytesOf(w); WordOf(bs[0], bs[1], bs[2], bs[3]) == w
  {
    assert w == w % 0x100 + 0x100 * (w / 0x100);
    assert w / 0x100 == w / 0x100 % 0x100 + 0x100 * (w / 0x1_0000);
    assert w / 0x1_0000 == w / 0x1_0000 % 0x100 + 0x100 * (w / 0x100_0000);
  }

  /** The byte at `i`, or a zero where the last word is padded. */
  function At(msg: seq<Byte>, i: nat): Byte
  {
    if i < |msg| then msg[i] else 0
  }

  function PackedWord(msg: seq<Byte>, i: nat): Word
  {
    WordOf(At(msg, 4 * i), At(msg, 4 * i + 1), At(msg, 4 * i + 2), At(msg, 4 * i + 3))
  }

  /** What the registers hold once `msg` has been written over `stale`. */
  function Written(stale: seq<Word>, msg: seq<Byte>): (regs: seq<Word>)
    ensures |regs| == |stale|
  {
    seq(|stale|, i requires 0 <= i < |stale| => if 4 * i < |msg| then PackedWord(msg, i) else stale[i])
  }

  /** The bytes of `n` words from word `first` on. */
  function ReadWords(regs: seq<Word>, first: nat, n: nat): (bs: seq<Byte>)
    requires first + n <= |regs|
    ensures |bs| == 4 * n
  {
    if n == 0 then [] else ReadWords(regs, first, n - 1) + BytesOf(regs[first + n - 1])
  }

  function Words(length: nat): nat
  {
    (length + 3) / 4
  }

  // ---------------------------------------------------------------- The register loops

  /** write_ipc_from_queue, between the doorbell check and the doorbell write: `msg` is the
      datagram without its doorbell value. */
  method WriteRegs(regs: array<Word>, msg: seq<Byte>)
    requires |msg| <= 4 * regs.Length
    modifies regs
    ensures regs[..] == Written(old(regs[..]), msg)
  {
    var i := 0;
    while i < |msg| / 4
      invariant 0 <= i <= |msg| / 4
      invariant forall k :: 0 <= k < i ==> regs[k] == PackedWord(msg, k)
      invariant forall k :: i <= k < regs.Length ==> regs[k] == old(regs[k])
    {
      regs[i] := WordOf(msg[4 * i], msg[4 * i + 1], msg[4 * i + 2], msg[4 * i + 3]);
      i := i + 1;
    }
    var rem := |msg| % 4;
    if rem > 0 {
      regs[i] := WordOf(msg[4 * i], if rem > 1 then msg[4 * i + 1] else 0, if rem > 2 then msg[4 * i + 2] else 0, 0);
    }
  }

  /** _ishtp_read: whole words, so up to three bytes more than asked for. */
  method ReadRegs(regs: array<Word>, length: nat) returns (buf: seq<Byte>)
    requires 1 + Words(length) <= regs.Length
    ensures buf == ReadWords(regs[..], 1, Words(length))
    ensures length <= |buf| <= length + 3
  {
    var i := 0;
    buf := [];
    while i < length
      invariant i % 4 == 0 && i / 4 <= Words(length)
      invariant buf == ReadWords(regs[..], 1, i / 4)
      invariant i >= length ==> i / 4 == Words(length)
    {
      buf := buf + BytesOf(regs[1 + i / 4]);
      i := i + 4;
    }
  }

  // ---------------------------------------------------------------- Both ends

  /** ishtp_send_msg up to the enqueue: the datagram with its doorbell value first. */
  function Datagram(h: MsgHdr, payload: seq<Byte>): (msg: seq<Byte>)
    requires Fits(h) && h.length == |payload|
    ensures |msg| == 8 + |payload|
  {
    BytesOf(Doorbell(|payload|)) + BytesOf(HdrWord(h)) + payload
  }

  /** Its bytes one by one: doorbell value, header, and payload, the low bytes first. */
  lemma {:induction false} DatagramBytes(h: MsgHdr, payload: seq<Byte>)
    requires Fits(h) && h.length == |payload|
    ensures var msg := Datagram(h, payload);
            && msg[0] == (|payload| + 4) % 0x100 && msg[1] == (|payload| + 4) / 0x100 + 4 && msg[2] == 0 && msg[3] == 0x80
            && msg[4] == h.fw && msg[5] == h.host
            && msg[6] == h.length % 0x100
            && msg[7] == h.length / 0x100 + 2 * h.reserved + (if h.complete then 0x80 else 0)
            && msg[8..] == payload
  {
    var n := |payload| + 4;
    BytesOfWord(n % 0x100, n / 0x100 + 4, 0, 0x80);
    var top := h.length / 0x100 + 2 * h.reserved + if h.complete then 0x80 else 0;
    BytesOfWord(h.fw, h.host, h.length % 0x100, top);
    assert WordOf(n % 0x100, n / 0x100 + 4, 0, 0x80) == Doorbell(|payload|);
    assert WordOf(h.fw, h.host, h.length % 0x100, top) == HdrWord(h);
  }

  /** The doorbell register and the message registers. */
  datatype Image = Image(drbl: Word, regs: seq<Word>)

  /** What write_ipc_from_queue makes of the registers. */
  function Sent(stale: seq<Word>, msg: seq<Byte>): Image
    requires |msg| >= 4
  {
    Image(WordOf(msg[0], msg[1], msg[2], msg[3]), Written(stale, msg[4..]))
  }

  /** Byte by byte: what the registers hold of a datagram, taken out by shift and mask; the last
      word is padded with zeros, and the registers after it are as they were. */
  lemma {:induction false} SentBytes(stale: seq<Word>, msg: seq<Byte>, k: nat)
    requires |msg| >= 4 && k < |stale|
    ensures var (im, body) := (Sent(stale, msg), msg[4..]);
            && Field(im.drbl, 0, 8) == msg[0] && Field(im.drbl, 8, 8) == msg[1]
            && Field(im.drbl, 16, 8) == msg[2] && Field(im.drbl, 24, 8) == msg[3]
            && (4 * k >= |body| ==> im.regs[k] == stale[k])
            && (4 * k < |body| ==>
                  && Field(im.regs[k], 0, 8) == body[4 * k]
                  && Field(im.regs[k], 8, 8) == (if 4 * k + 1 < |body| then body[4 * k + 1] else 0)
                  && Field(im.regs[k], 16, 8) == (if 4 * k + 2 < |body| then body[4 * k + 2] else 0)
                  && Field(im.regs[k], 24, 8) == (if 4 * k + 3 < |body| then body[4 * k + 3] else 0))
  {
    hide Field;
    var body := msg[4..];
    ByteFields(WordOf(msg[0], msg[1], msg[2], msg[3]), msg[0], msg[1], msg[2], msg[3]);
    if 4 * k < |body| {
      ByteFields(PackedWord(body, k), At(body, 4 * k), At(body, 4 * k + 1), At(body, 4 * k + 2), At(body, 4 * k + 3));
    }
  }

  /** And byte by byte what is read out of them. */
  lemma {:induction false} ReadBytes(regs: seq<Word>, first: nat, n: nat, j: nat)
    requires first + n <= |regs| && j < n
    ensures var (bs, w) := (ReadWords(regs, first, n), regs[first + j]);
            && bs[4 * j] == Field(w, 0, 8) && bs[4 * j + 1] == Field(w, 8, 8)
            && bs[4 * j + 2] == Field(w, 16, 8) && bs[4 * j + 3] == Field(w, 24, 8)
  {
    hide Field;
    if j < n - 1 {
      ReadBytes(regs, first, n - 1, j);
    } else {
      var (w, bs) := (regs[first + j], BytesOf(regs[first + j]));
      WordOfBytes(w);
      ByteFields(w, bs[0], bs[1], bs[2], bs[3]);
    }
  }

  /** ish_irq_handler and ishtp_recv on such an image: the header and the payload, or nothing
      where a check fails. */
  function Received(im: Image): (r: Option<(MsgHdr, seq<Byte>)>)
    requires |im.regs| == MSG_WORDS
  {
    if !IsBusy(im.drbl) || GetLength(im.drbl) > IPC_PAYLOAD_SIZE
       || GetProtocol(im.drbl) != IPC_PROTOCOL_ISHTP || im.regs[0] == 0
    then None
    else
      var h := WordHdr(im.regs[0]);
      if h.length > MTU then None
      else Some((h, ReadWords(im.regs, 1, Words(h.length))[..h.length]))
  }

  /** Whatever the registers hold: something is received exactly when every check passes, and then
      each header field and each payload byte is read from its own place. */
  lemma {:induction false} ReceivedExact(im: Image)
    requires |im.regs| == MSG_WORDS
    ensures var (r, w) := (Received(im), im.regs[0]);
            && (r.Some? <==>
                  && Field(im.drbl, 31, 1) == 1 && Field(im.drbl, 0, 10) <= IPC_PAYLOAD_SIZE
                  && Field(im.drbl, 10, 4) == IPC_PROTOCOL_ISHTP && w != 0 && Field(w, 16, 9) <= MTU)
            && (r.Some? ==>
                  && r.value.0 == MsgHdr(Field(w, 0, 8), Field(w, 8, 8), Field(w, 16, 9), Field(w, 25, 6), Field(w, 31, 1) == 1)
                  && |r.value.1| == Field(w, 16, 9)
                  && forall j :: 0 <= j < |r.value.1| ==> r.value.1[j] == Field(im.regs[1 + j / 4], 8 * (j % 4), 8))
  {
    hide Field, GetLength, GetProtocol, IsBusy, ReadWords, WordHdr;
    WordFields(im.regs[0]);
    DoorbellFields(im.drbl);
    var n := Field(im.regs[0], 16, 9);
    if n <= MTU {
      forall j | 0 <= j < n ensures ReadWords(im.regs, 1, Words(n))[j] == Field(im.regs[1 + j / 4], 8 * (j % 4), 8) {
        ReadBytes(im.regs, 1, Words(n), j / 4);
        assert j % 4 == 0 || j % 4 == 1 || j % 4 == 2 || j % 4 == 3;
      }
    }
  }

  lemma {:induction false} DoorbellFields(w: Word)
    ensures (IsBusy(w) <==> Field(w, 31, 1) == 1)
    ensures GetLength(w) == Field(w, 0, 10) && GetProtocol(w) == Field(w, 10, 4)
  {
    hide Field, And, High;
    Powers();
    MorePowers();
    FieldAt(w, w / 0x400, w % 0x400, 0, 0, 10);
    FieldAt(w, w / 0x4000, w / 0x400 % 0x10, w % 0x400, 10, 4);
    FieldAt(w, 0, w / 0x8000_0000, w % 0x8000_0000, 31, 1);
  }

  lemma {:induction false} DatagramDoorbell(length: nat)
    requires length < 1020
    ensures var w := Doorbell(length);
            IsBusy(w) && GetLength(w) == length + 4 && GetProtocol(w) == IPC_PROTOCOL_ISHTP
  {
    hide And, High, BuildHeader, Doorbell;
  }

  lemma {:induction false} DatagramImage(stale: seq<Word>, h: MsgHdr, payload: seq<Byte>)
    requires Fits(h) && h.length == |payload| && |stale| == MSG_WORDS
    ensures var im := Sent(stale, Datagram(h, payload));
            && im.drbl == Doorbell(|payload|) && im.regs[0] == HdrWord(h)
            && forall i :: 0 <= i < Words(|payload|) && 1 + i < MSG_WORDS ==> im.regs[1 + i] == PackedWord(payload, i)
  {
    hide BuildHeader, Doorbell;
    var msg := Datagram(h, payload);
    var hb := BytesOf(HdrWord(h));
    WordOfBytes(Doorbell(|payload|));
    WordOfBytes(HdrWord(h));
    assert msg[..4] == BytesOf(Doorbell(|payload|));
    assert msg[4..] == hb + payload;
    HeaderFirst(hb, payload);
  }

  lemma {:induction false} HeaderFirst(hb: seq<Byte>, payload: seq<Byte>)
    requires |hb| == 4
    ensures PackedWord(hb + payload, 0) == WordOf(hb[0], hb[1], hb[2], hb[3])
    ensures forall i: nat :: PackedWord(hb + payload, 1 + i) == PackedWord(payload, i)
  {
  }

  lemma {:induction false} ReadPacked(regs: seq<Word>, payload: seq<Byte>, n: nat)
    requires n <= Words(|payload|) && 1 + n <= |regs|
    requires forall i :: 0 <= i < n ==> regs[1 + i] == PackedWord(payload, i)
    ensures forall j :: 0 <= j < 4 * n ==> ReadWords(regs, 1, n)[j] == At(payload, j)
  {
    if n > 0 {
      var i := n - 1;
      ReadPacked(regs, payload, i);
      BytesOfWord(At(payload, 4 * i), At(payload, 4 * i + 1), At(payload, 4 * i + 2), At(payload, 4 * i + 3));
      assert regs[1 + i] == PackedWord(payload, i);
      assert ReadWords(regs, 1, n) == ReadWords(regs, 1, i) + BytesOf(PackedWord(payload, i));
    }
  }

  /** A datagram comes out as it went in, whatever the registers held before, exactly when its
      payload fits the mtu and its header is not zero throughout; else nothing comes out. */
  lemma {:induction false} RegisterRoundTrip(stale: seq<Word>, h: MsgHdr, payload: seq<Byte>)
    requires Fits(h) && h.length == |payload| && |stale| == MSG_WORDS
    ensures var r := Received(Sent(stale, Datagram(h, payload)));
            if |payload| <= MTU && h != MsgHdr(0, 0, 0, 0, false) then r == Some((h, payload)) else r == None
  {
    DatagramDoorbell(|payload|);
    DatagramImage(stale, h, payload);
    HdrRoundTrip(h);
    HdrZero(h);
    if |payload| <= MTU {
      var im := Sent(stale, Datagram(h, payload));
      ReadPacked(im.regs, payload, Words(|payload|));
      assert ReadWords(im.regs, 1, Words(|payload|))[..|payload|] == payload;
    }
  }

  lemma {:induction false} HdrZero(h: MsgHdr)
    requires Fits(h)
    ensures HdrWord(h) == 0 <==> h == MsgHdr(0, 0, 0, 0, false)
  {
  }

  /** The sender's size limit and the receiver's length checks draw the same line. */
  lemma {:induction false} LimitsAgree(h: MsgHdr, payload: seq<Byte>)
    requires Fits(h) && h.length == |payload|
    ensures |Datagram(h, payload)| <= IPC_FULL_MSG_SIZE <==> |payload| <= MTU
    ensures GetLength(Doorbell(|payload|)) <= IPC_PAYLOAD_SIZE <==> |payload| <= MTU
  {
    DatagramDoorbell(|payload|);
  }
}

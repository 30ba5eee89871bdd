/**
 * The SHAM frame header: a fixed 12-byte big-endian layout
 * [seq(4)][ack(4)][flags(2)][window(2)] followed by up to 1024 payload bytes,
 * and the protocol constants of networking/sham.h.
 */
module ShamCodec {
  import opened Common

  const PAYLOAD_SIZE: int := 1024
  const HEADER_SIZE: int := 12
  const MAX_PACKET_SIZE: int := PAYLOAD_SIZE + HEADER_SIZE
  const FIXED_WINDOW_PACKETS: int := 10
  const RETRANSMISSION_TIMEOUT_US: int := 500000

  const SYN: u16 := 0x1
  const ACK: u16 := 0x2
  const FIN: u16 := 0x4
  const CHAT: u16 := 0x8

  /** The four flag bits; the flag word is a `uint16_t`. */
  predicate IsFlagBit(bit: u16) {
    bit == SYN || bit == ACK || bit == FIN || bit == CHAT
  }

  /** True iff the single bit `bit` is set in `flags` (the C test `flags & bit`). */
  predicate Has(flags: u16, bit: u16)
    requires IsFlagBit(bit)
  {
    (flags / bit) % 2 == 1
  }

  datatype Header = Header(seqNum: u32, ackNum: u32, flags: u16, window: u16)

  /** `htons`: most significant byte first. */
  function Be16(x: u16): (r: seq<byte>)
    ensures |r| == 2
  {
    [x / 0x100, x % 0x100]
  }

  /** `htonl`: most significant byte first (the high half, then the low half). */
  function Be32(x: u32): (r: seq<byte>)
    ensures |r| == 4
  {
    Be16(x / 0x1_0000) + Be16(x % 0x1_0000)
  }

  /** `ntohs` applied to two bytes read from the wire. */
  function FromBe16(b: seq<byte>): u16
    requires |b| == 2
  {
    (b[0] as int) * 0x100 + (b[1] as int)
  }

  /** `ntohl` applied to four bytes read from the wire. */
  function FromBe32(b: seq<byte>): u32
    requires |b| == 4
  {
    (FromBe16(b[..2]) as int) * 0x1_0000 + (FromBe16(b[2..]) as int)
  }

  /** The 12 bytes `pack_header` writes. */
  function EncodeHeader(h: Header): (r: seq<byte>)
    ensures |r| == HEADER_SIZE
  {
    Be32(h.seqNum) + Be32(h.ackNum) + Be16(h.flags) + Be16(h.window)
  }

  /** `unpack_header` with every out-pointer non-NULL. */
  function DecodeHeader(b: seq<byte>): Header
    requires |b| >= HEADER_SIZE
  {
    Header(FromBe32(b[0..4]), FromBe32(b[4..8]), FromBe16(b[8..10]), FromBe16(b[10..12]))
  }

  /** A frame: the header followed by the payload. */
  function Frame(h: Header, payload: seq<byte>): (r: seq<byte>)
    ensures |r| == HEADER_SIZE + |payload|
    ensures r[HEADER_SIZE..] == payload
  {
    EncodeHeader(h) + payload
  }

  /**
   * `pack_header(buffer, seq, ack, flags, win)`: writes the header into the
   * first 12 bytes of a caller-owned buffer and leaves the rest alone.
   */
  method PackHeader(buffer: array<byte>, seqNum: u32, ackNum: u32, flags: u16, win: u16)
    requires buffer.Length >= HEADER_SIZE
    modifies buffer
    ensures buffer[..HEADER_SIZE] == EncodeHeader(Header(seqNum, ackNum, flags, win))
    ensures buffer[HEADER_SIZE..] == old(buffer[HEADER_SIZE..])
  {
    var bytes := EncodeHeader(Header(seqNum, ackNum, flags, win));
    var i := 0;
    while i < HEADER_SIZE
      invariant 0 <= i <= HEADER_SIZE
      invariant buffer[..i] == bytes[..i]
      invariant buffer[HEADER_SIZE..] == old(buffer[HEADER_SIZE..])
    {
      buffer[i] := bytes[i];
      i := i + 1;
    }
  }

  /** The decoded fields of `unpack_header`; a field whose out-pointer is NULL stays unwritten. */
  datatype Unpacked = Unpacked(seqNum: Option<u32>, ackNum: Option<u32>, flags: Option<u16>, window: Option<u16>)

  function UnpackHeader(b: seq<byte>, wantSeq: bool, wantAck: bool, wantFlags: bool, wantWindow: bool): (r: Unpacked)
    requires |b| >= HEADER_SIZE
    ensures r.seqNum.Some? <==> wantSeq
    ensures r.ackNum.Some? <==> wantAck
    ensures r.flags.Some? <==> wantFlags
    ensures r.window.Some? <==> wantWindow
    ensures wantSeq ==> r.seqNum.value == FromBe32(b[0..4])
    ensures wantAck ==> r.ackNum.value == FromBe32(b[4..8])
    ensures wantFlags ==> r.flags.value == FromBe16(b[8..10])
    ensures wantWindow ==> r.window.value == FromBe16(b[10..12])
  {
    var h := DecodeHeader(b);
    Unpacked(if wantSeq then Some(h.seqNum) else None,
             if wantAck then Some(h.ackNum) else None,
             if wantFlags then Some(h.flags) else None,
             if wantWindow then Some(h.window) else None)
  }

  lemma Be16RoundTrip(x: u16)
    ensures FromBe16(Be16(x)) == x
  {
  }

  lemma Be32RoundTrip(x: u32)
    ensures FromBe32(Be32(x)) == x
  {
    var e := Be32(x);
    assert e[..2] == Be16(x / 0x1_0000) && e[2..] == Be16(x % 0x1_0000);
    Be16RoundTrip(x / 0x1_0000);
    Be16RoundTrip(x % 0x1_0000);
  }

  lemma FromBe16RoundTrip(b: seq<byte>)
    requires |b| == 2
    ensures Be16(FromBe16(b)) == b
  {
  }

  lemma FromBe32RoundTrip(b: seq<byte>)
    requires |b| == 4
    ensures Be32(FromBe32(b)) == b
  {
    var hi, lo := FromBe16(b[..2]), FromBe16(b[2..]);
    var x := FromBe32(b);
    assert x / 0x1_0000 == hi && x % 0x1_0000 == lo;
    FromBe16RoundTrip(b[..2]);
    FromBe16RoundTrip(b[2..]);
    assert b == b[..2] + b[2..];
  }

  /** Decoding what was encoded gives back the four fields. */
  lemma DecodeEncode(h: Header)
    ensures DecodeHeader(EncodeHeader(h)) == h
  {
    var e := EncodeHeader(h);
    assert e[0..4] == Be32(h.seqNum);
    assert e[4..8] == Be32(h.ackNum);
    assert e[8..10] == Be16(h.flags);
    assert e[10..12] == Be16(h.window);
    Be32RoundTrip(h.seqNum);
    Be32RoundTrip(h.ackNum);
  }

  /** A frame's header decodes to the header it was built with. */
  lemma DecodeFrame(h: Header, payload: seq<byte>)
    ensures DecodeHeader(Frame(h, payload)) == h
  {
    DecodeEncode(h);
    var f := Frame(h, payload);
    assert f[..HEADER_SIZE] == EncodeHeader(h);
    DecodeLocality(f, EncodeHeader(h));
  }

  /** Re-packing the four decoded values reproduces the original 12 header bytes. */
  lemma EncodeDecode(b: seq<byte>)
    requires |b| >= HEADER_SIZE
    ensures EncodeHeader(DecodeHeader(b)) == b[..HEADER_SIZE]
  {
    FromBe32RoundTrip(b[0..4]);
    FromBe32RoundTrip(b[4..8]);
    FromBe16RoundTrip(b[8..10]);
    FromBe16RoundTrip(b[10..12]);
    assert (FromBe16(b[8..10])) as int == FromBe16(b[8..10]);
    assert b[..HEADER_SIZE] == b[0..4] + b[4..8] + b[8..10] + b[10..12];
  }

  /** The wire layout: seq in bytes 0..3, ack in 4..7, flags in 8..9, window in 10..11, each MSB first. */
  lemma EncodeLayout(h: Header)
    ensures var e := EncodeHeader(h);
      && e[0] == h.seqNum / 0x100_0000 && e[3] == h.seqNum % 0x100
      && e[4] == h.ackNum / 0x100_0000 && e[7] == h.ackNum % 0x100
      && e[8] == h.flags / 0x100 && e[9] == h.flags % 0x100
      && e[10] == h.window / 0x100 && e[11] == h.window % 0x100
      && FromBe32(e[0..4]) == h.seqNum && FromBe32(e[4..8]) == h.ackNum
      && FromBe16(e[8..10]) == h.flags && FromBe16(e[10..12]) == h.window
  {
    var e := EncodeHeader(h);
    assert e[0..4] == Be32(h.seqNum);
    assert e[4..8] == Be32(h.ackNum);
    assert e[8..10] == Be16(h.flags);
    assert e[10..12] == Be16(h.window);
    Be32RoundTrip(h.seqNum);
    Be32RoundTrip(h.ackNum);
  }

  /** Each decoded field depends only on its own byte range. */
  lemma DecodeLocality(b1: seq<byte>, b2: seq<byte>)
    requires |b1| >= HEADER_SIZE && |b2| >= HEADER_SIZE
    ensures b1[0..4] == b2[0..4] ==> DecodeHeader(b1).seqNum == DecodeHeader(b2).seqNum
    ensures b1[4..8] == b2[4..8] ==> DecodeHeader(b1).ackNum == DecodeHeader(b2).ackNum
    ensures b1[8..10] == b2[8..10] ==> DecodeHeader(b1).flags == DecodeHeader(b2).flags
    ensures b1[10..12] == b2[10..12] ==> DecodeHeader(b1).window == DecodeHeader(b2).window
  {
  }

  /**
   * The flag constants are disjoint single bits, so the C expression
   * `a | b | ...` over distinct flags is their sum and each bit of such a
   * combination tests independently of the others.
   */
  lemma FlagCombination(syn: bool, ack: bool, fin: bool, chat: bool)
    ensures var f := (if syn then SYN else 0) + (if ack then ACK else 0)
                   + (if fin then FIN else 0) + (if chat then CHAT else 0);
      && (Has(f, SYN) <==> syn) && (Has(f, ACK) <==> ack)
      && (Has(f, FIN) <==> fin) && (Has(f, CHAT) <==> chat)
  {
  }

  /** A combination such as FIN|ACK survives encoding, and each bit tests as it was set. */
  lemma FlagsSurviveEncoding(h: Header, bit: u16)
    requires IsFlagBit(bit)
    ensures DecodeHeader(EncodeHeader(h)).flags == h.flags
    ensures Has(DecodeHeader(EncodeHeader(h)).flags, bit) <==> Has(h.flags, bit)
  {
    DecodeEncode(h);
  }

  // ---------------------------------------------------------------------------
  // NUL-terminated text in a byte buffer
  // ---------------------------------------------------------------------------

  /** The bytes before the first NUL, at most `limit` of them (`strncpy` into a buffer whose last byte stays NUL). */
  function CopyUntilNul(b: seq<byte>, limit: nat): (r: seq<byte>)
    ensures |r| <= limit && |r| <= |b| && r == b[..|r|]
    ensures 0 !in r
    ensures |r| < limit && |r| < |b| ==> b[|r|] == 0
  {
    if limit == 0 || |b| == 0 || b[0] == 0 then [] else [b[0]] + CopyUntilNul(b[1..], limit - 1)
  }

  /** A NUL-terminated text followed by anything reads back as that text. */
  lemma {:induction false} CopyTerminated(t: seq<byte>, rest: seq<byte>, limit: nat)
    requires 0 !in t && |t| <= limit
    ensures CopyUntilNul(t + [0] + rest, limit) == t
  {
    if |t| > 0 {
      assert (t + [0] + rest)[1..] == t[1..] + [0] + rest;
      CopyTerminated(t[1..], rest, limit - 1);
    }
  }

  /** A text with no NUL reads back whole when the limit allows. */
  lemma {:induction false} CopyWhole(t: seq<byte>, limit: nat)
    requires 0 !in t && |t| <= limit
    ensures CopyUntilNul(t, limit) == t
  {
    if |t| > 0 {
      CopyWhole(t[1..], limit - 1);
    }
  }

  // ---------------------------------------------------------------------------
  // Receiving into a buffer that is also used for sending
  // ---------------------------------------------------------------------------

  /** What one bounded `select` + `recvfrom` produced. */
  datatype WaitResult =
    | TimedOut               // select returned 0
    | SelectFailed           // select returned < 0
    | EmptyRead              // select was ready but recvfrom returned <= 0
    | Datagram(bytes: seq<byte>)

  /** `recvfrom` returned a positive byte count. */
  predicate Received(w: WaitResult) {
    w.Datagram? && |w.bytes| > 0
  }

  /** The outcome of the `k`-th wait; once the given outcomes run out, every wait times out. */
  function WaitAt(waits: seq<WaitResult>, k: nat): WaitResult {
    if k < |waits| then waits[k] else TimedOut
  }

  /** `recvfrom` into a buffer whose first `|buffer|` bytes matter: the received bytes replace the first ones. */
  function Overwrite(buffer: seq<byte>, d: seq<byte>): (r: seq<byte>)
    ensures |r| == |buffer|
    ensures |d| >= |buffer| ==> r == d[..|buffer|]
  {
    if |d| >= |buffer| then d[..|buffer|] else d + buffer[|d|..]
  }

  /** The buffer after one wait. */
  function AfterWait(buffer: seq<byte>, w: WaitResult): (r: seq<byte>)
    ensures |r| == |buffer|
  {
    if Received(w) then Overwrite(buffer, w.bytes) else buffer
  }

  /**
   * What a loop that packs `first` once and then alternates `sendto(buffer)`
   * with a wait that receives into the same buffer transmits on try `k`.
   */
  function Resent(first: seq<byte>, waits: seq<WaitResult>, k: nat): (r: seq<byte>)
    ensures |r| == |first|
  {
    if k == 0 then first else AfterWait(Resent(first, waits, k - 1), WaitAt(waits, k - 1))
  }

  /** The buffers sent by the first `n` tries of a loop that resends the shared buffer. */
  function ResentTrace(first: seq<byte>, waits: seq<WaitResult>, n: nat): (r: seq<seq<byte>>)
    ensures |r| == n
  {
    if n == 0 then [] else ResentTrace(first, waits, n - 1) + [Resent(first, waits, n - 1)]
  }

  /** Try `k` sends the buffer as the first `k` waits left it. */
  lemma {:induction false} ResentTraceAt(first: seq<byte>, waits: seq<WaitResult>, n: nat)
    ensures forall k | 0 <= k < n :: ResentTrace(first, waits, n)[k] == Resent(first, waits, k)
  {
    if n > 0 {
      ResentTraceAt(first, waits, n - 1);
    }
  }

  /** Without any datagram received, every try transmits the packed frame. */
  lemma {:induction false} ResentWithoutReplies(first: seq<byte>, waits: seq<WaitResult>, k: nat)
    requires forall j | 0 <= j < k :: !Received(WaitAt(waits, j))
    ensures Resent(first, waits, k) == first
  {
    if k > 0 {
      ResentWithoutReplies(first, waits, k - 1);
    }
  }
}

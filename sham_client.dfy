/**
 * The sending peer of a SHAM file transfer: the SYN-ACK check, the
 * file-name exchange, and the ten-slot sliding window with cumulative-ACK
 * release and timeout retransmission, ending with the FIN.
 *
 * The input file is an abstract byte sequence `source` read in 1024-byte
 * `fread`s; the clock is a microsecond count supplied by the caller; each
 * received datagram arrives already decoded to (ack, window).
 */
module ShamClient {
  import opened Common
  import opened ShamCodec

  // ---------------------------------------------------------------------------
  // Handshake (networking/client.c:51-72)
  // ---------------------------------------------------------------------------

  /** The SYN: own ISN, ack 0, SYN (|CHAT), window 0. */
  function SynFrame(isn: u32, chat: bool): seq<byte> {
    EncodeHeader(Header(isn, 0, SYN + (if chat then CHAT else 0), 0))
  }

  /** The SYN-ACK test: both SYN and ACK set, and the ack is our ISN + 1. */
  predicate AcceptsSynAck(isn: u32, h: Header) {
    Has(h.flags, SYN) && Has(h.flags, ACK) && h.ackNum == Add32(isn, 1)
  }

  /** The handshake's effect: whether it succeeded, the server ISN, the advertised window and the ACK sent. */
  datatype HandshakeOutcome = HandshakeOutcome(accepted: bool, serverIsn: u32, serverWindow: u16, ackFrame: seq<byte>)

  /**
   * One reply to the SYN (empty when `recvfrom` fails). The window is taken
   * from any reply; the ISN and the ACK only from an accepted one. The
   * client goes on whether or not the handshake succeeded.
   */
  function Handshake(isn: u32, chat: bool, reply: seq<byte>): (r: HandshakeOutcome)
    ensures |reply| == 0 ==> r == HandshakeOutcome(false, 0, 0, [])
    ensures |reply| >= HEADER_SIZE ==>
      var h := DecodeHeader(reply);
      && r.serverWindow == h.window
      && (r.accepted <==> AcceptsSynAck(isn, h))
      && (r.accepted ==> r.serverIsn == h.seqNum && r.ackFrame == EncodeHeader(Header(Add32(isn, 1), Add32(h.seqNum, 1), ACK, 0)))
      && (!r.accepted ==> r.serverIsn == 0 && |r.ackFrame| == 0)
  {
    if |reply| == 0 then HandshakeOutcome(false, 0, 0, [])
    else
      var buffer := Overwrite(SynFrame(isn, chat), reply);
      assert |reply| >= HEADER_SIZE ==> DecodeHeader(buffer) == DecodeHeader(reply) by {
        if |reply| >= HEADER_SIZE {
          assert buffer == reply[..HEADER_SIZE];
          DecodeLocality(buffer, reply);
        }
      }
      var h := DecodeHeader(buffer);
      if AcceptsSynAck(isn, h) then
        HandshakeOutcome(true, h.seqNum, h.window, EncodeHeader(Header(Add32(isn, 1), Add32(h.seqNum, 1), ACK, 0)))
      else
        HandshakeOutcome(false, 0, h.window, [])
  }

  /** Any reply lacking SYN or ACK, or acknowledging anything but ISN + 1, is refused. */
  lemma HandshakeRefusals(isn: u32, chat: bool, h: Header)
    requires !Has(h.flags, SYN) || !Has(h.flags, ACK) || h.ackNum != Add32(isn, 1)
    ensures !Handshake(isn, chat, EncodeHeader(h)).accepted
    ensures |Handshake(isn, chat, EncodeHeader(h)).ackFrame| == 0
  {
    DecodeEncode(h);
  }

  // ---------------------------------------------------------------------------
  // File-name exchange (networking/client.c:161-190)
  // ---------------------------------------------------------------------------

  /** The file-name frame: header (next, 0, 0, 0) and the name with its terminating NUL. */
  function NameFrame(next: u32, name: seq<byte>): seq<byte> {
    Frame(Header(next, 0, 0, 0), name + [0])
  }

  /**
   * `pack_header` and the `memcpy` of the name and its NUL into `buffer`,
   * as written: nothing bounds the name, which is `argv[4]`. `None` stands
   * for a copy that runs past the end of the buffer.
   */
  function PackNameAsWritten(buffer: seq<byte>, next: u32, name: seq<byte>): Option<seq<byte>> {
    var f := NameFrame(next, name);
    if |f| <= |buffer| then Some(f + buffer[|f|..]) else None
  }

  /**
   * A name of 1024 bytes or more does not fit the 1036-byte buffer: the
   * copy, and the `sendto` of 12 + filename_len bytes, run past its end.
   * The longest name that fits is 1023 bytes.
   */
  lemma LongNameOverrunsAsWritten(buffer: seq<byte>, next: u32, name: seq<byte>)
    requires |buffer| == MAX_PACKET_SIZE
    ensures PackNameAsWritten(buffer, next, name).None? <==> |name| >= PAYLOAD_SIZE
    ensures |name| >= PAYLOAD_SIZE ==> |NameFrame(next, name)| > MAX_PACKET_SIZE
  {
  }

  /** The name cut so that it and its NUL fit the 1024 payload bytes. */
  function FitName(name: seq<byte>): (r: seq<byte>)
    ensures |r| < PAYLOAD_SIZE && |r| <= |name| && r == name[..|r|]
    ensures |name| < PAYLOAD_SIZE ==> r == name
    ensures |name| >= PAYLOAD_SIZE ==> |r| == PAYLOAD_SIZE - 1
  {
    name[..Min(|name|, PAYLOAD_SIZE - 1)]
  }

  /**
   * The name copy as evidently intended: the name is cut to fit, so the
   * frame always lies inside the buffer, decodes to the name's header, and
   * equals the as-written copy whenever that one fits.
   */
  lemma PackNameFits(buffer: seq<byte>, next: u32, name: seq<byte>)
    requires |buffer| == MAX_PACKET_SIZE
    ensures var f := NameFrame(next, FitName(name));
      && |f| <= MAX_PACKET_SIZE
      && PackNameAsWritten(buffer, next, FitName(name)) == Some(f + buffer[|f|..])
      && DecodeHeader(f) == Header(next, 0, 0, 0) && f[HEADER_SIZE..] == FitName(name) + [0]
      && (|name| < PAYLOAD_SIZE ==> PackNameAsWritten(buffer, next, name) == Some(f + buffer[|f|..]))
  {
    DecodeFrame(Header(next, 0, 0, 0), FitName(name) + [0]);
  }

  /** `select` reported the socket readable, so the buffer is unpacked whether or not `recvfrom` succeeded. */
  predicate Polled(w: WaitResult) {
    w.Datagram? || w.EmptyRead?
  }

  function AckIn(buffer: seq<byte>): u32
    requires |buffer| >= HEADER_SIZE
  {
    DecodeHeader(buffer).ackNum
  }

  function WindowIn(buffer: seq<byte>): u16
    requires |buffer| >= HEADER_SIZE
  {
    DecodeHeader(buffer).window
  }

  /**
   * The ack the exchange waits for, `next_seq_to_send + filename_len`: the
   * `int` length is converted to `uint32_t` and the sum wraps.
   */
  function NameTarget(next: u32, name: seq<byte>): u32 {
    Add32(next, (|name| + 1) % TWO_32)
  }

  /** Whether the ack unpacked after wait `k` ends the exchange, as written: it is read from the shared buffer that started as `first`. */
  predicate NameAckedAsWritten(first: seq<byte>, target: u32, waits: seq<WaitResult>, k: nat)
    requires |first| >= HEADER_SIZE
  {
    Polled(WaitAt(waits, k)) && AckIn(AfterWait(Resent(first, waits, k), WaitAt(waits, k))) >= target
  }

  /** The window last unpacked from the shared buffer during the first `n` waits, or `window0`. */
  function WindowAsWritten(first: seq<byte>, waits: seq<WaitResult>, window0: u16, n: nat): u16
    requires |first| >= HEADER_SIZE
  {
    if n == 0 then window0
    else if Polled(WaitAt(waits, n - 1)) then WindowIn(AfterWait(Resent(first, waits, n - 1), WaitAt(waits, n - 1)))
    else WindowAsWritten(first, waits, window0, n - 1)
  }

  /**
   * The exchange as written: the frame is packed into `buffer` once, and the
   * loop sends `buffer` and receives into it. The source loops for ever; the
   * model runs one try per given wait outcome.
   */
  method SendFilenameAsWritten(next: u32, name: seq<byte>, window0: u16, waits: seq<WaitResult>)
      returns (sent: seq<seq<byte>>, acked: bool, start: u32, window: u16)
    ensures |sent| <= |waits|
    ensures forall k | 0 <= k < |sent| :: sent[k] == Resent(NameFrame(next, name), waits, k)
    ensures forall k | 0 <= k < |sent| - 1 :: !NameAckedAsWritten(NameFrame(next, name), NameTarget(next, name), waits, k)
    ensures acked <==> (|sent| > 0 && NameAckedAsWritten(NameFrame(next, name), NameTarget(next, name), waits, |sent| - 1))
    ensures !acked ==> |sent| == |waits| && start == next
    ensures acked ==> start == AckIn(Resent(NameFrame(next, name), waits, |sent|))
    ensures window == WindowAsWritten(NameFrame(next, name), waits, window0, |sent|)
  {
    sent, acked, start, window := ResendSharedBuffer(NameFrame(next, name), next, NameTarget(next, name), window0, waits);
    ResentTraceAt(NameFrame(next, name), waits, |sent|);
  }

  /** The loop of the exchange as written, for a buffer that starts as `first` and an awaited ack `target`. */
  method ResendSharedBuffer(first: seq<byte>, next: u32, target: u32, window0: u16, waits: seq<WaitResult>)
      returns (sent: seq<seq<byte>>, acked: bool, start: u32, window: u16)
    requires |first| >= HEADER_SIZE
    ensures |sent| <= |waits|
    ensures sent == ResentTrace(first, waits, |sent|)
    ensures forall k | 0 <= k < |sent| - 1 :: !NameAckedAsWritten(first, target, waits, k)
    ensures acked <==> (|sent| > 0 && NameAckedAsWritten(first, target, waits, |sent| - 1))
    ensures !acked ==> |sent| == |waits| && start == next
    ensures acked ==> start == AckIn(Resent(first, waits, |sent|))
    ensures window == WindowAsWritten(first, waits, window0, |sent|)
  {
    var buffer := first;
    sent := [];
    acked := false;
    start := next;
    window := window0;
    while |sent| < |waits|
      invariant |sent| <= |waits|
      invariant buffer == Resent(first, waits, |sent|)
      invariant sent == ResentTrace(first, waits, |sent|)
      invariant forall k | 0 <= k < |sent| :: !NameAckedAsWritten(first, target, waits, k)
      invariant window == WindowAsWritten(first, waits, window0, |sent|)
    {
      var k := |sent|;
      sent := sent + [buffer];
      var ack;
      buffer, acked, ack, window := PollInto(first, target, waits, window0, k, buffer, window);
      if acked {
        start := ack;
        return;
      }
    }
  }

  /** Wait `k` of the exchange: `recvfrom` writes into the shared buffer, which is unpacked whenever `select` reported data. */
  method PollInto(ghost first: seq<byte>, target: u32, waits: seq<WaitResult>, ghost window0: u16, k: nat, buffer: seq<byte>, window: u16)
      returns (next: seq<byte>, acked: bool, ack: u32, window': u16)
    requires |first| >= HEADER_SIZE && k < |waits|
    requires buffer == Resent(first, waits, k) && window == WindowAsWritten(first, waits, window0, k)
    ensures next == Resent(first, waits, k + 1)
    ensures window' == WindowAsWritten(first, waits, window0, k + 1)
    ensures acked <==> NameAckedAsWritten(first, target, waits, k)
    ensures ack == AckIn(next)
  {
    var w := waits[k];
    next := AfterWait(buffer, w);
    ack := AckIn(next);
    window' := window;
    acked := false;
    if Polled(w) {
      window' := WindowIn(next);
      acked := ack >= target;
    }
  }

  /**
   * Any reply `h` that does not end the exchange (its ack is below the
   * target) replaces the header of the buffer, so the next "file-name frame"
   * sent is `h` followed by the name: a copy of the server's ACK, not the
   * frame packed at the start.
   */
  lemma ResentNameIsOverwritten(next: u32, name: seq<byte>, h: Header)
    requires h.flags != 0 && h.ackNum < NameTarget(next, name)
    ensures var first := NameFrame(next, name);
      var ws := [Datagram(EncodeHeader(h))];
      && !NameAckedAsWritten(first, NameTarget(next, name), ws, 0)
      && Resent(first, ws, 1) == Frame(h, name + [0])
      && DecodeHeader(Resent(first, ws, 1)) == h
      && Resent(first, ws, 1) != first
  {
    var d := EncodeHeader(h);
    var first := NameFrame(next, name);
    var ws := [Datagram(d)];
    assert Resent(first, ws, 0) == first;
    assert WaitAt(ws, 0) == Datagram(d) && Received(Datagram(d));
    var after := Resent(first, ws, 1);
    assert after == Overwrite(first, d) == d + (name + [0]);
    DecodeFrame(h, name + [0]);
    DecodeFrame(Header(next, 0, 0, 0), name + [0]);
  }

  /** The reply, read into a buffer of its own, is a whole header whose ack reaches `target`. */
  predicate AckReaches(target: u32, w: WaitResult) {
    Received(w) && |w.bytes| >= HEADER_SIZE && AckIn(w.bytes) >= target
  }

  /** The file-name exchange ends at this reply. */
  predicate NameAcked(next: u32, name: seq<byte>, w: WaitResult) {
    AckReaches(NameTarget(next, name), w)
  }

  /** The window of the last whole reply among the first `n` waits, or `window0`. */
  function LastWindow(waits: seq<WaitResult>, window0: u16, n: nat): u16 {
    if n == 0 then window0
    else
      var w := WaitAt(waits, n - 1);
      if Received(w) && |w.bytes| >= HEADER_SIZE then WindowIn(w.bytes) else LastWindow(waits, window0, n - 1)
  }

  /**
   * The exchange as evidently intended: the name is cut to fit the buffer,
   * replies go to a buffer of their own, so every try sends the identical
   * file-name frame, and the exchange ends at the first reply whose ack is
   * at least next_seq + strlen(name) + 1.
   */
  method SendFilename(next: u32, name: seq<byte>, window0: u16, waits: seq<WaitResult>)
      returns (sent: seq<seq<byte>>, acked: bool, start: u32, window: u16)
    ensures |sent| <= |waits|
    ensures forall k | 0 <= k < |sent| :: sent[k] == NameFrame(next, FitName(name)) && |sent[k]| <= MAX_PACKET_SIZE
    ensures forall k | 0 <= k < |sent| - 1 :: !NameAcked(next, FitName(name), waits[k])
    ensures acked <==> (|sent| > 0 && NameAcked(next, FitName(name), waits[|sent| - 1]))
    ensures !acked ==> |sent| == |waits| && start == next
    ensures acked ==> start == AckIn(waits[|sent| - 1].bytes) && start >= NameTarget(next, FitName(name))
    ensures window == LastWindow(waits, window0, |sent|)
  {
    var fitted := FitName(name);
    sent, acked, start, window := ResendOwnBuffer(NameFrame(next, fitted), next, NameTarget(next, fitted), window0, waits);
  }

  /** The loop of the corrected exchange, for a frame `frame` and an awaited ack `target`. */
  method ResendOwnBuffer(frame: seq<byte>, next: u32, target: u32, window0: u16, waits: seq<WaitResult>)
      returns (sent: seq<seq<byte>>, acked: bool, start: u32, window: u16)
    ensures |sent| <= |waits|
    ensures forall k | 0 <= k < |sent| :: sent[k] == frame
    ensures forall k | 0 <= k < |sent| - 1 :: !AckReaches(target, waits[k])
    ensures acked <==> (|sent| > 0 && AckReaches(target, waits[|sent| - 1]))
    ensures !acked ==> |sent| == |waits| && start == next
    ensures acked ==> start == AckIn(waits[|sent| - 1].bytes) && start >= target
    ensures window == LastWindow(waits, window0, |sent|)
  {
    sent := [];
    acked := false;
    start := next;
    window := window0;
    while |sent| < |waits|
      invariant |sent| <= |waits|
      invariant forall k | 0 <= k < |sent| :: sent[k] == frame
      invariant forall k | 0 <= k < |sent| :: !AckReaches(target, waits[k])
      invariant window == LastWindow(waits, window0, |sent|)
    {
      var k := |sent|;
      sent := sent + [frame];
      var ack;
      acked, ack, window := ReadReply(target, waits, window0, k, window);
      if acked {
        start := ack;
        return;
      }
    }
  }

  /** Wait `k` of the corrected exchange: a whole reply updates the window and may end the exchange. */
  method ReadReply(target: u32, waits: seq<WaitResult>, ghost window0: u16, k: nat, window: u16)
      returns (acked: bool, ack: u32, window': u16)
    requires k < |waits| && window == LastWindow(waits, window0, k)
    ensures window' == LastWindow(waits, window0, k + 1)
    ensures acked <==> AckReaches(target, waits[k])
    ensures acked ==> ack == AckIn(waits[k].bytes)
  {
    var w := waits[k];
    acked := false;
    ack := 0;
    window' := window;
    if Received(w) && |w.bytes| >= HEADER_SIZE {
      window' := WindowIn(w.bytes);
      ack := AckIn(w.bytes);
      acked := ack >= target;
    }
  }

  // ---------------------------------------------------------------------------
  // The sliding window, as functions of its state
  // ---------------------------------------------------------------------------

  /** A `client_window_packet`: flags, start sequence number, the bytes `sendto` transmits, and the send time. */
  datatype Slot = Slot(sent: bool, acked: bool, seqNum: u32, packet: seq<byte>, sentTime: int)

  /** A slot as `memset(window, 0, ...)` leaves it. */
  const FREE_SLOT: Slot := Slot(false, false, 0, [], 0)

  /** The transfer loop's variables. */
  datatype SenderState = SenderState(
    slots: seq<Slot>,
    readPos: nat,
    sendBase: u32,
    nextSeq: u32,
    fileDone: bool,
    serverWindow: u16)

  /** The state after the file-name exchange: `send_base = next_seq_to_send = start`. */
  function Start(start: u32, window: u16): SenderState {
    SenderState(seq(FIXED_WINDOW_PACKETS, _ => FREE_SLOT), 0, start, start, false, window)
  }

  /** One `fread` of at most 1024 bytes from position `pos`. */
  function Chunk(source: seq<byte>, pos: nat): (r: seq<byte>)
    requires pos <= |source|
    ensures |r| <= PAYLOAD_SIZE && pos + |r| <= |source| && r == source[pos..pos + |r|]
    ensures |r| == 0 <==> pos == |source|
    ensures |r| < PAYLOAD_SIZE ==> pos + |r| == |source|
  {
    source[pos..Min(pos + PAYLOAD_SIZE, |source|)]
  }

  /** The frame packed for the next chunk: `pack_header(seq = next_seq_to_send, 0, 0, 0)` and the bytes read. */
  function NextPacket(st: SenderState, source: seq<byte>): seq<byte>
    requires st.readPos <= |source|
  {
    Frame(Header(st.nextSeq, 0, 0, 0), Chunk(source, st.readPos))
  }

  /** Slot `i` takes the next chunk, stamped `now`, and the read position and `next_seq_to_send` advance past it. */
  function Occupy(st: SenderState, source: seq<byte>, now: int, i: nat): (r: SenderState)
    requires i < |st.slots| && st.readPos <= |source|
    ensures |r.slots| == |st.slots| && r.readPos <= |source|
  {
    var chunk := Chunk(source, st.readPos);
    st.(slots := st.slots[i := Slot(true, false, st.nextSeq, NextPacket(st, source), now)],
        readPos := st.readPos + |chunk|,
        nextSeq := Add32(st.nextSeq, |chunk|))
  }

  /** The fill loop from slot `i` on (networking/client.c:194-216): the new state and the frames sent. */
  function FillFrom(st: SenderState, source: seq<byte>, now: int, i: nat): (r: (SenderState, seq<seq<byte>>))
    requires i <= |st.slots| && st.readPos <= |source|
    ensures |r.0.slots| == |st.slots| && r.0.readPos <= |source|
    ensures st.fileDone ==> r.0.fileDone
    ensures r.0.fileDone && !st.fileDone ==> r.0.readPos == |source|
    decreases |st.slots| - i
  {
    if i == |st.slots| then (st, [])
    else if !st.slots[i].sent && Sub32(st.nextSeq, st.sendBase) < st.serverWindow then
      if |Chunk(source, st.readPos)| == 0 then (st.(fileDone := true), [])
      else
        var rest := FillFrom(Occupy(st, source, now, i), source, now, i + 1);
        (rest.0, [NextPacket(st, source)] + rest.1)
    else
      FillFrom(st, source, now, i + 1)
  }

  /**
   * Filling happens only while the source is not exhausted: once `fread`
   * has returned nothing, a fill changes nothing and sends nothing, and a
   * fill marks the source exhausted only when every byte has been read.
   */
  function FillStep(st: SenderState, source: seq<byte>, now: int): (r: (SenderState, seq<seq<byte>>))
    requires st.readPos <= |source|
    ensures |r.0.slots| == |st.slots| && r.0.readPos <= |source|
    ensures st.fileDone ==> r == (st, [])
    ensures r.0.fileDone ==> st.fileDone || r.0.readPos == |source|
  {
    if st.fileDone then (st, []) else FillFrom(st, source, now, 0)
  }

  /** A slot the cumulative ack `ack` covers is freed: `sent = false, acked = true`. */
  function ReleaseSlot(s: Slot, ack: u32): Slot {
    if s.sent && !s.acked && s.seqNum < ack then s.(sent := false, acked := true) else s
  }

  /** Handling one received (ack, window) (networking/client.c:226-240). */
  function AckStep(st: SenderState, ack: u32, win: u16): (r: SenderState)
    ensures |r.slots| == |st.slots|
  {
    if ack > st.sendBase then
      st.(serverWindow := win, sendBase := ack,
          slots := seq(|st.slots|, i requires 0 <= i < |st.slots| => ReleaseSlot(st.slots[i], ack)))
    else
      st.(serverWindow := win)
  }

  /** A slot is due when it is in flight and more than 500000 us have passed since it was sent. */
  predicate Due(s: Slot, now: int) {
    s.sent && !s.acked && now - s.sentTime > RETRANSMISSION_TIMEOUT_US
  }

  function Restamp(s: Slot, now: int): Slot {
    if Due(s, now) then s.(sentTime := now) else s
  }

  /** The packets of the due slots, in slot order. */
  function DuePackets(slots: seq<Slot>, now: int): seq<seq<byte>> {
    if |slots| == 0 then []
    else DuePackets(slots[..|slots| - 1], now) + (if Due(slots[|slots| - 1], now) then [slots[|slots| - 1].packet] else [])
  }

  /** The timeout pass (networking/client.c:243-256): due slots are resent and restamped. */
  function RetransmitStep(st: SenderState, now: int): (r: SenderState)
    ensures |r.slots| == |st.slots|
  {
    st.(slots := seq(|st.slots|, i requires 0 <= i < |st.slots| => Restamp(st.slots[i], now)))
  }

  /** The loop's exit test: the source is exhausted and everything sent is acknowledged. */
  predicate Finished(st: SenderState) {
    st.fileDone && st.sendBase >= st.nextSeq
  }

  /** The FIN sent after the loop: seq = next_seq_to_send. */
  function FinFrame(st: SenderState): seq<byte> {
    EncodeHeader(Header(st.nextSeq, 0, FIN, 0))
  }

  /** One pass of the transfer loop: the fill time, the datagram received if any, and the time of the timeout pass. */
  datatype Tick = Tick(fillTime: int, reply: Option<(u32, u16)>, checkTime: int)

  /**
   * One pass of the transfer loop (networking/client.c:192-256): the fill
   * pass while the source lasts, then the received (ack, window) if any,
   * then the timeout pass; the frames are the fill's, then the resent ones.
   */
  function Pass(st: SenderState, source: seq<byte>, tick: Tick): (r: (SenderState, seq<seq<byte>>))
    requires st.readPos <= |source|
    ensures |r.0.slots| == |st.slots| && r.0.readPos <= |source|
  {
    var filled := FillStep(st, source, tick.fillTime);
    var acked := if tick.reply.Some? then AckStep(filled.0, tick.reply.value.0, tick.reply.value.1) else filled.0;
    (RetransmitStep(acked, tick.checkTime), filled.1 + DuePackets(acked.slots, tick.checkTime))
  }

  /** The transfer loop over the given passes: its final state, every frame sent, and the number of passes it took. */
  datatype TransferResult = TransferResult(state: SenderState, frames: seq<seq<byte>>, used: nat)

  /**
   * The transfer loop: a pass runs while the loop condition
   * `!file_is_done || send_base < next_seq_to_send` holds and passes
   * remain. It stops early only once finished.
   */
  function Passes(st: SenderState, source: seq<byte>, ticks: seq<Tick>): (r: TransferResult)
    requires st.readPos <= |source|
    ensures r.used <= |ticks| && r.state.readPos <= |source|
    ensures r.used < |ticks| ==> Finished(r.state)
    ensures Finished(st) ==> r == TransferResult(st, [], 0)
    decreases |ticks|
  {
    if Finished(st) || |ticks| == 0 then TransferResult(st, [], 0)
    else
      var p := Pass(st, source, ticks[0]);
      var rest := Passes(p.0, source, ticks[1..]);
      TransferResult(rest.state, p.1 + rest.frames, 1 + rest.used)
  }

  // ---------------------------------------------------------------------------
  // The sender invariant and what each step keeps
  // ---------------------------------------------------------------------------

  /**
   * A frame that carries bytes of the source at the offset its sequence
   * number names, counting from `start`, with a zero ack, zero flags and
   * zero window.
   */
  ghost predicate FrameHonest(f: seq<byte>, source: seq<byte>, start: int) {
    && |f| > HEADER_SIZE
    && var s := DecodeHeader(f).seqNum;
       var n := |f| - HEADER_SIZE;
       && start <= s && s - start + n <= |source|
       && f == Frame(Header(s, 0, 0, 0), source[s - start..s - start + n])
  }

  /** An occupied slot holds source bytes at its own sequence number. */
  ghost predicate SlotHonest(s: Slot, source: seq<byte>, start: int) {
    && start <= s.seqNum
    && var n := |s.packet| - HEADER_SIZE;
       && 0 < n <= PAYLOAD_SIZE && s.seqNum - start + n <= |source|
       && s.packet == Frame(Header(s.seqNum, 0, 0, 0), source[s.seqNum - start..s.seqNum - start + n])
  }

  /**
   * The sender invariant: ten slots, `next_seq_to_send` is `start` plus the
   * bytes read, the source is exhausted when `file_is_done`, and every
   * in-flight slot holds its own bytes of the source. Sequence numbers do
   * not wrap: `start + |source| < 2^32`.
   */
  ghost predicate SenderInv(st: SenderState, source: seq<byte>, start: int) {
    && |st.slots| == FIXED_WINDOW_PACKETS
    && 0 <= start && start + |source| < TWO_32
    && st.readPos <= |source|
    && st.nextSeq == start + st.readPos
    && (st.fileDone ==> st.readPos == |source|)
    && (forall i | 0 <= i < |st.slots| :: st.slots[i].sent ==> !st.slots[i].acked && SlotHonest(st.slots[i], source, start))
  }

  lemma StartInv(start: u32, window: u16, source: seq<byte>)
    requires start + |source| < TWO_32
    ensures SenderInv(Start(start, window), source, start)
  {
  }

  lemma SlotFrameHonest(s: Slot, source: seq<byte>, start: int)
    requires SlotHonest(s, source, start)
    ensures FrameHonest(s.packet, source, start)
  {
    DecodeFrame(Header(s.seqNum, 0, 0, 0), source[s.seqNum - start..s.seqNum - start + |s.packet| - HEADER_SIZE]);
  }

  /**
   * The frames of one fill are consecutive chunks of the source from `from`
   * to `to`, each of 1 to 1024 bytes numbered by its offset, and each sent
   * while `next_seq - send_base` was below the advertised window.
   */
  ghost predicate FillOutput(frames: seq<seq<byte>>, source: seq<byte>, start: int, from: int, to: int, base: u32, window: u16)
    decreases |frames|
  {
    if |frames| == 0 then from == to
    else
      var n := |frames[0]| - HEADER_SIZE;
      && 0 <= from && 0 <= start + from < TWO_32
      && 0 < n <= PAYLOAD_SIZE && from + n <= |source|
      && Sub32(start + from, base) < window
      && frames[0] == Frame(Header(start + from, 0, 0, 0), source[from..from + n])
      && FillOutput(frames[1..], source, start, from + n, to, base, window)
  }

  /** Occupying a free slot with a non-empty chunk keeps the invariant. */
  lemma OccupyInv(st: SenderState, source: seq<byte>, start: int, now: int, i: nat)
    requires SenderInv(st, source, start) && i < |st.slots| && st.readPos < |source|
    ensures SenderInv(Occupy(st, source, now, i), source, start)
  {
    var r := Occupy(st, source, now, i);
    assert SlotHonest(r.slots[i], source, start);
  }

  /** The frame sent on occupying a slot heads the fill's output. */
  lemma OccupyOutput(st: SenderState, source: seq<byte>, start: int, now: int, i: nat, rest: seq<seq<byte>>, to: int)
    requires SenderInv(st, source, start) && i < |st.slots| && st.readPos < |source|
    requires Sub32(st.nextSeq, st.sendBase) < st.serverWindow
    requires FillOutput(rest, source, start, Occupy(st, source, now, i).readPos, to, st.sendBase, st.serverWindow)
    ensures FillOutput([NextPacket(st, source)] + rest, source, start, st.readPos, to, st.sendBase, st.serverWindow)
  {
    assert ([NextPacket(st, source)] + rest)[1..] == rest;
  }

  lemma {:induction false} FillFromInv(st: SenderState, source: seq<byte>, start: int, now: int, i: nat)
    requires SenderInv(st, source, start) && i <= |st.slots|
    ensures var r := FillFrom(st, source, now, i);
      && SenderInv(r.0, source, start)
      && r.0.sendBase == st.sendBase && r.0.serverWindow == st.serverWindow
      && FillOutput(r.1, source, start, st.readPos, r.0.readPos, st.sendBase, st.serverWindow)
    decreases |st.slots| - i
  {
    if i < |st.slots| && !st.slots[i].sent && Sub32(st.nextSeq, st.sendBase) < st.serverWindow {
      if |Chunk(source, st.readPos)| > 0 {
        var st' := Occupy(st, source, now, i);
        OccupyInv(st, source, start, now, i);
        FillFromInv(st', source, start, now, i + 1);
        var rest := FillFrom(st', source, now, i + 1);
        OccupyOutput(st, source, start, now, i, rest.1, rest.0.readPos);
      }
    } else if i < |st.slots| {
      FillFromInv(st, source, start, now, i + 1);
    }
  }

  /** A fill keeps the invariant, leaves `send_base` alone, and sends consecutive chunks inside the window. */
  lemma FillInv(st: SenderState, source: seq<byte>, start: int, now: int)
    requires SenderInv(st, source, start)
    ensures var r := FillStep(st, source, now);
      && SenderInv(r.0, source, start)
      && r.0.sendBase == st.sendBase
      && FillOutput(r.1, source, start, st.readPos, r.0.readPos, st.sendBase, st.serverWindow)
      && r.0.nextSeq == start + r.0.readPos
  {
    if !st.fileDone {
      FillFromInv(st, source, start, now, 0);
    }
  }

  lemma {:induction false} FillOutputHonest(frames: seq<seq<byte>>, source: seq<byte>, start: int, from: int, to: int, base: u32, window: u16)
    requires FillOutput(frames, source, start, from, to, base, window)
    ensures forall k | 0 <= k < |frames| :: FrameHonest(frames[k], source, start)
    decreases |frames|
  {
    if |frames| > 0 {
      var n := |frames[0]| - HEADER_SIZE;
      assert FrameHonest(frames[0], source, start) by {
        FirstFrameHonest(frames[0], source, start, from, n);
      }
      FillOutputHonest(frames[1..], source, start, from + n, to, base, window);
      forall k | 0 <= k < |frames| ensures FrameHonest(frames[k], source, start) {
        if k > 0 {
          assert frames[k] == frames[1..][k - 1];
        }
      }
    }
  }

  lemma FirstFrameHonest(f: seq<byte>, source: seq<byte>, start: int, from: int, n: int)
    requires 0 <= from && 0 <= start + from < TWO_32 && 0 < n && from + n <= |source|
    requires f == Frame(Header(start + from, 0, 0, 0), source[from..from + n])
    ensures FrameHonest(f, source, start)
  {
    DecodeFrame(Header(start + from, 0, 0, 0), source[from..from + n]);
  }

  /** The number of slots in flight (sent and not acked). */
  function InFlight(slots: seq<Slot>): nat {
    if |slots| == 0 then 0
    else InFlight(slots[..|slots| - 1]) + (if slots[|slots| - 1].sent && !slots[|slots| - 1].acked then 1 else 0)
  }

  lemma {:induction false} InFlightBound(slots: seq<Slot>)
    ensures InFlight(slots) <= |slots|
  {
    if |slots| > 0 {
      InFlightBound(slots[..|slots| - 1]);
    }
  }

  lemma {:induction false} InFlightUpdate(slots: seq<Slot>, i: nat, x: Slot)
    requires i < |slots|
    ensures InFlight(slots[i := x]) + (if slots[i].sent && !slots[i].acked then 1 else 0)
         == InFlight(slots) + (if x.sent && !x.acked then 1 else 0)
  {
    var u := slots[i := x];
    if i == |slots| - 1 {
      assert u[..|u| - 1] == slots[..|slots| - 1];
    } else {
      assert u[..|u| - 1] == slots[..|slots| - 1][i := x];
      InFlightUpdate(slots[..|slots| - 1], i, x);
    }
  }

  /** Every frame a fill sends occupies a slot that was free, so the slots in flight grow by exactly the frames sent. */
  lemma {:induction false} FillFromInFlight(st: SenderState, source: seq<byte>, now: int, i: nat)
    requires i <= |st.slots| && st.readPos <= |source|
    ensures InFlight(FillFrom(st, source, now, i).0.slots) == InFlight(st.slots) + |FillFrom(st, source, now, i).1|
    decreases |st.slots| - i
  {
    if i < |st.slots| && !st.slots[i].sent && Sub32(st.nextSeq, st.sendBase) < st.serverWindow {
      if |Chunk(source, st.readPos)| > 0 {
        var st' := Occupy(st, source, now, i);
        InFlightUpdate(st.slots, i, st'.slots[i]);
        FillFromInFlight(st', source, now, i + 1);
      }
    } else if i < |st.slots| {
      FillFromInFlight(st, source, now, i + 1);
    }
  }

  /** At most ten segments are in flight, and a fill sends at most as many frames as there were free slots. */
  lemma FillBound(st: SenderState, source: seq<byte>, now: int)
    requires |st.slots| == FIXED_WINDOW_PACKETS && st.readPos <= |source|
    ensures InFlight(FillStep(st, source, now).0.slots) <= FIXED_WINDOW_PACKETS
    ensures InFlight(st.slots) + |FillStep(st, source, now).1| <= FIXED_WINDOW_PACKETS
  {
    if !st.fileDone {
      FillFromInFlight(st, source, now, 0);
    }
    InFlightBound(FillStep(st, source, now).0.slots);
  }

  /**
   * A cumulative ACK above `send_base` moves it there and frees exactly the
   * in-flight slots starting below it; any other ACK changes only the
   * window. `send_base` never decreases.
   */
  lemma AckEffect(st: SenderState, ack: u32, win: u16)
    ensures var r := AckStep(st, ack, win);
      && r.serverWindow == win && r.nextSeq == st.nextSeq && r.readPos == st.readPos && r.fileDone == st.fileDone
      && r.sendBase == (if ack > st.sendBase then ack else st.sendBase)
      && r.sendBase >= st.sendBase
      && (ack <= st.sendBase ==> r.slots == st.slots)
      && (ack > st.sendBase ==> forall i | 0 <= i < |st.slots| ::
            if st.slots[i].sent && !st.slots[i].acked && st.slots[i].seqNum < ack
            then r.slots[i] == st.slots[i].(sent := false, acked := true)
            else r.slots[i] == st.slots[i])
  {
  }

  lemma AckInv(st: SenderState, ack: u32, win: u16, source: seq<byte>, start: int)
    requires SenderInv(st, source, start)
    ensures SenderInv(AckStep(st, ack, win), source, start)
  {
  }

  /** The timeout pass changes nothing but the due slots' timestamps, and it resends their unchanged packets. */
  lemma RetransmitEffect(st: SenderState, now: int)
    ensures var r := RetransmitStep(st, now);
      && r.sendBase == st.sendBase && r.nextSeq == st.nextSeq && r.readPos == st.readPos
      && r.fileDone == st.fileDone && r.serverWindow == st.serverWindow
      && forall i | 0 <= i < |st.slots| ::
           && r.slots[i].sent == st.slots[i].sent && r.slots[i].acked == st.slots[i].acked
           && r.slots[i].seqNum == st.slots[i].seqNum && r.slots[i].packet == st.slots[i].packet
           && r.slots[i].sentTime == (if Due(st.slots[i], now) then now else st.slots[i].sentTime)
  {
  }

  lemma {:induction false} DuePacketsHonest(slots: seq<Slot>, now: int, source: seq<byte>, start: int)
    requires forall i | 0 <= i < |slots| :: slots[i].sent ==> SlotHonest(slots[i], source, start)
    ensures forall k | 0 <= k < |DuePackets(slots, now)| :: FrameHonest(DuePackets(slots, now)[k], source, start)
  {
    if |slots| > 0 {
      var last := slots[|slots| - 1];
      DuePacketsHonest(slots[..|slots| - 1], now, source, start);
      if Due(last, now) {
        SlotFrameHonest(last, source, start);
      }
    }
  }

  /** The timeout pass keeps the invariant, and every frame it resends carries source bytes at their own offset. */
  lemma RetransmitInv(st: SenderState, now: int, source: seq<byte>, start: int)
    requires SenderInv(st, source, start)
    ensures SenderInv(RetransmitStep(st, now), source, start)
    ensures forall k | 0 <= k < |DuePackets(st.slots, now)| :: FrameHonest(DuePackets(st.slots, now)[k], source, start)
  {
    DuePacketsHonest(st.slots, now, source, start);
    var r := RetransmitStep(st, now);
    forall i | 0 <= i < |r.slots| && r.slots[i].sent
      ensures !r.slots[i].acked && SlotHonest(r.slots[i], source, start)
    {
      assert r.slots[i] == Restamp(st.slots[i], now);
    }
  }

  /** When the transfer has finished, the FIN carries the sequence number just past the whole source. */
  lemma FinAtEnd(st: SenderState, source: seq<byte>, start: int)
    requires SenderInv(st, source, start) && Finished(st)
    ensures DecodeHeader(FinFrame(st)) == Header(start + |source|, 0, FIN, 0)
    ensures Has(DecodeHeader(FinFrame(st)).flags, FIN) && !Has(DecodeHeader(FinFrame(st)).flags, ACK)
  {
    DecodeEncode(Header(st.nextSeq, 0, FIN, 0));
  }

  /** A later part of the loop, behind `frames` sent in `n` earlier passes. */
  function Shifted(r: TransferResult, frames: seq<seq<byte>>, n: nat): TransferResult {
    r.(frames := frames + r.frames, used := n + r.used)
  }

  /** One pass of the transfer loop moves the loop's remaining part one tick on. */
  lemma PassesStep(goal: TransferResult, st: SenderState, source: seq<byte>, ticks: seq<Tick>, frames: seq<seq<byte>>, used: nat,
                   st': SenderState, sent: seq<seq<byte>>)
    requires st.readPos <= |source| && !Finished(st) && used < |ticks|
    requires goal == Shifted(Passes(st, source, ticks[used..]), frames, used)
    requires (st', sent) == Pass(st, source, ticks[used])
    ensures goal == Shifted(Passes(st', source, ticks[used + 1..]), frames + sent, used + 1)
  {
    assert ticks[used..][1..] == ticks[used + 1..];
  }

  /** Once finished, or with no passes left, the loop's remaining part is empty. */
  lemma PassesExit(goal: TransferResult, st: SenderState, source: seq<byte>, ticks: seq<Tick>, frames: seq<seq<byte>>, used: nat)
    requires st.readPos <= |source| && used <= |ticks| && (Finished(st) || used == |ticks|)
    requires goal == Shifted(Passes(st, source, ticks[used..]), frames, used)
    ensures goal == TransferResult(st, frames, used)
  {
    assert Passes(st, source, ticks[used..]) == TransferResult(st, [], 0);
    assert frames + [] == frames;
  }

  /** A pass keeps the sender invariant and sends only frames that carry source bytes at their own offset. */
  lemma PassInv(st: SenderState, source: seq<byte>, start: int, tick: Tick)
    requires SenderInv(st, source, start)
    ensures SenderInv(Pass(st, source, tick).0, source, start)
    ensures AllHonest(Pass(st, source, tick).1, source, start)
  {
    var filled := FillStep(st, source, tick.fillTime);
    FillInv(st, source, start, tick.fillTime);
    FillOutputHonest(filled.1, source, start, st.readPos, filled.0.readPos, st.sendBase, st.serverWindow);
    var acked := if tick.reply.Some? then AckStep(filled.0, tick.reply.value.0, tick.reply.value.1) else filled.0;
    if tick.reply.Some? {
      AckInv(filled.0, tick.reply.value.0, tick.reply.value.1, source, start);
    }
    RetransmitInv(acked, tick.checkTime, source, start);
    AllHonestAppend(filled.1, DuePackets(acked.slots, tick.checkTime), source, start);
  }

  /**
   * The whole loop keeps the sender invariant and sends only honest frames;
   * when it has finished, its FIN numbers the end of the source.
   */
  lemma {:induction false} PassesInv(st: SenderState, source: seq<byte>, start: int, ticks: seq<Tick>)
    requires SenderInv(st, source, start)
    ensures var r := Passes(st, source, ticks);
      && SenderInv(r.state, source, start)
      && AllHonest(r.frames, source, start)
      && (Finished(r.state) ==> DecodeHeader(FinFrame(r.state)).seqNum == start + |source|)
    decreases |ticks|
  {
    var r := Passes(st, source, ticks);
    if !Finished(st) && |ticks| > 0 {
      var p := Pass(st, source, ticks[0]);
      PassInv(st, source, start, ticks[0]);
      PassesInv(p.0, source, start, ticks[1..]);
      AllHonestAppend(p.1, Passes(p.0, source, ticks[1..]).frames, source, start);
    }
    if Finished(r.state) {
      FinAtEnd(r.state, source, start);
    }
  }

  // ---------------------------------------------------------------------------
  // The sender object
  // ---------------------------------------------------------------------------

  /** The ten slots and the loop variables of the file-transfer client, updated in place. */
  class Sender {
    const slots: array<Slot>
    const source: seq<byte>
    var readPos: nat
    var sendBase: u32
    var nextSeq: u32
    var fileDone: bool
    var serverWindow: u16

    function State(): SenderState
      reads this, slots
    {
      SenderState(slots[..], readPos, sendBase, nextSeq, fileDone, serverWindow)
    }

    ghost predicate Valid()
      reads this
    {
      slots.Length == FIXED_WINDOW_PACKETS && readPos <= |source|
    }

    /** Entering the transfer loop once the file-name exchange set `send_base = next_seq_to_send = start`. */
    constructor (source: seq<byte>, start: u32, window: u16)
      ensures Valid() && fresh(slots)
      ensures this.source == source && State() == Start(start, window)
    {
      this.source := source;
      slots := new Slot[FIXED_WINDOW_PACKETS](_ => FREE_SLOT);
      readPos := 0;
      sendBase := start;
      nextSeq := start;
      fileDone := false;
      serverWindow := window;
      new;
      assert slots[..] == seq(FIXED_WINDOW_PACKETS, _ => FREE_SLOT);
    }

    /** The fill pass: each free slot inside the window gets the next chunk of the source. */
    method Fill(now: int) returns (frames: seq<seq<byte>>)
      requires Valid()
      modifies this, slots
      ensures Valid()
      ensures (State(), frames) == FillStep(old(State()), source, now)
    {
      frames := [];
      if fileDone {
        return;
      }
      ghost var goal := FillFrom(State(), source, now, 0);
      var i := 0;
      while i < FIXED_WINDOW_PACKETS
        invariant 0 <= i <= FIXED_WINDOW_PACKETS && Valid()
        invariant FillFrom(State(), source, now, i).0 == goal.0
        invariant frames + FillFrom(State(), source, now, i).1 == goal.1
      {
        if !slots[i].sent && Sub32(nextSeq, sendBase) < serverWindow {
          var chunk := Chunk(source, readPos);
          if |chunk| == 0 {
            ghost var before := State();
            fileDone := true;
            assert State() == before.(fileDone := true);
            assert frames == goal.1;
            assert State() == goal.0;
            return;
          }
          ghost var before := State();
          var packet := Frame(Header(nextSeq, 0, 0, 0), chunk);
          slots[i] := Slot(true, false, nextSeq, packet, now);
          readPos := readPos + |chunk|;
          nextSeq := Add32(nextSeq, |chunk|);
          frames := frames + [packet];
          assert State() == Occupy(before, source, now, i);
        }
        i := i + 1;
      }
      assert State() == goal.0;
      assert frames == goal.1;
    }

    /** One received ACK: the window is always taken; a higher ack moves `send_base` and frees covered slots. */
    method OnAck(ack: u32, win: u16)
      requires Valid()
      modifies this, slots
      ensures Valid()
      ensures State() == AckStep(old(State()), ack, win)
    {
      serverWindow := win;
      if ack > sendBase {
        sendBase := ack;
        for i := 0 to slots.Length
          modifies slots
          invariant forall j | 0 <= j < i :: slots[j] == ReleaseSlot(old(slots[j]), ack)
          invariant forall j | i <= j < slots.Length :: slots[j] == old(slots[j])
        {
          if slots[i].sent && !slots[i].acked && slots[i].seqNum < sendBase {
            slots[i] := slots[i].(sent := false, acked := true);
          }
        }
      }
    }

    /** The timeout pass: every due slot is resent unchanged and restamped. */
    method Retransmit(now: int) returns (frames: seq<seq<byte>>)
      requires Valid()
      modifies slots
      ensures Valid()
      ensures State() == RetransmitStep(old(State()), now)
      ensures frames == DuePackets(old(slots[..]), now)
    {
      frames := [];
      for i := 0 to slots.Length
        invariant forall j | 0 <= j < i :: slots[j] == Restamp(old(slots[j]), now)
        invariant forall j | i <= j < slots.Length :: slots[j] == old(slots[j])
        invariant frames == DuePackets(old(slots[..])[..i], now)
      {
        assert old(slots[..])[..i + 1][..i] == old(slots[..])[..i];
        if Due(slots[i], now) {
          frames := frames + [slots[i].packet];
          slots[i] := slots[i].(sentTime := now);
        }
      }
      assert old(slots[..])[..slots.Length] == old(slots[..]);
    }
  }

  /** Every frame carries source bytes at their own offset. */
  ghost predicate AllHonest(frames: seq<seq<byte>>, source: seq<byte>, start: int) {
    forall k | 0 <= k < |frames| :: FrameHonest(frames[k], source, start)
  }

  lemma AllHonestAppend(a: seq<seq<byte>>, b: seq<seq<byte>>, source: seq<byte>, start: int)
    requires AllHonest(a, source, start) && AllHonest(b, source, start)
    ensures AllHonest(a + b, source, start)
  {
    forall k | 0 <= k < |a + b| ensures FrameHonest((a + b)[k], source, start) {
      if k >= |a| {
        assert (a + b)[k] == b[k - |a|];
      }
    }
  }

  /** One pass of the transfer loop: fill, then the received ACK if any, then the timeout pass. */
  method TransferPass(s: Sender, tick: Tick, ghost start: int) returns (sent: seq<seq<byte>>)
    requires s.Valid() && SenderInv(s.State(), s.source, start)
    modifies s, s.slots
    ensures s.Valid() && SenderInv(s.State(), s.source, start)
    ensures (s.State(), sent) == Pass(old(s.State()), s.source, tick)
    ensures AllHonest(sent, s.source, start)
  {
    ghost var st0 := s.State();
    PassInv(st0, s.source, start, tick);
    sent := s.Fill(tick.fillTime);
    if tick.reply.Some? {
      s.OnAck(tick.reply.value.0, tick.reply.value.1);
    }
    var resent := s.Retransmit(tick.checkTime);
    sent := sent + resent;
  }

  /**
   * The transfer loop (networking/client.c:192-258) over the given passes,
   * followed by the FIN (networking/client.c:263-264) when it finishes.
   * Every frame it sends carries source bytes at their own offset.
   */
  method Transfer(s: Sender, ticks: seq<Tick>, ghost start: int) returns (frames: seq<seq<byte>>, used: nat, fin: Option<seq<byte>>)
    requires s.Valid() && SenderInv(s.State(), s.source, start)
    modifies s, s.slots
    ensures s.Valid() && SenderInv(s.State(), s.source, start)
    ensures TransferResult(s.State(), frames, used) == Passes(old(s.State()), s.source, ticks)
    ensures !Finished(s.State()) ==> used == |ticks|
    ensures fin.Some? <==> Finished(s.State())
    ensures fin.Some? ==> fin.value == FinFrame(s.State()) && DecodeHeader(fin.value).seqNum == start + |s.source|
    ensures AllHonest(frames, s.source, start)
  {
    ghost var goal := Passes(s.State(), s.source, ticks);
    PassesInv(s.State(), s.source, start, ticks);
    frames := [];
    used := 0;
    while !Finished(s.State()) && used < |ticks|
      invariant s.Valid() && SenderInv(s.State(), s.source, start) && used <= |ticks|
      invariant goal == Shifted(Passes(s.State(), s.source, ticks[used..]), frames, used)
      decreases |ticks| - used
    {
      ghost var st := s.State();
      var sent := TransferPass(s, ticks[used], start);
      PassesStep(goal, st, s.source, ticks, frames, used, s.State(), sent);
      frames := frames + sent;
      used := used + 1;
    }
    PassesExit(goal, s.State(), s.source, ticks, frames, used);
    if Finished(s.State()) {
      fin := Some(FinFrame(s.State()));
    } else {
      fin := None;
    }
  }
}

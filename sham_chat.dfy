/**
 * The sequence-number and flag bookkeeping of SHAM chat mode, on both
 * sides: data lines, the client's "/quit", the server's handling of the
 * handshake ACK and of a FIN, and the client's answer to the FIN-ACK.
 *
 * A typed line is the byte sequence `fgets` stores (at most 1023 bytes);
 * a received datagram arrives decoded to its header and its length.
 */
module ShamChat {
  import opened Common
  import opened ShamCodec

  /** The line "/quit\n" that makes the client send a FIN. */
  const QUIT_LINE: seq<byte> := [47, 113, 117, 105, 116, 10]

  /** What `strlen` measures in a typed line: the bytes before its first NUL. */
  function Text(line: seq<byte>): seq<byte> {
    CopyUntilNul(line, |line|)
  }

  /** The frame sent for a typed line and the sequence number after it. */
  datatype Typed = Typed(frame: seq<byte>, nextSeq: u32)

  /**
   * A data line (networking/client.c:140-146, networking/server.c:211-217):
   * header (seq, 0, 0, 0), the text and its NUL, and the sequence number
   * advanced by the text's length only.
   */
  function DataLine(seqNum: u32, line: seq<byte>): Typed {
    var t := Text(line);
    Typed(Frame(Header(seqNum, 0, 0, 0), t + [0]), Add32(seqNum, |t| % TWO_32))
  }

  /** A line typed at the client: "/quit\n" sends a FIN that does not advance the sequence number. */
  function ClientTyped(seqNum: u32, line: seq<byte>): Typed {
    if line == QUIT_LINE then Typed(EncodeHeader(Header(seqNum, 0, FIN, 0)), seqNum)
    else DataLine(seqNum, line)
  }

  /** The server sends every line as data. */
  function ServerTyped(seqNum: u32, line: seq<byte>): Typed {
    DataLine(seqNum, line)
  }

  /**
   * A data frame carries its text and a NUL, one byte more than the
   * sequence number advances, and is numbered with the sequence number
   * before the line.
   */
  lemma DataLineShape(seqNum: u32, line: seq<byte>)
    requires |line| < PAYLOAD_SIZE
    ensures var d := DataLine(seqNum, line);
      && DecodeHeader(d.frame) == Header(seqNum, 0, 0, 0)
      && d.frame[HEADER_SIZE..] == Text(line) + [0]
      && |d.frame| == HEADER_SIZE + |Text(line)| + 1 <= MAX_PACKET_SIZE
      && d.nextSeq == Add32(seqNum, |Text(line)|)
  {
    DecodeFrame(Header(seqNum, 0, 0, 0), Text(line) + [0]);
  }

  /** "/quit\n" sends a bare FIN with the current sequence number and leaves it unchanged, however often it is typed. */
  lemma QuitKeepsSeq(seqNum: u32)
    ensures var q := ClientTyped(seqNum, QUIT_LINE);
      && q.nextSeq == seqNum
      && |q.frame| == HEADER_SIZE
      && DecodeHeader(q.frame) == Header(seqNum, 0, FIN, 0)
      && ClientTyped(q.nextSeq, QUIT_LINE) == q
  {
    DecodeEncode(Header(seqNum, 0, FIN, 0));
  }

  /** The frames the client sends for the lines typed, in order, and the sequence number after them. */
  function ClientLines(seqNum: u32, lines: seq<seq<byte>>): (r: (seq<seq<byte>>, u32))
    ensures |r.0| == |lines|
    decreases |lines|
  {
    if |lines| == 0 then ([], seqNum)
    else
      var t := ClientTyped(seqNum, lines[0]);
      var rest := ClientLines(t.nextSeq, lines[1..]);
      ([t.frame] + rest.0, rest.1)
  }

  /** The bytes of text a list of client lines sends, not counting "/quit\n" lines and NULs. */
  function TextSent(lines: seq<seq<byte>>): nat
    decreases |lines|
  {
    if |lines| == 0 then 0
    else (if lines[0] == QUIT_LINE then 0 else |Text(lines[0])|) + TextSent(lines[1..])
  }

  /** After any lines, the client's sequence number is the initial one plus the text bytes sent, modulo 2^32. */
  lemma {:induction false} ClientSeqAfterLines(seqNum: u32, lines: seq<seq<byte>>)
    ensures ClientLines(seqNum, lines).1 == (seqNum + TextSent(lines)) % TWO_32
    decreases |lines|
  {
    if |lines| > 0 {
      var t := ClientTyped(seqNum, lines[0]);
      ClientSeqAfterLines(t.nextSeq, lines[1..]);
      var n := if lines[0] == QUIT_LINE then 0 else |Text(lines[0])|;
      TypedAdvance(seqNum, lines[0]);
      ModAdd(seqNum + n, TextSent(lines[1..]));
    }
  }

  lemma TypedAdvance(seqNum: u32, line: seq<byte>)
    ensures ClientTyped(seqNum, line).nextSeq == (seqNum + (if line == QUIT_LINE then 0 else |Text(line)|)) % TWO_32
  {
    if line != QUIT_LINE {
      ModAdd(|Text(line)|, seqNum);
    }
  }

  lemma ModAdd(a: nat, b: nat)
    ensures ((a % TWO_32) + b) % TWO_32 == (a + b) % TWO_32
  {
    var q := a / TWO_32;
    assert a == q * TWO_32 + a % TWO_32;
    assert (a + b) - ((a % TWO_32) + b) == q * TWO_32;
  }

  // ---------------------------------------------------------------------------
  // The client's answer to the server's FIN-ACK (networking/client.c:109-116)
  // ---------------------------------------------------------------------------

  /**
   * Only a datagram whose flags are exactly FIN|ACK closes the client's
   * chat; it is answered with ACK(seq = its ack, ack = its seq + 1).
   */
  function ClientOnHeader(h: Header): (r: Option<seq<byte>>)
    ensures r.Some? <==> h.flags == FIN + ACK
    ensures r.Some? ==> r.value == EncodeHeader(Header(h.ackNum, Add32(h.seqNum, 1), ACK, 0))
  {
    if h.flags == FIN + ACK then Some(EncodeHeader(Header(h.ackNum, Add32(h.seqNum, 1), ACK, 0))) else None
  }

  /** The test is for equality, not for the two bits: FIN|ACK with CHAT also set, or a bare FIN, does not close the chat. */
  lemma ClientNeedsExactFinAck(h: Header)
    requires h.flags == FIN + ACK + CHAT || h.flags == FIN
    ensures Has(h.flags, FIN)
    ensures ClientOnHeader(h).None?
  {
  }

  // ---------------------------------------------------------------------------
  // The server's handling of a datagram (networking/server.c:150-200)
  // ---------------------------------------------------------------------------

  datatype ServerAction =
    | Disconnect
    | SkipHandshakeAck
    | ReplyFin(frame: seq<byte>)
    | Show
    | Ignore

  /**
   * In order: `recvfrom` returning no bytes ends the chat ("Client
   * disconnected."); a bare 12-byte ACK of the server ISN + 1 is the late
   * handshake ACK and is skipped; a datagram with the FIN bit is answered
   * with FIN|ACK(seq = server seq, ack = its seq + 1); a datagram longer
   * than a header is shown; anything else is ignored. `h` is the header
   * `unpack_header` reads from the buffer after the datagram was received.
   */
  function ServerOnDatagram(serverIsn: u32, serverSeq: u32, h: Header, received: nat): (r: ServerAction)
    ensures r.Disconnect? <==> received == 0
    ensures r.SkipHandshakeAck? <==> Has(h.flags, ACK) && h.ackNum == Add32(serverIsn, 1) && received == HEADER_SIZE
    ensures r.ReplyFin? <==> received > 0 && !r.SkipHandshakeAck? && Has(h.flags, FIN)
    ensures r.ReplyFin? ==> r.frame == EncodeHeader(Header(serverSeq, Add32(h.seqNum, 1), FIN + ACK, 0))
    ensures r.Show? <==> !r.SkipHandshakeAck? && !Has(h.flags, FIN) && received > HEADER_SIZE
    ensures r.Ignore? <==> 0 < received <= HEADER_SIZE && !r.SkipHandshakeAck? && !Has(h.flags, FIN)
  {
    if received == 0 then Disconnect
    else if Has(h.flags, ACK) && h.ackNum == Add32(serverIsn, 1) && received == HEADER_SIZE then SkipHandshakeAck
    else if Has(h.flags, FIN) then ReplyFin(EncodeHeader(Header(serverSeq, Add32(h.seqNum, 1), FIN + ACK, 0)))
    else if received > HEADER_SIZE then Show
    else Ignore
  }

  /**
   * After the FIN-ACK the server reads one datagram into the buffer holding
   * the FIN-ACK and logs a final ACK when it has the ACK bit and an ack
   * above the server ISN + 1 (networking/server.c:178-185).
   */
  predicate FinalAckLogged(serverIsn: u32, finAck: seq<byte>, reply: seq<byte>)
    requires |finAck| == HEADER_SIZE
  {
    |reply| > 0 &&
    var h := DecodeHeader(Overwrite(finAck, reply));
    Has(h.flags, ACK) && h.ackNum > Add32(serverIsn, 1)
  }

  /**
   * Closing a chat: the client's "/quit" FIN is answered by the server's
   * FIN-ACK, which the client answers with its final ACK; that ACK
   * acknowledges the server sequence number + 1 and carries the client
   * sequence number + 1, and the server logs it exactly when its sequence
   * number + 1 is above its ISN + 1 as `uint32_t`.
   */
  lemma {:induction false} CloseHandshake(clientSeq: u32, serverIsn: u32, serverSeq: u32)
    ensures var fin := ClientTyped(clientSeq, QUIT_LINE).frame;
      var action := ServerOnDatagram(serverIsn, serverSeq, DecodeHeader(fin), |fin|);
      && action.ReplyFin?
      && var answer := ClientOnHeader(DecodeHeader(action.frame));
      && answer.Some?
      && DecodeHeader(answer.value) == Header(Add32(clientSeq, 1), Add32(serverSeq, 1), ACK, 0)
      && (FinalAckLogged(serverIsn, action.frame, answer.value) <==> Add32(serverSeq, 1) > Add32(serverIsn, 1))
  {
    QuitKeepsSeq(clientSeq);
    var frame := EncodeHeader(Header(serverSeq, Add32(clientSeq, 1), FIN + ACK, 0));
    assert ServerOnDatagram(serverIsn, serverSeq, Header(clientSeq, 0, FIN, 0), HEADER_SIZE) == ReplyFin(frame);
    DecodeEncode(Header(serverSeq, Add32(clientSeq, 1), FIN + ACK, 0));
    var ack := EncodeHeader(Header(Add32(clientSeq, 1), Add32(serverSeq, 1), ACK, 0));
    assert ClientOnHeader(DecodeHeader(frame)) == Some(ack);
    DecodeEncode(Header(Add32(clientSeq, 1), Add32(serverSeq, 1), ACK, 0));
    assert Overwrite(frame, ack) == ack;
  }

  /**
   * With the server's sequence number ISN + 1 + the text it has sent, and
   * no wrap-around, the client's final ACK is always logged.
   */
  lemma CloseAfterServerText(clientSeq: u32, serverIsn: u32, sent: nat)
    requires serverIsn + 2 + sent < TWO_32
    ensures var serverSeq := Add32(serverIsn, 1 + sent);
      var fin := ClientTyped(clientSeq, QUIT_LINE).frame;
      var action := ServerOnDatagram(serverIsn, serverSeq, DecodeHeader(fin), |fin|);
      && action.ReplyFin?
      && var answer := ClientOnHeader(DecodeHeader(action.frame));
      && answer.Some? && FinalAckLogged(serverIsn, action.frame, answer.value)
  {
    CloseHandshake(clientSeq, serverIsn, Add32(serverIsn, 1 + sent));
  }

  // ---------------------------------------------------------------------------
  // Showing a received message (networking/client.c:119-125)
  // ---------------------------------------------------------------------------

  /** `recvfrom` into the MAX_PACKET_SIZE buffer: a longer datagram is cut, and the bytes received are counted. */
  function Receive(buffer: seq<byte>, d: seq<byte>): (r: (seq<byte>, nat))
    ensures |r.0| == |buffer| && r.1 == Min(|d|, |buffer|)
    ensures r.1 <= |buffer| && r.0[..r.1] == d[..r.1]
  {
    (Overwrite(buffer, d), Min(|d|, |buffer|))
  }

  /**
   * The client's terminator, as written: `msg[msg_len] = '\0'` is buffer
   * index `received`, written whenever the message is shown. `None` stands
   * for a write outside the buffer.
   */
  function TerminateAsWritten(buffer: seq<byte>, received: nat): Option<seq<byte>> {
    if received < |buffer| then Some(buffer[received := 0]) else None
  }

  /**
   * A line of 1023 bytes, the longest `fgets` returns into its 1024-byte
   * buffer, is sent as a datagram of MAX_PACKET_SIZE bytes; the client
   * receives it whole and then writes its terminator one byte past the end
   * of its buffer.
   */
  lemma LongestLineOverrunsAsWritten(seqNum: u32, line: seq<byte>, buffer: seq<byte>)
    requires |line| == PAYLOAD_SIZE - 1 && 0 !in line && |buffer| == MAX_PACKET_SIZE
    ensures var f := ServerTyped(seqNum, line).frame;
      && |f| == MAX_PACKET_SIZE
      && Receive(buffer, f).1 == MAX_PACKET_SIZE
      && TerminateAsWritten(Receive(buffer, f).0, Receive(buffer, f).1).None?
  {
    CopyWhole(line, |line|);
  }

  /** The terminator as the server guards it (networking/server.c:191-194): written only inside the buffer. */
  function Terminate(buffer: seq<byte>, received: nat): (r: seq<byte>)
    requires HEADER_SIZE < received <= |buffer|
    ensures |r| == |buffer|
    ensures received < |buffer| ==> r == buffer[received := 0]
    ensures received == |buffer| ==> r == buffer
  {
    if received - HEADER_SIZE < |buffer| - HEADER_SIZE then buffer[received := 0] else buffer
  }

  /** The text `printf("%s")` shows from the message start. */
  function Shown(buffer: seq<byte>): seq<byte>
    requires |buffer| >= HEADER_SIZE
  {
    CopyUntilNul(buffer[HEADER_SIZE..], |buffer| - HEADER_SIZE)
  }

  /** With the guarded terminator, every line the peer can type is shown whole, whatever the buffer held before. */
  lemma LineShown(seqNum: u32, line: seq<byte>, buffer: seq<byte>)
    requires |line| < PAYLOAD_SIZE && |buffer| == MAX_PACKET_SIZE
    ensures var f := ServerTyped(seqNum, line).frame;
      var (b, n) := Receive(buffer, f);
      n == |f| && Shown(Terminate(b, n)) == Text(line)
  {
    var t := Text(line);
    var f := ServerTyped(seqNum, line).frame;
    DataLineShape(seqNum, line);
    var (b, n) := Receive(buffer, f);
    var tb := Terminate(b, n);
    assert tb[..n] == f by {
      assert b[..n] == f;
    }
    assert tb[HEADER_SIZE..] == t + [0] + tb[n..] by {
      assert tb[HEADER_SIZE..n] == f[HEADER_SIZE..];
    }
    CopyTerminated(t, tb[n..], |tb| - HEADER_SIZE);
  }
}

/**
 * How the two peers of a SHAM file transfer fit together: the client's
 * SYN is answered with a SYN-ACK the client accepts, every frame the sender
 * transmits is a faithful piece of the stream the receiver reassembles,
 * the receiver's ACK of the file name is the one the client waits for, and
 * a finished reception holds the file name and the file.
 *
 * The stream the receiver numbers from the client ISN + 1 is the file
 * name, its NUL, and then the file's bytes.
 */
module ShamSession {
  import opened Common
  import opened ShamCodec
  import ShamServer
  import ShamClient
  import ShamChat

  /** The byte stream of a transfer: the file name, its NUL, the file. */
  function Stream(name: seq<byte>, source: seq<byte>): seq<byte> {
    name + [0] + source
  }

  // ---------------------------------------------------------------------------
  // Handshake
  // ---------------------------------------------------------------------------

  /** The client's SYN carries its ISN and asks for chat mode exactly when the client wants it. */
  lemma SynContents(clientIsn: u32, clientChat: bool)
    ensures var syn := DecodeHeader(ShamClient.SynFrame(clientIsn, clientChat));
      && Has(syn.flags, SYN) && !Has(syn.flags, ACK) && syn.seqNum == clientIsn && (Has(syn.flags, CHAT) <==> clientChat)
  {
    DecodeEncode(Header(clientIsn, 0, SYN + (if clientChat then CHAT else 0), 0));
    FlagCombination(true, false, false, clientChat);
  }

  /** The server's SYN-ACK to the client's ISN is accepted, and the client learns the server ISN and the 8192-byte window. */
  lemma SynAckAccepted(clientIsn: u32, serverIsn: u32, clientChat: bool, chat: bool)
    ensures var outcome := ShamClient.Handshake(clientIsn, clientChat, ShamServer.SynAckFrame(serverIsn, clientIsn, chat));
      && outcome.accepted
      && outcome.serverIsn == serverIsn
      && outcome.serverWindow == ShamServer.SERVER_BUFFER_SIZE
      && outcome.ackFrame == EncodeHeader(Header(Add32(clientIsn, 1), Add32(serverIsn, 1), ACK, 0))
  {
    ShamServer.SynAckContents(serverIsn, clientIsn, chat);
  }

  /**
   * The handshake completes: the server answers the client's SYN, in chat
   * mode when either side asked for it; the client accepts the SYN-ACK; and
   * the client's ACK is the one the chat server skips as the late handshake
   * ACK.
   */
  lemma HandshakeCompletes(clientIsn: u32, serverIsn: u32, clientChat: bool, serverChat: bool)
    ensures var chat := serverChat || clientChat;
      var outcome := ShamClient.Handshake(clientIsn, clientChat, ShamServer.SynAckFrame(serverIsn, clientIsn, chat));
      && outcome.accepted && outcome.serverIsn == serverIsn
      && ShamChat.ServerOnDatagram(serverIsn, serverIsn, DecodeHeader(outcome.ackFrame), |outcome.ackFrame|).SkipHandshakeAck?
  {
    var chat := serverChat || clientChat;
    SynAckAccepted(clientIsn, serverIsn, clientChat, chat);
    AckSkipped(clientIsn, serverIsn);
  }

  /** The client's handshake ACK is skipped by the chat server. */
  lemma AckSkipped(clientIsn: u32, serverIsn: u32)
    ensures var f := EncodeHeader(Header(Add32(clientIsn, 1), Add32(serverIsn, 1), ACK, 0));
      ShamChat.ServerOnDatagram(serverIsn, serverIsn, DecodeHeader(f), |f|).SkipHandshakeAck?
  {
    DecodeEncode(Header(Add32(clientIsn, 1), Add32(serverIsn, 1), ACK, 0));
  }

  // ---------------------------------------------------------------------------
  // The frames the client sends are pieces of the stream
  // ---------------------------------------------------------------------------

  /** The file-name frame is the start of the stream. */
  lemma NameFrameHonest(clientIsn: u32, name: seq<byte>, source: seq<byte>)
    requires clientIsn + 1 + |Stream(name, source)| < TWO_32
    ensures var seg := ShamServer.ToSegment(ShamClient.NameFrame(clientIsn + 1, name));
      && seg.seqNum == clientIsn + 1 && !Has(seg.flags, FIN) && !Has(seg.flags, ACK)
      && seg.payload == name + [0]
      && ShamServer.Honest(Stream(name, source), clientIsn + 1, seg)
  {
    DecodeFrame(Header(clientIsn + 1, 0, 0, 0), name + [0]);
    assert Stream(name, source)[0..|name| + 1] == name + [0];
  }

  /** A data frame honest for the sender (file offsets from `start`) is honest for the receiver (stream offsets from ISN + 1). */
  lemma DataFrameHonest(clientIsn: u32, name: seq<byte>, source: seq<byte>, f: seq<byte>)
    requires clientIsn + 1 + |Stream(name, source)| < TWO_32
    requires ShamClient.FrameHonest(f, source, clientIsn + 1 + |name| + 1)
    ensures var seg := ShamServer.ToSegment(f);
      && !Has(seg.flags, FIN) && |seg.payload| > 0
      && ShamServer.Honest(Stream(name, source), clientIsn + 1, seg)
  {
    var start := clientIsn + 1 + |name| + 1;
    var s := DecodeHeader(f).seqNum;
    var n := |f| - HEADER_SIZE;
    DecodeFrame(Header(s, 0, 0, 0), source[s - start..s - start + n]);
    var S := Stream(name, source);
    var off := s - (clientIsn + 1);
    assert S[off..off + n] == source[s - start..s - start + n];
  }

  /** The FIN sent after a finished transfer numbers the end of the stream. */
  lemma FinFrameHonest(clientIsn: u32, name: seq<byte>, source: seq<byte>, st: ShamClient.SenderState)
    requires clientIsn + 1 + |Stream(name, source)| < TWO_32
    requires ShamClient.SenderInv(st, source, clientIsn + 1 + |name| + 1) && ShamClient.Finished(st)
    ensures var seg := ShamServer.ToSegment(ShamClient.FinFrame(st));
      && Has(seg.flags, FIN) && |seg.payload| == 0
      && ShamServer.Honest(Stream(name, source), clientIsn + 1, seg)
  {
    ShamClient.FinAtEnd(st, source, clientIsn + 1 + |name| + 1);
  }

  // ---------------------------------------------------------------------------
  // The file-name exchange between the two peers
  // ---------------------------------------------------------------------------

  /**
   * The receiver takes the first frame as the name and acknowledges
   * ISN + 1 + strlen(name) + 1 with the full window; that reply is the one
   * the client's exchange waits for, so the transfer starts just past the
   * name's NUL.
   */
  lemma NameAckAccepted(clientIsn: u32, name: seq<byte>)
    requires clientIsn + 2 + |name| < TWO_32
    ensures var seg := ShamServer.ToSegment(ShamClient.NameFrame(clientIsn + 1, name));
      var (st, reply) := ShamServer.Step(ShamServer.Initial(clientIsn), seg);
      && st.filenameReceived && st.nameBytes == name + [0] && |st.output| == 0
      && reply == Some(ShamServer.Reply(clientIsn + 2 + |name|, ShamServer.SERVER_BUFFER_SIZE))
      && var w := Datagram(ShamServer.ReplyFrame(reply.value));
      && ShamClient.AckReaches(ShamClient.NameTarget(clientIsn + 1, name), w)
      && ShamClient.AckIn(w.bytes) == clientIsn + 2 + |name|
  {
    NameTaken(clientIsn, name);
    NameReplyReaches(clientIsn, name);
  }

  /** The receiver's first step on the name frame. */
  lemma NameTaken(clientIsn: u32, name: seq<byte>)
    requires clientIsn + 2 + |name| < TWO_32
    ensures var seg := ShamServer.ToSegment(ShamClient.NameFrame(clientIsn + 1, name));
      var (st, reply) := ShamServer.Step(ShamServer.Initial(clientIsn), seg);
      && st.filenameReceived && st.nameBytes == name + [0] && |st.output| == 0
      && reply == Some(ShamServer.Reply(clientIsn + 2 + |name|, ShamServer.SERVER_BUFFER_SIZE))
  {
    DecodeFrame(Header(clientIsn + 1, 0, 0, 0), name + [0]);
  }

  /** The client's name exchange accepts the receiver's reply to the name. */
  lemma NameReplyReaches(clientIsn: u32, name: seq<byte>)
    requires clientIsn + 2 + |name| < TWO_32
    ensures var w := Datagram(ShamServer.ReplyFrame(ShamServer.Reply(clientIsn + 2 + |name|, ShamServer.SERVER_BUFFER_SIZE)));
      && ShamClient.AckReaches(ShamClient.NameTarget(clientIsn + 1, name), w)
      && ShamClient.AckIn(w.bytes) == clientIsn + 2 + |name|
  {
    DecodeEncode(Header(0, clientIsn + 2 + |name|, ACK, ShamServer.SERVER_BUFFER_SIZE));
  }

  // ---------------------------------------------------------------------------
  // A finished reception holds the name and the file
  // ---------------------------------------------------------------------------

  /** Once the name has been taken it is `len` bytes long. */
  ghost predicate NameInv(st: ShamServer.RecvState, len: nat) {
    st.filenameReceived ==> |st.nameBytes| == len
  }

  /** A segment at the first stream position carries the whole name and its NUL, as the client's name frame does. */
  ghost predicate NameSized(seg: ShamServer.Segment, base: u32, len: nat) {
    seg.seqNum == base && !Has(seg.flags, FIN) && |seg.payload| > 0 ==> |seg.payload| == len
  }

  lemma NameInvStep(st: ShamServer.RecvState, seg: ShamServer.Segment, S: seq<byte>, base: u32, len: nat)
    requires ShamServer.StreamInv(st, S, base) && NameInv(st, len) && NameSized(seg, base, len)
    ensures NameInv(ShamServer.Step(st, seg).0, len)
  {
  }

  /**
   * A receiver that has stopped receiving, with every segment so far
   * honest, holds the name and its NUL as its name bytes and exactly the
   * file as its output; the file is opened under the name cut to 255 bytes.
   */
  lemma ReceivedWhole(st: ShamServer.RecvState, clientIsn: u32, name: seq<byte>, source: seq<byte>)
    requires clientIsn + 1 + |Stream(name, source)| < TWO_32
    requires ShamServer.StreamInv(st, Stream(name, source), clientIsn + 1)
    requires NameInv(st, |name| + 1) && !ShamServer.Receiving(st)
    requires 0 !in name
    ensures st.filenameReceived && st.nameBytes == name + [0] && st.output == source
    ensures ShamServer.OutputFilename(st.nameBytes) == name[..Min(|name|, 255)]
  {
    var S := Stream(name, source);
    ShamServer.CompleteDelivery(st, S, clientIsn + 1);
    assert st.nameBytes == S[..|name| + 1];
    assert S[..|name| + 1] == name + [0];
    assert st.output == S[|name| + 1..];
    if |name| <= 255 {
      CopyTerminated(name, [], 255);
      assert name + [0] + [] == name + [0];
    } else {
      CopyPrefix(name + [0], 255);
    }
  }

  /**
   * The corrected client cuts a long name to 1023 bytes. The receiver keeps
   * only the first 255 bytes of a name (networking/server.c:285-286), so it
   * opens the same file as for the whole name, and the name frame always
   * arrives whole.
   */
  lemma FittedNameOpened(clientIsn: u32, name: seq<byte>)
    requires clientIsn + 2 + |ShamClient.FitName(name)| < TWO_32 && 0 !in name
    ensures var f := ShamClient.NameFrame(clientIsn + 1, ShamClient.FitName(name));
      var (st, reply) := ShamServer.Step(ShamServer.Initial(clientIsn), ShamServer.ToSegment(f));
      && |f| <= MAX_PACKET_SIZE
      && st.filenameReceived && ShamServer.OutputFilename(st.nameBytes) == name[..Min(|name|, 255)]
  {
    var n := ShamClient.FitName(name);
    NameTaken(clientIsn, n);
    if |name| <= 255 {
      CopyTerminated(n, [], 255);
      assert n + [0] + [] == n + [0];
    } else {
      assert (n + [0])[..255] == name[..255];
      CopyPrefix(n + [0], 255);
    }
  }

  lemma {:induction false} CopyPrefix(b: seq<byte>, limit: nat)
    requires limit <= |b| && 0 !in b[..limit]
    ensures CopyUntilNul(b, limit) == b[..limit]
  {
    if limit > 0 {
      assert b[1..][..limit - 1] == b[..limit][1..];
      CopyPrefix(b[1..], limit - 1);
    }
  }
}

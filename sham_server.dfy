/**
 * The accepting peer of a SHAM file transfer: the SYN wait, the reassembly
 * receiver (in-order delivery, a sorted out-of-order list drained in
 * cascade, cumulative ACKs whose window shrinks with the backlog) and the
 * FIN-ACK teardown with at most five tries.
 *
 * Each wait of the receive loop is given as its outcome: what `select`
 * and `recvfrom` returned, and whether the simulated-loss filter dropped
 * the datagram. The datagram is read out of the loop's shared buffer, so a
 * datagram shorter than a header is decoded partly from stale bytes.
 */
module ShamServer {
  import opened Common
  import opened ShamCodec

  const SERVER_BUFFER_SIZE: int := 8192

  /** An out-of-order node. The source keeps the whole datagram; its payload length is `len - 12`. */
  datatype Buffered = Buffered(seqNum: u32, payload: seq<byte>)

  /**
   * A received datagram after `unpack_header`: its sequence number, its
   * flags and the bytes after the header. `runt` marks a datagram shorter
   * than a header, whose `payload_len` is negative.
   */
  datatype Segment = Segment(seqNum: u32, flags: u16, payload: seq<byte>, runt: bool)

  /** A whole datagram of at least a header, decoded on its own. */
  function ToSegment(f: seq<byte>): (r: Segment)
    requires |f| >= HEADER_SIZE
    ensures r.payload == f[HEADER_SIZE..] && !r.runt
  {
    var h := DecodeHeader(f);
    Segment(h.seqNum, h.flags, f[HEADER_SIZE..], false)
  }

  /**
   * What the loop decodes after `recvfrom` returned `n` bytes into `buffer`:
   * the header fields come from the buffer's first 12 bytes whatever `n` is,
   * and the payload is the `n - 12` bytes after them.
   */
  function ReadSegment(buffer: seq<byte>, n: nat): (r: Segment)
    requires HEADER_SIZE <= |buffer| && n <= |buffer|
    ensures r.runt <==> n < HEADER_SIZE
    ensures !r.runt ==> r.payload == buffer[HEADER_SIZE..n]
    ensures r.runt ==> |r.payload| == 0
  {
    var h := DecodeHeader(buffer);
    if n < HEADER_SIZE then Segment(h.seqNum, h.flags, [], true)
    else Segment(h.seqNum, h.flags, buffer[HEADER_SIZE..n], false)
  }

  /** The cumulative acknowledgement sent back: `pack_header(buffer, 0, ack, ACK, window)`. */
  datatype Reply = Reply(ackNum: u32, window: u16)

  function ReplyFrame(r: Reply): seq<byte> {
    EncodeHeader(Header(0, r.ackNum, ACK, r.window))
  }

  // ---------------------------------------------------------------------------
  // The out-of-order list
  // ---------------------------------------------------------------------------

  ghost predicate SortedBySeq(l: seq<Buffered>) {
    forall i, j :: 0 <= i < j < |l| ==> l[i].seqNum <= l[j].seqNum
  }

  /** `get_buffer_size`: the payload bytes held in the out-of-order list. */
  function BufferedBytes(l: seq<Buffered>): nat {
    if |l| == 0 then 0 else |l[0].payload| + BufferedBytes(l[1..])
  }

  lemma {:induction false} BufferedBytesAppend(a: seq<Buffered>, b: seq<Buffered>)
    ensures BufferedBytes(a + b) == BufferedBytes(a) + BufferedBytes(b)
  {
    if |a| == 0 {
      assert a + b == b;
    } else {
      assert (a + b)[1..] == a[1..] + b;
      BufferedBytesAppend(a[1..], b);
    }
  }

  /** The walk of `get_buffer_size` down the list. */
  method GetBufferSize(l: seq<Buffered>) returns (size: int)
    ensures size == BufferedBytes(l)
  {
    size := 0;
    var current := l;
    while |current| > 0
      invariant size + BufferedBytes(current) == BufferedBytes(l)
      decreases |current|
    {
      size := size + |current[0].payload|;
      current := current[1..];
    }
  }

  /** The advertised window: 8192 minus the buffered bytes, as the `uint16_t` argument of `pack_header`. */
  function Window(l: seq<Buffered>): u16 {
    ToU16(SERVER_BUFFER_SIZE - BufferedBytes(l))
  }

  lemma WindowBounds(l: seq<Buffered>)
    ensures BufferedBytes(l) <= SERVER_BUFFER_SIZE ==> Window(l) == SERVER_BUFFER_SIZE - BufferedBytes(l)
    ensures SERVER_BUFFER_SIZE < BufferedBytes(l) <= SERVER_BUFFER_SIZE + TWO_16 ==>
              Window(l) == SERVER_BUFFER_SIZE - BufferedBytes(l) + TWO_16
  {
  }

  /** Where the insertion scan `while (curr->next && curr->next->seq_num < seq)` stops. */
  function ScanStop(l: seq<Buffered>, s: u32, curr: nat): (k: nat)
    requires curr < |l|
    ensures curr <= k < |l|
    ensures forall j :: curr < j <= k ==> l[j].seqNum < s
    ensures k + 1 < |l| ==> l[k + 1].seqNum >= s
    decreases |l| - curr
  {
    if curr + 1 < |l| && l[curr + 1].seqNum < s then ScanStop(l, s, curr + 1) else curr
  }

  /**
   * Insertion of an out-of-order segment as the source does it: in front of a
   * larger head, otherwise after the node where the scan stops unless that
   * node has the same sequence number.
   */
  function Insert(l: seq<Buffered>, n: Buffered): seq<Buffered> {
    if |l| == 0 || l[0].seqNum > n.seqNum then
      [n] + l
    else
      var k := ScanStop(l, n.seqNum, 0);
      if l[k].seqNum != n.seqNum then l[..k + 1] + [n] + l[k + 1..] else l
  }

  /** Placing `n` after position `k` keeps a sorted list sorted when `n` fits between `l[k]` and `l[k + 1]`. */
  lemma InsertAfterSorted(l: seq<Buffered>, n: Buffered, k: nat)
    requires k < |l| && SortedBySeq(l)
    requires l[k].seqNum <= n.seqNum && (k + 1 < |l| ==> n.seqNum <= l[k + 1].seqNum)
    ensures SortedBySeq(l[..k + 1] + [n] + l[k + 1..])
  {
    var r := l[..k + 1] + [n] + l[k + 1..];
    assert forall i | 0 <= i <= k :: r[i] == l[i];
    assert r[k + 1] == n;
    assert forall i | k + 1 < i < |r| :: r[i] == l[i - 1];
  }

  /**
   * The insertion either leaves the list alone or adds exactly the new node;
   * on a sorted list it keeps the order and drops the node exactly when the
   * head already has its sequence number: only a duplicate of the head is
   * detected.
   */
  lemma InsertProps(l: seq<Buffered>, n: Buffered)
    ensures Insert(l, n) == l || multiset(Insert(l, n)) == multiset(l) + multiset{n}
    ensures SortedBySeq(l) ==> SortedBySeq(Insert(l, n))
    ensures SortedBySeq(l) ==> (Insert(l, n) == l <==> (|l| > 0 && l[0].seqNum == n.seqNum))
  {
    InsertCount(l, n);
    if SortedBySeq(l) {
      InsertSorted(l, n);
      InsertUnchanged(l, n);
    }
  }

  lemma InsertCount(l: seq<Buffered>, n: Buffered)
    ensures Insert(l, n) == l || multiset(Insert(l, n)) == multiset(l) + multiset{n}
  {
    if |l| == 0 || l[0].seqNum > n.seqNum {
      assert Insert(l, n) == [n] + l;
    } else {
      var k := InsertScan(l, n);
      if l[k].seqNum != n.seqNum {
        assert l == l[..k + 1] + l[k + 1..];
      }
    }
  }

  lemma InsertSorted(l: seq<Buffered>, n: Buffered)
    requires SortedBySeq(l)
    ensures SortedBySeq(Insert(l, n))
  {
    if |l| == 0 || l[0].seqNum > n.seqNum {
      assert Insert(l, n) == [n] + l;
    } else {
      var k := InsertScan(l, n);
      if l[k].seqNum != n.seqNum {
        InsertAfterSorted(l, n, k);
      }
    }
  }

  lemma InsertUnchanged(l: seq<Buffered>, n: Buffered)
    requires SortedBySeq(l)
    ensures Insert(l, n) == l <==> (|l| > 0 && l[0].seqNum == n.seqNum)
  {
    if |l| == 0 || l[0].seqNum > n.seqNum {
      assert |Insert(l, n)| == |l| + 1;
    } else {
      var k := InsertScan(l, n);
      if l[k].seqNum != n.seqNum {
        assert |Insert(l, n)| == |l| + 1;
      }
    }
  }

  /** Where the insertion lands when the head does not go first. */
  lemma InsertScan(l: seq<Buffered>, n: Buffered) returns (k: nat)
    requires |l| > 0 && l[0].seqNum <= n.seqNum
    ensures k < |l| && l[k].seqNum <= n.seqNum && (k + 1 < |l| ==> n.seqNum <= l[k + 1].seqNum)
    ensures l[k].seqNum != n.seqNum ==> Insert(l, n) == l[..k + 1] + [n] + l[k + 1..]
    ensures l[k].seqNum == n.seqNum ==> Insert(l, n) == l
    ensures SortedBySeq(l) && l[k].seqNum == n.seqNum ==> l[0].seqNum == n.seqNum
  {
    k := ScanStop(l, n.seqNum, 0);
    if k > 0 {
      assert l[k].seqNum < n.seqNum;
    }
  }

  /** Every node of the new list was in the old list or is the new node. */
  lemma InsertMembers(l: seq<Buffered>, n: Buffered)
    ensures forall m | m in Insert(l, n) :: m in l || m == n
  {
    InsertProps(l, n);
    var r := Insert(l, n);
    forall m | m in r ensures m in l || m == n {
      if r != l {
        assert m in multiset(l) + multiset{n} by {
          assert m in multiset(r);
        }
      }
    }
  }

  /** A duplicate of a node other than the head is inserted a second time. */
  lemma NonHeadDuplicateKept()
    ensures var l := [Buffered(100, [1]), Buffered(200, [2])];
      Insert(l, Buffered(200, [2])) == [Buffered(100, [1]), Buffered(200, [2]), Buffered(200, [2])]
  {
    var l := [Buffered(100, [1]), Buffered(200, [2])];
    assert ScanStop(l, 200, 0) == 0;
  }

  // ---------------------------------------------------------------------------
  // The reassembly state machine, as a function of the received segment
  // ---------------------------------------------------------------------------

  /**
   * The receive loop's variables: `expected_seq_num`, `filename_received`
   * (with the payload taken as the name), `fin_received`, `fin_seq_num`, the
   * out-of-order list and the bytes written to the output file.
   */
  datatype RecvState = RecvState(
    expected: u32,
    filenameReceived: bool,
    nameBytes: seq<byte>,
    finReceived: bool,
    finSeq: u32,
    buffered: seq<Buffered>,
    output: seq<byte>)

  /** Delivery starts right after the client's ISN. */
  function Initial(clientIsn: u32): RecvState {
    RecvState(Add32(clientIsn, 1), false, [], false, 0, [], [])
  }

  /** Writes `p` to the output file and advances `expected` past it. */
  function Append(st: RecvState, p: seq<byte>): (r: RecvState)
    ensures r.buffered == st.buffered && st.output <= r.output
  {
    st.(output := st.output + p, expected := Add32(st.expected, |p| % TWO_32))
  }

  /** The cascading drain: pop and write the head while it starts at the expected sequence number. */
  function Drain(st: RecvState): (r: RecvState)
    ensures r.filenameReceived == st.filenameReceived && r.nameBytes == st.nameBytes
    ensures r.finReceived == st.finReceived && r.finSeq == st.finSeq
    ensures !(|r.buffered| > 0 && r.buffered[0].seqNum == r.expected)
    ensures st.output <= r.output
    decreases |st.buffered|
  {
    if |st.buffered| > 0 && st.buffered[0].seqNum == st.expected then
      Drain(Append(st, st.buffered[0].payload).(buffered := st.buffered[1..]))
    else
      st
  }

  /** True iff the datagram is a bare acknowledgement (`payload_len == 0`), which gets no reply. */
  predicate IsPureAck(seg: Segment) {
    Has(seg.flags, ACK) && !seg.runt && |seg.payload| == 0
  }

  /** The new state after one accepted datagram has been handled. */
  function Handle(st: RecvState, seg: Segment): RecvState {
    if Has(seg.flags, FIN) then
      if !st.finReceived then st.(finReceived := true, finSeq := seg.seqNum) else st
    else if !seg.runt && |seg.payload| > 0 then
      if seg.seqNum == st.expected then
        var advanced := Add32(st.expected, |seg.payload| % TWO_32);
        if !st.filenameReceived then
          st.(filenameReceived := true, nameBytes := seg.payload, expected := advanced)
        else
          Drain(Append(st, seg.payload))
      else if seg.seqNum > st.expected then
        st.(buffered := Insert(st.buffered, Buffered(seg.seqNum, seg.payload)))
      else
        st
    else
      st
  }

  /**
   * One iteration of the receive loop (networking/server.c:264-339): a bare
   * ACK is dropped without a reply; anything else is handled and answered
   * with the cumulative ACK and the remaining window.
   */
  function Step(st: RecvState, seg: Segment): (r: (RecvState, Option<Reply>))
    ensures r.1.None? <==> IsPureAck(seg)
    ensures r.1.None? ==> r.0 == st
    ensures r.1.Some? ==> r.1.value.ackNum == r.0.expected && r.1.value.window == Window(r.0.buffered)
  {
    if IsPureAck(seg) then (st, None)
    else
      var st' := Handle(st, seg);
      (st', Some(Reply(st'.expected, Window(st'.buffered))))
  }

  /** The loop condition `!fin_received || expected_seq_num < fin_seq_num`. */
  predicate Receiving(st: RecvState) {
    !st.finReceived || st.expected < st.finSeq
  }

  /** The name opened for writing: the first payload up to its NUL, cut to the 255 bytes `output_filename` can hold. */
  function OutputFilename(nameBytes: seq<byte>): seq<byte> {
    CopyUntilNul(nameBytes, 255)
  }

  // ---------------------------------------------------------------------------
  // Properties of one step
  // ---------------------------------------------------------------------------

  /** A FIN never writes payload and never moves `expected`; only the first FIN records `fin_seq`. */
  lemma FinLatch(st: RecvState, seg: Segment)
    requires Has(seg.flags, FIN) && !IsPureAck(seg)
    ensures var st' := Step(st, seg).0;
      && st'.output == st.output && st'.expected == st.expected && st'.buffered == st.buffered
      && st'.finReceived
      && st'.finSeq == (if st.finReceived then st.finSeq else seg.seqNum)
  {
  }

  /** A data segment with a sequence number below `expected` changes nothing but is still acknowledged. */
  lemma StaleSegmentAcked(st: RecvState, seg: Segment)
    requires !Has(seg.flags, FIN) && !seg.runt && |seg.payload| > 0 && seg.seqNum < st.expected
    ensures Step(st, seg) == (st, Some(Reply(st.expected, Window(st.buffered))))
  {
  }

  /**
   * A datagram shorter than a header and without FIN changes nothing and is
   * acknowledged, even when its flags carry ACK: its `payload_len` is
   * negative, so it is neither a bare ACK nor data.
   */
  lemma RuntAcked(st: RecvState, seg: Segment)
    requires seg.runt && !Has(seg.flags, FIN)
    ensures Step(st, seg) == (st, Some(Reply(st.expected, Window(st.buffered))))
  {
  }

  /** The first in-order payload is the file name: it is not written out, and `expected` advances past it. */
  lemma FirstPayloadIsName(st: RecvState, seg: Segment)
    requires !st.filenameReceived && !Has(seg.flags, FIN) && !seg.runt && |seg.payload| > 0 && seg.seqNum == st.expected
    requires |seg.payload| < TWO_32
    ensures var st' := Handle(st, seg);
      && st'.filenameReceived && st'.nameBytes == seg.payload
      && st'.output == st.output && st'.buffered == st.buffered
      && st'.expected == Add32(st.expected, |seg.payload|)
  {
  }

  /** A segment ahead of `expected` is buffered, keeping the list sorted; a duplicate of the head is dropped. */
  lemma AheadSegmentBuffered(st: RecvState, seg: Segment)
    requires !Has(seg.flags, FIN) && !seg.runt && |seg.payload| > 0 && seg.seqNum > st.expected
    requires SortedBySeq(st.buffered)
    ensures var st' := Handle(st, seg);
      && st'.expected == st.expected && st'.output == st.output
      && SortedBySeq(st'.buffered)
      && (st'.buffered == st.buffered <==> (|st.buffered| > 0 && st.buffered[0].seqNum == seg.seqNum))
      && (st'.buffered != st.buffered ==>
            multiset(st'.buffered) == multiset(st.buffered) + multiset{Buffered(seg.seqNum, seg.payload)})
  {
    InsertProps(st.buffered, Buffered(seg.seqNum, seg.payload));
  }

  lemma {:induction false} DrainKeepsSorted(st: RecvState)
    requires SortedBySeq(st.buffered)
    ensures SortedBySeq(Drain(st).buffered)
    decreases |st.buffered|
  {
    if |st.buffered| > 0 && st.buffered[0].seqNum == st.expected {
      DrainKeepsSorted(Append(st, st.buffered[0].payload).(buffered := st.buffered[1..]));
    }
  }

  /** Every step keeps the out-of-order list sorted by sequence number. */
  lemma StepKeepsSorted(st: RecvState, seg: Segment)
    requires SortedBySeq(st.buffered)
    ensures SortedBySeq(Step(st, seg).0.buffered)
  {
    if !IsPureAck(seg) && !Has(seg.flags, FIN) && !seg.runt && |seg.payload| > 0 && seg.seqNum == st.expected && st.filenameReceived {
      DrainKeepsSorted(Append(st, seg.payload));
    } else if !IsPureAck(seg) && !Has(seg.flags, FIN) && !seg.runt && |seg.payload| > 0 && seg.seqNum > st.expected {
      InsertProps(st.buffered, Buffered(seg.seqNum, seg.payload));
    }
  }

  // ---------------------------------------------------------------------------
  // Reassembly of an honest stream
  // ---------------------------------------------------------------------------

  /**
   * The logical stream `S` the client numbers from `base` (its ISN + 1): the
   * file-name frame's bytes followed by the file. A segment is honest when
   * its payload is the slice of `S` its sequence number names and a FIN
   * carries the end of the stream; retransmissions, duplicates and any
   * reordering are honest.
   */
  ghost predicate Honest(S: seq<byte>, base: u32, seg: Segment) {
    && (Has(seg.flags, FIN) ==> seg.seqNum == base + |S|)
    && (!Has(seg.flags, FIN) && |seg.payload| > 0 ==>
          base <= seg.seqNum && seg.seqNum - base + |seg.payload| <= |S|
          && seg.payload == S[seg.seqNum - base..seg.seqNum - base + |seg.payload|])
  }

  ghost predicate NodeHonest(S: seq<byte>, base: u32, n: Buffered) {
    base <= n.seqNum && n.seqNum - base + |n.payload| <= |S|
    && n.payload == S[n.seqNum - base..n.seqNum - base + |n.payload|]
  }

  /**
   * What the receiver knows of `S`: the name and the written output are
   * exactly the first `expected - base` bytes, every buffered node holds
   * the bytes of `S` at its sequence number, and a recorded FIN marks the
   * end of `S`.
   */
  ghost predicate StreamInv(st: RecvState, S: seq<byte>, base: u32) {
    && base + |S| < TWO_32
    && base <= st.expected <= base + |S|
    && (st.filenameReceived ==> st.nameBytes + st.output == S[..st.expected - base])
    && (!st.filenameReceived ==> st.expected == base && |st.output| == 0 && |st.nameBytes| == 0)
    && (st.finReceived ==> st.finSeq == base + |S|)
    && SortedBySeq(st.buffered)
    && (forall n | n in st.buffered :: NodeHonest(S, base, n))
  }

  lemma InitialInv(clientIsn: u32, S: seq<byte>)
    requires clientIsn + 1 + |S| < TWO_32
    ensures StreamInv(Initial(clientIsn), S, clientIsn + 1)
  {
  }

  lemma ExtendPrefix(S: seq<byte>, k: nat, p: seq<byte>)
    requires k + |p| <= |S| && p == S[k..k + |p|]
    ensures S[..k] + p == S[..k + |p|]
  {
  }

  /** Writing the bytes of `S` that start at `expected` keeps the invariant. */
  lemma AppendInv(st: RecvState, p: seq<byte>, S: seq<byte>, base: u32)
    requires StreamInv(st, S, base) && st.filenameReceived
    requires st.expected - base + |p| <= |S| && p == S[st.expected - base..st.expected - base + |p|]
    ensures StreamInv(Append(st, p), S, base)
  {
    ExtendPrefix(S, st.expected - base, p);
  }

  lemma {:induction false} DrainInv(st: RecvState, S: seq<byte>, base: u32)
    requires StreamInv(st, S, base) && st.filenameReceived
    ensures StreamInv(Drain(st), S, base)
    decreases |st.buffered|
  {
    if |st.buffered| > 0 && st.buffered[0].seqNum == st.expected {
      var head := st.buffered[0];
      assert NodeHonest(S, base, head);
      AppendInv(st, head.payload, S, base);
      var next := Append(st, head.payload).(buffered := st.buffered[1..]);
      assert forall n | n in next.buffered :: n in st.buffered;
      DrainInv(next, S, base);
    }
  }

  lemma InOrderInv(st: RecvState, seg: Segment, S: seq<byte>, base: u32)
    requires StreamInv(st, S, base) && Honest(S, base, seg)
    requires !Has(seg.flags, FIN) && !seg.runt && |seg.payload| > 0 && seg.seqNum == st.expected
    ensures StreamInv(Handle(st, seg), S, base)
  {
    if !st.filenameReceived {
      assert S[..|seg.payload|] == seg.payload;
    } else {
      AppendInv(st, seg.payload, S, base);
      DrainInv(Append(st, seg.payload), S, base);
    }
  }

  lemma AheadInv(st: RecvState, seg: Segment, S: seq<byte>, base: u32)
    requires StreamInv(st, S, base) && Honest(S, base, seg)
    requires !Has(seg.flags, FIN) && !seg.runt && |seg.payload| > 0 && seg.seqNum > st.expected
    ensures StreamInv(Handle(st, seg), S, base)
  {
    var n := Buffered(seg.seqNum, seg.payload);
    InsertProps(st.buffered, n);
    InsertMembers(st.buffered, n);
    assert NodeHonest(S, base, n);
  }

  /** Every honest segment keeps the stream invariant: the output is always the contiguous stream in sequence order. */
  lemma StepInv(st: RecvState, seg: Segment, S: seq<byte>, base: u32)
    requires StreamInv(st, S, base) && Honest(S, base, seg)
    ensures StreamInv(Step(st, seg).0, S, base)
    ensures st.output <= Step(st, seg).0.output
  {
    if IsPureAck(seg) || Has(seg.flags, FIN) || seg.runt || |seg.payload| == 0 {
    } else if seg.seqNum == st.expected {
      InOrderInv(st, seg, S, base);
    } else if seg.seqNum > st.expected {
      AheadInv(st, seg, S, base);
    }
  }

  /**
   * When the loop condition fails under the stream invariant, the name and
   * the output together are the whole stream.
   */
  lemma CompleteDelivery(st: RecvState, S: seq<byte>, base: u32)
    requires StreamInv(st, S, base) && !Receiving(st)
    ensures st.expected == base + |S|
    ensures st.filenameReceived ==> st.nameBytes + st.output == S
    ensures !st.filenameReceived ==> |S| == 0
  {
    if st.filenameReceived {
      assert S[..|S|] == S;
    }
  }

  /**
   * Segments arriving at expected+2, expected+1 and expected (one byte each)
   * are written in sequence order, not in arrival order.
   */
  lemma CascadingDrainExample(e: u32, a: byte, b: byte, c: byte)
    requires e + 3 < TWO_32
    ensures var st0 := RecvState(e, true, [9], false, 0, [], []);
      var st1 := Handle(st0, Segment(e + 2, 0, [c], false));
      var st2 := Handle(st1, Segment(e + 1, 0, [b], false));
      var st3 := Handle(st2, Segment(e, 0, [a], false));
      && |st1.output| == 0 && |st2.output| == 0
      && st3.output == [a, b, c] && st3.expected == e + 3 && |st3.buffered| == 0
  {
    var st0 := RecvState(e, true, [9], false, 0, [], []);
    var st1 := Handle(st0, Segment(e + 2, 0, [c], false));
    assert st1.buffered == [Buffered(e + 2, [c])];
    var st2 := Handle(st1, Segment(e + 1, 0, [b], false));
    assert st2.buffered == [Buffered(e + 1, [b]), Buffered(e + 2, [c])];
    var mid := Append(st2, [a]);
    assert mid.expected == e + 1 && mid.output == [a];
    var mid2 := Append(mid, [b]).(buffered := [Buffered(e + 2, [c])]);
    assert mid2.expected == e + 2 && mid2.output == [a, b];
    var mid3 := Append(mid2, [c]).(buffered := []);
    assert mid3.expected == e + 3 && mid3.output == [a, b, c];
    assert Drain(mid3) == mid3;
    assert Drain(mid) == Drain(mid2);
  }

  // ---------------------------------------------------------------------------
  // The receiver object
  // ---------------------------------------------------------------------------

  /** The receive loop's variables, updated in place by each datagram. */
  class Receiver {
    var expected: u32
    var filenameReceived: bool
    var nameBytes: seq<byte>
    var finReceived: bool
    var finSeq: u32
    var buffered: seq<Buffered>
    var output: seq<byte>

    function State(): RecvState
      reads this
    {
      RecvState(expected, filenameReceived, nameBytes, finReceived, finSeq, buffered, output)
    }

    /** Entering file mode after the SYN whose sequence number was `clientIsn` (networking/server.c:226-232). */
    constructor (clientIsn: u32)
      ensures State() == Initial(clientIsn)
    {
      expected := Add32(clientIsn, 1);
      filenameReceived := false;
      nameBytes := [];
      finReceived := false;
      finSeq := 0;
      buffered := [];
      output := [];
    }

    /** The drain loop of networking/server.c:301-309. */
    method DrainBuffered()
      modifies this
      ensures State() == Drain(old(State()))
    {
      while |buffered| > 0 && buffered[0].seqNum == expected
        invariant Drain(State()) == Drain(old(State()))
        decreases |buffered|
      {
        ghost var before := State();
        output := output + buffered[0].payload;
        expected := Add32(expected, |buffered[0].payload| % TWO_32);
        buffered := buffered[1..];
        assert State() == Append(before, before.buffered[0].payload).(buffered := before.buffered[1..]);
      }
    }

    /** The sorted insertion of networking/server.c:311-332. */
    method InsertBuffered(node: Buffered)
      modifies this
      ensures State() == old(State()).(buffered := Insert(old(buffered), node))
    {
      if |buffered| == 0 || buffered[0].seqNum > node.seqNum {
        buffered := [node] + buffered;
      } else {
        var curr := 0;
        while curr + 1 < |buffered| && buffered[curr + 1].seqNum < node.seqNum
          invariant 0 <= curr < |buffered|
          invariant ScanStop(buffered, node.seqNum, curr) == ScanStop(buffered, node.seqNum, 0)
          decreases |buffered| - curr
        {
          curr := curr + 1;
        }
        if buffered[curr].seqNum != node.seqNum {
          buffered := buffered[..curr + 1] + [node] + buffered[curr + 1..];
        }
      }
    }

    /** Handles one datagram and returns the ACK to send, if any. */
    method OnSegment(seg: Segment) returns (reply: Option<Reply>)
      modifies this
      ensures (State(), reply) == Step(old(State()), seg)
    {
      if Has(seg.flags, ACK) && !seg.runt && |seg.payload| == 0 {
        return None;
      }
      if Has(seg.flags, FIN) {
        if !finReceived {
          finReceived := true;
          finSeq := seg.seqNum;
        }
      } else if !seg.runt && |seg.payload| > 0 {
        if seg.seqNum == expected {
          if !filenameReceived {
            nameBytes := seg.payload;
            filenameReceived := true;
            expected := Add32(expected, |seg.payload| % TWO_32);
          } else {
            output := output + seg.payload;
            expected := Add32(expected, |seg.payload| % TWO_32);
            DrainBuffered();
          }
        } else if seg.seqNum > expected {
          InsertBuffered(Buffered(seg.seqNum, seg.payload));
        }
      }
      assert State() == Handle(old(State()), seg);
      var size := GetBufferSize(buffered);
      reply := Some(Reply(expected, ToU16(SERVER_BUFFER_SIZE - size)));
    }
  }

  // ---------------------------------------------------------------------------
  // The file-mode receive loop over the shared buffer
  // ---------------------------------------------------------------------------

  /**
   * One wait of the loop: what `select` and `recvfrom` returned, and
   * whether the simulated-loss filter (`rand() / RAND_MAX < loss_rate`)
   * dropped the datagram after it had been received into the buffer.
   */
  datatype Arrival = Arrival(wait: WaitResult, dropped: bool)

  datatype LoopOutcome =
    | Complete          // the loop condition became false
    | TimedOutAfterFin  // no datagram within 2 s after the FIN: TERMINATION_ERROR
    | Aborted           // select failed: "select error"
    | Pending           // the waits given ran out while the loop still runs

  /** One round: the new state and buffer, the ACKs sent, and the outcome if the loop breaks. */
  datatype RoundResult = RoundResult(state: RecvState, buffer: seq<byte>, replies: seq<Reply>, stop: Option<LoopOutcome>)

  /** A prefix of the loop: the final state and buffer, the ACKs sent, the waits consumed, how it ended. */
  datatype RunResult = RunResult(state: RecvState, buffer: seq<byte>, replies: seq<Reply>, used: nat, outcome: LoopOutcome)

  /**
   * One iteration of networking/server.c:234-339 on the buffer `buffer`:
   * a failed select breaks the loop, a timeout breaks it only after the FIN,
   * an empty read and a dropped datagram continue (the dropped one has
   * already overwritten the buffer); any other datagram is decoded from the
   * buffer, handled, and answered by packing the ACK over the buffer's
   * first 12 bytes.
   */
  function Round(st: RecvState, buffer: seq<byte>, a: Arrival): (r: RoundResult)
    requires |buffer| == MAX_PACKET_SIZE
    ensures |r.buffer| == MAX_PACKET_SIZE
    ensures r.stop == Some(Aborted) <==> a.wait.SelectFailed?
    ensures r.stop == Some(TimedOutAfterFin) <==> a.wait.TimedOut? && st.finReceived
    ensures r.stop.Some? ==> r.state == st && r.buffer == buffer && |r.replies| == 0
    ensures |r.replies| <= 1
  {
    if a.wait.SelectFailed? then RoundResult(st, buffer, [], Some(Aborted))
    else if a.wait.TimedOut? then
      if st.finReceived then RoundResult(st, buffer, [], Some(TimedOutAfterFin)) else RoundResult(st, buffer, [], None)
    else if !Received(a.wait) then RoundResult(st, buffer, [], None)
    else
      var b := Overwrite(buffer, a.wait.bytes);
      if a.dropped then RoundResult(st, b, [], None)
      else
        var (st', reply) := Step(st, ReadSegment(b, Min(|a.wait.bytes|, |b|)));
        if reply.None? then RoundResult(st', b, [], None)
        else RoundResult(st', Overwrite(b, ReplyFrame(reply.value)), [reply.value], None)
  }

  /** The loop run over the waits `arrivals`, from the state `st` and the buffer `buffer`. */
  function Run(st: RecvState, buffer: seq<byte>, arrivals: seq<Arrival>): (r: RunResult)
    requires |buffer| == MAX_PACKET_SIZE
    ensures |r.buffer| == MAX_PACKET_SIZE && r.used <= |arrivals|
    ensures r.outcome == Complete <==> !Receiving(r.state)
    ensures r.outcome == Pending ==> r.used == |arrivals|
    decreases |arrivals|
  {
    if !Receiving(st) then RunResult(st, buffer, [], 0, Complete)
    else if |arrivals| == 0 then RunResult(st, buffer, [], 0, Pending)
    else
      var rd := Round(st, buffer, arrivals[0]);
      if rd.stop.Some? then RunResult(rd.state, rd.buffer, rd.replies, 1, rd.stop.value)
      else Shift(Run(rd.state, rd.buffer, arrivals[1..]), rd.replies, 1)
  }

  /** A run preceded by `n` waits that sent `replies`. */
  function Shift(r: RunResult, replies: seq<Reply>, n: nat): RunResult {
    r.(replies := replies + r.replies, used := n + r.used)
  }

  /** The first round of a run that has not stopped, in terms of `Round`. */
  lemma RunFirst(st: RecvState, buffer: seq<byte>, arrivals: seq<Arrival>, rd: RoundResult)
    requires |buffer| == MAX_PACKET_SIZE && Receiving(st) && |arrivals| > 0
    requires rd == Round(st, buffer, arrivals[0])
    ensures rd.stop.Some? ==> Run(st, buffer, arrivals) == RunResult(rd.state, rd.buffer, rd.replies, 1, rd.stop.value)
    ensures rd.stop.None? ==> Run(st, buffer, arrivals) == Shift(Run(rd.state, rd.buffer, arrivals[1..]), rd.replies, 1)
  {
  }

  /** Taking one more round of the loop out of the part still to run. */
  lemma LoopStep(st0: RecvState, b0: seq<byte>, arrivals: seq<Arrival>, used: nat, replies: seq<Reply>,
                 st: RecvState, b: seq<byte>, rd: RoundResult)
    requires |b0| == MAX_PACKET_SIZE && |b| == MAX_PACKET_SIZE && used < |arrivals| && Receiving(st)
    requires Run(st0, b0, arrivals) == Shift(Run(st, b, arrivals[used..]), replies, used)
    requires rd == Round(st, b, arrivals[used])
    ensures rd.stop.None? ==> Run(st0, b0, arrivals) == Shift(Run(rd.state, rd.buffer, arrivals[used + 1..]), replies + rd.replies, used + 1)
    ensures rd.stop.Some? ==> Run(st0, b0, arrivals) == RunResult(rd.state, rd.buffer, replies + rd.replies, used + 1, rd.stop.value)
  {
    var rest := arrivals[used..];
    assert rest[0] == arrivals[used] && rest[1..] == arrivals[used + 1..];
    RunFirst(st, b, rest, rd);
    if rd.stop.None? {
      var x := Run(rd.state, rd.buffer, arrivals[used + 1..]);
      assert replies + (rd.replies + x.replies) == (replies + rd.replies) + x.replies;
    }
  }

  /** The loop's exit without a break: nothing is left to run. */
  lemma LoopExit(st: RecvState, b: seq<byte>, arrivals: seq<Arrival>, used: nat)
    requires |b| == MAX_PACKET_SIZE && used <= |arrivals| && (used == |arrivals| || !Receiving(st))
    ensures Run(st, b, arrivals[used..]) == RunResult(st, b, [], 0, if Receiving(st) then Pending else Complete)
  {
  }

  /**
   * A run that breaks ends right after the wait that broke it: `Aborted`
   * after a failed select, `TimedOutAfterFin` after a timeout once the FIN
   * has been recorded.
   */
  lemma {:induction false} RunBreaks(st: RecvState, buffer: seq<byte>, arrivals: seq<Arrival>)
    requires |buffer| == MAX_PACKET_SIZE
    ensures var r := Run(st, buffer, arrivals);
      r.outcome == Aborted ==> 0 < r.used && arrivals[r.used - 1].wait.SelectFailed?
    ensures var r := Run(st, buffer, arrivals);
      r.outcome == TimedOutAfterFin ==> 0 < r.used && arrivals[r.used - 1].wait.TimedOut? && r.state.finReceived
    decreases |arrivals|
  {
    if Receiving(st) && |arrivals| > 0 {
      var rd := Round(st, buffer, arrivals[0]);
      RunFirst(st, buffer, arrivals, rd);
      if rd.stop.None? {
        RunBreaks(rd.state, rd.buffer, arrivals[1..]);
        var rest := Run(rd.state, rd.buffer, arrivals[1..]);
        if rest.outcome == Aborted || rest.outcome == TimedOutAfterFin {
          assert arrivals[1..][rest.used - 1] == arrivals[rest.used];
        }
      }
    }
  }

  /** Every wait honest: a datagram that is not dropped is a whole frame that fits the buffer and is honest for `S`. */
  ghost predicate ArrivalsHonest(S: seq<byte>, base: u32, arrivals: seq<Arrival>) {
    forall i | 0 <= i < |arrivals| :: ArrivalHonest(S, base, arrivals[i])
  }

  ghost predicate ArrivalHonest(S: seq<byte>, base: u32, a: Arrival) {
    Received(a.wait) && !a.dropped ==>
      HEADER_SIZE <= |a.wait.bytes| <= MAX_PACKET_SIZE && Honest(S, base, ToSegment(a.wait.bytes))
  }

  lemma HonestTail(S: seq<byte>, base: u32, arrivals: seq<Arrival>)
    requires |arrivals| > 0 && ArrivalsHonest(S, base, arrivals)
    ensures ArrivalHonest(S, base, arrivals[0]) && ArrivalsHonest(S, base, arrivals[1..])
  {
    assert forall i | 0 <= i < |arrivals[1..]| :: arrivals[1..][i] == arrivals[i + 1];
  }

  /** A whole datagram read out of the shared buffer is decoded as it would be on its own. */
  lemma WholeDatagramRead(buffer: seq<byte>, d: seq<byte>)
    requires HEADER_SIZE <= |d| <= |buffer|
    ensures ReadSegment(Overwrite(buffer, d), |d|) == ToSegment(d)
  {
    var b := Overwrite(buffer, d);
    assert b[..|d|] == d;
    DecodeLocality(b, d);
    assert b[0..4] == d[0..4] && b[4..8] == d[4..8] && b[8..10] == d[8..10];
  }

  /**
   * A datagram of at most 8 bytes is a runt whose flags are the stale bytes
   * 8..9 of the buffer; after an ACK has been packed there, it reads as an
   * ACK-flagged runt and is acknowledged again.
   */
  lemma ShortDatagramRead(buffer: seq<byte>, d: seq<byte>)
    requires |buffer| == MAX_PACKET_SIZE && 0 < |d| <= 8
    ensures var seg := ReadSegment(Overwrite(buffer, d), |d|);
      seg.runt && |seg.payload| == 0 && seg.flags == DecodeHeader(buffer).flags
  {
    var b := Overwrite(buffer, d);
    assert b[8..10] == buffer[8..10];
    DecodeLocality(b, buffer);
  }

  /** A short datagram received right after an ACK was sent is answered with the same ACK, whatever its bytes. */
  lemma ShortDatagramAfterReplyAcked(st: RecvState, buffer: seq<byte>, rep: Reply, d: seq<byte>)
    requires |buffer| == MAX_PACKET_SIZE && 0 < |d| <= 8
    ensures var a := Arrival(Datagram(d), false);
      var rd := Round(st, Overwrite(buffer, ReplyFrame(rep)), a);
      rd.state == st && rd.replies == [Reply(st.expected, Window(st.buffered))]
  {
    var b := Overwrite(buffer, ReplyFrame(rep));
    assert b[..HEADER_SIZE] == ReplyFrame(rep);
    DecodeLocality(b, ReplyFrame(rep));
    DecodeEncode(Header(0, rep.ackNum, ACK, rep.window));
    ShortDatagramRead(b, d);
    FlagCombination(false, true, false, false);
    RuntAcked(st, ReadSegment(Overwrite(b, d), |d|));
  }

  /** The segment a round hands to `Step`, for a wait that reaches it. */
  lemma RoundStep(st: RecvState, buffer: seq<byte>, a: Arrival)
    requires |buffer| == MAX_PACKET_SIZE && Received(a.wait) && !a.dropped
    requires HEADER_SIZE <= |a.wait.bytes| <= MAX_PACKET_SIZE
    ensures Round(st, buffer, a).state == Step(st, ToSegment(a.wait.bytes)).0
  {
    WholeDatagramRead(buffer, a.wait.bytes);
  }

  /** A round that changes the state is one that hands a datagram to `Step`. */
  lemma RoundIdle(st: RecvState, buffer: seq<byte>, a: Arrival)
    requires |buffer| == MAX_PACKET_SIZE && !(Received(a.wait) && !a.dropped)
    ensures Round(st, buffer, a).state == st
  {
  }

  /** One round keeps the stream invariant for honest input, the output only grows and `expected` never moves back. */
  lemma RoundInv(st: RecvState, buffer: seq<byte>, a: Arrival, S: seq<byte>, base: u32)
    requires |buffer| == MAX_PACKET_SIZE && StreamInv(st, S, base) && ArrivalHonest(S, base, a)
    ensures StreamInv(Round(st, buffer, a).state, S, base)
    ensures st.output <= Round(st, buffer, a).state.output
    ensures st.expected <= Round(st, buffer, a).state.expected
  {
    if Received(a.wait) && !a.dropped {
      RoundStep(st, buffer, a);
      StepInv(st, ToSegment(a.wait.bytes), S, base);
      StepAdvances(st, ToSegment(a.wait.bytes), S, base);
    } else {
      RoundIdle(st, buffer, a);
    }
  }

  /**
   * Honest waits keep the stream invariant over the whole run, the output
   * only grows and `expected` never moves back.
   */
  lemma {:induction false} RunInv(st: RecvState, buffer: seq<byte>, arrivals: seq<Arrival>, S: seq<byte>, base: u32)
    requires |buffer| == MAX_PACKET_SIZE && StreamInv(st, S, base) && ArrivalsHonest(S, base, arrivals)
    ensures StreamInv(Run(st, buffer, arrivals).state, S, base)
    ensures st.output <= Run(st, buffer, arrivals).state.output
    ensures st.expected <= Run(st, buffer, arrivals).state.expected
    decreases |arrivals|
  {
    if Receiving(st) && |arrivals| > 0 {
      HonestTail(S, base, arrivals);
      var rd := Round(st, buffer, arrivals[0]);
      RoundInv(st, buffer, arrivals[0], S, base);
      RunFirst(st, buffer, arrivals, rd);
      if rd.stop.None? {
        RunInv(rd.state, rd.buffer, arrivals[1..], S, base);
        PrefixTrans(st.output, rd.state.output, Run(rd.state, rd.buffer, arrivals[1..]).state.output);
      }
    }
  }

  /** A run on honest waits that completes holds the whole stream as the name followed by the output. */
  lemma RunDelivers(st: RecvState, buffer: seq<byte>, arrivals: seq<Arrival>, S: seq<byte>, base: u32)
    requires |buffer| == MAX_PACKET_SIZE && StreamInv(st, S, base) && ArrivalsHonest(S, base, arrivals)
    ensures var r := Run(st, buffer, arrivals);
      r.outcome == Complete ==>
        && (r.state.filenameReceived ==> r.state.nameBytes + r.state.output == S)
        && (!r.state.filenameReceived ==> |S| == 0)
  {
    RunInv(st, buffer, arrivals, S, base);
    var r := Run(st, buffer, arrivals);
    if r.outcome == Complete {
      CompleteDelivery(r.state, S, base);
    }
  }

  /** A round that sends nothing leaves the state alone; one that sends an ACK sends the new state's ACK and window. */
  lemma RoundAcks(st: RecvState, buffer: seq<byte>, a: Arrival)
    requires |buffer| == MAX_PACKET_SIZE
    ensures var rd := Round(st, buffer, a);
      && (|rd.replies| == 0 ==> rd.state == st)
      && (|rd.replies| == 1 ==> rd.replies[0] == Reply(rd.state.expected, Window(rd.state.buffered)))
  {
  }

  /**
   * Every change of state is acknowledged: a run that sends no ACK ends in
   * the state it started from, and the last ACK it sends carries the final
   * `expected` and window.
   */
  lemma {:induction false} RunAcksLast(st: RecvState, buffer: seq<byte>, arrivals: seq<Arrival>)
    requires |buffer| == MAX_PACKET_SIZE
    ensures var r := Run(st, buffer, arrivals);
      && (|r.replies| == 0 ==> r.state == st)
      && (|r.replies| > 0 ==> r.replies[|r.replies| - 1] == Reply(r.state.expected, Window(r.state.buffered)))
    decreases |arrivals|
  {
    if Receiving(st) && |arrivals| > 0 {
      var rd := Round(st, buffer, arrivals[0]);
      RoundAcks(st, buffer, arrivals[0]);
      RunFirst(st, buffer, arrivals, rd);
      if rd.stop.None? {
        RunAcksLast(rd.state, rd.buffer, arrivals[1..]);
        var rest := Run(rd.state, rd.buffer, arrivals[1..]);
        var rs := rd.replies + rest.replies;
        if |rest.replies| > 0 {
          assert rs[|rs| - 1] == rest.replies[|rest.replies| - 1];
        } else {
          assert rs == rd.replies && rest.state == rd.state;
        }
      }
    }
  }

  /** On honest input `expected` never moves back. */
  lemma StepAdvances(st: RecvState, seg: Segment, S: seq<byte>, base: u32)
    requires StreamInv(st, S, base) && Honest(S, base, seg)
    ensures st.expected <= Step(st, seg).0.expected
  {
    StepInv(st, seg, S, base);
    var st' := Step(st, seg).0;
    if st.filenameReceived {
      assert st'.nameBytes == st.nameBytes;
      assert |st.nameBytes + st.output| == st.expected - base;
      assert |st'.nameBytes + st'.output| == st'.expected - base;
    }
  }

  /** Every ACK in `rs` lies in `lo..hi`. */
  ghost predicate AcksWithin(rs: seq<Reply>, lo: int, hi: int) {
    forall i | 0 <= i < |rs| :: lo <= rs[i].ackNum <= hi
  }

  /** The ACKs in `rs` never decrease. */
  ghost predicate AcksSorted(rs: seq<Reply>) {
    forall i, j | 0 <= i < j < |rs| :: rs[i].ackNum <= rs[j].ackNum
  }

  /** At most one ACK of `mid`, followed by ACKs from `mid` to `hi`. */
  lemma AcksJoin(first: seq<Reply>, rest: seq<Reply>, lo: int, mid: int, hi: int)
    requires |first| <= 1 && (|first| == 1 ==> first[0].ackNum == mid) && lo <= mid
    requires AcksWithin(rest, mid, hi) && AcksSorted(rest) && mid <= hi
    ensures AcksWithin(first + rest, lo, hi) && AcksSorted(first + rest)
  {
    var rs := first + rest;
    if |first| == 1 {
      assert forall j | 1 <= j < |rs| :: rs[j] == rest[j - 1];
    } else {
      assert rs == rest;
    }
  }

  /**
   * On honest input the cumulative ACKs a run sends never decrease, and
   * every one lies between the `expected` it started from and the one it
   * ends with.
   */
  lemma {:induction false} RunAcksGrow(st: RecvState, buffer: seq<byte>, arrivals: seq<Arrival>, S: seq<byte>, base: u32)
    requires |buffer| == MAX_PACKET_SIZE && StreamInv(st, S, base) && ArrivalsHonest(S, base, arrivals)
    ensures var r := Run(st, buffer, arrivals);
      AcksWithin(r.replies, st.expected, r.state.expected) && AcksSorted(r.replies)
    decreases |arrivals|
  {
    if Receiving(st) && |arrivals| > 0 {
      HonestTail(S, base, arrivals);
      var rd := Round(st, buffer, arrivals[0]);
      RoundInv(st, buffer, arrivals[0], S, base);
      RoundAcks(st, buffer, arrivals[0]);
      RunFirst(st, buffer, arrivals, rd);
      if rd.stop.None? {
        RunAcksGrow(rd.state, rd.buffer, arrivals[1..], S, base);
        RunInv(rd.state, rd.buffer, arrivals[1..], S, base);
        var rest := Run(rd.state, rd.buffer, arrivals[1..]);
        AcksJoin(rd.replies, rest.replies, st.expected, rd.state.expected, rest.state.expected);
      } else {
        AcksJoin(rd.replies, [], st.expected, rd.state.expected, rd.state.expected);
      }
    }
  }

  /** One round of the loop on the receiver and the shared buffer. */
  method ReceiveRound(r: Receiver, buffer: seq<byte>, a: Arrival)
      returns (next: seq<byte>, replies: seq<Reply>, stop: Option<LoopOutcome>)
    requires |buffer| == MAX_PACKET_SIZE
    modifies r
    ensures RoundResult(r.State(), next, replies, stop) == Round(old(r.State()), buffer, a)
  {
    next, replies, stop := buffer, [], None;
    if a.wait.SelectFailed? {
      stop := Some(Aborted);
      return;
    }
    if a.wait.TimedOut? {
      if r.finReceived {
        stop := Some(TimedOutAfterFin);
      }
      return;
    }
    if !Received(a.wait) {
      return;
    }
    next := Overwrite(buffer, a.wait.bytes);
    if a.dropped {
      return;
    }
    var seg := ReadSegment(next, Min(|a.wait.bytes|, |next|));
    var reply := r.OnSegment(seg);
    if reply.Some? {
      next := Overwrite(next, ReplyFrame(reply.value));
      replies := [reply.value];
    }
  }

  /**
   * The file-mode receive loop (networking/server.c:234-340) on the
   * receiver and the shared buffer, over the given waits: it does what
   * `Run` describes, so for honest waits it keeps the stream invariant and,
   * on completion, holds the name and the whole file.
   */
  method ReceiveFile(r: Receiver, buffer0: seq<byte>, arrivals: seq<Arrival>, ghost S: seq<byte>, ghost base: u32)
      returns (replies: seq<Reply>, buffer: seq<byte>, used: nat, outcome: LoopOutcome)
    requires |buffer0| == MAX_PACKET_SIZE
    modifies r
    ensures RunResult(r.State(), buffer, replies, used, outcome) == Run(old(r.State()), buffer0, arrivals)
    ensures StreamInv(old(r.State()), S, base) && ArrivalsHonest(S, base, arrivals) ==>
              && StreamInv(r.State(), S, base)
              && old(r.State()).output <= r.State().output
              && (outcome == Complete && r.State().filenameReceived ==> r.State().nameBytes + r.State().output == S)
              && (outcome == Complete && !r.State().filenameReceived ==> |S| == 0)
  {
    ghost var st0 := r.State();
    replies, buffer, used := [], buffer0, 0;
    var stop: Option<LoopOutcome> := None;
    while stop.None? && used < |arrivals| && Receiving(r.State())
      invariant used <= |arrivals| && |buffer| == MAX_PACKET_SIZE
      invariant stop.None? ==> Run(st0, buffer0, arrivals) == Shift(Run(r.State(), buffer, arrivals[used..]), replies, used)
      invariant stop.Some? ==> Run(st0, buffer0, arrivals) == RunResult(r.State(), buffer, replies, used, stop.value)
      decreases |arrivals| - used, if stop.None? then 1 else 0
    {
      ghost var before, b := r.State(), buffer;
      var more;
      buffer, more, stop := ReceiveRound(r, buffer, arrivals[used]);
      LoopStep(st0, buffer0, arrivals, used, replies, before, b, RoundResult(r.State(), buffer, more, stop));
      replies := replies + more;
      used := used + 1;
    }
    if stop.None? {
      LoopExit(r.State(), buffer, arrivals, used);
    }
    outcome := if stop.Some? then stop.value else if Receiving(r.State()) then Pending else Complete;
    if StreamInv(st0, S, base) && ArrivalsHonest(S, base, arrivals) {
      RunInv(st0, buffer0, arrivals, S, base);
      RunDelivers(st0, buffer0, arrivals, S, base);
    }
  }

  lemma PrefixTrans(a: seq<byte>, b: seq<byte>, c: seq<byte>)
    requires a <= b && b <= c
    ensures a <= c
  {
    assert c[..|a|] == b[..|a|];
  }

  // ---------------------------------------------------------------------------
  // Handshake
  // ---------------------------------------------------------------------------

  /** The SYN-ACK: own ISN, ack = client seq + 1, SYN|ACK (|CHAT), window 8192. */
  function SynAckFrame(serverIsn: u32, clientSeq: u32, chat: bool): seq<byte> {
    EncodeHeader(Header(serverIsn, Add32(clientSeq, 1), SYN + ACK + (if chat then CHAT else 0), SERVER_BUFFER_SIZE))
  }

  /**
   * The handshake wait (networking/server.c:103-127): datagrams without SYN
   * are ignored; the first SYN is answered once. `serverIsn` stands for
   * `rand()`, `chatFlag` for the `--chat` argument.
   */
  method AwaitSyn(datagrams: seq<Header>, serverIsn: u32, chatFlag: bool)
      returns (found: Option<nat>, synAck: seq<byte>, chat: bool)
    ensures found.None? ==> forall i | 0 <= i < |datagrams| :: !Has(datagrams[i].flags, SYN)
    ensures found.Some? ==>
      && found.value < |datagrams| && Has(datagrams[found.value].flags, SYN)
      && (forall i | 0 <= i < found.value :: !Has(datagrams[i].flags, SYN))
      && chat == (chatFlag || Has(datagrams[found.value].flags, CHAT))
      && synAck == SynAckFrame(serverIsn, datagrams[found.value].seqNum, chat)
  {
    var i := 0;
    chat := chatFlag;
    synAck := [];
    while i < |datagrams|
      invariant 0 <= i <= |datagrams|
      invariant forall j | 0 <= j < i :: !Has(datagrams[j].flags, SYN)
    {
      if Has(datagrams[i].flags, SYN) {
        if Has(datagrams[i].flags, CHAT) {
          chat := true;
        }
        synAck := SynAckFrame(serverIsn, datagrams[i].seqNum, chat);
        found := Some(i);
        return;
      }
      i := i + 1;
    }
    found := None;
  }

  /** The decoded SYN-ACK carries SYN and ACK, CHAT exactly when chat was selected, and acknowledges the client's ISN. */
  lemma SynAckContents(serverIsn: u32, clientSeq: u32, chat: bool)
    ensures var h := DecodeHeader(SynAckFrame(serverIsn, clientSeq, chat));
      && Has(h.flags, SYN) && Has(h.flags, ACK) && !Has(h.flags, FIN) && (Has(h.flags, CHAT) <==> chat)
      && h.seqNum == serverIsn && h.ackNum == Add32(clientSeq, 1) && h.window == SERVER_BUFFER_SIZE
  {
    DecodeEncode(Header(serverIsn, Add32(clientSeq, 1), SYN + ACK + (if chat then CHAT else 0), SERVER_BUFFER_SIZE));
  }

  // ---------------------------------------------------------------------------
  // Teardown: the FIN-ACK with at most five tries
  // ---------------------------------------------------------------------------

  const TEARDOWN_TRIES: int := 5

  function FinAckFrame(serverIsn: u32, finSeq: u32): (r: seq<byte>)
    ensures |r| == HEADER_SIZE
  {
    EncodeHeader(Header(Add32(serverIsn, 1), Add32(finSeq, 1), FIN + ACK, 0))
  }

  /** The final ACK the server waits for acknowledges its FIN: ack == server ISN + 2. */
  predicate IsFinalAck(buffer: seq<byte>, serverIsn: u32)
    requires |buffer| == HEADER_SIZE
  {
    var h := DecodeHeader(buffer);
    Has(h.flags, ACK) && h.ackNum == Add32(Add32(serverIsn, 1), 1)
  }

  /** Whether the datagram read after try `k` is the final ACK, as the source reads it into the shared buffer. */
  predicate ConfirmsAsWritten(serverIsn: u32, first: seq<byte>, waits: seq<WaitResult>, k: nat)
    requires |first| == HEADER_SIZE
  {
    var w := WaitAt(waits, k);
    Received(w) && IsFinalAck(AfterWait(Resent(first, waits, k), w), serverIsn)
  }

  /** Whether try `k` ends the loop: the select failed, or the final ACK arrived. */
  predicate EndsAsWritten(serverIsn: u32, first: seq<byte>, waits: seq<WaitResult>, k: nat)
    requires |first| == HEADER_SIZE
  {
    WaitAt(waits, k).SelectFailed? || ConfirmsAsWritten(serverIsn, first, waits, k)
  }

  /** One wait of the as-written loop: a datagram lands in the shared buffer, which is then tested for the final ACK. */
  method ReadIntoBuffer(buffer: seq<byte>, w: WaitResult, serverIsn: u32) returns (next: seq<byte>, final: bool)
    requires |buffer| == HEADER_SIZE
    ensures next == AfterWait(buffer, w)
    ensures final <==> (Received(w) && IsFinalAck(next, serverIsn))
  {
    next := buffer;
    final := false;
    if Received(w) {
      next := Overwrite(buffer, w.bytes);
      final := IsFinalAck(next, serverIsn);
    }
  }

  /**
   * The FIN-ACK loop as written (networking/server.c:350-383):
   * `retries = 5; while (retries-- > 0) { sendto(buffer) ... recvfrom(buffer) }`,
   * with the error logged only when `retries < 0` afterwards.
   */
  method FinAckTeardownAsWritten(serverIsn: u32, finSeq: u32, waits: seq<WaitResult>)
      returns (sent: seq<seq<byte>>, confirmed: bool, errorLogged: bool)
    ensures 1 <= |sent| <= TEARDOWN_TRIES
    ensures forall k | 0 <= k < |sent| :: sent[k] == Resent(FinAckFrame(serverIsn, finSeq), waits, k)
    ensures forall k | 0 <= k < |sent| - 1 :: !EndsAsWritten(serverIsn, FinAckFrame(serverIsn, finSeq), waits, k)
    ensures |sent| < TEARDOWN_TRIES ==> EndsAsWritten(serverIsn, FinAckFrame(serverIsn, finSeq), waits, |sent| - 1)
    ensures confirmed <==> ConfirmsAsWritten(serverIsn, FinAckFrame(serverIsn, finSeq), waits, |sent| - 1)
    ensures errorLogged <==> (|sent| == TEARDOWN_TRIES && !EndsAsWritten(serverIsn, FinAckFrame(serverIsn, finSeq), waits, TEARDOWN_TRIES - 1))
  {
    var buffer := FinAckFrame(serverIsn, finSeq);
    ghost var first := buffer;
    var retries := TEARDOWN_TRIES;
    sent := [];
    confirmed := false;
    while true
      invariant -1 <= retries <= TEARDOWN_TRIES
      invariant retries >= 0 ==> |sent| == TEARDOWN_TRIES - retries
      invariant retries == -1 ==> |sent| == TEARDOWN_TRIES
      invariant buffer == Resent(first, waits, |sent|)
      invariant sent == ResentTrace(first, waits, |sent|)
      invariant forall k | 0 <= k < |sent| :: !EndsAsWritten(serverIsn, first, waits, k)
      invariant !confirmed
      decreases retries + 1
    {
      var go := retries > 0;
      retries := retries - 1;
      if !go {
        assert !EndsAsWritten(serverIsn, first, waits, |sent| - 1);
        break;
      }
      var k := |sent|;
      sent := sent + [buffer];
      var w := WaitAt(waits, k);
      var final;
      buffer, final := ReadIntoBuffer(buffer, w, serverIsn);
      assert buffer == Resent(first, waits, k + 1);
      if final || w.SelectFailed? {
        confirmed := final;
        break;
      }
    }
    errorLogged := retries < 0;
    ResentTraceAt(first, waits, |sent|);
  }

  /**
   * Any datagram `h` that is not the final ACK lands in the shared buffer,
   * so the next "FIN-ACK" sent is a copy of `h` rather than the FIN-ACK.
   */
  lemma ResentFinAckIsOverwritten(serverIsn: u32, finSeq: u32, h: Header)
    requires h.flags != FIN + ACK
    requires !Has(h.flags, ACK) || h.ackNum != Add32(Add32(serverIsn, 1), 1)
    ensures var first := FinAckFrame(serverIsn, finSeq);
      var ws := [Datagram(EncodeHeader(h))];
      && !EndsAsWritten(serverIsn, first, ws, 0)
      && Resent(first, ws, 1) == EncodeHeader(h)
      && Resent(first, ws, 1) != first
  {
    var d := EncodeHeader(h);
    var first := FinAckFrame(serverIsn, finSeq);
    var ws := [Datagram(d)];
    assert Resent(first, ws, 0) == first;
    assert WaitAt(ws, 0) == Datagram(d) && Received(Datagram(d));
    assert Resent(first, ws, 1) == Overwrite(first, d) == d;
    DecodeEncode(h);
    DecodeEncode(Header(Add32(serverIsn, 1), Add32(finSeq, 1), FIN + ACK, 0));
  }

  /** The reply, read into a buffer of its own, is a whole header carrying the final ACK. */
  predicate Confirms(serverIsn: u32, w: WaitResult) {
    Received(w) && |w.bytes| >= HEADER_SIZE && IsFinalAck(w.bytes[..HEADER_SIZE], serverIsn)
  }

  /** The try ends the corrected loop: the select failed, or the datagram received is the final ACK. */
  predicate Ends(serverIsn: u32, waits: seq<WaitResult>, k: nat) {
    var w := WaitAt(waits, k);
    w.SelectFailed? || Confirms(serverIsn, w)
  }

  /**
   * The teardown as evidently intended: the reply is read into a buffer of
   * its own, so every try sends the FIN-ACK `ack = fin_seq + 1`; at most five
   * tries, stopping at the final ACK, the error logged only when all five are
   * used up.
   */
  method FinAckTeardown(serverIsn: u32, finSeq: u32, waits: seq<WaitResult>)
      returns (sent: seq<seq<byte>>, confirmed: bool, errorLogged: bool)
    ensures 1 <= |sent| <= TEARDOWN_TRIES
    ensures forall k | 0 <= k < |sent| :: sent[k] == FinAckFrame(serverIsn, finSeq)
    ensures forall k | 0 <= k < |sent| - 1 :: !Ends(serverIsn, waits, k)
    ensures |sent| < TEARDOWN_TRIES ==> Ends(serverIsn, waits, |sent| - 1)
    ensures confirmed <==> Confirms(serverIsn, WaitAt(waits, |sent| - 1))
    ensures errorLogged <==> (|sent| == TEARDOWN_TRIES && !Ends(serverIsn, waits, TEARDOWN_TRIES - 1))
  {
    var frame := FinAckFrame(serverIsn, finSeq);
    var retries := TEARDOWN_TRIES;
    sent := [];
    confirmed := false;
    while true
      invariant -1 <= retries <= TEARDOWN_TRIES
      invariant retries >= 0 ==> |sent| == TEARDOWN_TRIES - retries
      invariant retries == -1 ==> |sent| == TEARDOWN_TRIES
      invariant forall k | 0 <= k < |sent| :: sent[k] == frame
      invariant forall k | 0 <= k < |sent| :: !Ends(serverIsn, waits, k)
      invariant !confirmed
      decreases retries + 1
    {
      var go := retries > 0;
      retries := retries - 1;
      if !go {
        assert !Ends(serverIsn, waits, |sent| - 1);
        break;
      }
      sent := sent + [frame];
      var w := WaitAt(waits, |sent| - 1);
      if Received(w) && |w.bytes| >= HEADER_SIZE {
        if IsFinalAck(w.bytes[..HEADER_SIZE], serverIsn) {
          confirmed := true;
          break;
        }
      } else if w.SelectFailed? {
        break;
      }
    }
    errorLogged := retries < 0;
  }
}

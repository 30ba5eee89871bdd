# SHAM transport and shell core, modelled in Dafny

This project models two parts of one C repository and proves properties
of the model.

**SHAM** is a reliable transport over UDP datagrams. Its frames carry a
12-byte big-endian header: sequence number, acknowledgement number, flags
(SYN=1, ACK=2, FIN=4, CHAT=8) and window. The model covers the following.

- The header codec: `pack_header` and `unpack_header`.
- The accepting peer (server):
  - the SYN wait;
  - the file-mode reassembly receiver. It takes the first payload as the
    file name, writes in-order data, keeps a sorted out-of-order list that
    is drained in cascade, and answers with a cumulative ACK. The ACK's
    window is 8192 minus the buffered bytes;
  - the FIN-ACK teardown, with at most five tries.
- The initiating peer (client):
  - the SYN-ACK check;
  - the file-name exchange;
  - the ten-slot sliding window: fill, cumulative-ACK release and timeout
    retransmission;
  - the FIN sent at the end.
- Chat mode's sequence-number and flag bookkeeping on both sides.
- Cross-peer lemmas (module `ShamSession`):
  - the handshake completes;
  - every frame the sender transmits is a faithful piece of the stream
    the receiver reassembles;
  - the receiver's ACK of the name is the one the client waits for;
  - a finished reception holds exactly the name and the file.

**The shell** contributes these parts:

- the tokenizer and the recursive-descent syntax validator;
- the command history and the `log` intrinsic, including the rewrite of
  `log execute <n>`;
- the `;`/`&` splitter;
- the argument and redirection extraction of `dispatch_command`, and the
  routing in `execute_cmd`;
- the 64-slot job table;
- the `reveal` intrinsic's argument parsing, filtering, ordering and
  output format;
- the prompt's `~` abbreviation.

Modelling choices:

- **Integers.**
  - `uint32_t`, `uint16_t` and bytes are `int` subtypes (`u32`, `u16`,
    `byte`).
  - C's wrap-around is written out. `Add32` and `Sub32` reduce modulo
    2^32, and `ToU16` is the conversion of an `int` argument to
    `uint16_t`.
  - Comparisons of sequence numbers are plain `<`/`>` on `u32`, which is
    C's unsigned comparison.
  - The stream invariants of the receiver and the sender assume the
    stream does not wrap: `ISN + 1 + |stream| < 2^32`.
- **Form of the model.** Each stateful routine is modelled twice:
  - a specification function on values (`Step`, `FillStep`, `AckStep`,
    `RetransmitStep`, `Added`, `LogStep`, `AddStep`, …);
  - a class or method that does the work with loops and fields in place
    (`Receiver`, `Sender`, `History`, `JobTable`, `Tokenize`,
    `ParseShellCmd`, …). Its `ensures` ties it to the specification
    function, and the properties are lemmas about that function.
- **Parameters standing for I/O and the environment.**
  - Each wait is a `WaitResult`, the outcome of `select` and `recvfrom`.
    In the file-mode receive loop it also says whether the simulated-loss
    filter dropped the datagram (`Arrival`). Received bytes go through
    the loop's shared 1036-byte buffer, whose contents at the start of the
    loop are a parameter.
  - The clock is a microsecond count given by the caller.
  - `rand()` ISNs are parameters.
  - The input file is a byte sequence read in 1024-byte chunks.
  - The directory tree for `reveal` is a map from path to the names
    `readdir` returns.
  - `get_home_dir`/`get_prev_dir` are parameters.
  - `fork` is the child's pid plus whether the foreground child stopped.
  - The user name, host name and working directory are `Option`s, with
    `None` for a failed lookup.
- **C library functions.**
  - `strtol(s, &end, 10)` is modelled fully: leading whitespace, a sign,
    decimal digits, and saturation at the 64-bit `long` bounds.
  - `atoi` is the same parse narrowed to a 32-bit `int` modulo 2^32.
  - `strtok(…, " \t\n")` is the list of maximal runs of non-delimiters.
  - `strcmp` is compared character by character. This equals byte order
    for the UTF-8 encoding.
- **`qsort`.** Its algorithm is replaced by an insertion sort, `Sort`.
  `SortedUnique` proves that any two sorted orderings of the same names
  are equal, so the listing `qsort` produces under a total order is the
  one modelled.

Behaviour of the source that the model keeps as written:

- **Out-of-order list (`ShamServer.Insert`).**
  - The insertion at networking/server.c:318-332 compares the new node
    with the head and with the node where the scan stops, never with the
    node after it. So only a duplicate of the head is dropped, and a
    duplicate of a later node is inserted a second time
    (`NonHeadDuplicateKept`).
  - This does not corrupt the output: `StepInv` holds for every honest
    segment.
- **Resent frames.** The file-name exchange (networking/client.c:165-190)
  and the FIN-ACK loop (networking/server.c:350-383) pack their frame
  once and then `recvfrom` each reply into the same buffer. A retry
  therefore sends whatever the last reply left there. Both are under
  "## Findings".
- **Short datagrams.** The receive loop decodes the header from the
  buffer's first 12 bytes whatever `recvfrom` returned
  (networking/server.c:253-267). A datagram of fewer than 12 bytes is
  read partly from stale bytes. Its `payload_len` is negative, so it is
  neither a bare ACK nor data, and it is acknowledged
  (`RuntAcked`, `ShortDatagramAfterReplyAcked`).
- **Dangling redirection.** A redirection without a file name, as in
  `ls >`, passes the validator (`DanglingRedirectAccepted`).
- **Unreachable branch.** The
  trailing `&` branch at shell/src/flow/execution.c:27-33 cannot run,
  because `strpbrk` would have found the `&` (`LastPieceForeground`).

## Model

| member | source | states |
|---|---|---|
| Common.Add32 | networking/server.c:121 | `uint32_t` addition: the exact sum below 2^32, otherwise the sum minus 2^32 |
| Common.Sub32 | networking/client.c:195 | `uint32_t` subtraction: the exact difference when it is not negative, otherwise the difference plus 2^32 |
| Common.ToU16 | networking/server.c:336 | passing an `int` as a `uint16_t` argument keeps values in 0..65535 and adds 2^16 to small negative values |
| ShamCodec.PackHeader | networking/sham-utils.c:96-110 | the first 12 buffer bytes become the header's encoding and every byte from offset 12 on is unchanged |
| ShamCodec.UnpackHeader | networking/sham-utils.c:113-136 | a field is produced exactly when its out-pointer is non-NULL, and each one is the big-endian value of its own byte range |
| ShamCodec.Be16RoundTrip | networking/sham-utils.c:101-102 | `ntohs(htons(x)) == x` |
| ShamCodec.Be32RoundTrip | networking/sham-utils.c:99-100 | `ntohl(htonl(x)) == x` |
| ShamCodec.FromBe16RoundTrip | networking/sham-utils.c:131-136 | any two wire bytes decode to a value whose encoding is those bytes |
| ShamCodec.FromBe32RoundTrip | networking/sham-utils.c:125-130 | any four wire bytes decode to a value whose encoding is those bytes |
| ShamCodec.DecodeEncode | networking/sham-utils.c:96-136 | unpacking what was packed yields exactly the four fields |
| ShamCodec.DecodeFrame | networking/sham-utils.c:113-136 | a frame with any payload after the header decodes to the header it was built with |
| ShamCodec.EncodeDecode | networking/sham-utils.c:113-136 | re-packing the decoded fields reproduces the original 12 header bytes |
| ShamCodec.EncodeLayout | networking/sham-utils.c:99-109 | seq in bytes 0..3, ack in 4..7, flags in 8..9, window in 10..11, each most significant byte first |
| ShamCodec.DecodeLocality | networking/sham-utils.c:118-136 | each decoded field depends only on its own byte range |
| ShamCodec.FlagCombination | networking/sham.h:22-25 | the four flags are distinct single bits: an OR of any subset tests as containing exactly the chosen flags |
| ShamCodec.FlagsSurviveEncoding | networking/sham-utils.c:101 | a flag word such as FIN\|ACK survives encoding, and each bit tests as it was set |
| ShamCodec.Frame | networking/client.c:167-168 | a frame is 12 header bytes followed by the payload unchanged |
| ShamCodec.CopyUntilNul | networking/server.c:285-286 | `strncpy` into a buffer with a forced last NUL keeps a NUL-free prefix of at most `limit` bytes, stopped by the first NUL |
| ShamCodec.CopyTerminated | networking/server.c:285-286 | a NUL-terminated text that fits reads back as exactly that text, whatever follows it |
| ShamCodec.CopyWhole | networking/server.c:285-286 | a NUL-free text within the limit is copied whole |
| ShamCodec.Overwrite | networking/server.c:365 | `recvfrom` into a buffer keeps its size, and a datagram at least as long as the buffer replaces all of it |
| ShamCodec.ResentTraceAt | networking/server.c:353-366 | the trace of a resend loop lists, for each try, the shared buffer as the previous waits left it |
| ShamCodec.ResentWithoutReplies | networking/server.c:353-378 | when no datagram is received, every try transmits the frame packed before the loop |
| ShamServer.GetBufferSize | networking/server.c:15-23 | the list walk returns the total payload bytes of the buffered nodes |
| ShamServer.BufferedBytesAppend | networking/server.c:15-23 | the buffered byte count of two lists together is the sum of their counts |
| ShamServer.WindowBounds | networking/server.c:336 | the advertised window is 8192 minus the buffered bytes, and wraps modulo 2^16 when the backlog exceeds 8192 |
| ShamServer.ScanStop | networking/server.c:322-325 | the insertion scan stops at the last node before the first later node whose seq is not below the new one |
| ShamServer.InsertAfterSorted | networking/server.c:326-328 | splicing a node in between neighbours it fits keeps the list sorted |
| ShamServer.InsertProps | networking/server.c:318-332 | insertion adds exactly the new node or nothing; it keeps a sorted list sorted; it drops the node exactly when the head has the same seq |
| ShamServer.InsertCount | networking/server.c:318-332 | the new list is the old one, or the old one plus exactly the new node as a multiset |
| ShamServer.InsertSorted | networking/server.c:318-332 | a sorted list stays sorted by seq |
| ShamServer.InsertUnchanged | networking/server.c:318-332 | on a sorted list, nothing is inserted exactly when the head already has that seq |
| ShamServer.InsertScan | networking/server.c:321-331 | locates the node the scan stops at and says which splice happens there |
| ShamServer.InsertMembers | networking/server.c:313-332 | every node of the new list was in the old list or is the new node |
| ShamServer.NonHeadDuplicateKept | networking/server.c:318-332 | a duplicate of a non-head node is inserted a second time (the source as written) |
| ShamServer.Append | networking/server.c:298-299 | writing a payload extends the output and leaves the out-of-order list alone |
| ShamServer.Drain | networking/server.c:301-309 | the drain stops only when the head does not start at `expected`; the output only grows, and the name and FIN fields are unchanged |
| ShamServer.Step | networking/server.c:264-339 | a bare ACK gets no reply and changes nothing; every other datagram is answered with ack = new `expected` and window = 8192 − buffered bytes |
| ShamServer.ToSegment | networking/server.c:264-267 | a whole datagram decodes to its header fields and exactly the bytes after the 12-byte header |
| ShamServer.ReadSegment | networking/server.c:264-267 | the fields come from the buffer's first 12 bytes; a read of fewer than 12 bytes is a runt with no payload; otherwise the payload is the bytes 12..n |
| ShamServer.Insert | networking/server.c:313-332 | insertion before a larger head, otherwise after the scan stop unless that node has the same seq; its properties are `InsertProps`, `InsertMembers` and `NonHeadDuplicateKept` |
| ShamServer.Handle | networking/server.c:274-332 | FIN latches only the first `fin_seq`; data at `expected` becomes the name or is written and drained; data ahead is buffered; anything else changes nothing; its properties are `FinLatch`, `FirstPayloadIsName`, `AheadSegmentBuffered`, `StaleSegmentAcked`, `RuntAcked` and `StepInv` |
| ShamServer.Window | networking/server.c:336 | 8192 minus the buffered bytes, converted to `uint16_t`; bounds in `WindowBounds` |
| ShamServer.ReplyFrame | networking/server.c:336-337 | the ACK header (0, ack, ACK, window); the client reads its ack back in `NameReplyReaches` |
| ShamServer.FinLatch | networking/server.c:274-279 | a FIN writes nothing and moves nothing; only the first FIN records `fin_seq` |
| ShamServer.StaleSegmentAcked | networking/server.c:269-339 | a data segment (whatever its flags other than FIN) below `expected` changes no state but is still acknowledged with the current ack and window |
| ShamServer.RuntAcked | networking/server.c:266-269 | a datagram shorter than a header and without FIN changes nothing and is acknowledged, even with ACK set |
| ShamServer.FirstPayloadIsName | networking/server.c:283-296 | the first in-order payload becomes the name, is not written out, and advances `expected` by its length |
| ShamServer.AheadSegmentBuffered | networking/server.c:311-332 | data ahead of `expected` is buffered in sorted order, or dropped as a head duplicate; output and `expected` stay |
| ShamServer.DrainKeepsSorted | networking/server.c:301-309 | the drain keeps the list sorted |
| ShamServer.StepKeepsSorted | networking/server.c:264-339 | every datagram keeps the out-of-order list sorted by seq |
| ShamServer.InitialInv | networking/server.c:226-232 | the initial state (`expected` = ISN + 1, nothing received) satisfies the stream invariant |
| ShamServer.AppendInv | networking/server.c:298-299 | writing the stream's bytes at `expected` keeps the invariant |
| ShamServer.DrainInv | networking/server.c:301-309 | the cascading drain writes only the stream's next bytes, so it keeps the invariant |
| ShamServer.InOrderInv | networking/server.c:283-310 | in-order data, name or file bytes, keeps the invariant |
| ShamServer.AheadInv | networking/server.c:311-332 | buffering an honest ahead-of-order segment keeps the invariant |
| ShamServer.StepInv | networking/server.c:264-339 | for any honest datagram (duplicates, retransmissions and reordering included), output stays the contiguous prefix of the stream and only grows |
| ShamServer.CompleteDelivery | networking/server.c:234 | when the loop condition fails under the invariant, the name followed by the output is the whole stream |
| ShamServer.CascadingDrainExample | networking/server.c:301-309 | bytes arriving at e+2, e+1, e are written in sequence order, not arrival order |
| ShamServer.Receiver.constructor | networking/server.c:226-232 | the receive loop's variables start at `expected` = ISN + 1, no name, no FIN, empty list and output |
| ShamServer.Receiver.DrainBuffered | networking/server.c:301-309 | the in-place drain loop leaves the state `Drain` describes |
| ShamServer.Receiver.InsertBuffered | networking/server.c:313-332 | the in-place splice leaves the list `Insert` describes |
| ShamServer.Receiver.OnSegment | networking/server.c:264-339 | the new state and the reply are those of `Step` |
| ShamServer.Round | networking/server.c:234-339 | a failed select breaks with `Aborted`; a timeout breaks only after the FIN; a round that breaks changes nothing and sends nothing; at most one ACK per round |
| ShamServer.Run | networking/server.c:234-340 | the run ends `Complete` exactly when the loop condition fails, and `Pending` only when the waits ran out; it never uses more waits than given |
| ShamServer.RunBreaks | networking/server.c:241-251 | a run ends `Aborted` right after a failed select, and `TimedOutAfterFin` right after a timeout with the FIN recorded |
| ShamServer.WholeDatagramRead | networking/server.c:253-267 | a whole datagram read into the shared buffer decodes as it would on its own |
| ShamServer.ShortDatagramRead | networking/server.c:253-267 | a datagram of at most 8 bytes is a runt whose flags are the stale bytes 8..9 of the buffer |
| ShamServer.ShortDatagramAfterReplyAcked | networking/server.c:266-269 | right after an ACK was packed into the buffer, any datagram of at most 8 bytes is answered with the current ACK and changes nothing |
| ShamServer.RoundInv | networking/server.c:253-339 | one round on an honest wait keeps the stream invariant; the output only grows and `expected` never moves back |
| ShamServer.RunInv | networking/server.c:234-340 | honest waits keep the stream invariant over the whole run; the output only grows and `expected` never moves back |
| ShamServer.RunDelivers | networking/server.c:234-340 | a run on honest waits that completes holds the name followed by the output as the whole stream |
| ShamServer.RoundAcks | networking/server.c:336-337 | a round sending no ACK leaves the state alone; one sending an ACK sends the new `expected` and window |
| ShamServer.RoundStep | networking/server.c:253-339 | a whole datagram that is not dropped moves the state as `Step` on the datagram decoded on its own |
| ShamServer.RoundIdle | networking/server.c:241-262 | a round without a kept datagram (select error, timeout, empty read, loss) leaves the state alone |
| ShamServer.RunAcksLast | networking/server.c:234-340 | a run that sends no ACK ends in the state it started from; its last ACK carries the final `expected` and window |
| ShamServer.StepAdvances | networking/server.c:264-339 | on honest input `expected` never moves back |
| ShamServer.RunAcksGrow | networking/server.c:234-340 | on honest input the ACKs a run sends never decrease, and each lies between the starting and the final `expected` |
| ShamServer.ReceiveRound | networking/server.c:234-339 | one round on the receiver and the shared buffer leaves the state, buffer, ACKs and outcome of `Round` |
| ShamServer.ReceiveFile | networking/server.c:234-340 | the loop on the receiver and the shared buffer does exactly what `Run` describes: same final state, buffer, ACKs sent, waits used and outcome; for honest waits it keeps the stream invariant, output only grows, and on completion the name and output are the whole stream |
| ShamServer.AwaitSyn | networking/server.c:103-127 | datagrams without SYN are ignored; the first SYN is answered once with the SYN-ACK for its seq |
| ShamServer.SynAckContents | networking/server.c:116-123 | the SYN-ACK carries SYN and ACK, CHAT exactly in chat mode, ack = client seq + 1 and window 8192 |
| ShamServer.SynAckFrame | networking/server.c:116-123 | the SYN-ACK header (own ISN, client seq + 1, SYN\|ACK with CHAT in chat mode, 8192); decoded in `SynAckContents` |
| ShamServer.FinAckTeardownAsWritten | networking/server.c:350-383 | the loop as written: 1 to 5 tries; each sends the shared buffer as the previous replies left it; it stops at the first select error or final ACK; the error is logged only when all five tries were used |
| ShamServer.ResentFinAckIsOverwritten | networking/server.c:364-374 | after a reply that is not the final ACK, the next "FIN-ACK" sent is a copy of that reply |
| ShamServer.FinAckFrame | networking/server.c:350-351 | a 12-byte header (server ISN + 1, fin_seq + 1, FIN\|ACK, 0) |
| ShamServer.FinAckTeardown | networking/server.c:350-383 | corrected: every try sends the FIN-ACK (ack = fin_seq + 1); at most five tries, stopping at the final ACK (ack = server ISN + 2); the error only when all five are used |
| ShamClient.Handshake | networking/client.c:59-72 | no reply gives no handshake; a reply is accepted exactly when it has SYN and ACK and ack = ISN + 1, and then the client ACKs with seq = ISN + 1, ack = server seq + 1; the window is taken from any reply |
| ShamClient.HandshakeRefusals | networking/client.c:65 | a reply lacking SYN or ACK or with the wrong ack is refused and no ACK is sent |
| ShamClient.SynFrame | networking/client.c:54-55 | the SYN header (ISN, 0, SYN with CHAT when asked, 0); decoded in `SynContents` |
| ShamClient.NameFrame | networking/client.c:165-168 | the header (next, 0, 0, 0) followed by the name and its NUL; shown honest in `NameFrameHonest` |
| ShamClient.SendFilenameAsWritten | networking/client.c:165-190 | the exchange as written, for a name of any length: each try sends the shared buffer as the replies left it; it ends at the first ack from that buffer ≥ seq + strlen + 1, adopting it as the start |
| ShamClient.PackNameAsWritten | networking/client.c:166-168 | `pack_header` and the unchecked `memcpy` of the name and its NUL into the buffer; no result when the copy runs past its end (proved in `LongNameOverrunsAsWritten`) |
| ShamClient.LongNameOverrunsAsWritten | networking/client.c:166-171 | the copy into the 1036-byte buffer overruns exactly when the name has 1024 bytes or more, and then the frame is longer than the buffer |
| ShamClient.FitName | networking/client.c:166-168 | corrected: the name cut to at most 1023 bytes, a prefix of the name, unchanged whenever it already fits |
| ShamClient.PackNameFits | networking/client.c:166-168 | corrected: the cut name's frame always fits the buffer, decodes to (next, 0, 0, 0) with the name and its NUL as payload, and equals the as-written copy whenever the name fits |
| ShamClient.ResendSharedBuffer | networking/client.c:170-190 | the resend loop over a shared buffer, tried once per wait outcome |
| ShamClient.ResentNameIsOverwritten | networking/client.c:180-183 | a reply whose ack is below the target replaces the header, so the next "name frame" is a copy of the server's reply |
| ShamClient.SendFilename | networking/client.c:165-190 | corrected: every try sends the identical name frame of the cut name, which fits the buffer; it ends at the first reply with ack ≥ seq + strlen + 1 and starts the transfer at that ack |
| ShamClient.ResendOwnBuffer | networking/client.c:170-190 | the corrected resend loop: identical frames until a reply's ack reaches the target |
| ShamClient.Chunk | networking/client.c:196-201 | `fread` returns the next up to 1024 bytes of the source; it is empty exactly at the end, and short only at the end |
| ShamClient.Occupy | networking/client.c:203-214 | filling a slot keeps the slot count and never reads past the source |
| ShamClient.NextPacket | networking/client.c:196-205 | the header (next_seq, 0, 0, 0) followed by the next chunk; shown honest in `SlotFrameHonest` and `OccupyInv` |
| ShamClient.FillFrom | networking/client.c:194-216 | the fill loop keeps the slot count and reads within the source |
| ShamClient.FillStep | networking/client.c:193-217 | once the source is exhausted a fill does nothing and sends nothing; a fill that exhausts it has read the whole source |
| ShamClient.AckStep | networking/client.c:224-241 | handling a reply keeps the ten slots |
| ShamClient.ReleaseSlot | networking/client.c:233-236 | an in-flight slot below the new send_base becomes free and acknowledged; effect proved in `AckEffect` |
| ShamClient.RetransmitStep | networking/client.c:243-256 | the timeout pass keeps the ten slots |
| ShamClient.Due | networking/client.c:246-249 | a slot is due when it is in flight and more than 500000 us have passed since it was sent |
| ShamClient.Restamp | networking/client.c:253 | a due slot takes the current time and keeps its packet; effect proved in `RetransmitEffect` |
| ShamClient.DuePackets | networking/client.c:245-254 | the packets of the due slots in slot order; shown honest in `DuePacketsHonest` |
| ShamClient.StartInv | networking/client.c:158-162 | zeroed slots with send_base = next_seq = start satisfy the sender invariant |
| ShamClient.SlotFrameHonest | networking/client.c:203-205 | an occupied slot's packet is a frame of source bytes numbered by their offset |
| ShamClient.OccupyInv | networking/client.c:195-214 | occupying a free slot with the next chunk keeps the invariant: seq = old next_seq, and next_seq advances by the bytes read |
| ShamClient.OccupyOutput | networking/client.c:195-214 | the frame sent on occupying a slot is the next chunk, sent inside the window |
| ShamClient.FillFromInv | networking/client.c:194-216 | the fill loop keeps the invariant and sends consecutive chunks, each while next_seq − send_base was below the window |
| ShamClient.FillInv | networking/client.c:193-217 | a fill keeps the invariant, leaves send_base alone, and sends consecutive source chunks inside the window |
| ShamClient.FillOutputHonest | networking/client.c:194-216 | every frame of a fill carries source bytes at their own offset |
| ShamClient.FirstFrameHonest | networking/client.c:203-205 | a frame numbered start + offset carrying the source bytes at that offset is honest |
| ShamClient.InFlightUpdate | networking/client.c:207-208 | changing one slot changes the in-flight count by that slot alone |
| ShamClient.FillFromInFlight | networking/client.c:194-216 | every frame a fill sends occupies a free slot: in-flight grows by exactly the frames sent |
| ShamClient.FillBound | networking/client.c:194-216 | at most ten segments are in flight, and a fill sends no more frames than there were free slots |
| ShamClient.AckEffect | networking/client.c:226-240 | an ack above send_base moves it there and frees exactly the in-flight slots below it; any other ack changes only the window; send_base never decreases |
| ShamClient.AckInv | networking/client.c:224-241 | handling an ACK keeps the sender invariant |
| ShamClient.RetransmitEffect | networking/client.c:245-254 | the timeout pass renews only the due slots' timestamps and resends their unchanged packets |
| ShamClient.DuePacketsHonest | networking/client.c:245-254 | resent packets carry source bytes at their own offset |
| ShamClient.RetransmitInv | networking/client.c:243-256 | the timeout pass keeps the invariant, and every resent frame is honest |
| ShamClient.FinAtEnd | networking/client.c:257-264 | once the transfer has finished, the FIN's seq is just past the whole source, with FIN set and ACK clear |
| ShamClient.Finished | networking/client.c:257 | the loop stops when the source is exhausted and send_base has reached next_seq |
| ShamClient.FinFrame | networking/client.c:263-264 | the FIN header (next_seq, 0, FIN, 0); its seq is the end of the source by `FinAtEnd` |
| ShamClient.Sender.constructor | networking/client.c:158-163 | the slots start zeroed, with send_base = next_seq = start |
| ShamClient.Sender.Fill | networking/client.c:193-217 | the in-place fill loop over the slot array leaves the state and frames of `FillStep` |
| ShamClient.Sender.OnAck | networking/client.c:224-241 | the in-place ACK handling leaves the state of `AckStep` |
| ShamClient.Sender.Retransmit | networking/client.c:243-256 | the in-place timeout pass leaves the state of `RetransmitStep` and resends the due packets in slot order |
| ShamClient.AllHonestAppend | networking/client.c:192-258 | frames honest in two runs are honest together |
| ShamClient.Pass | networking/client.c:193-256 | one pass of the loop: the fill, then the received ACK if any, then the timeout pass, with the fill's frames followed by the resent ones; properties in `PassInv` |
| ShamClient.Passes | networking/client.c:192-258 | the loop over the given passes: it stops before a pass only once `Finished` holds, and otherwise uses every pass; a finished state runs no pass |
| ShamClient.PassInv | networking/client.c:192-256 | a pass keeps the sender invariant and sends only honest frames |
| ShamClient.PassesInv | networking/client.c:192-264 | the whole loop keeps the invariant and sends only honest frames, and a finished loop's FIN numbers the end of the source |
| ShamClient.TransferPass | networking/client.c:192-256 | one pass on the sender object leaves the state and frames of `Pass`, keeping the invariant and sending only honest frames |
| ShamClient.Transfer | networking/client.c:192-264 | the loop on the sender object leaves the state, frames and number of passes of `Passes`; unfinished means every pass was used; it sends the FIN (seq = start + file length) exactly when it has finished |
| ShamSession.SynContents | networking/client.c:54-55 | the SYN carries the client ISN, SYN, and CHAT exactly when chat is requested |
| ShamSession.SynAckAccepted | networking/client.c:59-67 | the server's SYN-ACK to the client ISN is accepted, and the client learns the server ISN and window 8192 |
| ShamSession.HandshakeCompletes | networking/client.c:51-72 | the server answers the SYN (in chat mode when either side asked), the client accepts, and its ACK is the one the chat server skips |
| ShamSession.AckSkipped | networking/server.c:161-165 | the client's handshake ACK is recognised and skipped by the chat server |
| ShamSession.NameFrameHonest | networking/client.c:165-168 | the name frame is the start of the stream the receiver numbers from ISN + 1 |
| ShamSession.DataFrameHonest | networking/client.c:203-205 | a data frame honest at a file offset is honest at the matching stream offset |
| ShamSession.FinFrameHonest | networking/client.c:262-264 | the final FIN numbers the end of the stream |
| ShamSession.NameAckAccepted | networking/client.c:184-187 | the receiver's reply to the name frame acknowledges the name and its NUL, and the client's exchange accepts it and starts just past the NUL |
| ShamSession.NameTaken | networking/server.c:283-296 | the receiver's first step on the name frame records the name and does not write it |
| ShamSession.NameReplyReaches | networking/client.c:180-188 | the reply the receiver sends reaches the ack the client waits for |
| ShamSession.NameInvStep | networking/server.c:283-296 | once taken, the name bytes never change |
| ShamSession.FittedNameOpened | networking/server.c:283-287 | the corrected client's cut name frame always fits, and the receiver opens the same file as for the whole name, its first 255 bytes |
| ShamSession.ReceivedWhole | networking/server.c:234-296 | a receiver that stopped, with every segment honest, holds the name and its NUL and exactly the file, and opens the name cut to 255 bytes |
| ShamChat.DataLineShape | networking/client.c:140-146 | a data frame carries the text and its NUL and is numbered with the seq before it; the seq advances by strlen only |
| ShamChat.DataLine | networking/client.c:140-146 | the frame (seq, 0, 0, 0) + text + NUL and the seq advanced by the text's length; shape proved in `DataLineShape` |
| ShamChat.ClientTyped | networking/client.c:132-146 | "/quit\n" sends a bare FIN and keeps the seq; any other line is a data line; proved in `QuitKeepsSeq` and `TypedAdvance` |
| ShamChat.ServerTyped | networking/server.c:211-219 | the server sends every line as a data line |
| ShamChat.QuitKeepsSeq | networking/client.c:132-137 | "/quit\n" sends a bare FIN with the current seq and leaves the seq unchanged |
| ShamChat.ClientLines | networking/client.c:128-147 | the client sends one frame per typed line |
| ShamChat.ClientSeqAfterLines | networking/client.c:146 | after any lines, the seq is the initial one plus the text bytes sent (not counting "/quit" lines or NULs), modulo 2^32 |
| ShamChat.TypedAdvance | networking/client.c:132-146 | one line advances the seq by strlen, or by nothing for "/quit\n" |
| ShamChat.ClientOnHeader | networking/client.c:111-116 | only exactly FIN\|ACK closes the client's chat, answered with ACK(seq = its ack, ack = its seq + 1) |
| ShamChat.ClientNeedsExactFinAck | networking/client.c:111 | FIN\|ACK\|CHAT or a bare FIN has the FIN bit but does not close the chat |
| ShamChat.ServerOnDatagram | networking/server.c:150-200 | in order: nothing received disconnects; a bare 12-byte ACK of ISN + 1 is skipped; FIN gets FIN\|ACK(server seq, its seq + 1); a longer datagram is shown; anything else is ignored |
| ShamChat.CloseHandshake | networking/server.c:168-185 | "/quit" → FIN → FIN-ACK → final ACK acknowledges server seq + 1 and is logged exactly when it exceeds ISN + 1 |
| ShamChat.CloseAfterServerText | networking/server.c:176-185 | without wrap-around, the final ACK after any text the server has sent is logged |
| ShamChat.Receive | networking/client.c:91-92 | a longer datagram is cut to the buffer, and the bytes kept are those received |
| ShamChat.LongestLineOverrunsAsWritten | networking/client.c:119-125 | as written, a 1023-byte line arrives as 1036 bytes and the client's terminator is written one past its buffer |
| ShamChat.TerminateAsWritten | networking/client.c:119-125 | as written: the NUL at index `received`, or a write outside the buffer when `received` is its size |
| ShamChat.Terminate | networking/server.c:189-194 | corrected: the terminator is written only inside the buffer |
| ShamChat.LineShown | networking/server.c:189-196 | with that guard, every line a peer can type is shown whole whatever the buffer held |
| ShellText.TrimPadded | shell/src/flow/execution.c:35-40 | whitespace around a string without outer whitespace is removed exactly |
| ShellText.TrimUntouched | shell/src/flow/execution.c:35-40 | a string without outer whitespace is left as it is |
| ShellText.TrimBlank | shell/src/flow/execution.c:35-40 | a blank string trims to nothing |
| ShellText.TrimIs | shell/src/flow/execution.c:35-40 | trimming keeps exactly the span between leading and trailing whitespace |
| ShellText.TrimBetween | shell/src/flow/execution.c:35-40 | trimming a piece of a line keeps the span between its whitespace runs |
| ShellText.TrimStartsWithText | shell/src/flow/execution.c:35-40 | a non-empty trimmed string does not start with whitespace |
| ShellExecution.SepIndex | shell/src/flow/execution.c:20 | `strpbrk(s, ";&")`: the first separator, with none before it, or the end |
| ShellExecution.HandleExecutionFlow | shell/src/flow/execution.c:10-47 | the pointer-walking loop dispatches exactly `Flow(line)` |
| ShellExecution.Flow | shell/src/flow/execution.c:10-47 | the dispatches left to right: each trimmed non-blank piece up to the next ';' or '&', in the background exactly when '&' ends it; proved in `FlowAt`, `FlowJoin` and `LastPieceForeground` |
| ShellExecution.NextPiece | shell/src/flow/execution.c:20-46 | one round handles the piece up to the next separator; the rest of the line follows from there |
| ShellExecution.FlowAt | shell/src/flow/execution.c:20-46 | the rest of the line is the trimmed piece up to the separator ('&' = background) followed by the rest after it |
| ShellExecution.FindSeparator | shell/src/flow/execution.c:20 | the `strpbrk` scan finds the first separator |
| ShellExecution.TrimSpan | shell/src/flow/execution.c:35-40 | the two in-place trimming loops leave exactly the trimmed piece |
| ShellExecution.PieceThenRest | shell/src/flow/execution.c:20-46 | a separator-free piece ended by a separator is dispatched alone, then the rest follows |
| ShellExecution.SepIndexIs | shell/src/flow/execution.c:20 | the separator offset is the first separator |
| ShellExecution.FlowJoin | shell/src/flow/execution.c:10-47 | joining clean commands with '&' or ';' and splitting again gives back the same dispatches |
| ShellExecution.JoinHead | shell/src/flow/execution.c:19-46 | the first command of a joined line is dispatched first |
| ShellExecution.CleanTrimmed | shell/src/flow/execution.c:35-44 | a clean command survives trimming and is dispatched as it is |
| ShellExecution.BlankPieceSkipped | shell/src/flow/execution.c:42-44 | a blank piece, like the one in "a ; ; b", dispatches nothing |
| ShellExecution.LastPieceForeground | shell/src/flow/execution.c:26-33 | the piece after the last separator (an empty line included) runs in the foreground: the trailing-'&' branch cannot fire |
| ShellJobs.Truncate | shell/src/flow/jobs.c:29-30 | the stored command is the command cut to at most 255 characters, and unchanged when it fits |
| ShellJobs.FirstWithPgid | shell/src/flow/jobs.c:143-144 | the first slot with the given pgid, or none when no slot has it |
| ShellJobs.FindById | shell/src/flow/jobs.c:121-128 | the first active slot with that id, or none when no active slot has it |
| ShellJobs.MostRecent | shell/src/flow/jobs.c:130-140 | the active job with the largest id (the first such slot), or none when no active job id beats −1 |
| ShellJobs.ActiveJobs | shell/src/flow/jobs.c:105-114 | the listed jobs are active and no more than the slots |
| ShellJobs.FreedValid | shell/src/flow/jobs.c:16-20 | a table of free slots has valid ids, no jobs listed and no most recent job |
| ShellJobs.AddFillsLowestFree | shell/src/flow/jobs.c:22-40 | the lowest free slot gets (pgid, pgid, next id, truncated command, status), the counter advances, nothing else changes; with no free slot nothing changes and the error is reported |
| ShellJobs.AddStep | shell/src/flow/jobs.c:22-40 | `add_job` on the slot table; proved in `AddFillsLowestFree`, `AddKeepsIds` and `AddedIsMostRecent` |
| ShellJobs.AddKeepsIds | shell/src/flow/jobs.c:27 | adding keeps the active ids unique and below the counter |
| ShellJobs.AddedIsMostRecent | shell/src/flow/jobs.c:22-40 | the job just added is the most recent one and is found by its id |
| ShellJobs.RemoveKeepsIds | shell/src/flow/jobs.c:142-149 | removing keeps the ids unique and below the counter |
| ShellJobs.RemoveFreesFirst | shell/src/flow/jobs.c:142-149 | removal frees only the first slot with that pgid and returns 1, or returns 0 with nothing changed |
| ShellJobs.RemoveStep | shell/src/flow/jobs.c:142-149 | `remove_job_by_pgid` on the slot table; proved in `RemoveFreesFirst`, `RemoveKeepsIds` and `AddThenRemove` |
| ShellJobs.AddThenRemove | shell/src/flow/jobs.c:142-149 | removing the pgid of a job just added restores the active job list |
| ShellJobs.AddedFoundByPgid | shell/src/flow/jobs.c:142-144 | a job added with a pgid no slot had is the first slot found by that pgid |
| ShellJobs.ActiveJobsMembers | shell/src/flow/jobs.c:105-114 | a job is listed exactly when it is in an active slot |
| ShellJobs.FoundByIdIsUnique | shell/src/flow/jobs.c:121-128 | with unique ids, the job found by id is the only active slot with that id |
| ShellJobs.JobTable.constructor | shell/src/flow/jobs.c:11-14 | the static table starts zeroed, with next id 1 and no completed messages |
| ShellJobs.JobTable.InitJobs | shell/src/flow/jobs.c:16-20 | every slot's pgid becomes 0, and its other fields stay |
| ShellJobs.JobTable.AddJob | shell/src/flow/jobs.c:22-40 | the slot scan leaves the slots, counter and message of `AddStep` |
| ShellJobs.JobTable.FindJobById | shell/src/flow/jobs.c:121-128 | the scan returns `FindById` |
| ShellJobs.JobTable.FindMostRecentJob | shell/src/flow/jobs.c:130-140 | the scan returns `MostRecent` |
| ShellJobs.JobTable.RemoveJobByPgid | shell/src/flow/jobs.c:142-149 | the scan leaves the slots and the result of `RemoveStep` |
| ShellJobs.JobTable.GetJobList | shell/src/flow/jobs.c:105-114 | the snapshot is the active jobs in slot order, and the count is their number |
| ShellJobs.JobTable.PrintCompletedJobs | shell/src/flow/jobs.c:89-95 | the buffered messages are printed in order and the buffer is emptied |
| ShellLog.DigitRun | shell/src/intrinsics/log.c:145 | the maximal run of leading decimal digits |
| ShellLog.StrToL | shell/src/intrinsics/log.c:145 | a value within the `long` range and the end offset; no digits means value 0 |
| ShellLog.Atoi | shell/src/intrinsics/log.c:107 | a value within the 32-bit `int` range |
| ShellLog.DecimalValue | shell/src/intrinsics/log.c:145 | the decimal digits of n have the value n |
| ShellLog.StrToLDecimal | shell/src/intrinsics/log.c:145 | `strtol` reads back the decimal digits of a number and ends right after them |
| ShellLog.DigitRunIs | shell/src/intrinsics/log.c:145 | the digit run is the leading run of digits |
| ShellLog.AtoiDecimal | shell/src/intrinsics/log.c:107 | `atoi` reads back the decimal digits of any non-negative `int` |
| ShellLog.Added | shell/src/intrinsics/log.c:56-73 | the history never exceeds 15 entries |
| ShellLog.AddedKeepsNewest | shell/src/intrinsics/log.c:64-72 | a recorded command becomes the last entry; the older entries keep their order; when full, the oldest is dropped |
| ShellLog.AddedIgnores | shell/src/intrinsics/log.c:57-63 | "log", "log …", an empty command or a repeat of the newest entry leave the history unchanged |
| ShellLog.AddedKeepsInv | shell/src/intrinsics/log.c:56-73 | the history never holds log commands, empty entries or a repeat of the entry before |
| ShellLog.LogLists | shell/src/intrinsics/log.c:89-94 | `log` prints the history oldest first and changes nothing |
| ShellLog.LogPurges | shell/src/intrinsics/log.c:96-104 | `log purge` empties the history and returns 0 |
| ShellLog.LogExecuteSelects | shell/src/intrinsics/log.c:106-118 | `log execute i` runs entry count − i when 1 ≤ i ≤ count; otherwise it prints "Invalid index!" and returns 1 |
| ShellLog.LogStep | shell/src/intrinsics/log.c:88-122 | the history and outcome of `log`, `log purge` and `log execute i`, and the usage error otherwise; proved in `LogLists`, `LogPurges` and `LogExecuteSelects` |
| ShellLog.FindPattern | shell/src/intrinsics/log.c:126 | `strstr`: the first occurrence of "log execute ", or none when there is none |
| ShellLog.FindFirst | shell/src/intrinsics/log.c:126 | the search finds the first occurrence |
| ShellLog.Replace | shell/src/intrinsics/log.c:124-177 | no pattern means no replacement |
| ShellLog.FoundAfter | shell/src/intrinsics/log.c:126-145 | the first occurrence is rewritten, using the number `strtol` reads after it |
| ShellLog.SubstituteNumber | shell/src/intrinsics/log.c:148-173 | a number in 1..count gives prefix + entry count − n + rest without leading whitespace; any other gives none |
| ShellLog.Substitute | shell/src/intrinsics/log.c:145-173 | prefix + history[count − n] + rest without leading whitespace when 1 ≤ n ≤ count, otherwise none; proved in `SubstituteNumber` |
| ShellLog.ReplaceSubstitutes | shell/src/intrinsics/log.c:124-177 | "…log execute n rest" becomes prefix + history[count − n] + rest without its leading whitespace |
| ShellLog.ReplaceRejectsIndex | shell/src/intrinsics/log.c:148-152 | an index of 0 or above the count stops the replacement |
| ShellLog.RewrittenStops | shell/src/intrinsics/log.c:190 | once a replacement fails, every later one fails too |
| ShellLog.RewrittenNext | shell/src/intrinsics/log.c:190-193 | each round rewrites the current line |
| ShellLog.Rewritten | shell/src/intrinsics/log.c:190-194 | the line after k replacement rounds, or none once one fails; proved in `RewrittenStops` and `RewrittenNext` |
| ShellLog.AllApplyExtend | shell/src/intrinsics/log.c:190-194 | one more successful round extends a run of successful rounds |
| ShellLog.AllApplyFails | shell/src/intrinsics/log.c:190-194 | a failed round ends any longer run |
| ShellLog.RewriteAll | shell/src/intrinsics/log.c:179-201 | NULL exactly when more than the limit of replacements apply; otherwise the last rewritten line, on which no replacement applies |
| ShellLog.History.constructor | shell/src/intrinsics/log.c:15-16 | the history starts empty |
| ShellLog.History.AddToLog | shell/src/intrinsics/log.c:56-73 | the shift-and-store on the array leaves the history `Added` describes |
| ShellLog.History.LogCommand | shell/src/intrinsics/log.c:88-122 | the history and outcome are those of `LogStep` |
| ShellLog.History.ProcessLogExecute | shell/src/intrinsics/log.c:179-201 | NULL exactly when an 11th replacement applies; otherwise a rewrite of at most 10 steps on which no replacement applies |
| ShellParser.NameLen | shell/src/input/parser.c:55-60 | a NAME is the maximal run of characters other than whitespace and \| ; & < > |
| ShellParser.FirstToken | shell/src/input/parser.c:45-66 | every token takes at least one character |
| ShellParser.LexShape | shell/src/input/parser.c:43-66 | a NAME holds a non-empty run of name characters, and operators hold nothing |
| ShellParser.Lex | shell/src/input/parser.c:38-73 | the tokens of a line without END; properties in `LexShape`, `LexSplit`, `LexBlank` and `WhitespaceSeparates` |
| ShellParser.NameLenIs | shell/src/input/parser.c:55-60 | the NAME length is the maximal run |
| ShellParser.FirstTokenSplit | shell/src/input/parser.c:45-66 | a token does not depend on text after a breaking character |
| ShellParser.LexSplit | shell/src/input/parser.c:38-73 | a line cut before a breaking character tokenizes as the two parts |
| ShellParser.WhitespaceSeparates | shell/src/input/parser.c:39 | whitespace splits the token list in two |
| ShellParser.Tokenize | shell/src/input/parser.c:33-85 | the pointer-walking loop returns the tokens of the line followed by one END |
| ShellParser.LexSkips | shell/src/input/parser.c:38-73 | one step of the walk consumes a blank or exactly one token |
| ShellParser.SkipSpace | shell/src/input/parser.c:39 | skipping blanks does not change the tokens that follow |
| ShellParser.NextToken | shell/src/input/parser.c:43-66 | one round reads exactly the first token |
| ShellParser.LexHasNoEnd | shell/src/input/parser.c:43-66 | the tokenizer's own tokens are never END |
| ShellParser.TokenizedWellFormed | shell/src/input/parser.c:75-83 | the token array ends with exactly one END, and END occurs nowhere else |
| ShellParser.Peek | shell/src/input/parser.c:89-92 | the token under the cursor, or NULL past the end |
| ShellParser.Consume | shell/src/input/parser.c:94-101 | advances exactly when the current token has the kind; never moves past END |
| ShellParser.ParseName | shell/src/input/parser.c:103-105 | accepts exactly a NAME, advancing by one, and stays before the end |
| ShellParser.ParseInput | shell/src/input/parser.c:107-114 | accepts '<' NAME; consumes the '<' even without a NAME |
| ShellParser.ParseOutput | shell/src/input/parser.c:116-123 | accepts '>'/'>>' NAME; consumes the operator even without a NAME |
| ShellParser.PairsJoin | shell/src/input/parser.c:125-175 | allowed neighbouring pairs over two adjacent ranges are allowed over both |
| ShellParser.ParseAtomic | shell/src/input/parser.c:125-135 | succeeds exactly on a leading NAME and stops where the allowed pairs end |
| ShellParser.AtomicItem | shell/src/input/parser.c:128-133 | one loop round consumes a NAME or one redirection, or stops |
| ShellParser.ParseCmdGroup | shell/src/input/parser.c:137-143 | fails only on streams that are not valid from there; on success it stops before a non-'\|' token |
| ShellParser.PipedAtomic | shell/src/input/parser.c:139-141 | a '\|' must be followed by an atomic command |
| ShellParser.ParseShellCmd | shell/src/input/parser.c:146-175 | the validator accepts exactly the declaratively `Accepted` token streams |
| ShellParser.Accepted | shell/src/input/parser.c:125-175 | a NAME first and every neighbouring pair of tokens allowed; the validator decides exactly this by `ParseShellCmd` |
| ShellParser.SeparatedGroup | shell/src/input/parser.c:151-166 | a separator not before END must be followed by a command group |
| ShellParser.FinishShellCmd | shell/src/input/parser.c:168-174 | after the loop, one trailing '&' and then one ';' is consumed, and END must follow |
| ShellParser.ParseCommand | shell/src/input/parser.c:179-190 | `parse_command` accepts exactly the valid lines |
| ShellParser.LexBlank | shell/src/input/parser.c:38-41 | a blank line has no tokens |
| ShellParser.BlankRejected | shell/src/input/parser.c:179-190 | an empty or whitespace-only line is rejected |
| ShellParser.MustStartWithName | shell/src/input/parser.c:125-126 | an accepted stream starts with a NAME |
| ShellParser.DanglingPipeRejected | shell/src/input/parser.c:139-141 | a '\|' at the end is rejected |
| ShellParser.DoubleSeparatorRejected | shell/src/input/parser.c:151-166 | two separators in a row are rejected wherever they occur |
| ShellParser.TrailingSeparator | shell/src/input/parser.c:157-174 | one trailing ';' or '&' is accepted exactly when the stream without it is accepted and does not already end in a separator |
| ShellParser.DanglingRedirectAccepted | shell/src/input/parser.c:107-132 | a redirection operator without a file name after a NAME is still accepted (the source as written) |
| ShellCmdExec.WordLen | shell/src/cmd_exec.c:34 | the length of the leading run of non-delimiters |
| ShellCmdExec.Words | shell/src/cmd_exec.c:34-44 | the maximal runs of non-delimiters in order; properties in `WordsAreWords`, `WordsUnwords` and `BlankHasNoWords` |
| ShellCmdExec.CommandOf | shell/src/cmd_exec.c:34-57 | no words gives no command; otherwise the first word with the argument list and the last redirection of each kind; properties in `ItemsFlatten`, `LaterInputWins`, `LaterOutputWins` and `NoRedirectAllArguments` |
| ShellCmdExec.Items | shell/src/cmd_exec.c:44-56 | arguments are never operators, and redirections carry an operator |
| ShellCmdExec.ExtractCommand | shell/src/cmd_exec.c:34-57 | the strtok loop yields `CommandOf` the segment's words |
| ShellCmdExec.NextItem | shell/src/cmd_exec.c:45-55 | one round consumes an argument or an operator with its file name |
| ShellCmdExec.DispatchRoute | shell/src/cmd_exec.c:23-64 | no words means no command; the command runs as an intrinsic exactly when its first word is hop, reveal, log, activities, ping, fg or bg |
| ShellCmdExec.DispatchCommand | shell/src/cmd_exec.c:114-146 | a forked external command (pid > 0) adds the job `JobFor` gives; a failed fork (pid < 0) and every other route leave the table unchanged |
| ShellCmdExec.ExecuteCmd | shell/src/cmd_exec.c:153-158 | a command line with a '\|' takes the pipeline path; any other is dispatched as one command |
| ShellCmdExec.FlowReachesCommands | shell/src/flow/execution.c:10-47 | every dispatch of a line reaches `execute_cmd` with a command: a piece with '\|' takes the pipeline path, any other names a command, and an external one keeps the piece's background mode |
| ShellCmdExec.FlowPiecesHaveWords | shell/src/flow/execution.c:35-44 | every dispatched piece starts with a word, so `strtok` finds a command in it |
| ShellCmdExec.WordsOfText | shell/src/cmd_exec.c:34 | a segment that starts with a non-delimiter has that word as its first token |
| ShellCmdExec.WordsAreWords | shell/src/cmd_exec.c:34-44 | every token is non-empty and free of delimiters |
| ShellCmdExec.BlankHasNoWords | shell/src/cmd_exec.c:34-39 | a segment of delimiters has no tokens and dispatches nothing |
| ShellCmdExec.WordsUnwords | shell/src/cmd_exec.c:34-44 | splitting words joined by spaces gives back the words |
| ShellCmdExec.WordLenIs | shell/src/cmd_exec.c:34 | the word ends at the first delimiter |
| ShellCmdExec.ItemsFlatten | shell/src/cmd_exec.c:44-56 | the scan loses no word: the items spell out the words after the name in order |
| ShellCmdExec.PlainWordsAreArguments | shell/src/cmd_exec.c:53-55 | no argument is a redirection operator |
| ShellCmdExec.LaterInputWins | shell/src/cmd_exec.c:45-46 | a later "<" decides the input file and changes nothing else |
| ShellCmdExec.LaterOutputWins | shell/src/cmd_exec.c:47-52 | a later ">" or ">>" decides the output file and the append mode, and nothing else |
| ShellCmdExec.PlainAppends | shell/src/cmd_exec.c:53-55 | a plain word is appended to the arguments and changes no redirection |
| ShellCmdExec.NoRedirectAllArguments | shell/src/cmd_exec.c:44-57 | without operators every word is an argument in order, and no file is set |
| ShellCmdExec.PlainsPrepend | shell/src/cmd_exec.c:53-55 | a plain word before operator-free items leads the arguments |
| ShellCmdExec.JobCommand | shell/src/cmd_exec.c:128-140 | a background job is recorded as the segment + " &" and Running; a foreground one only when it stopped, as the segment |
| ShellCmdExec.JobFor | shell/src/cmd_exec.c:128-140 | a background command gives the job (segment + " &", Running); a stopped foreground one (segment, Stopped); any other none; proved in `JobCommand` |
| ShellReveal.ParseRevealArgs | shell/src/intrinsics/reveal.c:26-72 | the argument loop gives `ParseArgs` of `argv[1..]` |
| ShellReveal.ArgRound | shell/src/intrinsics/reveal.c:27-71 | one round applies `ArgStep` to the argument |
| ShellReveal.ArgStep | shell/src/intrinsics/reveal.c:27-71 | one argument: flags set -a/-l or report a letter; "~", "-" or a name set the path; anything after the path is invalid syntax; proved in `FlagsValid`, `FlagsInvalid`, `PathArguments` and `AfterPathInvalid` |
| ShellReveal.ParseArgs | shell/src/intrinsics/reveal.c:26-72 | the arguments read in order until a message; proved in `StopSticks` and `NoArgumentsListCurrent` |
| ShellReveal.AfterStop | shell/src/intrinsics/reveal.c:26-72 | after a message the remaining arguments are ignored |
| ShellReveal.ScanFlags | shell/src/intrinsics/reveal.c:42-49 | the flag loop applies the argument's letters after its '-' |
| ShellReveal.CollectEntries | shell/src/intrinsics/reveal.c:92-104 | the readdir loop keeps the `Visible` names in order |
| ShellReveal.Strcmp | shell/src/intrinsics/reveal.c:13-17 | the comparator's sign is −1, 0 or 1 |
| ShellReveal.FormatListing | shell/src/intrinsics/reveal.c:111-120 | the print loop writes `Format` of the names |
| ShellReveal.RevealCommand | shell/src/intrinsics/reveal.c:19-125 | everything printed is `Reveal`: a message, "No such directory!", or the filtered, sorted and formatted listing |
| ShellReveal.Reveal | shell/src/intrinsics/reveal.c:19-125 | a message, "No such directory!", or `Format` of the sorted visible names; proved in `ListingOrder` |
| ShellReveal.StopSticks | shell/src/intrinsics/reveal.c:26-72 | once a message is produced, more arguments change nothing |
| ShellReveal.AfterPathInvalid | shell/src/intrinsics/reveal.c:67-70 | any argument after the path, flags included, gives "reveal: Invalid Syntax!" |
| ShellReveal.FlagsStep | shell/src/intrinsics/reveal.c:42-49 | 'a' sets -a, 'l' sets -l, and any other letter reports itself |
| ShellReveal.FlagStopArg | shell/src/intrinsics/reveal.c:45-48 | a message inside a flag argument stops the flag loop |
| ShellReveal.FlagStopSticks | shell/src/intrinsics/reveal.c:45-48 | later letters after an invalid one are not read |
| ShellReveal.FlagsValid | shell/src/intrinsics/reveal.c:42-44 | a run of 'a'/'l' sets -a exactly when it has an 'a' and -l exactly when it has an 'l', in any combination |
| ShellReveal.FlagsInvalid | shell/src/intrinsics/reveal.c:45-47 | the first letter other than 'a'/'l' is the one reported |
| ShellReveal.NoArgumentsListCurrent | shell/src/intrinsics/reveal.c:74-76 | with no arguments "." is listed |
| ShellReveal.PathArguments | shell/src/intrinsics/reveal.c:29-63 | "~" is the home directory; a lone "-" is the previous directory or "No such directory!"; any other name is itself |
| ShellReveal.VisibleAll | shell/src/intrinsics/reveal.c:94 | with -a every name is kept |
| ShellReveal.VisibleHidesDotted | shell/src/intrinsics/reveal.c:94 | without -a no listed name starts with '.' |
| ShellReveal.VisibleKeepsShown | shell/src/intrinsics/reveal.c:92-104 | without -a every other name is kept as often as it occurs |
| ShellReveal.Visible | shell/src/intrinsics/reveal.c:92-104 | the readdir names kept in order: all of them with -a, otherwise those not starting with '.'; proved in `VisibleAll`, `VisibleHidesDotted` and `VisibleKeepsShown` |
| ShellReveal.StrcmpSame | shell/src/intrinsics/reveal.c:13-17 | compare equal exactly for equal names |
| ShellReveal.StrcmpFlip | shell/src/intrinsics/reveal.c:13-17 | swapping the arguments negates the result |
| ShellReveal.StrcmpTrans | shell/src/intrinsics/reveal.c:13-17 | the order is transitive |
| ShellReveal.StrcmpOrder | shell/src/intrinsics/reveal.c:13-17 | the comparator is a total order: total, antisymmetric, reflexive |
| ShellReveal.InsertCount | shell/src/intrinsics/reveal.c:108 | insertion adds exactly one copy of the name |
| ShellReveal.InsertSorted | shell/src/intrinsics/reveal.c:108 | insertion keeps a sorted list sorted |
| ShellReveal.SortSorted | shell/src/intrinsics/reveal.c:108 | the sorted names are ascending by `strcmp` |
| ShellReveal.SortPermutes | shell/src/intrinsics/reveal.c:108 | sorting keeps every name as often as it occurs |
| ShellReveal.Sort | shell/src/intrinsics/reveal.c:108 | the names in ascending `strcmp` order; proved in `SortSorted`, `SortPermutes` and `SortedUnique` |
| ShellReveal.SortedUnique | shell/src/intrinsics/reveal.c:108 | two sorted orderings of the same names are equal, so any correct sort lists as `Sort` does |
| ShellReveal.SortedTail | shell/src/intrinsics/reveal.c:108 | the tail of a sorted list is sorted |
| ShellReveal.SortedHeads | shell/src/intrinsics/reveal.c:108 | two sorted orderings of the same names start alike |
| ShellReveal.SortedFirstLeast | shell/src/intrinsics/reveal.c:108 | the first name of a sorted list is not above any of its names |
| ShellReveal.JoinedSnoc | shell/src/intrinsics/reveal.c:111-116 | a further name is appended after a separator |
| ShellReveal.LinesSnoc | shell/src/intrinsics/reveal.c:111-114 | with -l a further name is printed followed by a newline |
| ShellReveal.LinesJoined | shell/src/intrinsics/reveal.c:111-114 | with -l the output is the names joined by newlines and ended by one |
| ShellReveal.SplitJoined | shell/src/intrinsics/reveal.c:111-120 | cutting the printed line at the separator gives back the names, when no name holds it |
| ShellReveal.Format | shell/src/intrinsics/reveal.c:111-120 | with -l one name per line; otherwise the names separated by spaces and ended by a newline when there are any; proved in `LinesJoined` and `SplitJoined` |
| ShellReveal.ListingOrder | shell/src/intrinsics/reveal.c:92-108 | the listing is sorted and is a permutation of the visible names |
| ShellPrompt.Fit | shell/src/input/prompt.c:36-37 | `snprintf` into PATH_MAX bytes keeps the first min(n, 4095) characters |
| ShellPrompt.DisplayPath | shell/src/input/prompt.c:29-40 | under the home directory, the path starts with '~'; otherwise it is the working directory unchanged |
| ShellPrompt.AtHome | shell/src/input/prompt.c:35-37 | in the home directory itself the path is "~" |
| ShellPrompt.BelowHome | shell/src/input/prompt.c:35-37 | below home the path is "~/" and the rest |
| ShellPrompt.PartialNameShown | shell/src/input/prompt.c:35 | a directory whose name merely starts with home's name ("/a/bc" for "/a/b") is shown in full |
| ShellPrompt.OutsideShown | shell/src/input/prompt.c:30-40 | outside home, or without a home directory, the path is shown as it is |
| ShellPrompt.ExpandDisplay | shell/src/input/prompt.c:37 | expanding the '~' gives back the working directory whenever it fits |
| ShellPrompt.AllLookupsFailed | shell/src/input/prompt.c:11-43 | with every lookup failed the prompt is "<unknown@unknown:?> " |
| ShellPrompt.QuestionShown | shell/src/input/prompt.c:24-40 | the fallback "?" is shown as "?" unless home is itself "?" |
| ShellPrompt.PromptParts | shell/src/input/prompt.c:42 | the prompt is "<" user "@" host ":" path "> ", and each part reads back from its position |
| ShellPrompt.Prompt | shell/src/input/prompt.c:11-43 | "<" user "@" host ":" path "> " with "unknown", "unknown" and "?" for failed lookups; proved in `PromptParts`, `AllLookupsFailed` and `QuestionShown` |

## Left out

- Sockets, `select`, `recvfrom`/`sendto` and `gettimeofday` are not modelled. Datagrams, wait outcomes and times are inputs and outputs of the model.
- `rand()` ISNs are arbitrary parameters. The simulated-loss filter's `double` draw is not modelled: whether it drops a datagram is the `dropped` flag of each `Arrival`.
- `print_md5`, file opening and closing, and the transport's logging functions are foreign calls or I/O, so they are not modelled. The `fopen` failure of the output file is not modelled.
- The chat console multiplexing and display are console I/O. Only the sequence and flag bookkeeping is modelled.
- The chat client's filter on the sender's address (networking/client.c:101-105) is not modelled, because addresses are not part of the model.
- Reaping, process control and signals are left out: `fork`, `execvp`, `waitpid`, `tcsetpgrp`, `check_jobs`, `kill_all_jobs`, `cleanup_jobs` and signals.c. The pid and the stopped status are parameters. A failed `fork` records no job.
- File-descriptor redirection (input_redirect.c, output_redirect.c), pipe.c and the intrinsics' own work after dispatch (hop, activities, ping, fg, bg) are not part of this model. Redirection failures returning −1 are therefore not modelled.
- `init_log`/`cleanup_log` and the history file are file I/O. The main REPL and `getline` are console I/O.
- Failures of `malloc`, `strdup` and `realloc` are not modelled, including `reveal` returning 1 on them.
- `get_home_dir()` returning NULL for "~" in `reveal` is not modelled: the home directory is a string parameter there.
- ShamClient.SendFilenameAsWritten: for a name of 1024 bytes or more the source copies past its 1036-byte buffer, which is undefined behaviour. The model sends the whole frame as if the buffer were long enough. `LongNameOverrunsAsWritten` shows where the copy overruns.
- ShellCmdExec.ExtractCommand: the fixed `args[64]` array has no bound check in the source. The model's argument list is unbounded.
- ShellJobs.AddJob: job ids are unbounded integers. The `int` counter's overflow after 2^31 jobs is not modelled.
- ShellPrompt.Prompt: the host name's truncation to `HOST_NAME_MAX` and `getcwd`'s PATH_MAX bound are not modelled. The working directory is taken as given.
- ShellParser.Tokenize: the tokenizer never produces `TOK_INVALID`, so that kind is not modelled.
- ShellExecution.HandleExecutionFlow: the NUL bytes written into the copied line are modelled as taking slices.
- The `log execute` outcome runs the selected command through `execute_cmd`. The model returns that command instead of running it.
- ShellReveal.RevealCommand: `qsort`'s algorithm is replaced by `Sort`. `SortedUnique` shows that every correct sort gives the same listing.

## Findings

| source | as written | input that shows it | evidently intended | confidence | as-written member | corrected member |
|---|---|---|---|---|---|---|
| networking/server.c:350-383 | the FIN-ACK is packed into `buffer` once; each reply is `recvfrom`'d into the same buffer, and the next retry resends whatever it holds | any datagram other than the final ACK arriving during the teardown, e.g. a retransmitted FIN: the next "FIN-ACK" sent is a copy of it | every retry sends the FIN-ACK with ack = fin_seq + 1 | not executed | ShamServer.FinAckTeardownAsWritten | ShamServer.FinAckTeardown |
| networking/client.c:165-190 | the name frame is packed into `buffer` once; each reply is `recvfrom`'d into it, and the next retry resends the reply's header followed by the name | a server ACK whose ack is below seq + strlen + 1 (e.g. a late handshake reply): the next "name frame" carries the server's header | the identical name frame is resent until a sufficient ACK arrives | not executed | ShamClient.ResentNameIsOverwritten | ShamClient.SendFilename |
| networking/client.c:166-168 | `filename_len = strlen(output_filename) + 1` bytes are copied to `buffer + 12` with no length check, and `output_filename` is `argv[4]` | an output file name of 1024 bytes or more: the copy writes past the 1036-byte buffer | the name is cut to fit the payload; the receiver keeps only 255 bytes of it (networking/server.c:285-286), so the file opened is unchanged | not executed | ShamClient.LongNameOverrunsAsWritten | ShamClient.PackNameFits |
| networking/client.c:119-125 | `msg[msg_len] = '\0'` is written for every data datagram, at buffer index `bytes_received` | the server sends a 1023-character line (the longest `fgets` gives), a 1036-byte datagram; the client writes buffer[1036], one past its 1036-byte buffer | the terminator is written only inside the buffer, as the server guards it at networking/server.c:191-194 | not executed | ShamChat.LongestLineOverrunsAsWritten | ShamChat.Terminate |

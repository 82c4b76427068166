# A verified model of the Sponge TCP stack

Sponge is a user-space TCP/IP stack: byte streams, a reassembler, a sender, a receiver, the connection
that joins them, the TCP and IPv4 wire formats, and the cache of Ethernet addresses below them. This
project models that core in Dafny and proves what it promises, up to the safety of two whole connections
over a network that loses, repeats, delays and reorders segments. Nothing was executed.

`dafny verify dfyconfig.toml` checks everything.

## How it is laid out

Most components appear twice. A value (`Stream`, `Reassembler`, `Receiver`, `Sender`, `Connection`,
`Parser`, `Cache`) with functions says what each operation does. A class with the source's own fields,
loops and in-place updates does it, and each of its methods ensures that the abstract state afterwards is
that function of the abstract state before. Theorems are about the values; a run is a sequence of events
with the sequence of states it leads through.

- Byte queues: `Buffers`, `ByteStreams`.
- Reassembly: `BufferStrings` (the sorted list of intervals), `StreamReassemblers`.
- Sequence numbers: `WrappingIntegers`.
- The two halves: `TcpReceivers`; `TcpSenders` with `SenderLedgers` (the invariant), `SenderRuns`
  and `SenderTimers`.
- The endpoint: `TcpConnections`, `ConnectionLifecycles`, `PassiveCloses`, `ConnectionAnswers`, `TcpStates`.
- Both ends: `Directions` (one direction of transfer), `EndToEnd` (two connections and the network).
- The wire: `InternetChecksums`, `NetParsers`, `HeaderFields`, `TcpWire`, `Ipv4Wire`, `TcpOverIp`.
- Addresses: `ArpCaches`.

## What the code does not keep, and exactly when it does

- A SYN without data that arrives after bytes have been assembled puts the reassembly index back
  (libsponge/tcp_receiver.cc:22). `LateSynRepeatsData` shows data received twice; `DeliverKeeps` shows
  that late SYNs are the only deliveries that break the link, and that every one does.
- A SYN that carries data leaves an index without a byte, so the stream stalls (`SynDataStalls`). The SYN
  carries what is waiting as it is sent (`SynCarriesData`): write before connect.
- The reassembler documents that waiting and assembled bytes stay within `capacity`
  (libsponge/stream_reassembler.hh:23-31). The code allows up to 2*capacity - 1 and reaches it
  (`MemoryBoundTight`); `PushMemory` says exactly for which pushes the documented limit is kept.
- End-of-file marks can be lost in the list of intervals (`BareFinLosesMark`; `PushEof` says exactly when),
  so claims about the end of a stream are that it is never reported early.
- A non-empty write to a full stream queues an empty chunk, after which a drained stream is not at `eof`
  (`DrainedStreamAtEof`).
- `write` does not look at the end of input; the sender's ledger survives exactly until the FIN is out
  (`WriteKeeps`).
- Every segment cut with the SYN carries it. An acknowledgment that comes before the SYN can open the
  window, and then more than 1000 waiting bytes go out as several SYNs (`EarlyAckRepeatsSyn`); up to 1000
  the first burst is in order (`FirstBurstTiles`).
- A connection whose peer finished first still lingers if the application reads the last byte after the last
  segment came, since the flag is cleared only when a segment arrives (`PassiveCloserLingers`); `OverExactly`
  says when any connection is over.
- A TCP header that names a length under 5 words is accepted by the segment parser, which drops the header
  parser's verdict (`SegmentVerdict`).
- Header lengths above 15 words and fragment offsets from 2^13 on do not survive serialization, and the
  datagram parser ignores the verdict of the header parser (`HeaderChecksumUnused`), although its
  documentation lists a bad checksum among the errors to report.
- The literal `1 << 31` in `unwrap` is an `int` equal to -2^31, so the two candidates are the other way
  round from how they read; ties go to the larger number (`UnwrapNearest`).

## What is assumed

- Absolute sequence numbers stay below 2^64. Sizes, clocks and timeouts are unbounded integers.
- A timely run (`Timely`) brings no late SYN, and nothing further than 2^31 numbers out of place, as the
  maximum segment lifetime of RFC 793 has it. For streams shorter than 2^31 bytes the second part holds by
  itself (`ShortTimely`).
- `std::lower_bound` and `std::upper_bound` have no defined result on a list that is not sorted, so pushes
  require a sorted list. `PushKeeps`, `OrderlyRun`, `RunGoesOn` and `RunJoined` show that it is.
- The application writes nothing once its FIN is out (`WriteKeeps` shows that this is needed). It reads no
  more than is buffered; what a larger read does is in the contracts of `ByteStream.Read` and
  `ByteStream.PopOutput`.
- In the runs of a sender alone, what goes out with the SYN fits in one segment (`FillKeeps` shows that this
  is needed). Between two connections it always does, since the window is one until the SYN is out.
- `_send_ack_if_need` takes a reference to the front of the queue, pops it and then copies through the
  reference (libsponge/tcp_connection.cc:176-183). The model takes that copy as intact.
- An address that is written out as text and read back is the same address.
- The network may bring any segment the other end ever put out, any number of times, in any order, or
  never. Initial sequence numbers are parameters.

## Model

| member | source | states |
|---|---|---|
| `EndToEnd.EndToEndSafety` | libsponge/tcp_connection.cc:20-150 | In every state of every timely run of two connections over a network that loses, repeats, delays and reorders segments, in both directions: bytes received are a prefix of bytes written; oldest unacknowledged number <= absolute acknowledgment number <= next number; once the FIN is acknowledged the receiver has every byte written and its stream has ended |
| `EndToEnd.ShortStreamSafety` | libsponge/tcp_connection.cc:20-150 | The same for streams shorter than 2^31 bytes with no assumption on the network but that no SYN without data arrives after the first byte |
| `EndToEnd.RunJoined` | libsponge/tcp_connection.cc:20-150 | The invariant behind it: in every state of every timely run both directions are linked and every segment ever put out is genuine and carries an acknowledgment its receiver can stand for |
| `EndToEnd.ActionJoined` | libsponge/tcp_connection.cc:20-150 | Each single call or timely arrival keeps that invariant |
| `EndToEnd.ShortTimely` | libsponge/tcp_receiver.cc:18-22 | While fewer than 2^31 numbers are in use, an arrival is timely if and only if it is not a late SYN |
| `EndToEnd.LateSynRepeatsData` | libsponge/tcp_receiver.cc:19-22 | Counterexample to safety without that assumption: for any data, a repeated SYN and a repeated segment make the receiver put the data out twice |
| `EndToEnd.SynDataStalls` | libsponge/tcp_receiver.cc:18-25 | In every timely run, an endpoint whose SYN carried a byte never gets a second byte, the end of the stream or the acknowledgment of its FIN across |
| `EndToEnd.SynCarriesData` | libsponge/tcp_sender.cc:34-46 | The SYN carries what is waiting when it is sent, up to the window, which is one until an acknowledgment comes |
| `EndToEnd.NothingThrows` | libsponge/tcp_sender.cc:37-39 | No call in a timely run throws; the exception of `fill_window` is out of reach |
| `Directions.LinkedSafe` | libsponge/tcp_receiver.cc:58-69 | What the link between a sender and a receiver means: received is a prefix of written, and the acknowledgment number lies between oldest and next |
| `Directions.LinkedComplete` | libsponge/tcp_sender.cc:125-128 | A linked sender with its FIN acknowledged has been received completely, and the receiving stream has ended |
| `Directions.DeliverKeeps` | libsponge/tcp_receiver.cc:30-56 | Delivery of anything ever sent, in any order and any number of times, keeps the link if and only if it is not a late SYN |
| `Directions.DeliverAdvances` | libsponge/tcp_receiver.cc:30-56 | A genuine segment that starts no later than what is expected is taken in as far as the window goes |
| `Directions.LateSynBreaks` | libsponge/tcp_receiver.cc:19-22 | Every late SYN breaks it, since it puts the reassembly index back |
| `Directions.ReadKeepsLink` | libsponge/byte_stream.cc:38-44 | Reads by the receiving application keep the link |
| `Directions.StuckBehindSynData` | libsponge/tcp_receiver.cc:18-25 | A receiver whose SYN came with a byte has at most that byte and no end of stream |
| `Directions.FillCarries` | libsponge/tcp_sender.cc:25-95 | `fill_window` keeps the sending side of the link; everything it puts out is genuine and carries no acknowledgment yet |
| `Directions.TickCarries` | libsponge/tcp_sender.cc:143-161 | `tick` keeps the sending side of the link; a re-sent segment is genuine |
| `Directions.SendEmptyCarries` | libsponge/tcp_sender.cc:165-169 | `send_empty_segment` keeps the sending side of the link; the empty segment is genuine |
| `Directions.AckKeepsLink` | libsponge/tcp_sender.cc:99-140 | An acknowledgment the receiver has ever given, however old, keeps the link: only what the receiver has is taken off |
| `ConnectionLifecycles.OverForGood` | libsponge/tcp_connection.cc:99-109 | Over any run with any segments, a connection that is inactive is inactive in every later state |
| `ConnectionLifecycles.CleanCloseCause` | libsponge/tcp_connection.cc:51-62 | Without a reset a connection is inactive only with its FIN acknowledged and the inbound stream read to its end, and after a step in which a segment was taken in, with a FIN of the peer seen, while the local stream was unfinished, or a tick that completed ten timeouts of silence |
| `ConnectionLifecycles.OverExactly` | libsponge/tcp_connection.cc:99-137 | For any run, a connection is inactive if and only if it was reset, or its FIN is acknowledged, the inbound stream is at its end, and some earlier tick saw ten timeouts of silence or some earlier segment was taken in with the SYN acknowledged, the inbound stream read to its end and the peer first to finish |
| `ConnectionLifecycles.RunLingers` | libsponge/tcp_connection.cc:51-62 | A connection lingers exactly until the first such tick or segment |
| `PassiveCloses.PassiveCloserLingers` | libsponge/tcp_connection.cc:60-62 | A run in which the peer finishes first, both streams are done and the FIN is acknowledged, and the connection is still active: the application read the last byte after the last segment came |
| `ConnectionLifecycles.RunFate` | libsponge/tcp_connection.cc:119-137 | Over any run the retransmission count never exceeds 8, both streams are in error exactly after a reset, and the time since the last segment is the sum of the ticks since |
| `ConnectionLifecycles.RunFirst` | libsponge/tcp_connection.cc:51-54 | Over any run this side counts as first to finish if and only if no segment was taken in, with a FIN of the peer seen, while the local stream was not ended and read to its end |
| `ConnectionLifecycles.RunNumbers` | libsponge/tcp_receiver.cc:31-43 | Over any run a FIN of the peer has been seen if and only if a segment taken in had it and was or followed a SYN taken in |
| `ConnectionLifecycles.DigestsExactly` | libsponge/tcp_connection.cc:20-42 | Which segments are taken in, by the fields: no RST, the connection not over, and a FIN if both streams are done and this side was first; others only reset the clock, or the connection |
| `ConnectionLifecycles.InactiveStays` | libsponge/tcp_connection.cc:20-150 | No call and no segment makes an inactive connection active |
| `ConnectionLifecycles.RunGoesOn` | libsponge/tcp_connection.cc:20-150 | As long as no SYN without data is repeated, whatever else arrives, the list of waiting pieces stays sorted and the next step is defined |
| `ConnectionAnswers.SegmentAnswered` | libsponge/tcp_connection.cc:43-96 | What a segment taken in does: sender and receiver afterwards, and exactly which segments go out: for an empty one just before the expected number an empty one; else what `fill_window` sends if it is called; else an empty one if the segment takes up numbers; else none |
| `ConnectionAnswers.AckUnanswered` | libsponge/tcp_connection.cc:64-96 | An empty acknowledgment at the expected number, with nothing to send, gets no answer |
| `ConnectionAnswers.OutboundPutsOut` | libsponge/tcp_connection.cc:111-150 | Connecting, writing and ending the input put out exactly what `fill_window` sends, stamped |
| `ConnectionAnswers.TickPutsOut` | libsponge/tcp_connection.cc:119-137 | A tick puts out exactly what the sender re-sends, stamped; or with 8 retransmissions one RST at the next number |
| `ConnectionAnswers.OutboundFull` | libsponge/tcp_connection.cc:111-150 | After these calls the SYN is out, and once it is acknowledged the window is full or everything written is out, with the FIN if the input ended |
| `ConnectionAnswers.ReceiveFull` | libsponge/tcp_connection.cc:72-79 | The same after a segment on an open connection or by a SYN; before that no SYN is sent |
| `ConnectionAnswers.OutboundStream` | libsponge/tcp_connection.cc:111-144 | Only a write adds to the outbound stream, the bytes that fit in order, and only ending the input ends it |
| `ConnectionAnswers.EverySegmentTells` | libsponge/tcp_connection.cc:174-186 | After every call nothing is held back, and what went out is what the sender made with the current acknowledgment number and the window cut to 65535, and otherwise unchanged, except the RST of a tick that gives up |
| `ConnectionAnswers.RunOrdinary` | libsponge/tcp_connection.cc:152-186 | In every state of every run, everything in flight or put out has the default header but for number, SYN, FIN, acknowledgment and window, except one RST for each tick that gave up |
| `TcpConnections.TcpConnection.constructor` | libsponge/tcp_connection.hh:12-32 | A new connection: nothing sent or received, lingering, not reset, local side first |
| `TcpConnections.TcpConnection.SegmentReceived` | libsponge/tcp_connection.cc:20-97 | The new state is the specified one (reset, ignored, or handed to both halves and answered); the call throws exactly when `fill_window` would, after the segment is taken in and before any answer |
| `TcpConnections.TcpConnection.DigestSegment` | libsponge/tcp_connection.cc:43-62 | Sender, receiver, finished-first flag and linger flag after a segment |
| `TcpConnections.TcpConnection.ReplyTo` | libsponge/tcp_connection.cc:64-96 | Keep-alive answer, `fill_window` when the connection is open, empty acknowledgment if nothing else goes out; nothing changes when it throws |
| `TcpConnections.TcpConnection.Active` | libsponge/tcp_connection.cc:99-109 | The object's answer is that of its abstract state |
| `TcpConnections.TcpConnection.Write` | libsponge/tcp_connection.cc:111-116 | The new state and the number of bytes accepted, also when it throws |
| `TcpConnections.TcpConnection.Tick` | libsponge/tcp_connection.cc:119-137 | The new state: give up after 8 retransmissions, else end lingering after silence, retransmit, flush |
| `TcpConnections.TcpConnection.EndInputStream` | libsponge/tcp_connection.cc:139-144 | The new state: input ended, window filled, output flushed; only the first when it throws |
| `TcpConnections.TcpConnection.Connect` | libsponge/tcp_connection.cc:146-150 | The new state: window filled, output flushed; nothing changes when it throws |
| `TcpConnections.TcpConnection.SendRstToPeer` | libsponge/tcp_connection.cc:152-164 | The loop drops what is waiting; one RST goes out and both streams are in error |
| `TcpConnections.TcpConnection.SetRst` | libsponge/tcp_connection.cc:166-172 | Both streams are in error and the connection is reset |
| `TcpConnections.TcpConnection.SendAckIfNeed` | libsponge/tcp_connection.cc:174-186 | The loop moves every waiting segment out, in order, stamped with acknowledgment and window |
| `SenderRuns.SenderRun` | libsponge/tcp_sender.cc:25-169 | In every state of every run, with any acknowledgments at any time: the in-flight queue tiles the numbers in flight with genuine segments, next number = SYN sent + bytes read + FIN sent, at most 65535 numbers are in flight, the head timeout is initial*2^j with j at most the retransmission count, the others are initial, and everything put out is genuine |
| `SenderTimers.TimerRun` | libsponge/tcp_sender.cc:99-161 | In every state of every run the clock is the sum of the ticks; each segment in flight has the time at which it was sent, re-sent or became the oldest by an acknowledgment; the head timeout is the initial one doubled once for each re-send with a non-zero window since; the count is the re-sends since something was acknowledged |
| `SenderTimers.ResendExactly` | libsponge/tcp_sender.cc:143-161 | A tick re-sends the oldest segment, unchanged, if and only if the ticks since its time reach its timeout |
| `SenderTimers.ResentInTime` | libsponge/tcp_sender.cc:143-161 | Ticks that add up to the timeout of a segment that is not acknowledged re-send it |
| `SenderLedgers.FillNeverThrows` | libsponge/tcp_sender.cc:34-41 | The throw at line 38 is unreachable from any state of the ledger: before the SYN is acknowledged a queue starts with it |
| `SenderLedgers.FillKeeps` | libsponge/tcp_sender.cc:25-95 | The ledger survives `fill_window` if and only if what goes out with the SYN fits in one segment |
| `SenderLedgers.FirstBurstTiles` | libsponge/tcp_sender.cc:65-92 | What a first `fill_window` sends tiles its numbers, and exactly one segment of it has the SYN, if and only if the data that goes with it is at most 1000 bytes, for any window |
| `SenderLedgers.EarlyAckRepeatsSyn` | libsponge/tcp_sender.cc:34-92 | Where that fails: an acknowledgment of the initial number before the SYN opens the window, over 1000 bytes wait, and two segments go out with the SYN |
| `SenderLedgers.FirstSegmentExactly` | libsponge/tcp_sender.cc:34-92 | The first segment: the SYN at the initial number with what waits up to the window, and the FIN if and only if that is all and the window has room for it |
| `SenderLedgers.SendEmptySent` | libsponge/tcp_sender.cc:165-169 | The empty segment has the next number and no length, and is genuine |
| `SenderLedgers.FillWindowFills` | libsponge/tcp_sender.cc:25-95 | Once the SYN is acknowledged: in flight never exceeds max(window, before); on return the window is full or every byte is sent and an ended stream has had its FIN sent; new segments hold exactly 1000 bytes but the last, which alone may have the FIN; after a FIN there are none |
| `SenderLedgers.CutTiles` | libsponge/tcp_sender.cc:65-92 | The segments cut from the data tile its place in the sequence space, each with the bytes its number names |
| `SenderLedgers.FillSent` | libsponge/tcp_sender.cc:85-88 | Everything `fill_window` adds to the output is genuine at numbers already in use |
| `SenderLedgers.FrontNumber` | libsponge/tcp_sender.cc:115-117 | `unwrap` of a queued number is its exact absolute number |
| `SenderLedgers.PopAckedExact` | libsponge/tcp_sender.cc:115-134 | The pop loop removes exactly the segments that end at or before the acknowledgment, and keeps the ledger |
| `SenderLedgers.AcceptAckKeeps` | libsponge/tcp_sender.cc:105-140 | An accepted acknowledgment keeps the ledger and changes nothing but window, queue, counters and flags |
| `SenderLedgers.OldAckOnlySetsWindow` | libsponge/tcp_sender.cc:105-140 | A repeated or older acknowledgment changes the window and nothing else |
| `SenderLedgers.AckExactly` | libsponge/tcp_sender.cc:99-140 | An acknowledgment of a number within 2^31: beyond the next number it changes nothing; else it takes off what it covers and sets the window to it, or to one with a note if it is zero |
| `SenderLedgers.AckKeeps` | libsponge/tcp_sender.cc:99-140 | The ledger survives any acknowledgment of any number at any time, before the SYN too |
| `SenderLedgers.WriteKeeps` | libsponge/byte_stream.cc:12-23 | The ledger survives a write if and only if the FIN has not been sent or the write is empty |
| `SenderLedgers.TickKeeps` | libsponge/tcp_sender.cc:143-161 | `tick` keeps the ledger and re-sends the oldest segment, unchanged, exactly when its time is up |
| `SenderRuns.TickTimed` | libsponge/tcp_sender.cc:148-158 | `tick` keeps the timer invariant |
| `SenderRuns.AckTimed` | libsponge/tcp_sender.cc:135-139 | Any acknowledgment keeps the timer invariant; the new head starts from the initial timeout |
| `TcpSenders.TcpSender.constructor` | libsponge/tcp_sender.cc:18-21 | A new sender |
| `TcpSenders.TcpSender.FillWindow` | libsponge/tcp_sender.cc:25-95 | The new state is the specified one and the call throws exactly when the queue starts without the SYN before that is acknowledged |
| `TcpSenders.TcpSender.TakeData` | libsponge/tcp_sender.cc:43-61 | What is read, whether the FIN goes out now, and whether there is nothing to send |
| `TcpSenders.TcpSender.SendPieces` | libsponge/tcp_sender.cc:62-92 | The do-while loop emits the data cut into segments |
| `TcpSenders.TcpSender.AckReceived` | libsponge/tcp_sender.cc:99-140 | The new state; acknowledgments beyond the next number change nothing |
| `TcpSenders.TcpSender.PopAcknowledged` | libsponge/tcp_sender.cc:114-134 | The pop loop against its specification, and whether the timer restarts |
| `TcpSenders.TcpSender.Tick` | libsponge/tcp_sender.cc:143-161 | The new state: back-off doubled unless the window is zero |
| `TcpSenders.TcpSender.SendEmptySegment` | libsponge/tcp_sender.cc:165-169 | The new state |
| `TcpStates.SummaryAgrees` | libsponge/tcp_helpers/tcp_state.cc:94-110 | The summary read off the counters agrees with the flags: SYN_SENT iff sent and not acknowledged, FIN_ACKED iff the FIN is acknowledged (then queue and bytes in flight are empty), FIN_SENT and SYN_ACKED likewise |
| `TcpStates.ClosedMeansDone` | libsponge/tcp_helpers/tcp_state.cc:57-72 | TIME_WAIT and CLOSED: all written is sent and acknowledged, the inbound stream has ended; CLOSED iff inactive |
| `TcpStates.OfficialExactly` | libsponge/tcp_helpers/tcp_state.cc:17-110 | An endpoint is summarized as one of the twelve official states if and only if its flags, its ledger and its receiver are as that state says, for each of the twelve |
| `TcpReceivers.WindowNeverShrinks` | libsponge/tcp_receiver.cc:58-71 | Over any run of segments, genuine or not, and reads: absolute acknowledgment number and right window edge never move back, also with the window clamped to 65535 |
| `TcpReceivers.WindowExact` | libsponge/tcp_receiver.cc:71 | Bytes received and window together are bytes read and capacity; in a segment the window is cut to 65535 |
| `TcpReceivers.WindowEdge` | libsponge/tcp_receiver.cc:58-71 | Over any run acknowledgment number and window together are capacity, bytes read, one for the SYN and one for the end of the stream |
| `TcpReceivers.ReceiveExactly` | libsponge/tcp_receiver.cc:13-56 | What a segment within 2^31 of the expected number does: its data and end go to the reassembler at its number, and a SYN without data then sets the index |
| `TcpReceivers.ReceiveNumbers` | libsponge/tcp_receiver.cc:31-43 | The first SYN, and the first FIN with or after it, set the two numbers kept |
| `TcpReceivers.OrderlyRun` | libsponge/tcp_receiver.cc:13-56 | As long as no SYN without data is repeated, any segments leave the list sorted and inside its bounds |
| `TcpReceivers.AcknoWraps` | libsponge/tcp_receiver.cc:58-69 | The number on the wire is SYN + bytes + FIN, wrapped |
| `TcpReceivers.ReceiveContinues` | libsponge/tcp_receiver.cc:30-56 | No segment whatever takes back output, reopens it or changes the initial number |
| `TcpReceivers.TcpReceiver.constructor` | libsponge/tcp_receiver.hh:32 | A new receiver |
| `TcpReceivers.TcpReceiver.PushBackWrapString` | libsponge/tcp_receiver.cc:13-27 | The reassembler after a segment at its unwrapped index; a SYN without data moves the reassembly index |
| `TcpReceivers.TcpReceiver.SegmentReceived` | libsponge/tcp_receiver.cc:30-56 | The new state is the specified one, through all three branches |
| `TcpReceivers.TcpReceiver.Ackno` | libsponge/tcp_receiver.cc:58-69 | The acknowledgment number of the abstract state |
| `TcpReceivers.TcpReceiver.WindowSize` | libsponge/tcp_receiver.cc:71 | The window of the abstract state |
| `StreamReassemblers.ReassemblyRun` | libsponge/stream_reassembler.cc:17-57 | For any interleaving of excerpts of a stream and reads: output is the first `top` bytes of the stream, input is ended only when that is all of it, every waiting byte is the right one, and waiting plus unread bytes stay below 2*capacity |
| `StreamReassemblers.AbsorbExact` | libsponge/stream_reassembler.cc:43-56 | The exact effect of an admitted piece: bytes from `top` on move to the output in order, all others wait, `top` stops only at a missing byte or the window edge, and the input ends exactly when the piece at `top` carries the mark and moves as a whole |
| `StreamReassemblers.PushReaches` | libsponge/stream_reassembler.cc:17-57 | Data that starts no later than what is expected is taken in as far as there is room |
| `StreamReassemblers.PushFaithful` | libsponge/stream_reassembler.cc:17-57 | Any substring cut from the stream keeps the output a prefix and the input open until it is complete |
| `StreamReassemblers.PushKeeps` | libsponge/stream_reassembler.cc:17-57 | Any substring at all leaves the list sorted, starting inside the window and ending less than `capacity` beyond it; the window edge stays |
| `StreamReassemblers.ReleaseKeeps` | libsponge/stream_reassembler.cc:49-55 | A partial pop keeps the list sorted, because it happens only with one piece |
| `StreamReassemblers.PushContinues` | libsponge/stream_reassembler.cc:17-57 | No data at any index takes back output or reopens it |
| `StreamReassemblers.MemoryBound` | libsponge/stream_reassembler.cc:31-41 | Waiting plus unread bytes <= 2*capacity - 1 |
| `StreamReassemblers.MemoryBoundTight` | libsponge/stream_reassembler.cc:31-41 | That bound is reached at every capacity above one, so the documented limit `capacity` fails there |
| `StreamReassemblers.PushMemory` | libsponge/stream_reassembler.cc:17-57 | Waiting plus unread bytes after any push are the indices held or admitted, each once, plus the bytes unread before; so the documented limit is kept if and only if those indices are no more than the free capacity |
| `StreamReassemblers.DocumentedBound` | libsponge/stream_reassembler.hh:23-31 | No waiting piece past the window is enough for the documented limit |
| `StreamReassemblers.PushInWindow` | libsponge/stream_reassembler.cc:31-43 | A push leaves every waiting piece inside the window if and only if what it admits ends there |
| `StreamReassemblers.AdmittedExact` | libsponge/stream_reassembler.cc:18-41 | What of a substring is admitted: if anything and which bytes, and that the end mark is kept exactly if no byte is cut off the end |
| `StreamReassemblers.StreamReassembler.constructor` | libsponge/stream_reassembler.cc:12 | A new reassembler |
| `StreamReassemblers.StreamReassembler.PushSubstring` | libsponge/stream_reassembler.cc:17-57 | The new state is the specified one |
| `StreamReassemblers.StreamReassembler.UnassembledBytes` | libsponge/stream_reassembler.cc:59 | Counts every waiting index once |
| `StreamReassemblers.StreamReassembler.CurrentCapacity` | libsponge/stream_reassembler.cc:63 | The free capacity of the abstract state |
| `BufferStrings.PushContents` | libsponge/buffer_string.cc:12-103 | For any pieces: the list stays sorted with gaps and holds the old bytes overridden by the new piece, unless that is dropped as already spanned |
| `BufferStrings.PushUnion` | libsponge/buffer_string.cc:12-103 | For pieces of one stream: the index-to-byte map becomes exactly the union |
| `BufferStrings.PushHeld` | libsponge/buffer_string.cc:12-103 | For any pieces: the indices held are the old ones and those of the new piece |
| `BufferStrings.SearchOrder` | libsponge/buffer_string.cc:16-38 | The two binary searches delimit exactly the pieces that overlap or touch, so the throw at line 37 is unreachable |
| `BufferStrings.PushEof` | libsponge/buffer_string.cc:53-101 | A new end-of-file mark survives exactly when its piece is not dropped, a held one exactly when it is not overrun |
| `BufferStrings.BareFinLosesMark` | libsponge/buffer_string.cc:53-56 | A mark that is lost: an end without data right behind a waiting piece |
| `BufferStrings.PushBounded` | libsponge/buffer_string.cc:41-49 | Pieces stay inside bounds if and only if the new one does |
| `BufferStrings.AgreesPieces` | libsponge/buffer_string.cc:12-103 | A list agrees with a stream index by index if and only if every piece is cut from it |
| `BufferStrings.SizeCountsHeld` | libsponge/buffer_string.cc:105-111 | Adding up lengths counts every held index once |
| `BufferStrings.BufferStringList.PushBack` | libsponge/buffer_string.cc:12-103 | Insert, skip or merge in place: the list is the specified one |
| `BufferStrings.BufferStringList.Merge` | libsponge/buffer_string.cc:33-102 | The merging branches, at the end of the list and inside it |
| `BufferStrings.BufferStringList.AppendOverhangs` | libsponge/buffer_string.cc:73-80 | The loop appends the overhang of the last touched piece and nothing else |
| `BufferStrings.BufferStringList.Size` | libsponge/buffer_string.cc:105-111 | The number of distinct indices held |
| `BufferStrings.BufferStringList.PopUpBufferString` | libsponge/buffer_string.cc:144-168 | The first piece or part of it, and the list without it |
| `ByteStreams.DrainedStreamAtEof` | libsponge/byte_stream.cc:12-54 | After a write, the end of input and a full read, `eof` holds if and only if the last non-empty write found room |
| `ByteStreams.WriteExact` | libsponge/byte_stream.cc:12-23 | A write takes the bytes that fit, in order, and all if they fit |
| `ByteStreams.ByteStream.constructor` | libsponge/byte_stream.hh:31-32 | An empty stream |
| `ByteStreams.ByteStream.Write` | libsponge/byte_stream.cc:12-23 | Accepts what fits, in order; returns how much |
| `ByteStreams.ByteStream.PeekOutput` | libsponge/byte_stream.cc:26 | The first bytes not yet read |
| `ByteStreams.ByteStream.PopOutput` | libsponge/byte_stream.cc:29-33 | Reads past, or throws exactly when too little is held, with what is then left |
| `ByteStreams.ByteStream.Read` | libsponge/byte_stream.cc:38-44 | Result, new state and exactly when it throws; bytes read followed by bytes buffered are all bytes accepted |
| `ByteStreams.ByteStream.EndInput` | libsponge/byte_stream.cc:46 | The new state |
| `ByteStreams.ByteStream.SetError` | libsponge/byte_stream.hh:49 | The new state |
| `ByteStreams.ByteStream.Eof` | libsponge/byte_stream.cc:54 | Looks only at the chunk list, yet answers for the byte queue |
| `ByteStreams.ByteStream.BufferSize` | libsponge/byte_stream.cc:50 | The number of bytes buffered |
| `ByteStreams.ByteStream.RemainingCapacity` | libsponge/byte_stream.cc:60 | Capacity less bytes buffered |
| `Buffers.RemovePrefixExact` | libsponge/buffer.cc:5-12 | Dropping a prefix of a chunk is exact if and only if a byte remains, and leaves a broken chunk if and only if the storage is empty |
| `Buffers.EmptyListIsEmptyQueue` | libsponge/buffer.cc:28-34 | The chunk list is empty if and only if it holds no byte and does not end in an empty chunk |
| `Buffers.BufferList.Size` | libsponge/buffer.cc:28-34 | The number of bytes held |
| `Buffers.BufferList.PeekOutput` | libsponge/buffer.cc:36-54 | The first bytes held, across chunks |
| `Buffers.BufferList.RemovePrefix` | libsponge/buffer.cc:56-70 | Drops exactly `size` bytes, or throws exactly when fewer are held; never reaches the clamping branch of a chunk |
| `WrappingIntegers.UnwrapWraps` | libsponge/wrapping_integers.cc:27-39 | For every 64-bit checkpoint the result wraps to n |
| `WrappingIntegers.UnwrapNearest` | libsponge/wrapping_integers.cc:27-39 | ... and is nearest to the checkpoint among all 64-bit numbers that do, the larger one on a tie |
| `WrappingIntegers.UnwrapWrapRoundTrip` | libsponge/wrapping_integers.cc:15-39 | `unwrap(wrap(v))` is v if and only if v is within 2^31 of the checkpoint, or at the end of the 64-bit range where there is no better match |
| `WrappingIntegers.UnwrapNear` | libsponge/wrapping_integers.cc:15-39 | Hence whenever v is less than 2^31 away |
| `InternetChecksums.SumAppend` | libsponge/util/util.cc:89-98 | Adding in chunks is adding at once, at any split |
| `InternetChecksums.NoOverflow` | libsponge/util/util.cc:89-98 | The 32-bit sum of up to 65535 bytes does not overflow |
| `InternetChecksums.ValueZero` | libsponge/util/util.cc:100-108 | The value is 0 if and only if the sum is a positive multiple of 65535 |
| `InternetChecksums.ValueCompletes` | libsponge/util/util.cc:100-108 | Adding the value of a sum to it makes the value 0 |
| `InternetChecksums.FoldMeaning` | libsponge/util/util.cc:103-105 | Folding keeps the residue modulo 65535 and sends only 0 to 0 |
| `InternetChecksums.InternetChecksum.Add` | libsponge/util/util.cc:89-98 | The loop adds the sum of the data modulo 2^32 and tracks the parity |
| `InternetChecksums.InternetChecksum.GetValue` | libsponge/util/util.cc:100-108 | The folding loop against its specification |
| `NetParsers.ParsesDigits` | libsponge/util/parser.cc:26-43 | A parser in front of the big-endian digits of a number reads it and moves past it |
| `NetParsers.BigEndianDigits` | libsponge/util/parser.cc:53-60 | Big-endian digits are a faithful encoding |
| `NetParsers.DigitsInOrder` | libsponge/util/parser.cc:53-60 | One, two and four bytes in network order, written out |
| `NetParsers.NetParser.ParseInt` | libsponge/util/parser.cc:26-43 | The byte loop: value, new state, and the error cases |
| `NetParsers.NetParser.RemovePrefix` | libsponge/util/parser.cc:45-51 | The new state, error included |
| `NetParsers.UnparseInt` | libsponge/util/parser.cc:53-60 | The byte loop appends the big-endian digits |
| `HeaderFields.FieldsReadBack` | libsponge/util/parser.cc:26-60 | Fields of any widths written in a row are read back one by one |
| `HeaderFields.FieldPlaced` | libsponge/util/parser.cc:53-60 | Each field lies at the sum of the widths before it |
| `HeaderFields.FieldRead` | libsponge/util/parser.cc:26-43 | Each field of any bytes is read from there |
| `HeaderFields.ByteChangeDetected` | libsponge/util/util.cc:89-108 | A change of any single byte makes a correct checksum fail |
| `TcpWire.HeaderRoundTrip` | libsponge/tcp_helpers/tcp_header.cc:17-78 | A TCP header parses back to itself, leaving what follows, if and only if its length is at most 15 words |
| `TcpWire.HeaderLayout` | libsponge/tcp_helpers/tcp_header.cc:51-78 | The bytes of each field of a serialized header and the bit of each flag, as section 3.1 of RFC 793 has them |
| `TcpWire.HeaderFields20` | libsponge/tcp_helpers/tcp_header.cc:17-34 | The same for reading any 20 bytes |
| `TcpWire.HeaderVerdict` | libsponge/tcp_helpers/tcp_header.cc:17-48 | Of any bytes: no error if and only if there are 20, they name a length of at least 5 words, and there are so many; what is left follows the header |
| `TcpWire.SegmentVerdict` | libsponge/tcp_helpers/tcp_segment.cc:12-23 | Of any bytes: rejected if and only if the checksum fails; else an error if and only if they are shorter than the header they name, where a length under 5 words passes |
| `TcpWire.SegmentRoundTrip` | libsponge/tcp_helpers/tcp_segment.cc:12-45 | Serialize then parse gives the segment with its checksum and no error if and only if the header length is at most 15 words |
| `TcpWire.SerializedChecks` | libsponge/tcp_helpers/tcp_segment.cc:30-45 | The checksum over the serialized bytes and the pseudo-header is 0 |
| `TcpWire.CorruptionRejected` | libsponge/tcp_helpers/tcp_segment.cc:12-17 | If any one byte of a serialized segment is altered, parsing rejects it |
| `TcpWire.ParseTcpHeader` | libsponge/tcp_helpers/tcp_header.cc:17-48 | Fields, verdict and parser state, error cases included |
| `TcpWire.SerializeTcpHeader` | libsponge/tcp_helpers/tcp_header.cc:51-78 | The bytes, and that it throws exactly on a header under 5 words |
| `TcpWire.ParseTcpSegment` | libsponge/tcp_helpers/tcp_segment.cc:12-23 | Rejected, or header and payload with the parser's error |
| `TcpWire.SerializeTcpSegment` | libsponge/tcp_helpers/tcp_segment.cc:30-45 | The bytes with the checksum filled in |
| `Ipv4Wire.DatagramRoundTrip` | libsponge/tcp_helpers/ipv4_datagram.cc:11-41 | Serialize then parse gives the datagram with its checksum and no error if and only if header length and offset fit their bits and the total length is not below the header length (or there are no options) |
| `Ipv4Wire.HeaderParsed` | libsponge/tcp_helpers/ipv4_header.cc:23-75 | The header parser reads back any well-formed header and complains exactly if the checksum is wrong |
| `Ipv4Wire.HeaderLayout` | libsponge/tcp_helpers/ipv4_header.cc:78-110 | The bytes of each field of a serialized header, as section 3.1 of RFC 791 has them |
| `Ipv4Wire.HeaderFields20` | libsponge/tcp_helpers/ipv4_header.cc:31-47 | The same for reading any 20 bytes |
| `Ipv4Wire.HeaderVerdict` | libsponge/tcp_helpers/ipv4_header.cc:23-75 | Of any bytes: no error if and only if there are 20, version 4, a header length of at least 5 words that fits, their number as total length and a checksum that holds |
| `Ipv4Wire.DatagramVerdict` | libsponge/tcp_helpers/ipv4_datagram.cc:11-21 | Of any bytes: what the payload is, and no error if and only if its length is the 16-bit difference of the two lengths named, whatever the header parser found |
| `Ipv4Wire.HeaderRoundTrip` | libsponge/tcp_helpers/ipv4_header.cc:23-110 | With its checksum, it passes every check |
| `Ipv4Wire.HeaderChecksumUnused` | libsponge/tcp_helpers/ipv4_datagram.cc:11-21 | The datagram parser accepts any checksum, since it drops the header parser's verdict |
| `Ipv4Wire.PseudoExactly` | libsponge/tcp_helpers/ipv4_header.cc:125-131 | The pseudo checksum is the sum of the twelve bytes of the pseudo-header: source, destination, zero, protocol, length; so the checksum of a segment is that of the pseudo-header followed by the segment |
| `Ipv4Wire.PseudoSmall` | libsponge/tcp_helpers/ipv4_header.cc:125-131 | That sum stays below 2^31 |
| `Ipv4Wire.ParseIpHeader` | libsponge/tcp_helpers/ipv4_header.cc:23-75 | Header, verdict and parser state, through every check in order |
| `Ipv4Wire.SerializeIpHeader` | libsponge/tcp_helpers/ipv4_header.cc:78-110 | The bytes, and exactly when it throws |
| `Ipv4Wire.ParseIpDatagram` | libsponge/tcp_helpers/ipv4_datagram.cc:11-21 | Verdict, header and payload, into an object with any header |
| `Ipv4Wire.SerializeIpDatagram` | libsponge/tcp_helpers/ipv4_datagram.cc:23-41 | The bytes with the checksum filled in, or that it throws |
| `TcpOverIp.TcpInIpRoundTrip` | libsponge/tcp_helpers/tcp_over_ip.cc:75-90 | A segment can be sent in a datagram if and only if it has at most 65535 bytes; the datagram then comes out unchanged, and the segment with its port numbers if and only if its header length is at most 15 words |
| `TcpOverIp.Crossing` | libsponge/tcp_helpers/tcp_over_ip.cc:26-90 | From adapter to adapter: a sent segment is taken if and only if the receiving adapter is the mirror of the sending one, or listens on the port and the segment is a SYN without RST; it comes out as sent and leaves the receiver the mirror; otherwise nothing changes |
| `TcpOverIp.TakesOnly` | libsponge/tcp_helpers/tcp_over_ip.cc:26-71 | Of any datagram at all: only TCP with a checksum that holds with the pseudo-header, to the port, is taken; once connected only from the peer to the own address; else the adapter stays as it is |
| `TcpOverIp.WrappedChecks` | libsponge/tcp_helpers/tcp_over_ip.cc:80-87 | The whole IP header of a wrapped segment, and that pseudo-header and segment together check |
| `TcpOverIp.TcpOverIpv4Adapter.WrapTcpInIp` | libsponge/tcp_helpers/tcp_over_ip.cc:75-90 | The addressed segment and its datagram |
| `TcpOverIp.TcpOverIpv4Adapter.UnwrapTcpInIp` | libsponge/tcp_helpers/tcp_over_ip.cc:26-71 | Result and adapter afterwards, through every filter in order |
| `ArpCaches.CacheRun` | libsponge/network_interface.cc:147-182 | In every run in which time does not go back: a lookup gives the last address learned exactly if its deadline had not passed at the last cleaning; every cached address is in the expiry queue, exactly once, in order of deadline |
| `ArpCaches.SetCurrent` | libsponge/network_interface.cc:147-161 | Learning keeps that invariant |
| `ArpCaches.CleanCurrent` | libsponge/network_interface.cc:171-182 | Cleaning keeps it, with the time of cleaning as the new bound |
| `ArpCaches.WithoutFirstExact` | libsponge/network_interface.cc:151-158 | Erasing the first match erases the only one and keeps the order of the rest |
| `ArpCaches.IpToEthernetCache.SetCache` | libsponge/network_interface.cc:147-161 | Erase, update and append against their specification |
| `ArpCaches.IpToEthernetCache.EraseFirst` | libsponge/network_interface.cc:152-157 | The loop erases the first entry for the address and no other |
| `ArpCaches.IpToEthernetCache.GetCache` | libsponge/network_interface.cc:163-169 | The lookup of the abstract state |
| `ArpCaches.IpToEthernetCache.TryCleanExpireCache` | libsponge/network_interface.cc:171-182 | The expiry loop against its specification |

## Left out

- Sockets, file descriptors, the event loop, TUN/TAP and UDP adapters, the threads of `TCPSpongeSocket`, and the applications: input and output only.
- `NetworkInterface::send_datagram` and `recv_frame`: a pending datagram is kept under the interface's own address and later ones are dropped, so there is no queueing guarantee to state; the cache is modelled.
- `Router`: longest-prefix match is one fold over a list.
- Ethernet and ARP headers: fixed field copies, an easier case of the TCP and IP round trips.
- `to_string`, `summary`, hexdump, `Address`, DNS, logging, random initial sequence numbers, and the destructor of `TCPConnection`.
- `BufferStringList::get_buffer` and the classes of libsponge/util/buffer.cc: payloads are byte sequences here, so sharing of storage is not captured.
- `TCPHeader::operator==`, which compares only some fields; the round trips here compare all of them.
- Liveness: that a handshake or a transfer completes under a fair network.
- Wrap-around of the 64-bit counters and clocks after 2^64 bytes or milliseconds.
- TcpConnections.TcpConnection.SendAckIfNeed: the copy that the source makes through a reference to an element already popped is taken as intact, because the language leaves that copy undefined.

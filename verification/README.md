# A verified model of the sponge TCP engine

This project models the TCP/IP engine in `libsponge`: the byte stream and its buffers, the stream reassembler, 32-bit
sequence numbers, the TCP receiver, sender and connection, the wire formats of TCP and IPv4 with the Internet checksum,
and the network interface with its address resolution. `dafny verify dfyconfig.toml` checks everything.

Each stateful class of the source is a Dafny class with the same fields, loops and branches. Every method says that the
abstract state after it is a function of the abstract state before it (`View() == old(View()).Push(...)`, for example),
and the theorems are about those functions, over whole runs.

The layers, lowest first:

- `Machine`, `WrappingIntegers`: machine integers, `wrap` and `unwrap`.
- `Buffers`, `ByteStreams`: the FIFO. A stream means everything ever written plus how much of it has been read.
- `Assembly`, `AssemblyRuns`, `EarlyEnds`: the meaning of the reassembler, a map from position to byte, and its
  refinement of a plain set of received positions over all runs. The rule for conflicting bytes is exact, so the
  refinement needs no hypothesis that all substrings come from one stream.
- `Chunks`, `StreamReassembler`: the ordered map of chunks, proved to refine that meaning although `merge` reads only the
  first and the last touching chunk.
- `TcpReceiver`, `ReceiverRuns`: acknowledgment number and window.
- `TcpSender`, `SenderInvariant`, `SenderSteps`, `SenderProgress`, `SenderRuns`, `SenderLimits`, `SenderCut`,
  `SenderEdges`, `SegmentSizes`, `TcpState`: tiling of the retransmission store, window accounting, the exact edge and the
  sizes of what is sent, timer, FIN, and the state summary.
- `TwoParty`, `TwoPartySafety`, `TwoPartyWindow`, `TwoPartyRuns`, `Prefixes`, `LongRuns`: one sender, one receiver and a
  channel that may drop, duplicate and reorder, how the two windows relate, and runs in which the numbers go round.
- `FinOvertakes`, `Slices`, `OvertakingFins`: exactly when a FIN is harmless.
- `TcpConnection`, `ConnectionInvariant`, `ConnectionRuns`, `ConnectionWindow`, `GiveUp`, `Linger`, `Departures`,
  `Resets`: the connection, how long it retries and lingers, what it sends when, and what a RST does.
- `Duplex`, `DuplexPrefixes`, `DuplexAcks`, `CleanClose`: two complete connections, with acknowledgments carried in
  segment headers, and what it means that one is over without an error.
- `Handshakes`, `FinRun`, `LateConnect`, `LostFin`: runs, computed for any initial sequence numbers, that show why three
  hypotheses are needed.
- `InternetChecksum`, `NetParser`, `TcpWire`, `Ipv4Wire`, `TcpOverIp`, `Layouts`, `Layouts4`, `Corruption`, `WireRuns`:
  bytes on the wire, the fields at their offsets, exactly what is accepted, and connections over the wire.
- `NetworkInterface`, `InterfaceRuns`, `Ageing`, `Deliveries`: queues per next hop, ageing mappings, and what crosses the
  link.

## What the code does not do

Where a natural property is false of the code, the code is modelled as it is, and a lemma says exactly when the property
holds.

- `unwrap` returns the nearest value if and only if its two comparisons do not overflow 64 bits (`UnwrapNearest`). Its
  documentation promises the nearest value without that condition.
- A substring with no data, or one pushed while there is no room, has its end mark taken without a look at its position.
  That is harmless in every continuation if and only if the last byte is already there (`EndsEarlyIff`): otherwise the
  output ends early, at once if nothing is held and else as soon as the gaps before what is held are closed. So a bare FIN
  that arrives before the byte in front of it can end the stream early and inflate the acknowledgment number
  (`OvertakingFin`, both directions; `FinOvertakesByte` is a run). A FIN with data never does, because the sender stays
  inside the receiver's window (`WindowSafety`, `FinsFit`). The theorems on acknowledgments and on the end of the stream
  therefore ask of the first FIN to arrive that it carry data or find the byte before it there (`KeepsFin`); prefix safety
  and window safety do not.
- A connection that is over without an error has not always sent its FIN. `end_input` leaves everything acknowledged and
  the FIN unsent if and only if the sender is stalled: nothing is outstanding and nothing waits, but the usable window
  is zero, as an old acknowledgment can leave it (`EndInputFinishes`). A connection that does not linger is then over,
  and the FIN is lost for good (`FinLostIff`; `FinNeverSent` is a run). Without such a call the FIN goes out before
  everything is acknowledged (`FinGoesOut`).
- A write after the FIN is sent one sequence number too high (`WriteInvIff`, `LateWriteMisplaced`). The run theorems assume
  that nothing is written once the FIN is out; a write after `end_input` but before the FIN is allowed. Prefix safety
  holds with late writes as well (`PrefixSafety`, `DuplexPrefixSafety`).
- What an ARP reply releases goes to the address inside the message, not to the frame's source, which is what the table
  learns: the two agree if and only if the message says so (`DestinationIff`).
- An acknowledgment before the SYN opens the window one too far (`AckWindowIff`).
- A segment without SYN at sequence number zero is not stored at all, even where its later bytes lie in the window
  (`SegmentAtZeroIgnored`).
- `connect` sends the front of the queue without an acknowledgment number. That is sound if and only if the front is not
  an empty acknowledgment left behind by a reply, or the number and window to announce happen to be zero
  (`ConnectAnnouncesIff`); `LateConnectLoses` is a run in which it makes the peer drop a byte that was never received.
  The theorem on acknowledgments between connections assumes that condition.
- Not every segment that takes up sequence space is answered: a SYN without ACK to an endpoint that did not connect is
  answered if and only if that endpoint has something waiting or to send (`AnsweredIff`; `SecondSynUnanswered` is a run).
- The IPv4 datagram parser ignores the verdict of the header parser: it accepts a whole packet whatever its checksum, and
  some that are not whole (`DatagramAcceptedIff`, exactly which). The segment parser accepts a data offset below five
  (`SegmentVerdict`).
- The checksum does not tell the word 0 from the word 65535 (`WordDamaged`, both directions); it notices every other change
  of a word, and every change of a byte (`ByteDamaged`).
- The time of an ARP request is not renewed: after the first 5000 ms every datagram for an unanswered hop asks again
  (`AsksAgain`).
- The data offset of a TCP header survives serialization if and only if it is at most 15 (`HeaderRoundTripIff`).
- The branch of `reorder_buffer` for a chunk longer than the remaining capacity is dead (`WriteFront`).

An ordered map is modelled as the sequence of its entries in key order. `size_t` and `uint64_t` counters are unbounded
where they only count; the fields whose width matters (the 16-bit window, the 32-bit timeout and sequence numbers, the
64-bit sequence arithmetic and the counter of stored bytes) are bounded types, so the absence of overflow is proved.
The initial sequence number, the clock and the network are parameters.

## Model

| member | source | states |
|---|---|---|
| `DuplexPrefixes.DuplexPrefixSafety` | libsponge/tcp_connection.cc:30-211 | every run of two complete connections over a channel that drops, duplicates and reorders both ways, with time-outs, resets and closes anywhere and writes at any time, even after the FIN: the bytes each application can read are a prefix of those the other has written (fewer than 2^31 sequence numbers each way) |
| `DuplexAcks.DuplexAckSoundness` | libsponge/tcp_connection.cc:46-78 | in every such run in which nothing is written once the FIN is out, with acknowledgments travelling in segment headers: everything an endpoint has dropped from its retransmission store the other has assembled, no acknowledgment exceeds what was sent, each output ends exactly with the peer's stream, and no byte is sent past what the peer accepts, except one before the FIN to probe a closed window; provided that the first FIN to arrive carries data or finds the byte before it there, and that `connect` sends no unstamped acknowledgment |
| `CleanClose.DuplexClose` | libsponge/tcp_connection.cc:87-108 | in the same runs, an endpoint that is over without an error has delivered its whole stream and has received the whole of the other's, and the other's output has ended exactly if the FIN is out, which it is unless a stalled endpoint has ended its stream |
| `CleanClose.FinGoesOut` | libsponge/tcp_sender.cc:61-90 | in every run, however long, in which no stalled endpoint ends its stream, whoever has sent everything and has everything acknowledged has sent the FIN |
| `CleanClose.EndInputFinishes` | libsponge/tcp_connection.cc:146-152 | ending the stream leaves everything acknowledged and the FIN unsent if and only if the SYN is out, the FIN is not, nothing is outstanding, nothing waits and the usable window is zero |
| `CleanClose.FinLostIff` | libsponge/tcp_connection.cc:146-152 | if the peer's stream has been read to its end and the connection does not linger, ending our stream ends the connection without the FIN, whatever follows, if and only if it is stalled |
| `LostFin.FinNeverSent` | libsponge/tcp_sender.cc:101-125 | a run, for any initial sequence numbers: a repeated acknowledgment stalls a connection, which then ends its stream, is over without an error and never sends its FIN, while the other still waits |
| `Duplex.DuplexTimers` | libsponge/tcp_connection.cc:127-144 | in every run, however long, the timer is on exactly while something is outstanding, its timeout is the initial one times two to the retransmission count, the count never exceeds nine and past eight both streams are in error; so the 32-bit timeout never wraps |
| `DuplexAcks.ConnectAnnouncesIff` | libsponge/tcp_connection.cc:154-164 | what `connect` sends carries the current acknowledgment number and window if and only if the queue is empty, or its front has no ACK flag, or number and window are both zero; the queue is shown to hold only segments without flags of the connection and those of `send_empty_segment` |
| `LateConnect.LateConnectUnsound` | libsponge/tcp_connection.cc:51-73 | a run, for any initial sequence numbers: an ordinary handshake with data waiting leaves an empty acknowledgment in the queue, and `connect` sends it with number zero and window zero |
| `LateConnect.LateConnectLoses` | libsponge/tcp_connection.cc:154-164 | that run continued: the peer drops a byte that was never received |
| `DuplexAcks.RunSound` | libsponge/tcp_connection.cc:30-211 | the invariant behind it: nothing past the SYN is sent before the peer has it, and an endpoint that has the peer's SYN has sent its own |
| `ConnectionWindow.LocalLogged` | libsponge/tcp_connection.cc:110-211 | every operation but reception keeps what is sent inside the peer's window and the last byte with the FIN it was cut with |
| `Linger.LingerBound` | libsponge/tcp_connection.cc:87-108 | with both streams done and nothing heard, and whatever the application calls without adding to its stream, the connection stays active exactly while it lingers and less than ten retransmission timeouts have passed since the last segment |
| `Linger.LingersFromLast` | libsponge/tcp_connection.cc:32-36 | so after the segment that leaves it nothing to do, a lingering connection stays active for exactly ten retransmission timeouts |
| `Linger.LastToCloseStops` | libsponge/tcp_connection.cc:79-82 | if the peer's stream ended before ours was drained, then in every continuation the connection is over as soon as everything is acknowledged |
| `Linger.RunLingers` | libsponge/tcp_connection.cc:79-82 | in every run, whatever is delivered: an endpoint whose peer finished first does not linger, and one that does not linger has seen its peer finish or has failed |
| `GiveUp.GiveUpBound` | libsponge/tcp_connection.cc:127-144 | from the start of the timer, with something outstanding and an open window, and whatever the application and the network do as long as nothing new is acknowledged: no RST goes out before 511 times the timeout, and one has gone out by 511 times the timeout plus nine ticks |
| `GiveUp.ActWaits` | libsponge/tcp_connection.cc:30-124 | writes, reads, closing, connecting, and every segment that is no RST and acknowledges nothing new leave the timer and the wait as they are |
| `GiveUp.TickWaiting` | libsponge/tcp_sender.cc:147-174 | one tick of a waiting connection: time passes, or the lowest segment is sent again, or it is the ninth time and the connection gives up |
| `Resets.ResetIsFinal` | libsponge/tcp_connection.cc:38-45 | once an active endpoint has received a RST, then in that state and in every continuation both streams are in error, it neither lingers nor is active, no write adds and no segment delivers a byte, and nothing goes out unless it is told to connect |
| `Resets.ErrorIffReset` | libsponge/tcp_connection.cc:30-85 | a received segment sets the two error flags, always both, if and only if it is a RST and the connection is active |
| `Resets.FailedIff` | libsponge/tcp_connection.cc:127-144 | in every run the streams are in error if and only if a RST reached the active connection or a tick was its ninth retransmission in a row |
| `Resets.ResetsSpread` | libsponge/tcp_connection.cc:178-192 | in every run of two connections whoever has sent a RST has failed, and the RST kills the other for good when it arrives |
| `Resets.GiveUpReachesPeer` | libsponge/tcp_connection.cc:138-141 | once the bound for giving up has passed, a RST is out that kills any active connection it is delivered to, for good |
| `Departures.AnsweredIff` | libsponge/tcp_connection.cc:51-73 | a segment that takes up sequence space is answered at once, by one segment with ACK, the current number and the window up to 65535, if and only if it is not a SYN without ACK to an endpoint that did not connect, has nothing waiting and nothing to send |
| `Departures.SecondSynUnanswered` | libsponge/tcp_connection.cc:52-55 | a run that reaches the exception |
| `Departures.PureAckFlushes` | libsponge/tcp_connection.cc:74-77 | a segment that takes up none sends all that waits, stamped, and leaves nothing waiting |
| `Departures.EverythingGoesOut` | libsponge/tcp_connection.cc:194-211 | in every run, after a write, the end of the stream or a tick of an active connection nothing waits, and every segment stored for retransmission has gone out |
| `Departures.WriteReaches` | libsponge/tcp_connection.cc:110-124 | a write sends exactly up to the edge of the window or the end of what is written, whichever comes first |
| `Departures.EndInputReaches` | libsponge/tcp_connection.cc:146-152 | ending the stream sends exactly up to the edge or the FIN |
| `Departures.TickResends` | libsponge/tcp_connection.cc:127-144 | a tick sends what waits, and then the lowest stored segment exactly if its timeout has been reached |
| `Departures.ShutdownSendsReset` | libsponge/tcp_connection.cc:178-192 | giving up sends one RST with the current acknowledgment number, with the content of the front of the queue or empty, and sets both errors |
| `Departures.ConnectInitiates` | libsponge/tcp_connection.cc:154-164 | connecting sends one segment and makes the endpoint the initiator if and only if something waits or is to be sent |
| `Departures.InitiatorAnswers` | libsponge/tcp_connection.cc:52-73 | so whoever has connected answers every segment that takes up sequence space, in every continuation |
| `Prefixes.PrefixSafety` | libsponge/tcp_receiver.cc:15-47 | in every run of a sender, a receiver and a lossy, duplicating, reordering channel the receiver's bytes are a prefix of the sender's, however FINs arrive, whatever is acknowledged and whenever the application writes |
| `LongRuns.LongPrefixSafety` | libsponge/tcp_receiver.cc:28-34 | prefix safety over runs of up to 2^64 - 2^31 sequence numbers, however often the 32-bit numbers go round, if each segment the receiver looks at was sent less than 2^31 away from the one before; the checkpoint is always the number of the last one |
| `TwoPartyRuns.AckSoundness` | libsponge/tcp_sender.cc:95-144 | in every such run up to the first FIN, and beyond it if that FIN carries data or finds the byte before it there: what the sender has forgotten the receiver has assembled, and the acknowledgment number is at most the next sequence number |
| `TwoPartyRuns.EndOfStream` | libsponge/tcp_receiver.cc:31-45 | under the same condition on the first FIN, the output has ended exactly when the FIN has arrived and every byte is there |
| `OvertakingFins.OvertakingFin` | libsponge/tcp_receiver.cc:31-45 | in every run the first FIN to arrive is harmless in every continuation of the run, that is, the output never ends early, if and only if it carries data or the byte before it is there |
| `OvertakingFins.HeldEndsEarly` | libsponge/stream_reassembler.cc:147-196 | once the end mark is taken without the last byte, delivering again some of the segments the sender has sent ends the output after the greatest position held |
| `Slices.RunSlices` | libsponge/tcp_sender.cc:61-90 | in every run each byte is sent in one slice and always in the same one, every slice has been sent, and what the receiver has breaks off only where a slice starts |
| `FinOvertakes.FinSafeIff` | libsponge/tcp_receiver.cc:31-45 | the same for arbitrary slices of the stream, whether the sender has cut them or not: a bare FIN is harmless if and only if the byte before it is there, one with data if and only if it ends inside the window |
| `FinRun.FinOvertakesByte` | libsponge/tcp_receiver.cc:31-45 | a run in which a bare FIN overtakes the only byte of the stream: the output has ended without it |
| `TwoPartyRuns.WindowSafety` | libsponge/tcp_sender.cc:95-144 | in every run, however FINs arrive, no byte is sent more than one past what the receiver accepts, and none past it unless the last window heard of was closed and the FIN is not out |
| `TwoPartyRuns.SentIsKept` | libsponge/stream_reassembler.cc:147-196 | every byte of every segment ever sent is there once the segment is delivered after the SYN, but for a probe at the edge of the window |
| `TwoPartyWindow.FinsFit` | libsponge/tcp_receiver.cc:31-45 | a FIN that the sender sends with data is stored whole whenever it is the first to arrive: only a bare FIN can overtake |
| `SenderCut.FillCut` | libsponge/tcp_sender.cc:61-90 | if the FIN goes out with data, the last byte goes out with the FIN and never without it, and the window had room for both |
| `TwoPartyRuns.NextInv` | libsponge/tcp_sender.cc:29-187 | every step of sender, receiver or channel keeps the two-party invariant |
| `TwoPartyRuns.NextLog` | libsponge/tcp_sender.cc:29-187 | every step keeps sender and acknowledgments inside the receiver's window |
| `TwoPartySafety.DeliverSegmentStep` | libsponge/tcp_receiver.cc:15-47 | delivering any segment ever sent keeps it |
| `TwoPartySafety.DeliverAckStep` | libsponge/tcp_sender.cc:95-144 | delivering any acknowledgment ever sent keeps it |
| `WrappingIntegers.UnwrapNearest` | libsponge/wrapping_integers.cc:37-57 | the unwrapped value wraps to `n` and is the nearest such value to the checkpoint if and only if neither comparison overflows 64 bits |
| `WrappingIntegers.OverflowMisses` | libsponge/wrapping_integers.cc:48-51 | where a comparison overflows, another value is strictly nearer |
| `WrappingIntegers.UnwrapWraps` | libsponge/wrapping_integers.cc:17-57 | wrapping undoes unwrapping for every input |
| `WrappingIntegers.UnwrapWrap` | libsponge/wrapping_integers.cc:17-57 | unwrapping undoes wrapping within 2^31 of the checkpoint |
| `AssemblyRuns.RunRefines` | libsponge/stream_reassembler.cc:29-52 | any run of pushes and reads keeps exactly the positions a plain set of received positions has; the output is their longest prefix and the store holds the rest |
| `AssemblyRuns.RunAgrees` | libsponge/stream_reassembler.cc:29-52 | if everything pushed is a part of one stream, so is everything kept |
| `AssemblyRuns.PushHas` | libsponge/stream_reassembler.cc:147-196 | after a push a position is there exactly if it was there, or is in the data and the window |
| `AssemblyRuns.WindowEnd` | libsponge/byte_stream.cc:96-104 | the window always ends at capacity plus bytes read |
| `AssemblyRuns.EdgeMonotone` | libsponge/stream_reassembler.cc:147-149 | so the end of the window never moves left over a run |
| `AssemblyRuns.RunEndsExactly` | libsponge/stream_reassembler.cc:36-51 | in a run whose end marks come with the last byte while there is room, the input has ended in exactly the states in which one was kept whole and the last byte is written |
| `AssemblyRuns.PushEndsExactly` | libsponge/stream_reassembler.cc:29-52 | one push: the mark is kept exactly if the substring ends in the window past what is assembled |
| `AssemblyRuns.EndsAtOnceIff` | libsponge/stream_reassembler.cc:156-158 | a push with the true end ends the input early at that very push if and only if it has no data or there is no room, and nothing is held |
| `EarlyEnds.EndsEarlyIff` | libsponge/stream_reassembler.cc:156-158 | a push with the true end is harmless in every continuation of genuine data if and only if it has data while there is room, or the last byte is there |
| `EarlyEnds.EndsEarly` | libsponge/stream_reassembler.cc:36-51 | a mark kept while the last byte is missing ends the output early in some continuation: at once if nothing is held, otherwise when the gaps before what is held are closed |
| `AssemblyRuns.BareEndOvertakes` | libsponge/stream_reassembler.cc:156-158 | a run that ends every non-empty stream before its first byte |
| `Chunks.SpliceOverlay` | libsponge/stream_reassembler.cc:89-114 | replacing all touching chunks by the first, the data and the last lays the data over the bytes held, although the chunks between are dropped unread |
| `Chunks.SpliceApart` | libsponge/stream_reassembler.cc:67-114 | the result is again sorted, non-empty and non-adjacent |
| `Chunks.SplicedReplaces` | libsponge/stream_reassembler.cc:89-96 | what the two `merge_string` calls build, byte by byte |
| `Chunks.TotalLengthIsCount` | libsponge/stream_reassembler.cc:98-114 | chunk lengths add up to the number of distinct positions stored |
| `StreamReassembler.ValidateClips` | libsponge/stream_reassembler.cc:147-196 | the branches of `validate` take exactly the part of the substring inside the window, and the end mark only with its last byte |
| `StreamReassembler.CounterWraps` | libsponge/stream_reassembler.cc:98-114 | the counter update is right although its inner difference wraps below zero |
| `StreamReassembler.StreamReassembler.constructor` | libsponge/stream_reassembler.cc:17-24 | an empty assembly |
| `StreamReassembler.StreamReassembler.Scan` | libsponge/stream_reassembler.cc:67-87 | finds exactly the range of chunks that touch the data, and the start and first part of the merged chunk |
| `StreamReassembler.StreamReassembler.Locate` | libsponge/stream_reassembler.cc:67-96 | the merged chunk holds the data laid over what is stored, inside the window |
| `StreamReassembler.StreamReassembler.EraseChunks` | libsponge/stream_reassembler.cc:98-104 | erases those chunks and nothing else, and adds up their bytes |
| `StreamReassembler.StreamReassembler.MergeStore` | libsponge/stream_reassembler.cc:58-115 | the store holds the data laid over what it held, stays in shape and in the window, and the counter counts it |
| `StreamReassembler.StreamReassembler.Merge` | libsponge/stream_reassembler.cc:58-115 | the same, on the object |
| `StreamReassembler.StreamReassembler.WriteFront` | libsponge/stream_reassembler.cc:124-140 | the first chunk always fits, so the branch that reads an erased iterator is dead (`assert false`) |
| `StreamReassembler.StreamReassembler.ReorderBuffer` | libsponge/stream_reassembler.cc:117-145 | writes exactly the contiguous bytes |
| `StreamReassembler.StreamReassembler.Finish` | libsponge/stream_reassembler.cc:44-51 | the input ends exactly when the mark is kept and nothing is stored |
| `StreamReassembler.StreamReassembler.PushSubstring` | libsponge/stream_reassembler.cc:29-52 | refines the push of the position-to-byte model, for every substring, conflicting bytes included |
| `StreamReassembler.StreamReassembler.Accounting` | libsponge/stream_reassembler.cc:54-54 | the counter is the number of distinct positions stored; with the unread bytes they fit the capacity |
| `StreamReassembler.StreamReassembler.Empty` | libsponge/stream_reassembler.cc:56-56 | true exactly if no position is stored |
| `SenderRuns.RunInv` | libsponge/tcp_sender.cc:29-187 | in every run: the outstanding map tiles [next - in flight, next) with the matching slices of the stream, the next number is SYN plus bytes plus FIN, the window, timer and queue are in order |
| `SenderRuns.OneFin` | libsponge/tcp_sender.cc:48-91 | a run sends at most one new FIN, and has sent one exactly if the flag says so |
| `SenderRuns.FinIsLast` | libsponge/tcp_sender.cc:72-90 | every FIN ever queued takes the last sequence number, after the last byte |
| `SenderInvariant.FillWindowInv` | libsponge/tcp_sender.cc:48-91 | filling keeps next plus usable window constant, drains the stream or uses up the window, and then sends the FIN if there is room; the reused segment carries no stale payload into a bare FIN |
| `SenderInvariant.FillOneIs` | libsponge/tcp_sender.cc:61-81 | the 16-bit subtractions of one iteration do not wrap |
| `SenderSteps.ForgetTiles` | libsponge/tcp_sender.cc:109-121 | an acknowledgment at which a segment ends leaves exactly the segments that end after it; one at which none ends leaves everything |
| `SenderSteps.AcknowledgeWindow` | libsponge/tcp_sender.cc:123-125 | the new usable window ends exactly at ackno plus max(window, 1): the 16-bit field loses nothing |
| `SenderSteps.AckReceivedInv` | libsponge/tcp_sender.cc:95-144 | any acknowledgment keeps the invariant once the SYN is out |
| `SenderSteps.TimeoutIs` | libsponge/tcp_sender.cc:158-169 | the doubled timeout is the initial one times a power of two modulo 2^32, and exact for sixteen doublings |
| `SenderSteps.TickRetransmits` | libsponge/tcp_sender.cc:147-174 | a tick sends the lowest outstanding segment exactly when the timeout is reached, counted unless the window is closed |
| `SenderSteps.TickInv` | libsponge/tcp_sender.cc:147-174 | a tick keeps the invariant |
| `SenderLimits.AckTimer` | libsponge/tcp_sender.cc:127-143 | section 5 of RFC 6298: an acknowledgment of nothing new leaves timer and backoff alone, a newer one starts the timer afresh |
| `SenderLimits.AckWindowIff` | libsponge/tcp_sender.cc:54-59 | after an acknowledgment the usable window ends exactly at ackno plus max(window, 1) if and only if the SYN was out before |
| `SenderEdges.AckEdge` | libsponge/tcp_sender.cc:95-125 | once the SYN is out, every acknowledgment of no more than was sent leaves the right edge of the usable window at exactly its number plus its window, at least one, or at what is sent if that is more, the early return for a stale one included; one of more than was sent changes nothing |
| `SenderEdges.EdgeHolds` | libsponge/tcp_sender.cc:95-144 | from one acknowledgment to the next, whatever else is called, no segment ends past that edge, and filling the window reaches it or the end of the stream |
| `SenderEdges.FillReaches` | libsponge/tcp_sender.cc:45-91 | filling the window takes the next sequence number to exactly the edge or the end of what there is to send |
| `SegmentSizes.RunSmall` | libsponge/tcp_sender.cc:61-70 | in every run no segment queued or stored has more than 1452 bytes |
| `SegmentSizes.FillFull` | libsponge/tcp_sender.cc:61-91 | one call takes exactly the lesser of the stream and the window, in segments of 1452 bytes and a last one of what is left; without data it sends at most one segment |
| `SenderLimits.WriteInvIff` | libsponge/byte_stream.cc:22-41 | a write keeps the sender's invariant if and only if it comes before the FIN or adds nothing |
| `SenderLimits.LateWriteMisplaced` | libsponge/byte_stream.cc:22-41 | bytes written after the FIN go out one sequence number too high |
| `TcpSender.TcpSender.constructor` | libsponge/tcp_sender.cc:22-25 | a fresh sender |
| `TcpSender.TcpSender.SendSegment` | libsponge/tcp_sender.cc:29-46 | new state as specified: numbered, queued, stored under its end, timer started if off |
| `TcpSender.TcpSender.FillWindow` | libsponge/tcp_sender.cc:48-91 | the loop computes the recursive specification and terminates |
| `TcpSender.TcpSender.Forget` | libsponge/tcp_sender.cc:109-121 | the erasing loop computes the specification about which ForgetTiles speaks |
| `TcpSender.TcpSender.AckReceived` | libsponge/tcp_sender.cc:95-144 | new state as specified |
| `TcpSender.TcpSender.Tick` | libsponge/tcp_sender.cc:147-174 | new state as specified |
| `TcpSender.TcpSender.SendEmptySegment` | libsponge/tcp_sender.cc:178-187 | new state as specified |
| `TcpState.SummaryIsHistory` | libsponge/tcp_helpers/tcp_state.cc:94-110 | each summary is reported if and only if the history says so: SYN sent, SYN outstanding, FIN sent and outstanding, everything acknowledged |
| `ReceiverRuns.WindowIsAcceptance` | libsponge/tcp_receiver.cc:36-61 | before any FIN, a byte of a segment is kept if and only if its number lies in [ackno, ackno + window) |
| `ReceiverRuns.SegmentStores` | libsponge/tcp_receiver.cc:15-47 | for any segment the receiver looks at, with SYN or FIN or neither: exactly which positions are there afterwards, and the acknowledgment number |
| `ReceiverRuns.SynData` | libsponge/tcp_receiver.cc:34-34 | data that comes with the SYN is the start of the stream, as far as there is room |
| `ReceiverRuns.SegmentAtZeroIgnored` | libsponge/tcp_receiver.cc:36-45 | the exception: a segment without SYN at number zero is dropped whole |
| `ReceiverRuns.EdgesNeverMoveLeft` | libsponge/tcp_receiver.cc:59-61 | over any run up to the first FIN the right edge never moves left, also when clipped to 16 bits |
| `ReceiverRuns.RunAcksNext` | libsponge/tcp_receiver.cc:36-57 | before any FIN the acknowledgment number is the one after the last byte assembled |
| `TcpReceiver.TcpReceiver.constructor` | libsponge/tcp_receiver.hh:34-34 | a fresh receiver |
| `TcpReceiver.TcpReceiver.SegmentReceived` | libsponge/tcp_receiver.cc:15-47 | new state as specified, on top of the real reassembler |
| `TcpReceiver.TcpReceiver.Ackno` | libsponge/tcp_receiver.cc:50-57 | the number exactly when the SYN is there |
| `TcpReceiver.TcpReceiver.WindowSize` | libsponge/tcp_receiver.cc:59-61 | the room of the output |
| `TcpConnection.TcpConnection.constructor` | libsponge/tcp_connection.hh:92-92 | a fresh connection |
| `TcpConnection.TcpConnection.Active` | libsponge/tcp_connection.cc:87-108 | the query agrees with the model that LingerBound and GiveUpBound speak of |
| `TcpConnection.TcpConnection.SegmentReceived` | libsponge/tcp_connection.cc:30-85 | new state as specified |
| `TcpConnection.TcpConnection.Write` | libsponge/tcp_connection.cc:110-124 | new state as specified, and the number of bytes taken |
| `TcpConnection.TcpConnection.Tick` | libsponge/tcp_connection.cc:127-144 | new state as specified |
| `TcpConnection.TcpConnection.EndInputStream` | libsponge/tcp_connection.cc:146-152 | new state as specified |
| `TcpConnection.TcpConnection.Connect` | libsponge/tcp_connection.cc:154-164 | new state as specified |
| `TcpConnection.TcpConnection.UncleanShutdown` | libsponge/tcp_connection.cc:178-192 | new state as specified |
| `TcpConnection.TcpConnection.FlushBuffer` | libsponge/tcp_connection.cc:194-211 | the loop stamps and moves the whole queue in order |
| `ConnectionInvariant.ReceiveKeeps` | libsponge/tcp_connection.cc:30-85 | receiving a segment keeps the connection's invariant: all it ever sent is a part of its stream, and it acknowledges only a peer that has sent its SYN |
| `ConnectionInvariant.TickKeeps` | libsponge/tcp_connection.cc:127-144 | so does a tick, which leaves the count at eight or less or ends the connection at nine |
| `ConnectionInvariant.WriteKeeps` | libsponge/tcp_connection.cc:110-124 | so does a write |
| `ConnectionInvariant.EndInputKeeps` | libsponge/tcp_connection.cc:146-152 | so does ending the stream |
| `ConnectionInvariant.ConnectKeeps` | libsponge/tcp_connection.cc:154-164 | so does connecting, at any time |
| `ConnectionInvariant.ShutdownSends` | libsponge/tcp_connection.cc:178-192 | so does an unclean shutdown, whatever is in the queue |
| `InternetChecksum.WordSumSplit` | libsponge/util/util.cc:89-98 | the sum does not depend on how the data is split between calls, odd lengths included |
| `InternetChecksum.ChecksIff` | libsponge/util/util.cc:100-108 | the value is zero if and only if the sum is a positive multiple of 65535 |
| `InternetChecksum.ChecksumChecks` | libsponge/util/util.cc:100-108 | adding the checksum of any sum makes the check succeed |
| `InternetChecksum.FoldMod` | libsponge/util/util.cc:100-108 | the folding loop reduces modulo 65535 |
| `InternetChecksum.InternetChecksum.constructor` | libsponge/util/util.cc:87-87 | the initial sum |
| `InternetChecksum.InternetChecksum.Add` | libsponge/util/util.cc:89-98 | adds the big-endian words of the data in 32 bits, keeping the parity between calls |
| `InternetChecksum.InternetChecksum.Value` | libsponge/util/util.cc:100-108 | the complement of the fold |
| `NetParser.IntOfBytes` | libsponge/util/parser.cc:26-60 | reading a number back from its big-endian bytes returns it and leaves the rest |
| `NetParser.NumberOfBytes` | libsponge/util/parser.cc:26-60 | the bytes of a number denote it |
| `NetParser.NetParser.ParseInt` | libsponge/util/parser.cc:26-43 | the shifting loop computes the big-endian number and consumes it, or records an error and consumes nothing |
| `NetParser.NetParser.RemovePrefix` | libsponge/util/parser.cc:45-51 | consumes exactly the prefix or records the error |
| `NetParser.UnparseInt` | libsponge/util/parser.cc:53-60 | appends the big-endian bytes |
| `TcpWire.HeaderRoundTripIff` | libsponge/tcp_helpers/tcp_header.cc:17-78 | parsing a serialized header gives it back with nothing consumed of what follows, if and only if its data offset is at most 15 |
| `TcpWire.SegmentChecks` | libsponge/tcp_helpers/tcp_segment.cc:30-45 | a serialized segment passes the checksum test |
| `TcpWire.SegmentRoundTrip` | libsponge/tcp_helpers/tcp_segment.cc:12-45 | parsing a serialized segment gives it back with the checksum filled in |
| `Layouts.SegmentVerdict` | libsponge/tcp_helpers/tcp_segment.cc:12-23 | for any bytes: a bad checksum if and only if the one's complement sum is not a positive multiple of 65535, else too short exactly if the header is not whole, else the segment with its fields at their offsets |
| `Layouts.ParsedHeader` | libsponge/tcp_helpers/tcp_header.cc:17-48 | for any bytes: every field read at its offset, the flags at their bits, and where the payload starts |
| `Layouts.TcpLayout` | libsponge/tcp_helpers/tcp_header.cc:51-78 | every field written at its offset, high byte first, and zeros after them |
| `TcpWire.SerializeHeader` | libsponge/tcp_helpers/tcp_header.cc:51-78 | the appended string is the specified layout, or the error for a short offset |
| `TcpWire.ParseHeaderFrom` | libsponge/tcp_helpers/tcp_header.cc:17-48 | fields, rest and result as specified, errors included |
| `TcpWire.SerializeSegment` | libsponge/tcp_helpers/tcp_segment.cc:30-45 | the bytes as specified |
| `TcpWire.ParseSegmentFrom` | libsponge/tcp_helpers/tcp_segment.cc:12-23 | segment and result as specified |
| `Ipv4Wire.Header4RoundTrip` | libsponge/tcp_helpers/ipv4_header.cc:23-110 | parsing a serialized header with its checksum gives it back and passes every check |
| `Ipv4Wire.DatagramRoundTrip` | libsponge/tcp_helpers/ipv4_datagram.cc:11-41 | parsing a serialized datagram gives it back with the checksum filled in |
| `Layouts4.Ipv4Layout` | libsponge/tcp_helpers/ipv4_header.cc:78-110 | every field written at its offset, high byte first, and zeros after them |
| `Layouts4.Header4Verdict` | libsponge/tcp_helpers/ipv4_header.cc:23-75 | for any packet: the fields at their offsets and which error, or none, in which order |
| `Layouts4.DatagramAcceptedIff` | libsponge/tcp_helpers/ipv4_datagram.cc:11-21 | exactly which packets the datagram parser accepts: every whole one whatever its checksum, and some that are not |
| `Layouts4.PseudoIsSum` | libsponge/tcp_helpers/ipv4_header.cc:125-131 | the pseudo-header's contribution is the sum of the words of its twelve bytes |
| `Ipv4Wire.SerializeHeader4` | libsponge/tcp_helpers/ipv4_header.cc:78-110 | the specified layout, or the errors |
| `Ipv4Wire.ParseHeader4From` | libsponge/tcp_helpers/ipv4_header.cc:23-75 | fields, rest and result as specified, errors included |
| `Ipv4Wire.ParseDatagramFrom` | libsponge/tcp_helpers/ipv4_datagram.cc:11-21 | datagram and result as specified; the header parser's verdict is not looked at |
| `Ipv4Wire.SerializeDatagram` | libsponge/tcp_helpers/ipv4_datagram.cc:23-41 | the bytes as specified, or the error |
| `TcpOverIp.SegmentCrosses` | libsponge/tcp_helpers/tcp_over_ip.cc:26-90 | between mirrored adapters, wrapping, serializing, parsing and unwrapping returns every segment that fits, with ports and checksum filled in |
| `TcpOverIp.ListenerLearns` | libsponge/tcp_helpers/tcp_over_ip.cc:54-63 | a listening adapter takes exactly a SYN without RST, and then mirrors the sender's configuration |
| `WireRuns.WireIsTransparent` | libsponge/tcp_helpers/tcp_over_ip.cc:26-90 | every segment sent in any run of two connections fits a datagram of at most 1492 bytes, and carried as bytes between mirrored adapters it does to any connection exactly what the segment itself does |
| `Corruption.UnwrapIff` | libsponge/tcp_helpers/tcp_over_ip.cc:26-71 | the adapter returns a segment if and only if the protocol is 6, the sum checks, the header is whole, bytes 2 and 3 are our port, and either the addresses and bytes 0 and 1 are those of the connection or, while listening, byte 13 has SYN without RST; the result in terms of the bytes |
| `Corruption.SentBytes` | libsponge/tcp_helpers/tcp_over_ip.cc:75-90 | what goes over the wire for a segment, byte by byte |
| `Corruption.DamageIsDropped` | libsponge/tcp_helpers/tcp_segment.cc:12-17 | if one byte of a segment changes on the wire, no adapter returns anything and none changes |
| `Corruption.ByteDamaged` | libsponge/tcp_helpers/tcp_segment.cc:12-17 | a serialized segment with one byte changed is refused for its checksum |
| `Corruption.WordDamaged` | libsponge/tcp_helpers/tcp_segment.cc:12-17 | one with a 16-bit word changed is refused if and only if the two words differ modulo 65535 |
| `Corruption.Misdelivered` | libsponge/tcp_helpers/tcp_segment.cc:12-17 | one under a pseudo-header that differs modulo 65535 is refused |
| `TcpOverIp.TcpOverIpv4Adapter.Wrap` | libsponge/tcp_helpers/tcp_over_ip.cc:75-90 | the datagram as specified |
| `TcpOverIp.TcpOverIpv4Adapter.Unwrap` | libsponge/tcp_helpers/tcp_over_ip.cc:26-71 | the segment and the new configuration as specified |
| `InterfaceRuns.Conservation` | libsponge/network_interface.cc:45-67 | in every run, for each next hop, the datagrams sent followed by those queued are exactly those submitted, in order |
| `InterfaceRuns.MappingsAge` | libsponge/network_interface.cc:168-186 | in every run, an address taken from the table is the one of the last lesson about that hop, at most 30000 ms before, and what is queued goes out to it at once, up to the first datagram that cannot be serialized |
| `InterfaceRuns.DestinationIff` | libsponge/network_interface.cc:123-160 | in every run, whenever datagrams go out to a hop, by a send or by an ARP reply, the table has a lesson for it of at most 30000 ms, and they go to its address if and only if the event is a send or the reply names that address as its sender |
| `Ageing.MappingLifetime` | libsponge/network_interface.cc:168-186 | in every run a mapping stays as it is up to 30000 ms after the time of its entry, and one that is there later has an entry of its own |
| `Ageing.AsksIff` | libsponge/network_interface.cc:62-96 | a send to an unknown hop broadcasts a request, given in full, if and only if there is no entry for the hop or it is more than 5000 ms old |
| `Ageing.AsksAgain` | libsponge/network_interface.cc:70-93 | with no answer, no second request for 5000 ms, and then one with every send until the entry expires |
| `Ageing.RepliesIff` | libsponge/network_interface.cc:133-157 | a frame is answered, with the reply given in full, if and only if it is for this interface and carries a request for its address |
| `Ageing.LearnsIff` | libsponge/network_interface.cc:122-132 | a message teaches the source of its frame if and only if it is for this interface and its sender is unknown |
| `Deliveries.HandedUp` | libsponge/network_interface.cc:100-115 | a frame hands up a datagram if and only if it is for this interface or broadcast and carries it, and then nothing else changes |
| `Deliveries.LinkDelivers` | libsponge/network_interface.cc:35-207 | in every run in which an address belongs to one hop alone, the interface with that address hands up exactly the datagrams submitted for that hop, in order and each once, but for those still queued |
| `Deliveries.NobodyElse` | libsponge/network_interface.cc:105-106 | an interface whose address nobody has named hands up nothing |
| `InterfaceRuns.Resolves` | libsponge/network_interface.cc:64-160 | a request for an unknown hop, answered by the interface with that address, releases the queue to its true Ethernet address, in order, up to the first datagram that cannot be serialized |
| `NetworkInterface.NetworkInterface.constructor` | libsponge/network_interface.cc:23-27 | an empty interface |
| `NetworkInterface.NetworkInterface.FlushBuffer` | libsponge/network_interface.cc:188-207 | the loop sends the queue in order up to the first datagram that cannot be serialized, which stays at the front; throws exactly if there is one |
| `NetworkInterface.NetworkInterface.SendDatagram` | libsponge/network_interface.cc:35-97 | new state as specified, and whether it throws |
| `NetworkInterface.NetworkInterface.RecvFrame` | libsponge/network_interface.cc:100-165 | new state and result as specified, and whether it throws |
| `NetworkInterface.NetworkInterface.Tick` | libsponge/network_interface.cc:168-186 | the two loops remove exactly the expired mappings |
| `ByteStreams.ByteStream.constructor` | libsponge/byte_stream.cc:15-20 | an empty stream |
| `ByteStreams.ByteStream.Write` | libsponge/byte_stream.cc:22-41 | appends as much of the data as there is room for and says how much |
| `ByteStreams.ByteStream.PeekOutput` | libsponge/byte_stream.cc:44-52 | the first unread bytes |
| `ByteStreams.ByteStream.PopOutput` | libsponge/byte_stream.cc:55-68 | marks them read; the buffer list never throws |
| `ByteStreams.ByteStream.Read` | libsponge/byte_stream.cc:73-80 | returns and marks them read |
| `ByteStreams.ByteStream.EndInput` | libsponge/byte_stream.cc:82-82 | sets the end mark and nothing else |
| `ByteStreams.ByteStream.SetError` | libsponge/byte_stream.hh:47-47 | sets the error flag and nothing else |
| `ByteStreams.ByteStream.BufferSize` | libsponge/byte_stream.cc:86-86 | bytes written and not read |
| `ByteStreams.ByteStream.RemainingCapacity` | libsponge/byte_stream.cc:96-104 | the room left |
| `ByteStreams.ByteStream.Eof` | libsponge/byte_stream.cc:90-90 | ended and all read |
| `Buffers.BufferList.Append` | libsponge/util/buffer.cc:15-19 | the concatenation grows by the other list's |
| `Buffers.BufferList.Concatenate` | libsponge/util/buffer.cc:34-41 | the concatenation |
| `Buffers.BufferList.Size` | libsponge/util/buffer.cc:43-49 | its length |
| `Buffers.BufferList.RemovePrefix` | libsponge/util/buffer.cc:51-65 | drops exactly n bytes of the concatenation, with empty buffers present, or reports that there are fewer |

## Left out

- Applications, event loop, file descriptors, sockets, TUN/TAP and the UDP and lossy adapters: system calls and threads; the channel of the model already loses, repeats and reorders.
- The router: the comparator of its table is not an ordering, so the code does not decide what the container does.
- `Address`, printing, hexdump, `to_string` and random number seeding: plumbing.
- `BufferViewList`, the conversion of a buffer list to one buffer, and shared ownership inside `Buffer`: used only to hand bytes to system calls, or to save copies; no modelled operation depends on them.
- The byte formats of ARP messages and Ethernet frames: frames are values; a payload that does not parse is one value. A datagram that cannot be serialized makes the interface throw, as in the source.
- Liveness and throughput: a stale acknowledgment can close the usable window with no timer running.
- The destructor of the connection, which shuts down an active one, and the receiver's state summary.
- Sequence numbers beyond 2^31 in one run, except in `LongPrefixSafety`: the other theorems that need exact unwrapping are stated for fewer.
- 64-bit wrap-around of the counters of bytes read and written, of the next sequence number and of the clocks.

# A verified model of a user-space TCP/IP stack

A Dafny model of the TCP, IP and ARP code under `src/sponge/libsponge`, with machine-checked proofs of what that
code is for: a reliable byte stream over a network that loses, repeats and reorders; wire formats that undo each
other; an address cache that agrees with history; canonical longest-prefix forwarding.

`dafny verify dfyconfig.toml` checks the project.

## How it is laid out

Every component that the code keeps as an object with mutable fields appears twice. A *model* gives the component
as a value with one function per operation, in the code's own branches and machine widths; a *class* has the
code's fields and loops, and each of its methods is proved to compute the model's function. The properties, over
single operations and over whole runs, are proved about the models.

| files | what they hold |
|---|---|
| `Numbers`, `Options`, `WrappingIntegers`, `Buffers`, `ByteStream` | machine widths, 32-bit sequence numbers, chunk lists, the bounded FIFO |
| `Assembly`, `Intervals`, `StreamReassembler` | the reassembler as a set of accepted positions; the ordered set of blocks and its two merge loops; the class that refines the first by the second |
| `TcpSegment`, `TcpReceiver` | segments as slices of SYN·S·FIN; the receiver, its acknowledgement and window |
| `SenderModel`, `TcpSender`, `SenderInvariant`, `SenderProperties`, `SenderRuns`, `Retransmission` | the sender, what its operations keep and must do, window and timer properties, whole runs |
| `ConnectionModel`, `TcpConnection`, `ConnectionInvariant`, `ConnectionRuns`, `Timeouts`, `TcpState` | one endpoint: opening, closing, resending, giving up, and the stages read from its counters |
| `EndToEnd`, `StreamEnd`, `Acknowledgements`, `Received`, `FlowControl`, `Answers`, `Progress`, `BareSyn`, `EarlyFin` | two endpoints and the set of all segments ever sent; delivery picks any member any number of times; when a stream ends, what an acknowledgement proves, the peer's window, what an arrival must bring about, and two runs where an acknowledgement proves nothing |
| `Checksum`, `NetCodec`, `TcpWire`, `Ipv4`, `TcpOverIp` | RFC 1071 checksum, big-endian fields, section 3.1 of RFC 793 and of RFC 791, TCP in IPv4 |
| `NetworkInterface`, `Router` | ARP cache with parked datagrams (RFC 826); longest-prefix match (section 5.2.4.3 of RFC 1812) |

## Conditions carried explicitly

- A stream stays below INT32_MAX - 2 bytes and nothing is written after its end (`Enabled`, `Allowed`): the
  reassembler's "no end seen" mark is INT32_MAX, several sender fields are 32 bits wide, and `ByteStream::write` does
  not test for the end.
- `PushSubstring` asks that `cur_idx + capacity + length` fits in 64 bits, so that the sums of the code do not wrap.
- Sequence numbers, windows, RTO, timer, byte counts and `end of front` are cut to the widths the code gives them.

## Where code and documentation disagree

The model follows the code. Each disagreement is a lemma with a concrete input and, where one exists, the exact
condition under which the code meets its description.

- `unwrap` is documented to return the closest candidate; beyond 2^63 it does not (`UnwrapMissesBeyond63Bits`,
  `UnwrapIsNearestIff`).
- A string pushed with eof that is clipped by the window, or is empty and ahead of missing bytes, ends the stream
  early (`EmptyEofAheadEndsEarly`, `ClippedEofEndsEarly`, `EndExactIff`); on the wire a FIN that overtakes its data
  does this (`FinOvertakesDataInRun`, `EndedMeansCompleteIff`), and its acknowledgement then covers a byte that has not
  arrived (`EarlyFinAcknowledgesUnreceived`, `AcknowledgedIsReceivedIff`). Position INT32_MAX ends a stream that nobody
  ended (`LongPushEndsStream`, `SentinelEndsStreamIff`).
- A window that shrinks below what was sent makes the unsigned free space wrap, and data is sent outside the window
  (`ShrunkWindowIsOverrun`, `StaysInWindowIff`).
- FIN may go one beyond the window, because the test compares with the whole window (`FinIsSentBeyondWindow`,
  `FinSpillsIff`).
- `ack_received` is called for segments without the ACK flag too, with number zero; a repeated SYN can so acknowledge
  data that never arrived (`BareSynAcknowledgesUnreceived`, `AcknowledgedIsReceivedIff`).
- A second datagram for an unresolved hop is pushed to a copy of the queue and lost (`SecondDatagramNeverLeaves`,
  `SecondDatagramIsLostIff`).
- The results of the TCP and IPv4 header parsers are discarded by their callers, so that headers they report are
  accepted (`ShortHeaderIsAccepted`, `SegmentAcceptedIff`; `ZeroChecksumIsAccepted`, `DatagramAcceptedIff`).

## Model

| member | source | states |
|---|---|---|
| `WrappingIntegers.UnwrapIsNearestIff` | src/sponge/libsponge/wrapping_integers.cc:31-38 | for every n, ISN and checkpoint: the result is the closest number to the checkpoint that wraps to n if and only if checkpoint + offset stays below 2^63 (or is the exact midpoint of two candidates) |
| `WrappingIntegers.UnwrapWrapsBack` | src/sponge/libsponge/wrapping_integers.cc:17-38 | unwrapping any 32-bit number against any checkpoint and wrapping again gives the number back, over the whole 64-bit range |
| `WrappingIntegers.UnwrapInvertsWrap` | src/sponge/libsponge/wrapping_integers.hh:25-47 | unwrap(wrap(v)) = v whenever v is below 2^63 and v - checkpoint is in [-2^31, 2^31) |
| `WrappingIntegers.UnwrapMissesBeyond63Bits` | src/sponge/libsponge/wrapping_integers.cc:34-36 | the documented promise fails: checkpoint 2^63, n = ISN = 0 gives a result 2^32 too large |
| `Buffers.RemovePrefix` | src/sponge/libsponge/util/buffer.cc:51-65 | dropping n bytes from a chunk list is dropping n bytes of the flat string, and fails exactly when there are fewer |
| `Buffers.Append` | src/sponge/libsponge/util/buffer.cc:15-19 | appending chunk lists concatenates the flat strings |
| `Buffers.Concatenate` | src/sponge/libsponge/util/buffer.cc:34-41 | the loop computes the flat string |
| `Buffers.Size` | src/sponge/libsponge/util/buffer.cc:43-49 | the loop computes the flat string's length |
| `ByteStream.FifoOrder` | src/sponge/libsponge/byte_stream.cc:14-50 | writes append as much as fits and no less, reads take as much as is asked for and there, from the front; nothing is reordered or lost, capacity is kept |
| `ByteStream.ByteStream.Write` | src/sponge/libsponge/byte_stream.cc:14-21 | the object over a chunk list does what the FIFO value does, and returns the count accepted |
| `ByteStream.ByteStream.Read` | src/sponge/libsponge/byte_stream.cc:45-50 | returns the first bytes buffered and removes exactly those |
| `ByteStream.ByteStream.PeekOutput` | src/sponge/libsponge/byte_stream.cc:24-30 | returns the first bytes buffered, fewer if there are fewer, and changes nothing |
| `ByteStream.ByteStream.PopOutput` | src/sponge/libsponge/byte_stream.cc:33-40 | drops the first bytes buffered, at most all of them |
| `StreamReassembler.StreamReassembler.PushSubstring` | src/sponge/libsponge/stream_reassembler.cc:45-111 | the interval-merging method computes the abstract push on 'set of received indices plus first missing index', and keeps the interval invariant |
| `StreamReassembler.StreamReassembler.MergeBlock` | src/sponge/libsponge/stream_reassembler.cc:58-96 | clipping plus both merge loops store exactly the window's share of the block, and the byte counter equals the sum of the stored blocks |
| `StreamReassembler.StreamReassembler.WriteFirst` | src/sponge/libsponge/stream_reassembler.cc:98-106 | one `if` is enough: after writing the first block nothing contiguous is left, and the write is never cut short |
| `StreamReassembler.Clip` | src/sponge/libsponge/stream_reassembler.cc:58-69 | cutting right, then left, leaves exactly the bytes inside the window |
| `Intervals.MergeTo` | src/sponge/libsponge/stream_reassembler.cc:14-38 | -1 exactly when there is a gap; otherwise the joined block, the overlap count, and whose bytes win |
| `Intervals.MergeRight` | src/sponge/libsponge/stream_reassembler.cc:75-81 | every stored block at or after the new one that touches it is absorbed; bytes and counter are conserved |
| `Intervals.MergeLeft` | src/sponge/libsponge/stream_reassembler.cc:82-94 | the same to the left, leaving no neighbour that touches |
| `Intervals.Insert` | src/sponge/libsponge/stream_reassembler.cc:72-96 | the stored set stays separated by missing bytes, and holds the union with each byte's winner determined |
| `Assembly.PushAccepts` | src/sponge/libsponge/stream_reassembler.cc:49-96 | a push adds exactly the positions it covers below bytes read + capacity |
| `Assembly.HeldIsHistory` | src/sponge/libsponge/stream_reassembler.cc:45-106 | after any interleaving of pushes and reads, the positions held are exactly those some push brought inside the window of its moment |
| `Assembly.OutputIsPrefixUpToFirstGap` | src/sponge/libsponge/stream_reassembler.cc:45-106 | over any interleaving of excerpts of one stream and reads: the output is the stream up to the least index never accepted, every pending byte is the stream's, buffered + pending bytes fit the capacity |
| `Assembly.OrderIndependence` | src/sponge/libsponge/stream_reassembler.cc:49-106 | any permutation of consistent pushes without a read in between gives the same output, the same held bytes and the same pending positions |
| `Assembly.CapacityBound` | src/sponge/libsponge/stream_reassembler.hh:36-38 | buffered plus unassembled bytes never exceed the capacity |
| `Assembly.PushExtendsOutput` | src/sponge/libsponge/stream_reassembler.cc:98-106 | delivered bytes never change, whatever is pushed, consistent or not |
| `Assembly.EndExactIff` | src/sponge/libsponge/stream_reassembler.cc:47-57 | one push keeps 'ended iff the end was declared and reached' if and only if it is not an eof push that is clipped, or empty and ahead of missing bytes, leaving no gap |
| `Assembly.EndExactOverRunsIff` | src/sponge/libsponge/stream_reassembler.cc:107-110 | over any run, for every arrival order: after each event the output is ended exactly when some push declared the end and the current index reached it, if and only if no push was such a one at its moment |
| `Assembly.EmptyEofAheadEndsEarly` | src/sponge/libsponge/stream_reassembler.cc:109-110 | an empty eof push ahead of two missing bytes ends the output empty |
| `Assembly.ClippedEofEndsEarly` | src/sponge/libsponge/stream_reassembler.cc:109-110 | a three-byte eof push into a two-byte window ends the output after two |
| `Assembly.SentinelEndsStreamIff` | src/sponge/libsponge/stream_reassembler.hh:29 | with no end declared, a push that is not the end leaves the output ended if and only if it was ended before, or the push leaves no gap and the current index reaches INT32_MAX |
| `Assembly.LongPushEndsStream` | src/sponge/libsponge/stream_reassembler.cc:107-108 | for instance by INT32_MAX bytes pushed into a new reassembler, none marked as the last |
| `StreamReassembler.StreamReassembler.UnassembledBytes` | src/sponge/libsponge/stream_reassembler.cc:113 | the running counter is the number of distinct positions waiting for a gap |
| `TcpReceiver.TcpReceiver.SegmentReceived` | src/sponge/libsponge/tcp_receiver.cc:16-46 | the object computes the receiver model, on top of the interval-based reassembler |
| `TcpReceiver.TcpReceiver.Ackno` | src/sponge/libsponge/tcp_receiver.cc:48-56 | no acknowledgement before SYN; then the wrapped receive base |
| `TcpReceiver.TcpReceiver.WindowSize` | src/sponge/libsponge/tcp_receiver.cc:58 | capacity less what the reader has not taken yet |
| `ReceiverModel.EdgeIsAcceptanceBound` | src/sponge/libsponge/tcp_receiver.cc:58 | ackno + window equals the reassembler's own acceptance bound in sequence space, and the window is between 0 and the capacity |
| `ReceiverModel.AckNeverDecreases` | src/sponge/libsponge/tcp_receiver.cc:42-58 | over any one segment and any one read, neither the ackno nor the right edge moves left |
| `ReceiverModel.AckCoversOnlyAssembled` | src/sponge/libsponge/tcp_receiver.cc:42-45 | in any one state before the end, every byte below the ackno has been assembled and the one at it has not |
| `ReceiverModel.FinAcknowledgedExactly` | src/sponge/libsponge/tcp_receiver.cc:43-45 | FIN is acknowledged if and only if it was seen and everything before it is assembled |
| `ReceiverModel.SliceKeepsFollowing` | src/sponge/libsponge/tcp_receiver.cc:36-41 | any slice of SYN·S·FIN, new, old or repeated, lands at its own stream index, so only bytes of S are ever held |
| `ReceiverModel.SliceIsTaken` | src/sponge/libsponge/tcp_receiver.cc:29-42 | a slice that is taken adds exactly the bytes of it that lie below the window's edge, each at its own place, and notes its FIN |
| `ReceiverModel.RestIsIgnored` | src/sponge/libsponge/tcp_receiver.cc:18-35 | a segment that is not taken adds nothing; on an open receiver that is a repeated FIN, with whatever data it carries |
| `ReceiverModel.InOrderAdvances` | src/sponge/libsponge/tcp_receiver.cc:36-45 | a taken slice with no gap before it moves the ackno past its end, or to the window's |
| `ReceiverModel.SliceKeepsEndExactIff` | src/sponge/libsponge/tcp_receiver.cc:29-45 | a segment keeps the end of the output exact if and only if its FIN, where taken, is not clipped or empty and ahead of missing bytes |
| `TcpSender.TcpSender.FillWindow` | src/sponge/libsponge/tcp_sender.cc:28-71 | the object with its loop computes the sender model, 32-bit arithmetic included |
| `TcpSender.TcpSender.AckReceived` | src/sponge/libsponge/tcp_sender.cc:75-121 | likewise, with the dropping loop, the timer and the refill |
| `TcpSender.TcpSender.Tick` | src/sponge/libsponge/tcp_sender.cc:124-141 | likewise, for time-out, retransmission and doubling |
| `TcpSender.TcpSender.SegmentHandler` | src/sponge/libsponge/tcp_sender.cc:153-165 | numbers, counts, remembers and queues a segment, and starts an idle timer |
| `TcpSender.TcpSender.SendEmptySegment` | src/sponge/libsponge/tcp_sender.cc:145-151 | an empty segment with the next number is queued, not remembered |
| `SenderRuns.InFlightTiles` | src/sponge/libsponge/tcp_sender.cc:75-165 | in every state of every run, under arbitrary acknowledgements: outstanding segments are non-empty consecutive slices that tile [next_seqno - bytes_in_flight, next_seqno), the accepted ackno lies in the first, the timer runs exactly while there is one, next_seqno = syn + bytes taken + fin |
| `SenderRuns.WindowIsRespected` | src/sponge/libsponge/tcp_sender.cc:41-85 | over runs whose acknowledgements do not move backwards: next_seqno never passes ackno + max(1, window) except by one for FIN, the unsigned subtraction is exact until FIN, and fill_window ends with window full, FIN sent, or nothing to send |
| `SenderProperties.StaysInWindowIff` | src/sponge/libsponge/tcp_sender.cc:47-70 | fill_window stays inside the window if and only if the window has not shrunk below what was sent, or there is no data |
| `SenderProperties.FreeIsExactIff` | src/sponge/libsponge/tcp_sender.cc:56 | the unsigned difference is the free space if and only if next_seqno does not exceed the edge; otherwise it is above 2^31 |
| `SenderRuns.ShrunkWindowIsOverrun` | src/sponge/libsponge/tcp_sender.cc:56-58 | a run reaches a sender with two bytes in flight and a window shrunk to one, and there a third byte is sent |
| `SenderProperties.FillWindowFills` | src/sponge/libsponge/tcp_sender.cc:41-71 | maximal filling from any state that does not overrun the window |
| `SenderProperties.FinSpillsIff` | src/sponge/libsponge/tcp_sender.cc:56-66 | fill_window passes the window, by FIN, if and only if the stream is ended, what is left fills the free part exactly, and the last segment is below the whole window |
| `SenderRuns.FinIsSentBeyondWindow` | src/sponge/libsponge/tcp_sender.cc:62 | a run reaches such a state: a window of two, one byte in flight, one to send, and FIN goes one beyond |
| `SenderProperties.AckReceivedObeys` | src/sponge/libsponge/tcp_sender.cc:79-120 | an acknowledgement that does not move backwards keeps everything sent inside the newly advertised window |
| `SenderInvariant.AckReceivedKeepsInv` | src/sponge/libsponge/tcp_sender.cc:75-121 | any acknowledgement number and window, honest or not, keeps tiling, timer and output invariants |
| `SenderInvariant.WriteKeepsInv` | src/sponge/libsponge/byte_stream.cc:14-21 | the application may write at any time before the end: what is in flight and what was sent stay slices of the longer stream |
| `SenderInvariant.FillWindowKeepsInv` | src/sponge/libsponge/tcp_sender.cc:28-71 | sending keeps the tiling, from any state and for any window, shrunk ones included |
| `SenderInvariant.EndOfFrontExact` | src/sponge/libsponge/tcp_sender.cc:91 | the unwrapped, 32-bit end of the front segment is its true end |
| `SenderInvariant.SendAllKeepsInv` | src/sponge/libsponge/tcp_sender.cc:56-70 | every segment of the loop is the next slice of SYN·S·FIN, of at most 1452 payload bytes |
| `SenderInvariant.TickKeepsInv` | src/sponge/libsponge/tcp_sender.cc:126-139 | a retransmission is the front segment again, and is never taken from an empty queue |
| `SenderProperties.FillWindowSendsEnd` | src/sponge/libsponge/tcp_sender.cc:41-55 | after fill_window, an ended and drained stream with nothing in flight has had its FIN sent |
| `SenderProperties.AllAcknowledged` | src/sponge/libsponge/tcp_sender.cc:113-118 | FIN sent and nothing in flight means every byte and the FIN were acknowledged |
| `SenderProperties.TickBacksOff` | src/sponge/libsponge/tcp_sender.cc:128-138 | the timeout doubles without overflow, and only after it has been waited out; what is counted is also retransmitted |
| `SenderProperties.AckReceivedKeepsBackoff` | src/sponge/libsponge/tcp_sender.cc:103-118 | an acknowledgement leaves count, timeout and timer alone or resets all three, and never puts the count ahead of the time waited |
| `SenderProperties.AckResetsIff` | src/sponge/libsponge/tcp_sender.cc:86-118 | an acknowledgement of something new sets timeout, count and timer back to initial, 0 and 0 if it covers the oldest segment, and leaves all three alone if it does not |
| `SenderProperties.AckReceivedFills` | src/sponge/libsponge/tcp_sender.cc:119-120 | it leaves the window that it opens full, FIN sent, or the stream empty and not ended, unless that window has shrunk below what was sent |
| `SenderRuns.AcksFillWindow` | src/sponge/libsponge/tcp_sender.cc:75-121 | so does every acknowledgement of something new in a run whose acknowledgements do not move backwards |
| `Retransmission.SilentBeforeTimeout` | src/sponge/libsponge/tcp_sender.cc:126-129 | in any run, with something outstanding and only ticks, nothing changes but the timer while the time passed is below the timeout |
| `Retransmission.RetransmitsAtTimeout` | src/sponge/libsponge/tcp_sender.cc:126-139 | the tick that reaches it sends exactly the oldest segment again; timeout and count grow if and only if the last accepted window was nonzero; the timer starts over |
| `Retransmission.BacksOffIff` | src/sponge/libsponge/tcp_sender.cc:81-82 | over any run the back-off flag says whether the last accepted acknowledgement advertised a window |
| `TcpSegment.SliceAtIsSlice` | src/sponge/libsponge/tcp_helpers/tcp_segment.cc:25-27 | a segment counts as a slice of SYN·S·FIN if and only if the symbols it carries are those at its own sequence number |
| `TcpConnection.TcpConnection.SegmentReceived` | src/sponge/libsponge/tcp_connection.cc:23-82 | the connection object computes the connection model: listening, opening, simultaneous opening, reset, exchange |
| `TcpConnection.TcpConnection.Tick` | src/sponge/libsponge/tcp_connection.cc:96-109 | likewise, with giving up after more than eight retransmissions |
| `TcpConnection.TcpConnection.Write` | src/sponge/libsponge/tcp_connection.cc:86-93 | likewise; returns the number of bytes accepted |
| `TcpConnection.TcpConnection.Connect` | src/sponge/libsponge/tcp_connection.cc:118-122 | the object computes the model's opening |
| `TcpConnection.TcpConnection.EndInputStream` | src/sponge/libsponge/tcp_connection.cc:111-116 | likewise |
| `TcpConnection.TcpConnection.SendSegsFromSender` | src/sponge/libsponge/tcp_connection.cc:134-145 | every queued segment is stamped with ackno and window and passed on in order, then the closing test is made |
| `TcpConnection.TcpConnection.CleanShutdown` | src/sponge/libsponge/tcp_connection.cc:147-160 | lingering and activity after the call, as in the model |
| `TcpConnection.TcpConnection.UncleanShutdown` | src/sponge/libsponge/tcp_connection.cc:162-173 | both streams fail, and the first queued segment leaves as a reset |
| `ConnectionInvariant.StepKeepsInv` | src/sponge/libsponge/tcp_connection.cc:23-173 | every public call keeps: sender and receiver invariants, every queued segment a slice of the stream, at most eight retransmissions while active, and a justified close |
| `ConnectionInvariant.InvIsReady` | src/sponge/libsponge/tcp_connection.cc:103-107 | the invariant gives what the next call needs: tick finds an outstanding segment, giving up finds one to stamp with RST |
| `ConnectionRuns.RunInv` | src/sponge/libsponge/tcp_connection.cc:23-173 | that invariant in every state of every run from a new connection |
| `ConnectionRuns.CleanCloseIsJustified` | src/sponge/libsponge/tcp_connection.cc:147-160 | over any run: inactive without an error means FIN sent, all bytes and FIN acknowledged, inbound ended; and when it stopped, either the peer had finished first at some moment or no segment had arrived during ten timeouts of ticks, counted from the events |
| `ConnectionRuns.CounterIsSilence` | src/sponge/libsponge/tcp_connection.cc:28 | until it stops, the connection's counter is the ticks since the last arrival in the events of the run |
| `ConnectionRuns.TickStopsWhenDone` | src/sponge/libsponge/tcp_connection.cc:96-109 | in any run, once both directions are done the next tick stops an active connection, without an error, if and only if it does not linger or the peer has been silent for ten timeouts by then |
| `ConnectionRuns.TimeoutNeverOverflows` | src/sponge/libsponge/tcp_connection.cc:96-109 | in every state of a run RTO = initial·2^k below 2^32, k at most 8 while active, and the timer runs exactly while something is outstanding |
| `ConnectionRuns.RetransmissionsTakeTime` | src/sponge/libsponge/tcp_sender.cc:124-141 | between any two states of a run, the first with no retransmission counted and whatever is acknowledged on the way, the k counted in the second took at least initial·(2^k - 1) ms, of ticks in between plus what the timer already showed |
| `Timeouts.RetransmissionsAreInTime` | src/sponge/libsponge/tcp_sender.cc:124-141 | the bound from the other side: with something in flight, a nonzero window and only ticks of at most g ms, going from count k to m takes at most initial·(2^(m+1) - 2^k) + (m - k)·g ms |
| `Timeouts.GivesUpInTime` | src/sponge/libsponge/tcp_connection.cc:96-109 | so a connection that hears nothing has stopped once 511 initial timeouts and eight ticks have passed |
| `Timeouts.TimerIsInTime` | src/sponge/libsponge/tcp_sender.cc:128-138 | between calls the timer never shows more than the timeout |
| `Timeouts.TickResends` | src/sponge/libsponge/tcp_connection.cc:96-109 | at the timeout, up to the eighth time, the oldest segment leaves the connection again, stamped |
| `Timeouts.TickGivesUp` | src/sponge/libsponge/tcp_connection.cc:103-107 | the ninth time both streams fail, the connection stops, and the first segment that leaves is a reset |
| `Answers.SegmentIsAnswered` | src/sponge/libsponge/tcp_connection.cc:69-81 | a segment that takes sequence space on an open connection is answered, and everything the call queues acknowledges what the receiver has after it |
| `Answers.AnsweredByPureAck` | src/sponge/libsponge/tcp_connection.cc:79-80 | with nothing else to send the answer is one empty segment at the next sequence number |
| `Answers.EmptyIsNotAnswered` | src/sponge/libsponge/tcp_connection.cc:79-81 | a segment without sequence space is not answered: only what its acknowledgement freed leaves |
| `Answers.ResetStops` | src/sponge/libsponge/tcp_connection.cc:71-76 | a reset stops an open connection, fails both streams, and exactly one segment leaves, itself a reset |
| `Answers.ListenerAnswersSyn` | src/sponge/libsponge/tcp_connection.cc:29-40 | a listening connection takes only a SYN, and answers with its own SYN that acknowledges it |
| `Answers.OpenerTakes` | src/sponge/libsponge/tcp_connection.cc:41-66 | after its SYN a connection takes a bare SYN and queues an acknowledgement, fails silently at a reset with ACK, and ignores data and whatever else lacks ACK |
| `Answers.ArrivalIsAcknowledged` | src/sponge/libsponge/tcp_connection.cc:69-81 | in every two-party run, after every arrival that takes sequence space at an open connection, an acknowledgement of all its receiver has is on the wire |
| `Progress.CallsFill` | src/sponge/libsponge/tcp_connection.cc:86-93 | after a write or the end of input the window is full, FIN sent, or there is nothing to send, and nothing stays queued |
| `Progress.ConnectSendsSyn` | src/sponge/libsponge/tcp_connection.cc:118-122 | connecting sends a SYN with the initial sequence number |
| `Progress.InFlightIsOnWire` | src/sponge/libsponge/tcp_connection.cc:134-145 | in every state of every two-party run each segment in flight is on the wire or still queued |
| `Progress.RoundTripAdvances` | src/sponge/libsponge/tcp_connection.cc:69-81 | progress of a round trip in any run: a part of the stream that fits reaches the other end, its answer comes back, and every byte up to the end of the part counts as acknowledged |
| `ConnectionRuns.LingerHistory` | src/sponge/libsponge/tcp_connection.cc:149-152 | lingering is off only if at some moment the inbound stream had ended before the outbound one |
| `TcpState.SummaryIsHistory` | src/sponge/libsponge/tcp_helpers/tcp_state.cc:94-110 | the stage read from counters is the stage of the history: SYN_SENT exactly while the SYN is unacknowledged, FIN_ACKED exactly when all of S and the FIN are acknowledged |
| `TcpState.StagesMoveForward` | src/sponge/libsponge/tcp_helpers/tcp_state.cc:94-110 | over any run without error the summary only moves forward |
| `TcpState.ReceiverSummaryIsHistory` | src/sponge/libsponge/tcp_helpers/tcp_state.cc:82-92 | in two-party runs whose FINs are in order, at both ends: FIN_RECV exactly when the peer's FIN arrived and everything it wrote was delivered; LISTEN exactly until a SYN |
| `EndToEnd.DeliveredIsPrefix` | src/sponge/libsponge/tcp_connection.cc:23-145 | end-to-end safety: two connections, both directions, any loss, duplication and reordering, any application calls and ticks: what was delivered is always a prefix of what the other application wrote |
| `EndToEnd.WireCarriesSlices` | src/sponge/libsponge/tcp_sender.cc:28-165 | every segment ever put on the wire, first send, retransmission or reset, carries the slice of SYN·S·FIN at its own sequence number, payload at most 1452, FIN only after the end |
| `StreamEnd.EndedMeansCompleteIff` | src/sponge/libsponge/tcp_receiver.cc:29-45 | in every state of a two-party run each inbound stream is ended exactly when the peer's FIN arrived and every byte the peer wrote was delivered, if and only if no FIN that a connection handed on to its receiver ended the stream early |
| `StreamEnd.RunKeepsMark` | src/sponge/libsponge/stream_reassembler.cc:47-48 | in every run, whatever the order, the end mark is the length of the peer's stream once FIN was taken and unset before |
| `StreamEnd.FinOvertakesData` | src/sponge/libsponge/stream_reassembler.cc:109-110 | the condition can fail: a bare FIN segment that overtakes the data ends the inbound stream empty |
| `Acknowledgements.AckNeverMovesBack` | src/sponge/libsponge/tcp_receiver.cc:42-58 | in every two-party run, from any state to any later one, neither ackno nor ackno + window moves back, at both ends |
| `Acknowledgements.AckIsAssembled` | src/sponge/libsponge/tcp_receiver.cc:42-45 | in every run whose FINs are in order, the bytes below the ackno are exactly the ones assembled, and they are the peer's; SYN and FIN counted |
| `Acknowledgements.AcknowledgedByPeerIff` | src/sponge/libsponge/tcp_connection.cc:69-70 | in every state of a run both senders take for acknowledged only what the other end itself acknowledges, if and only if no segment without the ACK flag is read as acknowledging more |
| `Received.AcknowledgedIsReceivedIff` | src/sponge/libsponge/tcp_connection.cc:69-70 | for every run: both senders always take for acknowledged only what has arrived without a gap, if and only if no segment is taken that lacks the ACK flag and reads as more, or that acknowledges a FIN counted when the stream was ended early |
| `Received.ReceivedInOrderIff` | src/sponge/libsponge/tcp_receiver.cc:42-45 | in runs whose FINs are in order, that is so if and only if no segment without the ACK flag is read as acknowledging something that has not arrived |
| `Acknowledgements.CleanCloseMeansDelivered` | src/sponge/libsponge/tcp_connection.cc:147-160 | in runs without false acknowledgements, a side that closed without an error has had every byte it wrote delivered and its end seen by the peer |
| `Received.CleanCloseHasReceived` | src/sponge/libsponge/tcp_connection.cc:147-160 | in runs whose FINs are in order, a side that closed without an error has received everything the peer wrote, and the peer has ended its stream |
| `Acknowledgements.StepStamps` | src/sponge/libsponge/tcp_connection.cc:124-145 | whatever a call queues, resets included, acknowledges exactly what the receiver acknowledges after the call, or has no ACK flag and number zero |
| `BareSyn.BareSynAcknowledgesUnreceived` | src/sponge/libsponge/tcp_connection.cc:70 | the condition can fail: a run of an ordinary handshake, four bytes written and the peer's first SYN repeated, after which the four bytes count as acknowledged and the peer has received none |
| `EarlyFin.FinOvertakesDataInRun` | src/sponge/libsponge/stream_reassembler.cc:109-110 | a run reaches a state in which one side wrote four bytes and the other side's inbound stream is ended with none of them in it |
| `EarlyFin.EarlyFinAcknowledgesUnreceived` | src/sponge/libsponge/tcp_receiver.cc:43-45 | from there, the receiver's own flagged acknowledgement makes the sender count a byte as acknowledged of which nothing has arrived |
| `FlowControl.NeverBeyondPeersWindow` | src/sponge/libsponge/tcp_receiver.cc:58 | in every two-party run in which acknowledgements do not move backwards at the sender, everything it has numbered lies inside the window the other end's receiver will accept, except for a probe of one number and for FIN |
| `EndToEnd.SwappedIsRun` | src/sponge/libsponge/tcp_connection.cc:23-145 | a run with its two sides exchanged is a run, so what is proved of one side holds of the other |
| `EndToEnd.AlwaysReady` | src/sponge/libsponge/tcp_connection.cc:96-109 | in every state of a two-party run both endpoints meet the model's conditions for every call: no empty queue is read, stream positions stay below 2^63 |
| `Received.AlwaysRoom` | src/sponge/libsponge/stream_reassembler.cc:48-52 | with receive capacities below 2^63, the 64-bit sums made for any segment on the wire are exact, which is what the class asks for beyond that |
| `Checksum.InternetChecksum.Add` | src/sponge/libsponge/util/util.cc:89-98 | adding chunks one after the other sums the concatenated string, modulo 2^32, with the parity carried over |
| `Checksum.ByteSumAppend` | src/sponge/libsponge/util/util.cc:89-98 | the sum does not depend on chunking, odd lengths included |
| `Checksum.InternetChecksum.Value` | src/sponge/libsponge/util/util.cc:100-108 | the folding loop computes the complement of the folded sum |
| `Checksum.FoldIsModulo` | src/sponge/libsponge/util/util.cc:103-105 | folding is reduction modulo 0xffff, with 0xffff in place of 0 for positive sums |
| `Checksum.ValueZeroIff` | src/sponge/libsponge/util/util.cc:100-108 | a positive sum is accepted exactly when it is a multiple of 0xffff |
| `Checksum.FilledInIsAccepted` | src/sponge/libsponge/util/util.cc:80-86 | any sum plus the value computed for it is accepted; TcpWire.ChecksumAccepted and Ipv4.HeaderAccepted make that a statement about messages |
| `NetCodec.NetParser.ParseInt` | src/sponge/libsponge/util/parser.cc:27-43 | the byte loop reads a big-endian number, or 0 with a sticky error |
| `NetCodec.NetParser.RemovePrefix` | src/sponge/libsponge/util/parser.cc:45-51 | drops bytes, or sets the sticky error and drops none |
| `NetCodec.UnparseInt` | src/sponge/libsponge/util/parser.cc:54-60 | shift and mask append the number's base-256 digits, high byte first |
| `NetCodec.ParseEncoded` | src/sponge/libsponge/util/parser.cc:26-60 | parsing an encoded list of fields gives its values back and leaves the rest untouched |
| `NetCodec.EncodeParsed` | src/sponge/libsponge/util/parser.cc:26-60 | the other way: values parsed from any input without an error, encoded again, are the bytes consumed |
| `TcpWire.ParseHeaderFrom` | src/sponge/libsponge/tcp_helpers/tcp_header.cc:17-48 | the header parser on a parser object computes the model's result and remaining input |
| `TcpWire.ParsesByLayout` | src/sponge/libsponge/tcp_helpers/tcp_header.cc:17-34 | every input of twenty bytes is read by the layout of section 3.1 of RFC 793: each field is the big-endian number at its bytes, each flag its bit of byte 13 |
| `TcpWire.SerializesByLayout` | src/sponge/libsponge/tcp_helpers/tcp_header.cc:51-78 | every header is written by the same layout |
| `Ipv4.ParsesByLayout` | src/sponge/libsponge/tcp_helpers/ipv4_header.cc:31-47 | every input of twenty bytes is read by the layout of section 3.1 of RFC 791 |
| `Ipv4.SerializesByLayout` | src/sponge/libsponge/tcp_helpers/ipv4_header.cc:78-110 | every sendable header is written by the same layout |
| `Ipv4.PseudoIsByteSum` | src/sponge/libsponge/tcp_helpers/ipv4_header.cc:125-131 | pseudo_cksum is the checksum sum of the twelve pseudo-header bytes |
| `TcpWire.ChecksumAccepted` | src/sponge/libsponge/tcp_helpers/tcp_segment.cc:30-45 | a segment summed with a zero checksum and filled in passes the receiver's test |
| `Ipv4.HeaderAccepted` | src/sponge/libsponge/tcp_helpers/ipv4_datagram.cc:28-36 | the same for an IPv4 header |
| `TcpWire.HeaderRoundTrip` | src/sponge/libsponge/tcp_helpers/tcp_header.cc:17-78 | parse undoes serialize for every header with doff 5 to 15 |
| `TcpWire.SegmentRoundTrip` | src/sponge/libsponge/tcp_helpers/tcp_segment.cc:12-45 | parse undoes serialize for every segment that fits a datagram, with the checksum filled in and accepted |
| `TcpWire.SegmentAcceptedIff` | src/sponge/libsponge/tcp_helpers/tcp_segment.cc:12-23 | exactly which inputs are accepted: right checksum, twenty bytes, and a data offset that stays inside; that it is at least five is not asked |
| `TcpWire.ShortHeaderIsAccepted` | src/sponge/libsponge/tcp_helpers/tcp_segment.cc:19-22 | twenty zero bytes are accepted although the header parser reports HeaderTooShort |
| `Ipv4.HeaderRoundTrip` | src/sponge/libsponge/tcp_helpers/ipv4_header.cc:23-110 | parse undoes serialize for every sendable header whose checksum is right, whatever follows it |
| `Ipv4.DatagramRoundTrip` | src/sponge/libsponge/tcp_helpers/ipv4_datagram.cc:11-41 | parse undoes serialize for every sendable datagram |
| `Ipv4.DatagramAcceptedIff` | src/sponge/libsponge/tcp_helpers/ipv4_datagram.cc:11-21 | exactly which inputs are accepted: a consistent header of any checksum, or an inconsistent one whose length field happens to fit |
| `Ipv4.WrongChecksumIsAccepted` | src/sponge/libsponge/tcp_helpers/ipv4_datagram.cc:11-21 | every sendable datagram is read as it was sent whatever its header checksum, while the header parser reports a wrong one |
| `Ipv4.ZeroChecksumIsAccepted` | src/sponge/libsponge/tcp_helpers/ipv4_datagram.cc:13 | a concrete header with a zero checksum that is wrong, accepted |
| `TcpOverIp.WireRoundTrip` | src/sponge/libsponge/tcp_helpers/tcp_over_ip.cc:26-90 | every segment with doff 5 to 15 that fits one datagram, wrapped, serialized, parsed and unwrapped at the mirrored endpoint, comes back with the same fields and payload |
| `TcpOverIp.UnwrapTakesIff` | src/sponge/libsponge/tcp_helpers/tcp_over_ip.cc:26-71 | exactly which datagrams an established connection takes, read off addresses, protocol, checksum, length and port bytes |
| `NetworkInterface.NetworkInterface.SendDatagram` | src/sponge/libsponge/network_interface.cc:59-96 | the object computes the model, including the local copy of the queue that is thrown away |
| `NetworkInterface.NetworkInterface.RecvFrame` | src/sponge/libsponge/network_interface.cc:99-157 | likewise, with the loop that releases parked datagrams |
| `NetworkInterface.NetworkInterface.Tick` | src/sponge/libsponge/network_interface.cc:160-176 | likewise, with the two ageing loops, in any iteration order |
| `InterfaceModel.CacheIsHistory` | src/sponge/libsponge/network_interface.cc:107-172 | after any run an IP is cached exactly when an ARP message from it was accepted less than 30000 ms of ticks ago, and maps to the latest such MAC |
| `InterfaceModel.ParkedIsHistory` | src/sponge/libsponge/network_interface.cc:70-92 | after any run, what is parked for an IP, and since when, is the first datagram sent to it while it was unknown, until it is heard from |
| `InterfaceModel.FramesAreHistory` | src/sponge/libsponge/network_interface.cc:59-157 | after any run, all frames sent, in order, are those the history calls for: datagrams to the MAC last heard, requests at first and then after five seconds, waiting datagrams once their hop is heard, and a reply to every request for the own address |
| `InterfaceModel.HandsUpAddressed` | src/sponge/libsponge/network_interface.cc:99-157 | over any run exactly the datagrams in frames for this MAC or broadcast are handed up, in order |
| `InterfaceModel.Resolves` | src/sponge/libsponge/network_interface.cc:59-157 | two fresh interfaces on one link: request, reply and datagram; the datagram is handed up, both know each other, nothing waits |
| `InterfaceModel.RunIsValid` | src/sponge/libsponge/network_interface.cc:59-176 | no IP is both cached and parked, and exactly one datagram is parked for each hop |
| `InterfaceModel.ParkedLeavesOnce` | src/sponge/libsponge/network_interface.cc:59-157 | over whole runs: a datagram handed in once, for a hop neither known nor waited for, is in no frame before the hop is heard from and in exactly one frame ever after, addressed to the MAC of the first ARP message from it |
| `InterfaceModel.NoDuplicates` | src/sponge/libsponge/network_interface.cc:59-157 | after any run, frames that carry a datagram plus queues that hold it never outnumber the times it was handed in |
| `InterfaceModel.ParkedLeavesToFirstHeard` | src/sponge/libsponge/network_interface.cc:131-147 | the first ARP message from a hop sends what waits for it, followed by at most a reply, and leaves the hop cached and nothing parked for it |
| `InterfaceModel.SecondDatagramIsLostIff` | src/sponge/libsponge/network_interface.cc:74-84 | a datagram leaves or is parked if and only if nothing is parked for its hop yet; otherwise it is lost |
| `InterfaceModel.SecondDatagramNeverLeaves` | src/sponge/libsponge/network_interface.cc:74-84 | the concrete run: two datagrams, then the reply; only the first is ever sent |
| `RouterModel.MatchesIff` | src/sponge/libsponge/router.cc:43-44 | a route matches exactly when its first length bits are the destination's and all its other bits are zero |
| `Router.Router.FindRoute` | src/sponge/libsponge/router.cc:39-52 | the loop finds a matching route that no matching route exceeds in length and none before it equals, or that there is none |
| `Router.Router.AddRoute` | src/sponge/libsponge/router.cc:25-33 | the route goes to the end of the table |
| `Router.Router.AddInterface` | src/sponge/libsponge/router.hh:67-70 | the interface goes to the end of the list, with an empty queue, and its index is returned |
| `Router.Router.RouteOneDatagram` | src/sponge/libsponge/router.cc:36-61 | one datagram is handed to the interface of the chosen route, for the route's next hop or else its own destination, and no queue changes |
| `RouterModel.BestIsUnique` | src/sponge/libsponge/router.cc:39-49 | there is only one such route |
| `RouterModel.OrderFreeIff` | src/sponge/libsponge/router.cc:39-52 | for every table and destination, the decision is the same for every order of the routes if and only if all applicable routes of greatest length are the same route |
| `RouterModel.DecisionIgnoresOrder` | src/sponge/libsponge/router.cc:39-52 | in particular, with distinct (prefix, length) pairs the order never matters |
| `RouterModel.RepeatedPrefixFirstWins` | src/sponge/libsponge/router.cc:44 | of two routes for one prefix the one added first wins, so two different ones give different decisions in the two orders |
| `RouterModel.Forward` | src/sponge/libsponge/router.cc:36-60 | forwarding lowers TTL by exactly one, keeps it positive, changes nothing else, and drops exactly what has TTL at most 1 or no route |
| `RouterModel.ForwardFollowsRoute` | src/sponge/libsponge/router.cc:54-60 | what is forwarded goes to the interface of a longest applicable route, for its next hop or else its own destination |
| `Router.Router.Route` | src/sponge/libsponge/router.cc:63-72 | all queues are drained, in order, and everything is handed on once |
| `RouterModel.InterfacesAreIndependent` | src/sponge/libsponge/router.cc:36-72 | each interface ends as if it alone had been given its own share of the arrivals |
| `RouterModel.ForwardingConserves` | src/sponge/libsponge/router.cc:36-72 | the shares add up to the arrivals that have a route and time to live: none is duplicated or lost |

## Left out

- Apps, event loop, sockets, file descriptors, TUN/TAP, `TCPSpongeSocket` threads and `Address` resolution: calls into the operating system; an address is a 32-bit number, with a port where one is needed.
- Random ISNs and lossy-adapter randomness: the ISN is a parameter, loss is nondeterministic delivery.
- Hexdump, `to_string`, `summary`, `BufferViewList`, the `BufferList` to `Buffer` conversion: output and conversion only.
- Liveness (that data eventually arrives): it needs fairness of the network, and says little about this code.
- The listening case of `unwrap_tcp_in_ip`, which records the peer's address: the round trip is for an established pair.
- Byte formats of Ethernet frames and ARP messages: frames carry parsed contents, or are unreadable.
- Shared storage of `Buffer` and its starting offset: a chunk is the string it stands for. Appending or trimming a chunk list in place is a method from the old list to the new one.
- The TCP and IPv4 serializers, `wrap_tcp_in_ip` and the IPv4 parser are functions on values: the in-place assignment of header fields, one by one, is not modelled; the port numbers that wrapping leaves in the caller's segment appear in the result.
- An interface inside `Router` is held as a value (`Port`), on which the model functions act that the `NetworkInterface` class is proved to compute; the mask is written as clearing the remainder by a power of two.
- `_free_bytes` is recomputed before each use and is not kept as a field.
- The named-state constructor and comparison of `TCPState`: a table of names; only the two summaries are modelled.
- The destructor of `TCPConnection`, which sends a reset if the connection is still active.
- That nothing is sent once a connection is inactive: `write` and `end_input_stream` do not test for it, so it is not claimed.
- A limit of one ARP request in five seconds: the request timer is never reset, so after the first five seconds every datagram for the hop brings another request, which InterfaceModel.FramesAreHistory states.
- ReceiverModel.AckCoversOnlyAssembled: is about one state before the end of the stream; Acknowledgements.AckIsAssembled covers whole runs, the end included.
- ReceiverModel.AckNeverDecreases: is about one step; Acknowledgements.AckNeverMovesBack covers whole runs.
- SenderRuns.WindowIsRespected: supposes acknowledgements that do not move backwards, because the code takes the window from old ones too; StaysInWindowIff covers every state.
- StreamReassembler.StreamReassembler.PushSubstring: a position pushed twice with different bytes keeps the byte that the merge order keeps; the abstract push says which, and the theorems about one stream do not depend on it.

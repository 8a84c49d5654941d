# A verified model of the TCP/IP stack

This project models a user-space TCP/IP stack in Dafny and proves what its layers promise together.

* **TCP data path.** `ByteStream` (a bounded FIFO held in chunks), `Reassembler` (an interval map that
  fills gaps and flushes), `TcpReceiver` (32-bit sequence numbers to stream indices, acknowledgement and
  window), `TcpSender` (segmentation, outstanding queue, partial acknowledgement, retransmission and
  persist timer) and `TcpConnection` (one endpoint). Standards: sections 3.4, 3.5, 3.8.1 and 3.8.6 of
  RFC 9293, section 5 of RFC 6298.
* **Two endpoints and a network** that may lose, duplicate and reorder every segment. The theorems about
  whole runs (safety, nothing lost, progress, handshake agreement, flow control) are about this system.
* **Internet checksum with the TCP and IPv4 codecs** (section 1 of RFC 1071, section 3.1 of RFC 9293,
  section 3.1 of RFC 791).
* **ARP-resolving network interface and router** (RFC 826, sections 2.3.2.1 and 2.3.2.2 of RFC 1122,
  section 5.2.4.3 of RFC 1812).

Every component that the program updates in place is a class whose methods have the program's branches and
loops. Each method is proved to take the component's *model*, a plain value such as `Store`, `Receiver`,
`Sender`, `Connection` or `Interface`, to the value of a specification function, and the properties are
proved of those functions. Three of these models say more than their class does: a `Store` is a map from
stream indices to bytes instead of an interval map, a `Stream` remembers everything ever written, and a
sender's queue is compared with `Space(written)`, that is SYN, then every byte written, then FIN.

## How the files build on each other

| file | content |
|---|---|
| Words, Wrap32 | machine words; wrapping and unwrapping of sequence numbers |
| ByteStream, StreamRuns | the chunked FIFO, and what its reads return in every run |
| Store, StoreRuns, Reassembler | the index-to-byte map and its runs; the interval map refining it |
| TcpMessage, TcpSegment | messages, sequence space, and how two messages share a segment |
| TcpReceiver, SenderSpec, SenderFacts, SenderPayloads, SenderRuns, TcpSender | receiver and sender: values, invariants, runs, classes |
| ConnectionSpec, ConnectionFacts, TcpConnection | one endpoint: value, what it does in answer, and class |
| TwoParty, LinkFacts, Safety, Runs | the two-party system, its invariant, and the theorems about its runs |
| Progress | lossless rounds, and the measure that bounds their number |
| FlowControl, Outrunning, StaleFeedback | exactly when a sender stays within its receiver's window, what happens when not, and a run in which it does not |
| Checksum, TcpCodec, Ipv4Datagram | one's-complement arithmetic and the two codecs |
| WireLayout, Reserialising | where everything stands on the wire; what is read and written again |
| InterfaceSpec, InterfaceRuns, AddressResolution, NetworkInterface | the interface: value, ledgers over whole runs, resolution between two of them, class |
| PrefixMasks, RoutingSpec, RoutingFacts, Router | longest-prefix match, dispositions, the router class |

## Assumptions of the theorems about runs

* Both endpoints start fresh, and each event is one an application, the clock or the network can cause:
  connect, write, close, read, tick, or delivery of any segment the peer ever sent (`Possible`). A lost
  segment is one that is never delivered.
* A delivered segment is *timely*: neither stream has advanced by 2^31 positions since it was sent
  (`TwoParty.Timely`). This is the maximum segment lifetime. That an acknowledgement cannot be too far
  *ahead* is proved (`SenderFacts.AckRecovered`), and `Wrap32.UnwrapRecoversExactly` says exactly when a
  position is recovered.
* No more than 2^64 - 3 bytes are written to a stream. That no segment with RST is ever sent is not assumed: it is
  proved, for applications that use the streams only to write, close, read and peek.
* `FlowControl.FittingNeverOutruns` also assumes that every packet fits when it is delivered (`AllFit`);
  feedback that arrives in the order it was sent, with losses and repeats, always does
  (`FlowControl.NeverOutrunsReceiver`).

## Results about the code

* `NetworkInterface::tick` is documented to drop unresolved datagrams after 5 seconds. The age is that of
  the queue, not of the datagram: one that joins later is dropped early
  (`InterfaceRuns.LateDatagramIsDroppedEarly`), and one outlasts its full time exactly when the request for
  its hop was sent together with it (`InterfaceRuns.KeptForItsWholeTime`).
* Every acknowledgement not above SND.NXT overwrites the window, stale ones included. One that arrives late
  can make a sender pass its receiver's edge by more than a probe (`StaleFeedback.StaleFeedbackOutruns`).
  The sender believes in more room than there is exactly when the window in the packet, counted from the
  larger of SND.UNA and the packet's acknowledgement, reaches beyond that edge
  (`FlowControl.WithinExactly`), and its application can then make it outrun the receiver exactly when it
  reaches beyond the probed position too (`Outrunning.DeliveryOutrunsExactly`).
* A queue's age and the age of its request are always equal (`InterfaceRuns.ApplyKeepsValid`), so a request
  is never repeated for one queue: the queue expires at the moment a second request would be allowed.
* For overlapping fragments with different contents, bytes that continue the stream win over stored ones,
  and stored ones win inside a gap (`Stores.InsertContents`).

## Model

| member | source | states |
|---|---|---|
| Wrap32.UnwrapStandsFor | src/wrapping_integers.rs:19-47 | the recovered position is a 64-bit one whose sequence number is the one given |
| Wrap32.UnwrapNearest | src/wrapping_integers.rs:19-47 | no position with that sequence number is closer to the checkpoint, and a tie stays in the checkpoint's era |
| Wrap32.UnwrapInvertsWrap | src/wrapping_integers.rs:15-47 | unwrapping undoes wrapping within 2^31 of the checkpoint |
| Wrap32.UnwrapRecoversExactly | src/wrapping_integers.rs:15-47 | exactly when a position is recovered, over the whole 64-bit range: no later and no earlier rival |
| Wrap32.WrapCounts | src/wrapping_integers.rs:15-17 | sequence numbers start at the initial one and count up position by position, wrapping to zero |
| ByteStreams.PushAppends | src/byte_stream.rs:30-50 | a write appends the longest prefix there is room for, nothing at all when closed or in error |
| ByteStreams.FrontOfFlatten | src/byte_stream.rs:84-109 | a read takes a prefix of what the chunks spell and leaves the rest |
| ByteStreams.PopTakesNext | src/byte_stream.rs:84-109 | a read returns the next unread bytes in order, at most as many as asked for, and none only if none was asked for or buffered |
| StreamRuns.ReadStops | src/byte_stream.rs:84-109 | a read stops where it was asked to, or at the end of the first chunk, whichever comes first |
| StreamRuns.ReachableStream | src/byte_stream.rs:30-109 | in every run: what each write takes, that each read returns all that was asked for up to the end of the write it reads from, and that only closing and failing set their flags |
| ByteStreams.ByteStream.Push | src/byte_stream.rs:30-50 | the chunked stream after a write is the specified one, and the count returned is what was accepted |
| ByteStreams.ByteStream.Pop | src/byte_stream.rs:84-109 | the chunked stream after a read is the specified one, and the bytes returned are its front |
| ByteStreams.ByteStream.Close | src/byte_stream.rs:52-54 | closing changes only the closed flag |
| ByteStreams.ByteStream.SetError | src/byte_stream.rs:60-62 | only the error flag changes |
| Stores.FlushFacts | src/reassembler.rs:235-275 | flushing stops at the least missing index and loses nothing |
| Stores.InsertValid | src/reassembler.rs:92-147 | any insert keeps the window, end-of-stream and closed invariants |
| Stores.AcceptedExactly | src/reassembler.rs:98-114 | a fragment is accepted exactly when its range fits 64 bits and some end of the stream contradicts neither it nor what is known |
| Stores.RejectedBecause | src/reassembler.rs:98-114 | exactly which contradiction gives which error, and what the error says |
| Stores.InsertCoverage | src/reassembler.rs:92-147 | in a store that is not in error: a rejected insert changes nothing; an accepted one adds exactly the fragment's indices inside the window, and the output ends at the least missing index |
| Stores.InsertContents | src/reassembler.rs:135-206 | exactly which byte stands at every known index after an accepted insert into a store that is not in error: bytes that continue the output are the fragment's, also over stored ones, and elsewhere stored bytes win |
| Stores.InsertCoverageInError | src/byte_stream.rs:31-33 | a store in error still fills gaps, but a fragment that would continue its output adds nothing |
| Stores.InsertGrows | src/reassembler.rs:92-147 | whatever arrives, in error or not, output is never taken back, and a complete stream no longer changes |
| Stores.HonestInsert | src/reassembler.rs:92-147 | without a stream error, fragments of one stream are never rejected, and everything known stays true of that stream |
| Stores.DeterminedByKnown | src/reassembler.rs:92-147 | two stores that agree with a stream and know the same indices are equal |
| Stores.InsertAllCoverage | src/reassembler.rs:92-147 | without a stream error, a batch of fragments of one stream makes known exactly what some member covers inside the window |
| Stores.ArrivalOrderIrrelevant | src/reassembler.rs:92-147 | without a stream error, batches of fragments of one stream with the same members, in any order and multiplicity, lead to the same store, clipped or not |
| Stores.JointCapacity | src/reassembler.rs:354-404 | buffered plus pending bytes never exceed the capacity |
| StoreRuns.ReachableStore | src/reassembler.rs:354-404 | in every state reached by any inserts, contradictory ones included, and any reads: the next byte is missing, nothing is held outside window or end, capacity is kept, and the output is closed exactly at the end |
| Reassemblers.Reassembler.TryInsert | src/reassembler.rs:92-147 | the interval map after an insert is the specified index-to-byte map, and the result is the error the judgement names, with the end of the late data the program finds first |
| Reassemblers.Reassembler.Read | src/reassembler.rs:157-159 | a read of the output returns the next bytes and keeps the reassembler valid |
| Reassemblers.Reassembler.Absorb | src/reassembler.rs:116-142 | clipping and storing do what taking in the part inside the window specifies |
| Reassemblers.Reassembler.Take | src/reassembler.rs:135-144 | the in-order path lets new bytes win, the gap path keeps stored ones, and both then flush |
| Reassemblers.Reassembler.InsertMissingGaps | src/reassembler.rs:161-206 | exactly the bytes at indices not yet held are added; the loop terminates |
| Reassemblers.Reassembler.FillNext | src/reassembler.rs:178-205 | one turn fills the gap up to the next fragment and passes it |
| Reassemblers.Reassembler.InsertGap | src/reassembler.rs:208-233 | a non-empty gap becomes one disjoint pending fragment with the right bytes |
| Reassemblers.Reassembler.FlushContiguous | src/reassembler.rs:235-275 | everything contiguous moves to the output, byte for byte, and nothing at its end is left behind |
| Reassemblers.Reassembler.FlushStep | src/reassembler.rs:236-274 | every turn of the loop lowers the number of held bytes or ends with a gap next |
| Reassemblers.Reassembler.PushFragment | src/reassembler.rs:252-274 | the output always accepts the whole fragment, so no remainder goes back |
| Reassemblers.Reassembler.TrimStalePrefix | src/reassembler.rs:277-295 | exactly the bytes below the output's end are forgotten |
| Reassemblers.Reassembler.RecordAndValidateEof | src/reassembler.rs:297-344 | accepted exactly when consistent with a known end and with every byte known; the error says which, and the reported end is the output's or that of the first fragment beyond |
| Reassemblers.Reassembler.CloseIfComplete | src/reassembler.rs:346-352 | the output closes exactly when it reaches the end of the stream |
| TcpMessages.CarriesFields | src/tcp_message.rs:10-54 | a message that is a piece of the stream's sequence space has SYN only at its start, FIN only at its end, and the bytes in between |
| TcpMessages.FieldsCarry | src/tcp_message.rs:10-54 | fields that match the stream make a piece of its sequence space |
| TcpSegments.MessagesRoundTrip | src/tcp_segment.rs:73-115 | both messages come back out of a segment up to the reset bit they share |
| TcpReceivers.ReceiveValid | src/tcp_receiver.rs:37-76 | any message keeps the receiver's invariant |
| TcpReceivers.RightEdgeNeverShrinks | src/tcp_receiver.rs:78-101 | no message, in error or not, moves the advertised right edge left, despite the 16-bit clamp and the position of FIN |
| TcpReceivers.ReadNeverShrinksEdge | src/tcp_receiver.rs:78-101 | no read by the application moves the advertised right edge left |
| TcpReceivers.AdvertisedBytesAreKept | src/reassembler.rs:116-133 | without a stream error, every accepted byte inside the advertised edge is stored, not clipped |
| TcpReceivers.WindowIsTheRoom | src/tcp_receiver.rs:92-94 | the window is all the room there is, unless 16 bits cannot say so |
| TcpReceivers.NothingKeptBeyondTheEdge | src/tcp_receiver.rs:92-94 | no message makes the receiver keep a byte at or beyond the edge it advertised, unless the window is 65535 |
| TcpReceivers.PlacedNearest | src/tcp_receiver.rs:59-70 | a message is placed at a position its sequence number stands for, and none is nearer to the one needed next |
| TcpReceivers.ContributesExactly | src/tcp_receiver.rs:37-73 | exactly which messages contribute a fragment: no reset, nothing before the first SYN, no other SYN, nothing at SYN's own position |
| TcpReceivers.ReceiverRemembers | src/tcp_receiver.rs:37-57 | whatever arrives, the receiver counts from the first SYN for ever, and is in error, and says so, exactly after a reset |
| TcpReceivers.TcpReceiver.Receive | src/tcp_receiver.rs:37-76 | the receiver after a message is the specified one, and the result is none or the very error of the reassembler for the fragment the message contributes |
| TcpReceivers.TcpReceiver.Read | src/tcp_receiver.rs:33-35 | a read returns the next assembled bytes and moves only the reader |
| TcpReceivers.TcpReceiver.Send | src/tcp_receiver.rs:78-101 | acknowledgement, window and reset are those of the model |
| SenderFacts.TilesAppend | src/tcp_sender.rs:496-523 | a segment appended at SND.NXT extends the tiling of sequence space |
| SenderFacts.TilesCover | src/tcp_sender.rs:569-601 | the outstanding segments hold every unacknowledged position, each with the stream's own content there |
| SenderFacts.TrimDropsMarks | src/tcp_sender.rs:125-161 | trimming removes exactly the first positions: SYN, then bytes, then FIN |
| SenderFacts.DiscardTiles | src/tcp_sender.rs:527-543 | an acknowledgement anywhere in the outstanding range leaves a tiling of the rest |
| SenderFacts.BackoffDoubles | src/tcp_sender.rs:480-484 | the saturating, bounded doubling is the bounded power of two |
| SenderFacts.NextMessageCarries | src/tcp_sender.rs:335-372 | the next segment is the stream's piece from SND.NXT on and fits the window |
| SenderFacts.PushValid | src/tcp_sender.rs:331-375 | the sending loop keeps the whole invariant and takes nothing from what was written |
| SenderFacts.PushQueuesWhatItSends | src/tcp_sender.rs:331-375 | what is sent is what joins the outstanding queue, in order |
| SenderFacts.PushExhausts | src/tcp_sender.rs:331-375 | after it the window is full, or all that was written is sent, with FIN if closed |
| SenderPayloads.PushIsWellSized | src/tcp_sender.rs:349-365 | no segment is over the payload limit, one is under it only if its payload ends with the window, with all that was written or with a chunk, and it is a reset exactly when the stream is in error |
| SenderPayloads.PushKeepsCap | src/tcp_sender.rs:349-354 | neither what a flush sends nor what it leaves outstanding is over the payload limit |
| SenderFacts.ReceiveKeepsValid | src/tcp_sender.rs:380-430 | any feedback, honest or not, keeps tiling, counts, timer and backoff coherent |
| SenderFacts.TickKeepsValid | src/tcp_sender.rs:434-464 | the passing of any time keeps tiling, counts, timer and backoff coherent |
| SenderFacts.WriteKeepsValid | src/byte_stream.rs:30-50 | a write to the outbound stream keeps the whole sender invariant, what is outstanding included |
| SenderFacts.CloseKeepsValid | src/byte_stream.rs:52-54 | closing the outbound stream keeps the whole sender invariant |
| SenderFacts.AbortKeepsValid | src/tcp_sender.rs:560-567 | an abort keeps the invariant |
| SenderFacts.AckRecovered | src/tcp_sender.rs:401-406 | every acknowledgement from SND.UNA to SND.NXT is recovered exactly after any number of wraps |
| SenderFacts.FinishedMeansAllAcknowledged | src/tcp_sender.rs:323-325 | a sender is finished exactly when SND.UNA has passed SYN, everything written and FIN |
| SenderRuns.ReachableSender | src/tcp_sender.rs:569-601 | in every reachable state: tiling, no outstanding segment over the payload limit, SND.NXT = SYN + bytes taken + FIN, at most 65535 in flight, timer running exactly while something is outstanding with mode and interval of the window, RTO the bounded power of two |
| SenderRuns.TimersFollowTheBook | src/tcp_sender.rs:380-464 | in every reachable state SND.UNA and the window are what was last heard of, the count is that of retransmissions since the last new acknowledgement, RTO and persist interval are doubled once for each expiry of their kind since then, and the next tick resends the front segment exactly when the time since the timer was started reaches the timeout |
| SenderRuns.ExpiryBacksOff | src/tcp_sender.rs:438-461 | an expiry resends the front segment and doubles, up to the bound, the RTO and counts it, or only the persist interval when the window is zero |
| SenderRuns.QuietUntilTimeout | src/tcp_sender.rs:81-89 | however time is cut into ticks, nothing is sent until they add up to what is left of the timeout, and then the front segment is |
| TcpSenders.Timer.Restart | src/tcp_sender.rs:65-72 | the timer runs from zero with the given timeout and mode |
| TcpSenders.Timer.Stop | src/tcp_sender.rs:74-79 | a stopped timer has no timeout or mode |
| TcpSenders.Timer.Tick | src/tcp_sender.rs:81-89 | elapsed time saturates, and expiry is reported exactly when a running timer reaches its timeout |
| TcpSenders.TcpSender.Push | src/tcp_sender.rs:331-375 | the sender and the segments after the loop are the specified ones, whose size and content SenderPayloads and SenderFacts pin down |
| TcpSenders.TcpSender.BuildNext | src/tcp_sender.rs:341-369 | the next segment and the flags it sets are the specified ones |
| TcpSenders.TcpSender.ReadOutboundPayload | src/tcp_sender.rs:487-494 | the payload is the front of the outbound stream |
| TcpSenders.TcpSender.TrackAndTransmit | src/tcp_sender.rs:496-523 | the segment joins the queue at SND.NXT and starts the timer of an idle sender |
| TcpSenders.TcpSender.RestartTimerForCurrentWindow | src/tcp_sender.rs:545-558 | the timer follows window and queue |
| TcpSenders.TcpSender.Receive | src/tcp_sender.rs:380-430 | the sender after feedback is the specified one |
| TcpSenders.TcpSender.DiscardAcknowledgedPrefix | src/tcp_sender.rs:527-543 | whole segments are dropped and the first that remains is trimmed |
| TcpSenders.TcpSender.TrimPrefix | src/tcp_sender.rs:125-161 | consuming SYN, bytes and FIN step by step gives the specified rest |
| TcpSenders.TcpSender.Tick | src/tcp_sender.rs:434-464 | the front segment is resent on expiry and the matching interval is backed off |
| TcpSenders.TcpSender.Abort | src/tcp_sender.rs:560-567 | everything outstanding is dropped and the stream is in error |
| ConnectionSpecs.FlushValid | src/tcp_connection.rs:236-253 | a flush keeps the endpoint valid and only the sender moves |
| ConnectionSpecs.ReceiveSegmentValid | src/tcp_connection.rs:174-210 | any segment keeps the endpoint valid |
| ConnectionSpecs.TickValid | src/tcp_connection.rs:213-230 | a tick keeps the endpoint valid and its receive side as it is |
| ConnectionSpecs.WriteValid | src/tcp_connection.rs:150-155 | a write keeps the endpoint valid and its receive side as it is |
| ConnectionSpecs.CloseValid | src/tcp_connection.rs:160-163 | closing keeps the endpoint valid and its receive side as it is |
| ConnectionFacts.CloseSendsFin | src/tcp_connection.rs:160-163 | closing sends FIN at once exactly when the rest of the stream and FIN fit the window, and then the last segment carries it |
| ConnectionFacts.WriteSendsAll | src/tcp_connection.rs:150-155 | after a write the window is full, or everything written so far has been sent |
| ConnectionFacts.ConnectSendsSyn | src/tcp_connection.rs:140-142 | the first segment of a new connection is a SYN with its initial sequence number |
| ConnectionFacts.ForeignPortsIgnored | src/tcp_connection.rs:255-257 | a segment of another connection changes nothing and gets no answer |
| ConnectionFacts.AnswersContent | src/tcp_connection.rs:196-209 | what takes no sequence space is never answered with something that takes none; what takes some is answered as soon as there is anything to say |
| ConnectionFacts.AnswersMarkErrors | src/tcp_connection.rs:174-210 | an answer is a reset exactly when the endpoint is in error |
| ConnectionFacts.ErrorsEnterHere | src/tcp_connection.rs:181-195 | a reset puts both halves in error, a rejected segment the receiving half, and nothing else does |
| ConnectionFacts.FlushFits | src/tcp_segment.rs:117-130 | under a payload limit that leaves room for the header, every segment of a flush can be serialised |
| TcpConnections.TcpConnection.Connect | src/tcp_connection.rs:140-142 | the endpoint and its segments after connecting are the specified ones |
| TcpConnections.TcpConnection.Write | src/tcp_connection.rs:150-154 | the endpoint, its segments and the count accepted after a write are the specified ones |
| TcpConnections.TcpConnection.Close | src/tcp_connection.rs:160-163 | the endpoint and its segments after closing are the specified ones |
| TcpConnections.TcpConnection.ReceiveSegment | src/tcp_connection.rs:174-210 | the endpoint and its segments after an incoming one are the specified ones: port filter, sender first, receiver error, flush, pure acknowledgement |
| TcpConnections.TcpConnection.Read | src/tcp_connection.rs:97-99 | the application reads the next bytes received, and nothing else changes |
| TcpConnections.TcpConnection.IsEstablished | src/tcp_connection.rs:121-123 | established exactly when our SYN is acknowledged and the peer's was received |
| TcpConnections.TcpConnection.IsFinished | src/tcp_connection.rs:133-135 | finished exactly when SND.UNA has passed SYN, everything written and FIN |
| TcpConnections.TcpConnection.Tick | src/tcp_connection.rs:213-230 | the endpoint and its segments after a tick are the specified ones |
| TcpConnections.TcpConnection.FlushSender | src/tcp_connection.rs:236-253 | every sender message leaves in a segment with the receiver's current feedback |
| TcpConnections.TcpConnection.MakePureAckSegment | src/tcp_connection.rs:259-274 | an empty segment with feedback, unless there is nothing to say |
| Safety.ActKeepsInv | src/tcp_connection.rs:174-253 | each action of an endpoint keeps the invariant of the whole system |
| Runs.RunKeepsInv | src/tcp_connection.rs:140-253 | the invariant holds after every run |
| Runs.EndToEndSafety | src/tcp_connection.rs:174-210 | in every run, in both directions, what was received is a prefix of what was written; no endpoint is in error and no reset is sent |
| Runs.HonestNeverRejected | src/reassembler.rs:92-147 | no timely segment of the peer ever causes a reassembler error |
| Runs.NothingLost | src/tcp_sender.rs:401-421 | SND.UNA <= the receiver's acknowledgement <= SND.NXT, and every position sent is assembled or still outstanding |
| Runs.FinishedMeansDelivered | src/tcp_sender.rs:323-325 | a finished sender's stream was closed, and its peer's output is closed and equals everything written |
| Runs.EstablishedAgree | src/tcp_connection.rs:121-123 | if one endpoint is established, both receivers recorded exactly the other's initial sequence number |
| Runs.EstablishedExactly | src/tcp_connection.rs:121-123 | in every run an endpoint is established exactly once SND.UNA has passed its SYN and it has recorded the peer's |
| Progress.EstablishedStays | src/tcp_connection.rs:121-123 | once established, an endpoint stays so, whatever happens |
| Runs.RunMonotone | src/tcp_receiver.rs:43-57 | a recorded initial sequence number never changes, and received bytes stay |
| Progress.RoundRaisesUna | src/tcp_sender.rs:331-464 | a lossless round (drain, push, timeout, delivery of the resent segment, its answer) strictly raises SND.UNA |
| Progress.RoundExists | src/tcp_sender.rs:434-464 | such a round exists from every state with work to do |
| Progress.FinishesInTime | src/tcp_sender.rs:323-325 | a closed stream of N bytes finishes within N + 2 lossless rounds minus the positions already acknowledged, whichever rounds they are and whatever possible events happen between them |
| Progress.RunKeepsClosing | src/tcp_sender.rs:380-430 | no possible events move SND.UNA back, change what a closed stream holds, or undo that a sender has finished |
| Progress.RoundsExist | src/tcp_sender.rs:331-464 | lossless rounds can go on until the sender has finished |
| Progress.ClosedStreamIsDelivered | src/reassembler.rs:346-352 | from every state of every run a closed stream can be carried to its end, and the peer then holds all of it |
| SenderFacts.PushWithinWindow | src/tcp_sender.rs:335-372 | a flush sends nothing beyond the window, one position if it is closed |
| FlowControl.DeliveryWithinExactly | src/tcp_sender.rs:404-410 | after any delivery, stale or not, SND.UNA plus window lies within the receiver's edge if and only if the window in the packet does, counted from the larger of SND.UNA and its acknowledgement |
| FlowControl.WithinExactly | src/tcp_sender.rs:404-410 | over every run: the sender always stays within what its receiver offers if and only if every packet it is given fits in that sense |
| FlowControl.FittingNeverOutruns | src/tcp_sender.rs:335-372 | in every run whose packets fit, in whatever order, SND.NXT never passes the receiver's right edge by more than one probe |
| FlowControl.NeverOutrunsReceiver | src/tcp_receiver.rs:78-101 | with feedback in order every packet fits, and SND.NXT never passes the receiver's right edge by more than one probe |
| Outrunning.OutrunsExactly | src/tcp_sender.rs:335-372 | the application of a sender with an open stream can make it pass the receiver's edge by more than a probe if and only if it has already, or the window it believes in reaches further |
| Outrunning.DeliveryOutrunsExactly | src/tcp_sender.rs:404-410 | after any delivery, stale or not, the application can make the sender outrun its receiver if and only if the packet's window reaches beyond the probed position, counted from the larger of SND.UNA and its acknowledgement |
| StaleFeedback.StaleFeedbackOutruns | src/tcp_sender.rs:404-410 | a run of six events in which one repeated old acknowledgement makes SND.NXT pass the receiver's edge by two |
| Checksums.AccumulatorFits | src/checksum.rs:12-15 | the word sum of a 65535-byte segment with pseudo-header fits the 32-bit accumulator |
| Checksums.FoldKeeps | src/checksum.rs:59-61 | each fold lowers the sum and keeps its value modulo 65535 |
| Checksums.ZeroChecksum | src/checksum.rs:78-80 | a checksum is zero exactly when the words add up to a positive multiple of 65535 |
| WireLayout.WordSumByPlace | src/checksum.rs:29-52 | the sum adds each byte at its place: the first of every pair counts for 256 |
| WireLayout.KnownChecksum | src/checksum.rs:68-72 | the example of section 3 of RFC 1071 |
| Reserialising.ChecksumUnique | src/checksum.rs:54-80 | of the values of a checksum field that verify, one is the one that is written, and the only other is all ones |
| Checksums.PatchVerifies | src/checksum.rs:68-80 | writing the checksum into an aligned zero field makes verification succeed |
| Checksums.BitFlipDetected | src/checksum.rs:78-80 | one inverted bit anywhere makes verification fail |
| Checksums.InternetChecksum.AddBytes | src/checksum.rs:29-52 | the accumulator depends only on the bytes fed, in whatever split, odd lengths included, and never overflows as long as the sum of the complete words fits 32 bits |
| Checksums.InternetChecksum.Checksum | src/checksum.rs:54-65 | the folded complement of the word sum, as long as that fits 32 bits; folding terminates |
| Checksums.ComputeChecksum | src/checksum.rs:68-76 | the one-shot checksum |
| Checksums.Verify | src/checksum.rs:78-80 | true exactly when the words add up to a positive multiple of 65535 |
| Checksums.TcpChecksumIpv4 | src/checksum.rs:92-110 | feeding the pieces one by one gives the checksum of pseudo-header and segment |
| TcpCodecs.HeaderRoundTrip | src/tcp_segment.rs:165-218 | every header field is read back, whatever checksum and payload are |
| TcpCodecs.CodecRoundTrip | src/tcp_segment.rs:117-218 | parsing a serialised segment under the same addresses returns it exactly |
| TcpCodecs.CorruptionDetected | src/tcp_segment.rs:165-218 | any single inverted bit of a serialised segment yields `InvalidChecksum` |
| WireLayout.PseudoHeaderLayout | src/checksum.rs:100-106 | addresses, zero, protocol 6 and length stand at their places |
| WireLayout.TcpLayout | src/tcp_segment.rs:117-155 | every field of a serialised segment stands at its place, and every control bit is its own |
| WireLayout.TcpParseExactly | src/tcp_segment.rs:165-218 | exactly which bytes give which error, and where the fields and the payload are read, options skipped |
| Reserialising.TcpRewritten | src/tcp_segment.rs:117-218 | a plain segment that was read is written again byte for byte, exactly unless its checksum field is all ones |
| TcpCodecs.CollectFlags | src/tcp_segment.rs:27-48 | the bits collected are those of the flags set |
| TcpCodecs.SerializeIpv4 | src/tcp_segment.rs:117-155 | the buffer patched in place is the specified one and parses back |
| Ipv4Datagrams.Ipv4RoundTrip | src/ipv4_datagram.rs:122-204 | parsing a serialised datagram returns it exactly, with or without padding behind it |
| WireLayout.Ipv4Layout | src/ipv4_datagram.rs:122-161 | every field of a serialised datagram stands at its place |
| Reserialising.Ipv4ParseExactly | src/ipv4_datagram.rs:167-204 | exactly which bytes give which error, and where the fields and the payload are read, options skipped and padding ignored |
| Reserialising.Ipv4Rewritten | src/ipv4_datagram.rs:122-204 | a plain datagram that was read is written again byte for byte, exactly unless its checksum field is all ones |
| Ipv4Datagrams.ParsedFits | src/ipv4_datagram.rs:167-204 | whatever parses is short enough to be serialised again |
| Ipv4Datagrams.SerializeIpv4Datagram | src/ipv4_datagram.rs:122-161 | the buffer patched in place is the specified one and parses back |
| InterfaceRuns.ApplyKeepsValid | src/network_interface.rs:122-218 | cache and pending keys stay disjoint, and a queue is exactly as old as its request |
| InterfaceRuns.RequestsAreRateLimited | src/network_interface.rs:24-49 | in every run any two requests for a next hop are at least 5000 ms of ticked time apart |
| InterfaceRuns.DatagramsAreConserved | src/network_interface.rs:122-226 | in every run what was sent to a next hop is, in order, what was put in frames or expired, followed by what waits |
| InterfaceRuns.WaitingIsRecent | src/network_interface.rs:189-202 | whatever waits was asked for less than 5000 ms ago |
| InterfaceRuns.DropsFollowARequest | src/network_interface.rs:189-202 | a queue is dropped only 5000 ms or more after its request |
| InterfaceRuns.CacheHoldsTheLastLesson | src/network_interface.rs:163-202 | an address is in the cache exactly while its last ARP message is less than 30000 ms old, with that message's address |
| InterfaceRuns.NeverResolvedAndPending | src/network_interface.rs:122-218 | in every run no next hop is both cached and pending |
| InterfaceRuns.QueueIsFifo | src/network_interface.rs:107-109 | frames join at the end and leave at the front |
| InterfaceRuns.EmissionsAreFrames | src/network_interface.rs:204-226 | what counts as emitted is exactly what goes into IPv4 frames, in order, to the cached address |
| InterfaceRuns.RequestsAreFrames | src/network_interface.rs:228-242 | a broadcast request is queued exactly when the rate limit allows one for an unknown next hop |
| InterfaceRuns.EmittedFrameReadsBack | src/network_interface.rs:151-161 | the interface an emitted frame is for reads the very datagram |
| AddressResolution.RequestIsBroadcast | src/network_interface.rs:228-242 | a request goes to everyone with the asker's own addresses and the one it asks for |
| AddressResolution.RequestIsAnswered | src/network_interface.rs:170-177 | a request for this interface's address adds, last, a reply to who asked, with this interface's addresses as sender and the asker's as target |
| AddressResolution.ArpFramesExactly | src/network_interface.rs:122-183 | those are all the ARP frames an interface ever sends |
| AddressResolution.DatagramsTakenIn | src/network_interface.rs:151-161 | the upper layer gets exactly the datagrams readable from IPv4 frames for this interface or for everyone; frames for others change nothing |
| AddressResolution.InputIsFifo | src/network_interface.rs:111-113 | received datagrams are handed up in the order they came in |
| AddressResolution.ResolutionSucceeds | src/network_interface.rs:122-218 | between two interfaces: the request, heard and answered, resolves the address on both sides, and everything that waited leaves as frames |
| AddressResolution.ResolvedFramesArrive | src/network_interface.rs:151-161 | the frames sent to a resolved address bring the very datagrams to the other interface, in order |
| InterfaceRuns.LateDatagramIsDroppedEarly | src/network_interface.rs:37-49 | a datagram that joins a queue can be dropped after one millisecond |
| InterfaceRuns.KeptForItsWholeTime | src/network_interface.rs:37-49 | after a datagram is handed over for an unresolved hop, it outlasts every run of less than 5000 ms in which nobody answers if and only if the hop's address was requested at that moment |
| InterfaceRuns.QueueOutlasts | src/network_interface.rs:37-49 | while a queue's age and the time that passes stay below 5000 ms and nobody answers, whatever it holds stays in order |
| NetworkInterfaces.NetworkInterface.SendDatagram | src/network_interface.rs:122-140 | the interface after sending is the specified one |
| NetworkInterfaces.NetworkInterface.RecvFrame | src/network_interface.rs:151-183 | the interface after receiving a frame is the specified one |
| NetworkInterfaces.NetworkInterface.Tick | src/network_interface.rs:189-202 | the interface after time passes is the specified one, in whatever order its entries age |
| NetworkInterfaces.NetworkInterface.LearnArpMapping | src/network_interface.rs:204-218 | the interface after learning an address is the specified one: the queue leaves as frames, in order |
| NetworkInterfaces.NetworkInterface.PopFrame | src/network_interface.rs:107-109 | the oldest frame leaves |
| NetworkInterfaces.NetworkInterface.PopDatagram | src/network_interface.rs:111-113 | the oldest received datagram leaves |
| NetworkInterfaces.NetworkInterface.EmitIpv4Frame | src/network_interface.rs:220-226 | one frame with the serialised datagram joins the queue |
| PrefixMasks.MaskComparesBits | src/router.rs:115-130 | comparing under the mask compares the leading bits |
| RoutingFacts.MatchesIsSamePrefix | src/router.rs:114-130 | a route matches exactly the destinations whose leading bits agree with its prefix |
| RoutingFacts.LongestMatchIsRight | src/router.rs:99-111 | the search yields a route exactly if it is the earliest-added longest matching prefix, and none exactly if none matches |
| RoutingFacts.DisposeIsRight | src/router.rs:76-97 | exactly which datagrams are dropped for their TTL, for want of a route, or for want of an interface |
| RoutingFacts.ForwardedIsRight | src/router.rs:76-97 | otherwise the datagram goes where the longest match says, to its next hop or straight to the destination |
| RoutingFacts.ForwardedReadsBack | src/router.rs:94-96 | a forwarded datagram reads back with its TTL one lower, and only the TTL and checksum bytes differ on the wire |
| RoutingFacts.DisposedOnce | src/router.rs:68-97 | every datagram is dropped or forwarded, once, and what the interfaces are handed between them is, as multisets, exactly one delivery for each forwarded one: interface, next hop and aged datagram of its longest prefix |
| RoutingFacts.DeliveryIsRight | src/router.rs:76-97 | a delivery is by the longest prefix, on that route's interface, to its next hop or else to the destination, with TTL one lower and nothing else changed |
| RoutingFacts.InputsAreComplete | src/router.rs:68-74 | the inputs that are routed are all that waits at any interface, each as often as it waits |
| RoutingFacts.TtlBoundsThePath | src/router.rs:76-97 | along any path of routers, loops included, a datagram is forwarded fewer times than its TTL |
| Routers.Router.FindRoute | src/router.rs:99-111 | the route found is the earliest-added longest match |
| Routers.Router.RouteOneDatagram | src/router.rs:76-97 | with a longest prefix whose interface exists and TTL over one, that interface is given the aged datagram for the route's next hop, or else its destination, and no other changes; otherwise nothing changes |
| Routers.Router.Route | src/router.rs:68-74 | terminates with every input queue empty, each interface having been handed, in order, its share of all inputs |
| Routers.Router.AddRoute | src/router.rs:51-66 | a route joins the end of the table |
| Routers.Router.AddInterface | src/router.rs:23-29 | an interface joins the end and its number is returned |

## Left out

- `src/tun.rs`, `src/tap.rs`, `src/pcap.rs`, `src/bin`: file descriptors, sockets, threads and the real clock.
- `src/ip_host.rs`: dispatch and event logging over the components modelled here.
- `src/arp.rs`, `src/ethernet_frame.rs`, `src/icmp.rs`: fixed-offset field copies; frames and ARP messages are already-parsed values here, and what an interface cannot read is `Unreadable`.
- `Bytes` sharing and zero-copy views: bytes are sequences, so no claim is made about aliasing of payload buffers.
- `Display` and `Debug` text, plain getters, and `peek`, which changes nothing.
- Behaviour after an abort or a reset beyond "the invariants still hold".
- Positions and counters are unbounded naturals; a run is stopped from writing more than 2^64 - 3 bytes to a stream (`TwoParty.Allowed`), where the program would panic.
- The payload size of 2^16 or more that makes serialisation panic is the precondition `Fits` or the type `Datagram`; `add_route`'s assertion is the type `PrefixLength`.
- Reassemblers.Reassembler.FlushContiguous: the branch that puts a remainder back is not written, since it is proved that the output always accepts the whole fragment.
- Reassemblers.Reassembler.FlushStep: the program's loop body, split off as a method of its own, as are FillNext, SkipPrevious, PushFragment and Take.
- Routers.Router.DrainInput: the program's inner loop, split off as a method of its own.
- Outrunning.OutrunsExactly: the stream is one its application can still write to, with 2^16 positions left below 2^64.
- Routers.Router.AddInterface: requires an interface the router does not yet own, which is what passing it by value guarantees.
- NetworkInterfaces.NetworkInterface.AgeCache: entries are aged in an arbitrary order, which stands for the order of a hash map.
- Ordered maps are maps whose least and greatest keys are looked up; the cost of lookups is not modelled.
- Congestion control, round-trip estimation and TIME-WAIT: the program does not have them.
- Single-bit corruption of IPv4 headers: a changed header length changes the region the checksum covers, so the theorem is about TCP only.

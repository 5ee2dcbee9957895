# A verified model of the KCP engine of asio_kcp

This project models, in Dafny, the reliable-UDP engine in `util/ikcp.c`, its queues in
`util/ikcp.h`, the text handshake in `util/connect_packet.cpp` and the client in
`client_lib/kcp_client.cpp`, and proves what they are for.

The engine is modelled twice. `Engine` and the modules it uses give every entry point as a
function on a value. These functions are written once for two arithmetics: `Exact`, with
unbounded sequence numbers, and `Wrapped`, with 32-bit counters and `_itimediff`; clocks are
32-bit in both. `KcpObject.Kcp` is the control block as an object, with the loops, counters,
growing acknowledgement block and output buffer of the source; each method is proved to do
what the function does under `Wrapped`. `LinkedQueue` has the loops over the linked lists, and
`ControlBlock.Queues` the four lists of the control block as they are in memory: every operation
keeps them well linked and disjoint and does to the two halves what the functions do.

The main results build on one another:

1. `Protocol` takes two exact endpoints and a network that keeps every datagram ever emitted
   and delivers any of them, any number of times, in any order. Every reachable state is
   linked in both directions (`EveryRunLinked`). So what is received is a prefix of what was
   sent, no data is forgotten, and acknowledgements are true (`Guarantees`).
2. `Refinement32` shows that taking numbers modulo 2^32 commutes with every operation.
3. `Robustness` shows that the 32-bit engine, given any calls and any bytes, is the image of a
   well-formed exact engine whose counters only move forward.
4. `ByteProtocol` puts these together: two 32-bit endpoints that exchange bytes do, action by
   action, what the exact ones do, as long as no datagram is delivered after 2^31 newer
   numbers. End-to-end safety follows for the real thing, and without any condition on the
   network for runs of up to four million actions.
5. `Progress` shows that a clean round trip acknowledges what it carried and moves the window.
6. `Delivery` iterates such rounds, opening a closed window by the probe where needed: after any
   run, even if all that is under way is lost, a message can still be received if and only if
   neither it nor a message before it has more fragments than the receive window.
   `ByteDelivery` carries this over to bytes.
7. `Feedback`, `Flushing` and `CongestionWindow` say exactly what input and a flush do beyond
   moving data: which round trips are measured, what is acknowledged and cleared, how much is
   admitted, what a second flush repeats, and how the congestion window moves.
8. `ClientEndpoint` shows that a client and a server's endpoint are two endpoints, so that
   end-to-end safety holds for the messages the client's callback reports and those given to
   `send_msg`.

`dafny verify dfyconfig.toml` checks the whole project.

## Behaviour of the code that a reader might not expect

- A message of more fragments than the receive window is accepted by `ikcp_send` and is never
  received, in any run, and neither is a message after it (`OversizedNeverReceived`;
  `OversizedIsAccepted` has an example under the default parameters). `ReceivableExactly` shows
  that this is the only way for a message not to get through.
- A retransmission timeout grows without limit, so after enough emissions of one segment its
  deadline counts as passed at once and it is sent in every flush. `DeadlineExact` gives the
  exact condition, for every way of sending, and `DeadlineCanBePassed` has examples. The first
  35791 emissions are safe (`DeadlineAfterTransmit`), and no more (`EmissionLimitIsTight`).
- `xmit` is a 32-bit counter, so it is back at zero after 2^32 emissions (`FlushDiscipline`).
- A segment that times out keeps its count of overtaking acknowledgements, so at the
  fast-resend threshold it is sent again by the very next flush; a fast resend clears the count
  (`SecondFlush`).
- The test in the congestion-avoidance branch of `ikcp_input` is the wrong way round to hold the
  window back: above the threshold it grows by one for every datagram that moves `snd_una`, just
  as below (`WindowGrowsByOne`).
- With congestion control the first flush sends nothing, because the window starts at zero
  (`FirstFlush`).
- A client whose clock reads 500 milliseconds or less sends no connect packet yet
  (`ConnectStage`).
- Window probes carry the number and time of the last acknowledgement of the same flush,
  because one header record is reused. Nothing reads them.
- An explicit peek runs the code that moves segments to the receive queue; on a well-formed
  engine that changes nothing (`TakeShape`).
- The header comment of `client_lib/kcp_client.hpp` allows a client without an event callback;
  the code calls it unconditionally while connecting. The model has a callback.
- The client takes an empty message from the engine without reporting it, and stops there
  until the next datagram (`Drain` in `ClientModel`).
- After a failed attempt the client keeps its socket, so a second `connect_async` is refused.

## Model

| member | source | states |
|---|---|---|
| SerialNumbers.TimeDiffExact | util/ikcp.c:134-137 | the wrapped difference of two numbers is the true one if and only if the true one fits 32 signed bits |
| SerialNumbers.TimeDiffCongruent | util/ikcp.c:134-137 | adding the difference back to the earlier number leads to the later one |
| SerialNumbers.TimeDiffIsSerialOrder | util/ikcp.c:134-137 | negative, zero and positive differences are the order of section 3.2 of RFC 1982, except for pairs 2^31 apart, where both differences are negative |
| Segments.FragCount | util/ikcp.c:464-469 | the number of fragments is the smallest that holds the message, and one for an empty message |
| Segments.NoDelayKeepsValid | util/ikcp.c:1161-1184 | whatever its arguments ikcp_nodelay leaves workable parameters; the interval is clamped to 2 to 5000 |
| Segments.Fragments | util/ikcp.c:472-491 | fragments count down to zero and none exceeds the MSS |
| Segments.JoinFragments | util/ikcp.c:456-494 | joining the fragments of a message gives the message back |
| UserCalls.SendableExactly | util/ikcp.c:464-469 | a message is accepted if and only if 255 segments hold it |
| UserCalls.SendExactly | util/ikcp.c:456-494 | an accepted message waits whole behind what waited before, a refused one leaves no trace, nothing else is touched |
| Segments.StreamAt | util/ikcp.c:456-494 | in the stream of all fragments each message lies whole right after the ones before it |
| Rtt.Update | util/ikcp.c:500-515 | the timeout lies between the configured minimum and one minute after every sample, overflow included |
| Rtt.UpdateIsRfc6298 | util/ikcp.c:500-515 | on samples up to b with 8b below 2^31 nothing overflows, and the update is the one of section 2 of RFC 6298 with rounding down |
| Rtt.EstimatesBounded | util/ikcp.c:500-515 | over any run of samples in [0, b] both estimates stay in [0, b] |
| Shape.DropBeforeSuffix | util/ikcp.c:550-566 | cumulative acknowledgement removes exactly a prefix, in either arithmetic |
| Shape.RemoveAt | util/ikcp.c:535-547 | selective acknowledgement removes at most one segment, raises fastack on those passed, and leaves the rest |
| Shape.TakeUnaShape | util/ikcp.c:517-526 | a cumulative acknowledgement keeps snd_buf well-formed, never moves snd_una back, and leaves exactly the segments from una on |
| Shape.TakeAckShape | util/ikcp.c:528-548 | a selective acknowledgement keeps snd_buf well-formed, never moves snd_una back, and removes exactly that number |
| Shape.AckOvertakes | util/ikcp.c:535-547 | a selective acknowledgement counts against every earlier segment, or against all if its own is gone, and against no other |
| Shape.AdmitPrefix | util/ikcp.c:941-962 | admission numbers a prefix of snd_queue in order and stops at the window or at the end of the queue |
| Shape.AdmitShape | util/ikcp.c:941-962 | admission keeps at most a send window outstanding |
| Shape.TransmitCounts | util/ikcp.c:969-996 | looking at a segment leaves its number and payload alone and counts an emission |
| Shape.ScanStopExact | util/ikcp.c:630-640 | the backward scan stops at the one place where the number belongs |
| Shape.PromotePrefix | util/ikcp.c:656-667 | the longest in-order prefix of rcv_buf that rcv_queue has room for is moved, in order |
| Shape.TakeDataShape | util/ikcp.c:618-667 | the out-of-order buffer agrees with a plain set: a data segment adds its number if it lies in the window and changes nothing else |
| Shape.FirstCopyStays | util/ikcp.c:630-667 | what was taken in is never replaced by a later arrival under the same number, and nothing comes in but the arrival |
| Shape.NextIsLeastMissing | util/ikcp.c:655-667 | rcv_nxt is the smallest number not received unless rcv_queue is full; both queues fit the window |
| Shape.TakeShape | util/ikcp.c:345-422 | receiving keeps the receiving half well-formed and the numbers held; a peek changes nothing |
| Shape.TakeFits | util/ikcp.c:359-398 | in every state a received message is as long as ikcp_peeksize said and fits the caller's buffer |
| Refinement32.TakeUnaImg | util/ikcp.c:550-566 | cumulative acknowledgement commutes with taking numbers modulo 2^32 |
| Refinement32.TakeAckImg | util/ikcp.c:528-548 | so does selective acknowledgement, for numbers within 2^31 |
| Refinement32.AdmitImg | util/ikcp.c:941-962 | so does admission, across wrap-arounds |
| Refinement32.TakeDataImg | util/ikcp.c:618-667 | so does taking in data |
| Refinement32.TakeImg | util/ikcp.c:345-422 | so does receiving, with the same message |
| Refinement32.InputSegImg | util/ikcp.c:733-793 | so does processing one segment whose numbers are within 2^31 of the counters |
| Refinement32.PackImg | util/ikcp.c:1004-1029 | packing does not depend on sequence numbers |
| Refinement32.FlushImg32 | util/ikcp.c:851-1053 | a 32-bit flush reaches the image of the exact state and emits the images of the exact datagrams |
| Refinement32.UpdateImg32 | util/ikcp.c:1061-1086 | so does an update |
| Wire.Decode32Encode | util/ikcp.c:91-119 | decoding a 32-bit field gives back what was encoded |
| Wire.LittleEndian | util/ikcp.c:63-119 | numbers travel with the low byte first |
| Wire.Header | util/ikcp.c:826-837 | every field of the 24-byte header and where it stands |
| Wire.ParseHeadEncode | util/ikcp.c:706-793 | the parser reads back one encoded segment, whatever follows it |
| Wire.ParseEncode | util/ikcp.c:706-797 | decoding a datagram gives exactly its segments in order and no error |
| Wire.ParsedSound | util/ikcp.c:706-731 | what the parser yields from arbitrary bytes carries 32-bit numbers, this conversation and known commands |
| Wire.ParseExact | util/ikcp.c:704-797 | on any bytes the segments processed, encoded, are the beginning of the bytes, and the code is the one for what stops the parser there: too few bytes for a header, another conversation, a cut-off payload, an unknown command |
| Wire.PackLossless | util/ikcp.c:879-885 | the datagrams, end to end, are the segments in order, each non-empty and within the MTU |
| Wire.PackGreedy | util/ikcp.c:1004-1014 | a datagram is handed over only when the next segment does not fit behind it |
| Robustness.InputSegOk | util/ikcp.c:733-793 | any segment whatever keeps the engine well-formed and moves no window edge back |
| Robustness.FlushStateOk | util/ikcp.c:851-1053 | so does a flush, which leaves a congestion window of at least one |
| Robustness.Lift | util/ikcp.c:528-566 | every 32-bit segment stands for an exact one within 2^31 of the counters |
| Robustness.InputSegsLift | util/ikcp.c:706-797 | on any segments the 32-bit engine does what the exact one does on segments with the same images |
| Robustness.ApplyIsExact | util/ikcp.c:696-820 | any call with any bytes leads from the image of a well-formed exact engine to that of another, further on |
| Robustness.EveryRunIsExact | util/ikcp.c:345-1086 | so after every sequence of calls the 32-bit engine is the image of a well-formed exact one whose counters never moved back |
| Robustness.EveryRunWellFormed | util/ikcp.c:517-566 | in every run: at most a send window outstanding, snd_buf increasing from snd_una below snd_nxt, rcv_buf increasing within the window, both receiving queues within the window, the probe wait zero or 7 to 120 seconds, the timeout within its bounds |
| Channel.InputSegAsSender | util/ikcp.c:734-742 | a true acknowledgement takes nothing from the sender that the receiver does not hold |
| Channel.InputSegAsReceiver | util/ikcp.c:750-775 | a data segment of the stream leaves the receiver with the stream and true acknowledgements |
| Channel.FlushSegsKinds | util/ikcp.c:867-932 | every emitted segment is a pending acknowledgement, a probe that was asked for, or a due data segment stamped with the current time, and reports rcv_nxt and the free window |
| Channel.FlushEmissions | util/ikcp.c:969-1023 | a flush emits a segment once if it is due and otherwise not at all |
| Channel.FlushAsSender | util/ikcp.c:936-1023 | a flush keeps the stream with the sender, loses nothing and counts emissions |
| Channel.FlushAsReceiver | util/ikcp.c:867-888 | a flush acknowledges only numbers that are held |
| Protocol.TakeDeliversMessage | util/ikcp.c:354-396 | a queue that starts a message returns exactly that message as soon as it is whole and the buffer suffices, and otherwise nothing |
| UserCalls.RecvExactly | util/ikcp.c:345-422 | in any state: which code, or which message; a refused call changes nothing, a successful one touches the receiving half and notes an announcement exactly when it ends a full queue |
| UserCalls.MergeCountExactly | util/ikcp.c:371-396 | the merge runs through the first final fragment or through all there is |
| Protocol.StepAsSender | util/ikcp.c:456-1086 | every action at the sending end keeps the link between the two ends |
| Protocol.StepAsReceiver | util/ikcp.c:345-820 | every action at the receiving end keeps it |
| Protocol.EveryRunLinked | util/ikcp.c:345-1086 | every reachable state of two endpoints is linked in both directions |
| Guarantees.ReceivedIsPrefixOfSent | util/ikcp.c:345-494 | at every moment the messages received at one end are the first messages accepted at the other: whole, in order, exactly once |
| Guarantees.NothingForgotten | util/ikcp.c:528-566 | every number below snd_nxt is in snd_buf, below the peer's rcv_nxt, or in its rcv_buf |
| Guarantees.AcknowledgementsAreTrue | util/ikcp.c:867-886 | every segment ever emitted reports a una that was reached and acknowledges only a held number |
| Guarantees.EmissionsAgree | util/ikcp.c:952-1023 | a segment has the same payload in all its emissions, and xmit counts them modulo 2^32 |
| Guarantees.SilentBeforeUpdate | util/ikcp.c:864-865 | in every run an endpoint emits nothing before its first update |
| Guarantees.WindowSpread | util/ikcp.c:936-962 | a well-formed sender whose peer holds what it let go of is at most both windows ahead of rcv_nxt |
| Guarantees.EveryRunSpread | util/ikcp.c:936-962 | so in every run, in both directions, snd_nxt is at least the peer's rcv_nxt and at most both windows ahead of it |
| Guarantees.FullQueueDelivers | util/ikcp.c:367-412 | with a full receive queue and a large enough buffer, receiving succeeds if and only if the next message has at most rcv_wnd fragments; it then returns it and makes room |
| Guarantees.StuckForever | util/ikcp.c:436-449 | from a full queue with an incomplete message at its front nothing is received any more, whatever either end does |
| Guarantees.OversizedNeverReceived | util/ikcp.c:436-449 | in every run, a message with more fragments than the peer's receive window is not received, nor is any message after it |
| Guarantees.OversizedIsAccepted | util/ikcp.c:464-469 | under the default MTU and window a message of 33 fragments is accepted, and then nothing is received in any continuation |
| ByteProtocol.StepImg | util/ikcp.c:696-1086 | one action of a byte-level 32-bit endpoint is the image of the exact action |
| ByteProtocol.BytesSimulateExact | util/ikcp.c:345-1086 | over runs that deliver no datagram after 2^31 newer numbers, the byte-level system does exactly what the exact one does |
| ByteProtocol.BytesReceivedIsPrefixOfSent | util/ikcp.c:345-1086 | on those runs the byte-level system is safe end to end |
| ByteProtocol.ShortRunsAreSafe | util/ikcp.c:345-1086 | every run of at most 2^30 / 255 actions is such a run |
| ByteProtocol.StaleIsTakenForNew | util/ikcp.c:624-625 | the 32-bit window test lets through exactly the numbers less than a window past rcv_nxt modulo 2^32, so of all late data it takes for new only what is late by a multiple of 2^32 less an offset within the window |
| Progress.InputAllFlattens | util/ikcp.c:696-820 | congestion control aside, how segments are cut into datagrams does not matter |
| Feedback.InputEffects | util/ikcp.c:733-793 | after any segments the estimator is the estimator of the round-trip samples in their acknowledgements, in order; the peer's window is the last reported; the announcement flag is set by a question alone; clocks and counters stay |
| Feedback.AcksExact | util/ikcp.c:755-757 | pending acknowledgements are the old ones and, in order, one for each data segment below the window's end of its moment, with its timestamp |
| Feedback.AcknowledgedExactly | util/ikcp.c:733-742 | exactly the numbers below some una and those acknowledged by themselves leave snd_buf |
| Feedback.ForeignIsIgnored | util/ikcp.c:704-731 | a datagram of another conversation, or malformed from the start, changes nothing |
| Feedback.RoundTripMeasured | util/ikcp.c:734-886 | data flushed at t0 whose acknowledgement comes in at t1 is sampled as t1 - t0, and in a clean exchange that is the only sample |
| Feedback.FirstRoundTrip | util/ikcp.c:500-515 | so after the first clean exchange the smoothed round-trip time is exactly the time it took |
| Progress.ArrivalIsAcknowledged | util/ikcp.c:755-757 | a data segment below the end of the window becomes due for acknowledgement, duplicates included, and stays so |
| Progress.PendingAcksAreSent | util/ikcp.c:876-888 | the next flush begins with every pending acknowledgement, in order |
| Progress.AcknowledgedIsGone | util/ikcp.c:734-742 | a segment acknowledged anywhere in the input is not in snd_buf at the end |
| Progress.CleanRoundTrip | util/ikcp.c:734-1029 | after one flush each way, delivered whole, every data segment of the first that arrived below rcv_nxt + rcv_wnd has left snd_buf |
| Progress.RoundTripAdvances | util/ikcp.c:734-1029 | and if the oldest segment was due and the receiver had room, snd_una has grown |
| Progress.FlushDecodes | util/ikcp.c:876-1029 | the datagrams of a flush decode to the pending acknowledgements in order, then probes, then due data; none is empty, over the MTU or closed early; each reports the free window |
| Delivery.CanOpen | util/ikcp.c:890-932 | from every state a closed window can be opened: the probe timer runs out, the receiver is asked, its answer reports room |
| Delivery.CanMove | util/ikcp.c:734-1029 | from every state with something unacknowledged and room at the receiver there is a round after which snd_una has grown |
| Delivery.MissingIsOutstanding | util/ikcp.c:345-422 | while a drained receiver lacks a message that fits the window, one of its fragments or of those before is unacknowledged |
| Delivery.ReceivableExactly | util/ikcp.c:345-1086 | after any run, even if no datagram emitted so far arrives, an accepted message can still be received if and only if neither it nor a message before it has more fragments than the receive window |
| ByteDelivery.YoungConnectionsAreSafe | util/ikcp.c:345-1086 | the byte-level system is safe end to end, whatever the network does, while fewer than 2^31 numbers less a window are in use |
| ByteDelivery.BytesReceivableExactly | util/ikcp.c:345-1086 | on such connections the byte-level system can still deliver an accepted message if and only if neither it nor a message before it is oversized |
| Retransmission.FlushDiscipline | util/ikcp.c:964-1023 | a flush emits exactly the segments that are new, overdue or at the fast-resend threshold; number and payload stay; xmit counts and is zero only after 2^32 emissions; a fast resend and nothing else clears fastack; the deadline is the next timeout from now, which lies ahead if and only if it is positive and at most 2^31 |
| Flushing.AdmittedExactly | util/ikcp.c:936-962 | as many queued segments are numbered, in order, as the smallest of send window, peer window and, unless switched off, congestion window allows |
| Flushing.FlushAdmits | util/ikcp.c:936-962 | so a flush leaves snd_nxt, snd_buf and snd_queue accordingly |
| Flushing.FirstFlush | util/ikcp.c:936-1052 | the first flush sends what the default peer window and the send window hold, with a 200 ms timeout; with congestion control it sends nothing and opens the window to one |
| Flushing.FlushClears | util/ikcp.c:888-934 | after a flush no acknowledgement, question or answer is pending, and the receiving half, the estimator and the clocks are as before |
| Flushing.OnlyDataIsRepeated | util/ikcp.c:888-934 | so a second flush sends nothing but data |
| Flushing.SecondFlush | util/ikcp.c:969-996 | exactly when a second flush at the same time sends a segment again; a fast-resent one is not |
| Flushing.FlushLosses | util/ikcp.c:1031-1052 | timeouts are counted; a timeout shuts the congestion window to one, else a fast resend sets it to half of what is outstanding plus the threshold, else it stays but is at least one; the slow-start threshold accordingly |
| Flushing.DeadExactly | util/ikcp.c:1019-1021 | the link is given up exactly when a segment is sent for the dead_link-th time or later |
| CongestionWindow.GrowsByOne | util/ikcp.c:799-817 | with parameters whose byte count fits 32 bits growth is by exactly one, below and above the threshold, up to the peer's window |
| CongestionWindow.WindowGrowsByOne | util/ikcp.c:799-817 | in every run, whatever bytes come in, a datagram well-formed to its end that moves snd_una makes the window one larger unless it has reached the peer's, and no other does |
| Retransmission.DeadlineExact | util/ikcp.c:972-996 | for every way of sending: the deadline lies ahead if and only if the segment was left alone or its next timeout, told from the state before, is positive and at most 2^31 |
| Retransmission.DeadlineAfterTransmit | util/ikcp.c:972-996 | so the deadline lies ahead after each of the first 35791 emissions of a segment |
| Retransmission.DeadlineCanBePassed | util/ikcp.c:978-996 | a fast-resent and a timed-out segment whose new deadline counts as passed |
| Retransmission.EmissionLimitIsTight | util/ikcp.c:978-988 | emission 35792 can leave a deadline that counts as passed |
| Retransmission.DueIncreasing | util/ikcp.c:969-1023 | data segments are emitted in the order of their numbers |
| Retransmission.ProbeDiscipline | util/ikcp.c:890-910 | the probe timer is off unless the peer's window is zero, waits 7 to 120 seconds, asks exactly when its time has come, and then waits half as long again |
| Retransmission.WindowIsAnnounced | util/ikcp.c:414-419 | making room in a full queue, and being asked, lead to a window announcement in the next flush |
| Retransmission.GrowthBounded | util/ikcp.c:799-817 | window growth takes at most one step and stays within the peer's window |
| Pacing.TimerOfRun | util/ikcp.c:1061-1086 | in every run the flush timer is driven by updates alone, and so is the number of updates that flush |
| Pacing.TickAt | util/ikcp.c:1061-1086 | one update on any clock reading: when a flush is due, also after the clock seems to have gone back, and when the next |
| Pacing.PaceInvariant | util/ikcp.c:1072-1085 | the next flush time is strictly ahead, at most an interval away, and each flush moves it on by at least an interval |
| Pacing.FlushesArePaced | util/ikcp.c:1061-1086 | with a clock that does not go back, updates alone cause at most 1 + (t - t0) / interval flushes by time t |
| Pacing.RunFlushesArePaced | util/ikcp.c:1061-1086 | so in every run of the engine, whatever else is called, the updates flush at most that often, and the next flush is strictly ahead within an interval |
| Pacing.CheckRange | util/ikcp.c:1098-1134 | ikcp_check answers with a time at most an interval away |
| Pacing.CheckIsTight | util/ikcp.c:1098-1134 | ikcp_check answers now if something is urgent, and otherwise the nearest of the flush time, the deadlines and one interval from now, which lies ahead |
| Pacing.CheckIsSound | util/ikcp.c:1089-1134 | an update before the answer does nothing but note the time |
| Pacing.UpdatesCanBeSkipped | util/ikcp.c:1089-1134 | so all such updates can be skipped without changing what comes after |
| KcpObject.Kcp.constructor | util/ikcp.c:232-291 | a new control block is the initial engine |
| KcpObject.Kcp.Send | util/ikcp.c:456-494 | the fragmenting loop queues the fragments of the message or refuses it, as the engine does |
| KcpObject.Kcp.PeekSize | util/ikcp.c:428-450 | the summing loop computes the size the engine gives |
| KcpObject.Kcp.MoveToQueue | util/ikcp.c:401-412 | the moving loop promotes what the engine promotes |
| KcpObject.Kcp.Merge | util/ikcp.c:371-396 | the merge loop copies the next message and deletes it unless peeking |
| KcpObject.Kcp.Recv | util/ikcp.c:345-422 | result, message and new state are the engine's, and the copy fits the buffer |
| KcpObject.Kcp.UpdateAck | util/ikcp.c:500-515 | the estimator is updated in place as specified |
| KcpObject.Kcp.ShrinkBuf | util/ikcp.c:517-526 | snd_una becomes the head of snd_buf or snd_nxt |
| KcpObject.Kcp.ParseUna | util/ikcp.c:550-566 | the deleting loop removes what the engine removes |
| KcpObject.Kcp.ParseAck | util/ikcp.c:528-548 | the searching loop raises fastack and removes as the engine does |
| KcpObject.Kcp.AckPush | util/ikcp.c:572-606 | a pending acknowledgement is appended; the growing block loses and reorders none |
| KcpObject.Kcp.GrowBlock | util/ikcp.c:577-600 | reallocation keeps every pair in its place and leaves room |
| KcpObject.Kcp.ParseData | util/ikcp.c:618-667 | scan, insertion and promotion are the engine's |
| KcpObject.Kcp.Input | util/ikcp.c:696-820 | on arbitrary bytes the loop reads nothing past the end, returns the parser's code and reaches the engine's state |
| KcpObject.Kcp.GrowWindow | util/ikcp.c:799-817 | the window grows in place as specified |
| KcpObject.Kcp.EncodeHeader | util/ikcp.c:826-837 | the header is written behind what is already in the buffer |
| KcpObject.Kcp.Emit | util/ikcp.c:1004-1017 | the buffer and the datagrams handed over are the segments so far, packed |
| KcpObject.Kcp.FlushAcks | util/ikcp.c:876-888 | every pending acknowledgement is emitted, in order, and none is left pending |
| KcpObject.Kcp.RunProbeTimer | util/ikcp.c:890-910 | the probe timer runs in place as specified |
| KcpObject.Kcp.FlushProbes | util/ikcp.c:912-934 | the probes that are due are emitted and cleared |
| KcpObject.Kcp.AdmitSegments | util/ikcp.c:940-962 | the admission loop admits what the engine admits |
| KcpObject.Kcp.FlushData | util/ikcp.c:968-1023 | the data loop updates every segment in place, emits the due ones in order and counts |
| KcpObject.Kcp.ReduceWindow | util/ikcp.c:1031-1052 | the window is reduced in place as specified |
| KcpObject.Kcp.Flush | util/ikcp.c:851-1053 | the object reaches the engine's state, and what the output callback got is the encoded datagrams of the engine |
| KcpObject.Kcp.Update | util/ikcp.c:1061-1086 | an update does to the object what it does to the engine |
| KcpObject.Kcp.Check | util/ikcp.c:1098-1134 | the loop computes the engine's answer |
| LinkedQueue.Init | util/ikcp.h:147-148 | a head becomes an empty ring |
| LinkedQueue.Add | util/ikcp.h:161-163 | a node is inserted after a given position; next and prev stay inverse |
| LinkedQueue.AddTail | util/ikcp.h:165-167 | a node is appended |
| LinkedQueue.Del | util/ikcp.h:171-174 | exactly the node is taken out |
| LinkedQueue.IsEmpty | util/ikcp.h:179 | the test holds if and only if the list is empty |
| LinkedQueue.ParseUna | util/ikcp.c:554-564 | deleting while traversing the list has the effect on its contents that the engine specifies |
| LinkedQueue.ParseAck | util/ikcp.c:535-547 | so has raising fastack and deleting while traversing |
| LinkedQueue.InsertScan | util/ikcp.c:630-648 | so has the backward scan with insertion |
| LinkedQueue.MoveReady | util/ikcp.c:656-667 | so has moving between two lists; the very nodes are moved and the two lists stay disjoint |
| LinkedQueue.AdmitNodes | util/ikcp.c:941-962 | so has the admission loop: nodes leave snd_queue, join snd_buf and are filled in |
| LinkedQueue.MergeNodes | util/ikcp.c:371-396 | so has the merge loop, which deletes as it walks unless peeking |
| LinkedQueue.PeekNodes | util/ikcp.c:428-450 | so has the size computation |
| LinkedQueue.TransmitNodes | util/ikcp.c:969-996 | so has rewriting every record of snd_buf in place |
| ControlBlock.Queues.constructor | util/ikcp.c:254-262 | four empty lists are the initial halves of the engine |
| ControlBlock.Queues.Send | util/ikcp.c:456-494 | the fragments are appended as new nodes; the four lists stay well linked and disjoint; the sending half is the engine's |
| ControlBlock.Queues.Admit | util/ikcp.c:940-962 | likewise for admission, which moves nodes between two of the lists |
| ControlBlock.Queues.TakeUna | util/ikcp.c:517-566 | likewise for a cumulative acknowledgement, which deletes nodes |
| ControlBlock.Queues.TakeAck | util/ikcp.c:517-548 | likewise for a selective acknowledgement |
| ControlBlock.Queues.Transmit | util/ikcp.c:968-996 | likewise for the data loop, which rewrites nodes |
| ControlBlock.Queues.ParseData | util/ikcp.c:618-667 | likewise for a data segment: scan, insertion of its node, and moving ready nodes on |
| ControlBlock.Queues.MoveToQueue | util/ikcp.c:401-412 | likewise for moving ready nodes on |
| ControlBlock.Queues.Recv | util/ikcp.c:345-412 | likewise for receiving, with the engine's result |
| Handshake.AtolDecimal | util/connect_packet.cpp:31-42 | printing a 32-bit number and reading it back gives the number |
| Handshake.AtolReads | util/connect_packet.cpp:38-42 | after white space an optional sign and the digits up to the first other byte are read, clamped to 64 bits |
| Handshake.PacketsRoundTrip | util/connect_packet.cpp:14-64 | every packet made is recognised, and yields the conversation number it was made from |
| Handshake.RecognisedExactly | util/connect_packet.cpp:19-58 | the recognisers accept the text and one byte, or the text, one byte and something after it, and nothing else |
| Handshake.RecognisersExclusive | util/connect_packet.cpp:19-58 | no bytes are taken for two kinds of packet |
| Handshake.DatagramsAreNotHandshakes | util/ikcp.c:826-837 | no datagram of a flush is ever taken for a handshake packet |
| ClientModel.ClientRuns | client_lib/kcp_client.cpp:77-189 | with a clock that does not go back: at most ten connect packets, the outcome reported at most once and first, failure only after more than 5000 ms, messages only after success, an engine exactly after success |
| ClientModel.AnswerConnects | client_lib/kcp_client.cpp:164-189 | the server's answer within the time limit creates an engine with the server's conversation number |
| ClientModel.ConnectStage | client_lib/kcp_client.cpp:126-189 | over every clocked run an update in the connect stage reports failure after more than 5000 ms; until then it sends the connect packet if and only if the last one is more than 500 ms old, and completes the handshake if and only if it reads an answer |
| ClientModel.AttemptLasts | client_lib/kcp_client.cpp:77-162 | an attempt begun at t0 is still going after any further moves without an answer up to t0 + 5000 |
| ClientModel.ConnectAsyncExactly | client_lib/kcp_client.cpp:77-101 | return code and new state of connect_async in every case |
| ClientModel.ClientParameters | client_lib/kcp_client.cpp:58-71 | the parameters every client runs with |
| ClientModel.RecvShrinks | client_lib/kcp_client.cpp:403-417 | every successful receive takes segments away, so the receive loop ends |
| ClientEndpoint.SendAllQueues | client_lib/kcp_client.cpp:372-386 | the send loop queues the fragments of the messages that are not too long, in order, and changes nothing else |
| ClientEndpoint.UpdateIsEndpoint | client_lib/kcp_client.cpp:112-123 | an update of a connected client is, for its endpoint, sending the queued messages, a delivery, receive calls until nothing is left, and an update, in this order |
| ClientEndpoint.EveryWorldEmbeds | client_lib/kcp_client.cpp:77-418 | every run of a client and a server's endpoint is a run of two endpoints |
| ClientEndpoint.ClientEndToEnd | client_lib/kcp_client.cpp:77-418 | the messages reported are the non-empty ones among the first the server sent, and the server receives the first of those given to send_msg that are not too long |
| ClientObject.KcpClient.constructor | client_lib/kcp_client.cpp:18-31 | a new client is the initial state |
| ClientObject.KcpClient.ConnectAsync | client_lib/kcp_client.cpp:77-101 | the fields and the return code are those of the state machine |
| ClientObject.KcpClient.SendMsg | client_lib/kcp_client.cpp:365-370 | a message is appended to the send queue and nothing else changes |
| ClientObject.KcpClient.DoConnect | client_lib/kcp_client.cpp:126-189 | timeout, connect packet and answer are handled as in the state machine |
| ClientObject.KcpClient.SendQueued | client_lib/kcp_client.cpp:372-386 | the loop hands every queued message to the engine, in order |
| ClientObject.KcpClient.ReportMessages | client_lib/kcp_client.cpp:403-417 | the loop reports what the state machine reports |
| ClientObject.KcpClient.DoRecv | client_lib/kcp_client.cpp:320-418 | errors, disconnect packets and datagrams are handled as in the state machine |
| ClientObject.KcpClient.Update | client_lib/kcp_client.cpp:103-124 | an update is a step of the state machine |

## Left out

- Sockets, threads, timers and signals: represented by what a call is given (time, bytes read) and by recorded output.
- The server classes, the multicast managers and the client's thread wrapper: map bookkeeping and plumbing around the engine, which would only add easy members.
- ikcp_setmtu, ikcp_wndsize and ikcp_nodelay in mid-run: parameters are fixed when a connection is made, as in the repository.
- Allocation failure, the allocator hooks, logging and the big-endian build: not modelled.
- Null buffers and a negative length given to ikcp_send: a message is a sequence of bytes.
- Retransmission.GrowthBounded: states bounds only, because it holds for all parameters, also those whose byte counts overflow 32 bits.
- CongestionWindow.GrowsByOne: bounds the byte count incr and does not say what it is in congestion avoidance, because it then has no influence on the window.
- ClientEndpoint.ClientEndToEnd: reads that are neither the server's datagrams nor refused at once, such as forged ones, are covered by Robustness only.
- KcpObject.Kcp.Send: queue lengths and the acknowledgement count are unbounded numbers, so wrap-around of those counters after 2^32 entries is not modelled.
- KcpObject.Kcp.Recv: the queues of the object are sequences; the four linked lists are in ControlBlock.Queues, which has the same operations on them.
- ControlBlock.Queues.Recv: the window announcement of ikcp_recv and everything else outside the queues is in KcpObject.Kcp.
- Delivery.ReceivableExactly: for receive windows below 65536, because a larger one does not fit the 16-bit field in which its free space is reported.
- ByteDelivery.BytesReceivableExactly: says nothing about connections that have used 2^31 numbers or more, where a stale datagram could be taken for a new one.
- Rtt.Update: signed overflow, which C leaves undefined, is modelled as two's-complement wrap-around.
- Handshake.AtolDecimal: atol is modelled with a 64-bit long, and the end of the bytes read stands for the terminating NUL.

# nanoarq in Dafny

nanoarq is a Selective Repeat ARQ in one C header, `arq.h`. This project models its logic and proves
what the logic keeps over whole runs: the send window is a bounded byte FIFO, the receive window holds
exactly the messages it was sent, the two joined by a lossy, repeating, reordering network deliver a
prefix of what was accepted, what the receiver lacks is what the sender repeats, the bytes on the wire
have the format of the code and survive any chunking, the CRC catches bursts, the handshake agrees and
reports what happened, timers and polls fit together, and every array has its place in memory.

`dafny verify dfyconfig.toml` checks everything.

## How it is built

Each structure that the C code updates in place is a class over arrays with the same fields and the
same index arithmetic (`SendWindowImpl.SendWindow`, `SendPoll.SendPointer`, `RecvWindowImpl.RecvWindow`,
`FrameStream.RecvFrame`, `Connection.Connection`, `Layout.LinAlloc`). Its methods are proved equal to
functions on values (`SendWindow`, `RecvWindow`, `FrameStream`, `Connection`, `Layout`), in which a window is a list
counted from its base, and the properties are proved about those functions. COBS, frame writing and
reading and the CRC loop are methods on buffers, proved against their own value functions.

| files | part of `arq.h` |
|---|---|
| `Arith`, `SeqNum`, `AckVec`, `Messages`, `Memory` | 12-bit numbers, slots, acknowledgement vectors, segments, copies |
| `SendWindow`, `SendFifo`, `SendLayout`, `SendWindowImpl`, `SendPoll`, `Burst`, `Retransmission`, `SendHazards`, `StrayRun`, `OldAck` | send window, send pointer, send poll |
| `RecvWindow`, `RecvInvariant`, `RecvReading`, `RecvAcks`, `RecvSignals`, `RecvWindowImpl`, `LateRepeats` | receive window, receive poll |
| `TwoEnded`, `SenderSteps`, `Appending`, `Announcing`, `Safety` | a sender and a receiver over a network: steps, invariant, theorems on runs |
| `AckGuard`, `LostByte`, `StrayByte`, `ReadBeforeAck`, `StuckRun`, `OneSlot` | what the guards of a run are for, messages that get stuck, facts for the short runs |
| `RunBursts`, `SelectiveRepeat`, `OnTheWire` | bursts and repeats in a run, the frames of a run as bytes |
| `Cobs`, `Frames`, `WireFormat`, `FrameStream`, `Crc` | wire format |
| `Connection`, `ConnectionEvents`, `ConnectAttempts`, `Handshake` | connection state machine |
| `NextPoll`, `Layout`, `LayoutUse` | poll scheduling, memory layout |

Conventions. Bytes are integers below 256. Acknowledgement vectors are naturals whose bit operations
are defined by binary digits. `Arith.Mul`, `Arith.Quo` and `Arith.Rem` are `*`, `/` and `%`
(`Arith.SameAsOperators`), defined by recursion so that no proof leans on nonlinear arithmetic.
Automatic induction is off in every lemma.

## What the run theorems assume

The theorems about whole two-ended runs are about configurations and schedules, stated in
`TwoEnded.Config.Valid` and `TwoEnded.Guarded`. For each guard there is the exact
condition for keeping the invariant, and a run that shows what it keeps out:

- Both ends have the same message shape, of 1 to 12 segments of 1 to 238 bytes; both window
  capacities divide 4096; send capacity plus twice the receive capacity is below 4096.
  `arq__check_cfg` checks none of these bounds. That the capacity must divide 4096 is itself a result
  (`SeqNum.SlotMapInjective`).
- Bytes are added to a message that was flushed unfinished only if they give it no more segments and
  its last segment was never on the network. `Appending.AppendKeepsIff` says that nothing weaker
  keeps the invariant; `LostByte.ByteIsLost` is a run that loses a byte.
- An acknowledgement does not free the message a valid send pointer is on, and is not so old that its
  number stands for another message. `AckGuard.AckKeepsIff` says exactly when an acknowledgement keeps
  the invariant. `StrayByte.StrayByteIsDelivered` is a run in which the pointer, left on a freed
  message, mixes two messages; `SendHazards.StrayPointerIff` says when the pointer strays.
  `OldAck.OldAckFreesUnsent` is a run in which an old acknowledgement frees a new message.
- No segment arrives of a message that was already read out and is not yet behind the base by more
  than one, nor one so old that its number stands for a message within reach. The code cannot tell
  it from a new one, although the protocol is meant to deliver once. `LateRepeats.ArrivalKeepsIff`
  says exactly which arrivals keep the invariant; `LateRepeats.LateRepeatIsReadTwice` and
  `LateRepeats.OldFrameIsTakenForNew` are runs that hand a byte out twice.

## Model

| member | source | states |
|---|---|---|
| `Safety.DeliveredIsPrefixOfAccepted` | arq.h:1052-1326 | in every run of sends, flushes, send polls, receive polls and reads over a network that loses, reorders and repeats, at every moment the bytes handed out are a prefix of the bytes accepted, across the wrap of sequence numbers |
| `Safety.NothingAcknowledgedIsLost` | arq.h:1092-1117 | in every run, the accepted bytes are those of the messages that left the send window followed by those still in it, and for every message that left, the bytes up to its end are a prefix of the bytes handed out, or the receiver holds it whole, byte for byte |
| `Safety.NextKeeps` | arq.h:1505-1568 | every step keeps the joint invariant: sender vectors, network frames, acknowledgements and receiver slots agree on the same numbered messages |
| `Safety.NextSent` | arq.h:1505-1568 | every step keeps that whatever the receiver has was put on the network under its own number |
| `Safety.SenderPolls` | arq.h:1536-1568 | the sender's steps of a run are calls of the send poll; what they put on the network is the segment that call announces, with the bytes at its place in its slot and a message number that reads as the announced one on the wire |
| `Safety.ReceiverPolls` | arq.h:1505-1534 | the receiver's steps of a run are calls of the receive poll; the acknowledgement they put on the network has the reported vector and a message number that reads as the reported one |
| `Safety.RunsContinue` | arq.h:1052-1326 | a run never gets stuck: whatever the guards allow in a reachable state extends the run, so the theorems are not about an empty set |
| `OnTheWire.RunsTravel` | arq.h:845-945 | in every reachable state, a frame with any segment and any acknowledgement of the run fits its header fields (12 bits of vector included) and is read back from its bytes as that segment and acknowledgement, for every checksum function |
| `OnTheWire.HeaderFreesIff` | arq.h:1514-1547 | what a frame that was read frees in the send window depends on its header alone, whatever the checksum said: on the flag, the number being in the window, and the vector completing the first message |
| `OnTheWire.DamagedAckFreesUnsent` | arq.h:912-924 | one frame with any wrong checksum frees a message just accepted, of which nothing was sent |
| `RecvInvariant.ReceiveKeeps` | arq.h:1218-1262 | a genuine segment that is neither late nor out of age keeps the receive-window invariant and the read point, loses nothing that had arrived, and has itself arrived if within reach |
| `RecvInvariant.ReachKeeps` | arq.h:1231-1241 | growing the window, or sliding it past the messages read out, keeps the invariant, the read point and everything stored, and finds the slot of the new message |
| `RecvInvariant.CompleteSlot` | arq.h:1250-1252 | a slot whose vector is full holds exactly its source message |
| `RecvInvariant.StoreSegment` | arq.h:1248-1252 | storing a missing segment of a message keeps the slot a collection of segments of that message, the others untouched |
| `LateRepeats.ArrivalKeepsIff` | arq.h:1231-1262 | the arrival of any genuine segment, however old or repeated, keeps the receive-window invariant if and only if it is out of reach, or within reach of an existing message that has it or takes one just like it, or just before the base while the last slot of a full window does; a segment of a message already read out never does |
| `LateRepeats.ReceiveKeepsIff` | arq.h:1231-1262 | within age that condition is: the message is not late, or it is the one just before the base and the last slot of a full window takes the segment |
| `LateRepeats.LateRepeatIsReadTwice` | arq.h:1236-1244 | a message received and read, received again, is read again: the same byte is handed out twice |
| `LateRepeats.OldFrameIsTakenForNew` | arq.h:1231-1242 | after 4096 messages received and read, the frame of the first one is taken for one of the next: its byte is handed out again |
| `AckGuard.AckKeepsIff` | arq.h:1092-1117 | in every state that meets the joint invariant, taking an acknowledgement of any age keeps it if and only if the acknowledgement is ignored, or is true of the message of the window that has its number and frees no message the valid pointer is on; of a message that may still grow it must say nothing, with the tinygram timer at zero |
| `OldAck.OldAckFreesUnsent` | arq.h:1092-1117 | a run of the sender from reset: after 4096 messages announced and acknowledged, the first acknowledgement, repeated, frees a message of which nothing was announced |
| `RecvWindow.SegmentInsideIff` | arq.h:1036 | the place computed for a segment lies inside the slot of its message if and only if the segment number is below the configured count |
| `RecvReading.ReadContinues` | arq.h:1275-1308 | a read keeps the invariant and returns the exact continuation of what was delivered before |
| `RecvReading.ReadIsMaximal` | arq.h:1275-1308 | a read returns the first min(dst_max, available) bytes of the run of complete messages from the copy point |
| `RecvReading.ReadSplits` | arq.h:1275-1308 | reading a and then b gives the same bytes and the same window as reading a + b at once |
| `RecvAcks.AckIsTruthful` | arq.h:1310-1326 | every bit of an emitted vector is a segment that arrived; the vector is exact for messages not read out and empty for messages read out; its number is that of the first slot with a raised flag, and there is none exactly when no flag of the window is raised |
| `ReadBeforeAck.ReadBeforeAckIsStuck` | arq.h:1299-1319 | in every run, a message that was read out before any acknowledgement of all of it was sent, and that the sender does not know to be complete, never leaves the send window |
| `StuckRun.GuardedRunGetsStuck` | arq.h:1299-1319 | four steps within the guards lead to such a message |
| `RecvAcks.CallsDrainFlags` | arq.h:1310-1326 | with no arrivals, repeated calls report each raised flag of the window once, in sequence order, and then nothing |
| `RecvSignals.ArrivalMoves` | arq.h:1230-1241 | any segment within reach moves the window as making room for its number does, new or known |
| `RecvSignals.ArrivalRefused` | arq.h:1230-1234 | any segment out of reach changes nothing and is not taken |
| `RecvSignals.ArrivalSignals` | arq.h:1243-1261 | for any segment within reach: the last segment of a message makes its acknowledgement due whether or not the others are there, a segment already stored does too, and no other flag changes; a last segment stops the inter-segment timer, any other new one starts it for its message |
| `RecvSignals.ArrivalStores` | arq.h:1248-1262 | for any segment within reach: if new, its mark, bytes, length and segment count go to the slot of its number, and nothing else in any slot changes; the bytes counted are the bytes reported as taken |
| `RecvSignals.TimerSignals` | arq.h:1522-1528 | the inter-segment timer raises the flag of the message it watches, and no other, exactly when dt reaches what is left of it, and then stops |
| `RecvSignals.ReadSignals` | arq.h:1275-1308 | reading raises and lowers no flag and leaves the timer alone |
| `RecvSignals.PollRaises` | arq.h:1505-1534 | after a poll with an arrival, an acknowledgement of a number is due if and only if it is in the window and was due, or the segment was of its message and the last, known, or with no delay, or the timer that ran before runs out; the poll reports the first that is due |
| `RecvSignals.GapIsReported` | arq.h:1505-1534 | with no flag up, a poll with a new segment reports at once if it is the last one, and else if and only if the delay is over; the vector marks the segment and what was there before |
| `RecvSignals.SilenceIsReported` | arq.h:1522-1532 | while nothing arrives, polls with any times report nothing until the times add up to what was left on the inter-segment timer; that poll reports the segments the watched message has, and later ones nothing |
| `SelectiveRepeat.GapIsAcknowledged` | arq.h:1505-1534 | in every state that meets the joint invariant, with no acknowledgement due, the poll with a fresh last segment puts one acknowledgement on the network, of its message and of exactly the segments of it that have arrived |
| `SelectiveRepeat.MissingIsRepeated` | arq.h:1536-1568 | in every run, when the sender with its pointer at rest takes an acknowledgement that leaves something out, the polls that follow announce what is due, once each, and of that message exactly the segments left out |
| `SelectiveRepeat.GapIsRefilled` | arq.h:1505-1568 | in every run, what becomes due of a message through the acknowledgement of a gap is exactly what the receiver had not got when it reported |
| `RecvWindowImpl.RecvWindow.Frame` | arq.h:1218-1262 | the class over arrays does to its slots what the value model does, and returns the number of bytes taken |
| `RecvWindowImpl.RecvWindow.Reach` | arq.h:1231-1241 | refuses a number out of reach, otherwise slides or grows the window as the value model does |
| `RecvWindowImpl.RecvWindow.Store` | arq.h:1248-1255 | writes the segment at its place in one slot and marks it; no other slot and no other byte changes |
| `RecvWindowImpl.RecvWindow.Recv` | arq.h:1275-1308 | the reading loop returns the bytes and leaves the window that the value model's read does |
| `RecvWindowImpl.RecvWindow.SendAck` | arq.h:1310-1326 | finds the first raised flag of the window, lowers it and reports that slot |
| `RecvWindowImpl.RecvWindow.InterSegment` | arq.h:1522-1528 | steps the inter-segment timer; on expiry raises the flag of the watched message and stops |
| `RecvWindowImpl.RecvWindow.Poll` | arq.h:1505-1534 | arrival, timer and acknowledgement in the order of the receive poll |
| `RecvWindowImpl.RecvWindow.Rst` | arq.h:1202-1216 | an empty window at number 0 with blank slots, timers off |
| `SendFifo.SendRefinesQueue` | arq.h:1052-1090 | a send takes exactly min(len, free space) bytes and appends them to the window bytes; full messages keep theirs, the last one only grows |
| `SendFifo.AckDropsPrefix` | arq.h:1092-1117 | an acknowledgement drops whole messages from the front, moves the base by as many, and leaves all other bytes in place |
| `SendFifo.RunConservesBytes` | arq.h:1052-1147 | in every run of send, ack, flush and step, accepted bytes are the bytes that slid out followed by the window bytes, which never exceed the capacity |
| `SendFifo.WindowIsCut` | arq.h:1073-1083 | the messages of a window are its bytes cut into full lengths, the last one whatever is left |
| `SendWindowImpl.SendWindow.Send` | arq.h:1052-1090 | the two-part copy round the buffer and the updates of lengths, timers and size give the window of the value model, and the number of bytes taken |
| `SendWindowImpl.SendWindow.CopyBytes` | arq.h:1063-1080 | the circular buffer holds the old bytes followed by the new ones, and the counts say how they cut into messages |
| `SendWindowImpl.SendWindow.Ack` | arq.h:1092-1117 | marks, blanks the freed slots and slides, as the value model does |
| `SendWindowImpl.SendWindow.Flush` | arq.h:1119-1134 | narrows the vector of the last message to its segments and zeroes its timer |
| `SendWindowImpl.SendWindow.Step` | arq.h:1136-1147 | every timer of the window, and the tinygram timer if on, drops by dt and stops at zero |
| `SendWindowImpl.SendWindow.Rst` | arq.h:1040-1050 | an empty window at number 0 with blank slots |
| `SendWindowImpl.SendWindow.Seg` | arq.h:1027-1038 | the place and length computed for a segment of a message in the window hold exactly that segment's bytes |
| `Appending.AppendKeepsIff` | arq.h:1063-1083 | in every state that meets the joint invariant and whose last message was flushed unfinished, sending more bytes keeps the invariant if and only if they give that message no more segments and its last segment was never on the network |
| `LostByte.ByteIsLost` | arq.h:1063-1131 | a run from a fresh system, one step of which adds a byte to a flushed message whose segment count stays the same: the byte is accepted and never delivered, and what follows it is delivered, so that the delivered bytes are no prefix when the byte after it differs |
| `SendHazards.AppendedBytesAreFreed` | arq.h:1097-1116 | in a window of any size, acknowledging the segments the last message had at the flush completes it together with all bytes added later, and it leaves with the complete messages before it |
| `SendHazards.StrayPointerIff` | arq.h:1176-1182 | a valid pointer on a number no longer in the window names that number again if and only if the present occupant of its slot, a later message or none, has a segment past the pointer's next clear bit; segment and count are the occupant's |
| `SendHazards.StrayOnBlankIff` | arq.h:1176-1182 | on a freed slot that nothing occupies, the pointer announces one more segment, with no segment count, if and only if a message can have that many |
| `StrayByte.StrayByteIsDelivered` | arq.h:1170-1182 | a run from a fresh system, one step of which lets an acknowledgement free the message the pointer is on: a byte of the next message is delivered as the second segment of the freed one, and a byte is missing before it |
| `StrayRun.StrayRunFromReset` | arq.h:1536-1568 | a run of sends and polls from reset in which a segment of the second message is announced under the number of the first, already freed |
| `AckVec.CtzFindsClear` | arq.h:1178-1179 | `k + ctz(~(v >> k))` on 32-bit words is the first clear bit of v from k on |
| `AckVec.LessThanMask` | arq.h:1191 | the numeric test `cur < full` says that some segment is missing, and equality that none is |
| `SendPoll.SendPointer.Next` | arq.h:1170-1200 | the pointer moves to the next missing segment, or to the first message that is due, and says whether it finished a message, as the value model does |
| `SendPoll.Poll` | arq.h:1536-1568 | acknowledgement, timers, tinygram flush, pointer and retransmission timer in the order of the send poll |
| `RunBursts.RunBurstEnumerates` | arq.h:1170-1200 | in every run, from any state whose pointer is invalid and whose tinygram timer is not spent, polls without time and acknowledgements announce exactly the missing segments of the due messages, once each, in window and segment order, then nothing |
| `RunBursts.InvReady` | arq.h:1191 | in every state that meets the joint invariant, a message whose timer has run out has a vector that counts its segments |
| `Retransmission.AckTimers` | arq.h:1101-1116 | the message an acknowledgement names takes its vector, and if that leaves something out it stays in the window with its timer at zero; every other message that stays is unchanged |
| `Retransmission.NakMakesDue` | arq.h:1101-1105 | after such an acknowledgement the due headers of its message are exactly those of the segments the vector does not mark |
| `Retransmission.NakIsAnswered` | arq.h:1536-1568 | with the pointer at rest, the poll that takes such an acknowledgement announces a segment at once: the first one not marked, if no message before it is due |
| `Retransmission.SendTimers` | arq.h:1073-1088 | a send leaves every message it completes due at once, and the last one too if it was full and only waited for its acknowledgement; a message begun and not filled waits for the delay, all others keep their timers |
| `Retransmission.FlushMakesDue` | arq.h:1119-1134 | a flush makes exactly the unacknowledged segments of the last message due at once, and it is complete with the segments it has |
| `Retransmission.TimersAge` | arq.h:1549-1553 | the timers of a poll are the passing of its time: every timer drops to no less than zero, and when the tinygram timer runs out the last message is sealed and due |
| `Retransmission.NoRoomWaits` | arq.h:1536-1568 | a poll that cannot send takes its acknowledgement and lets its time pass; the pointer stays where it is |
| `Retransmission.AnnouncesWhenDue` | arq.h:1536-1568 | with the pointer at rest and no acknowledgements, polls with any times announce nothing until the times add up to what some message waited for; that poll announces the first header due by then |
| `Retransmission.TinygramWaits` | arq.h:1052-1088 | a short message sent into an empty window is announced, with its number of segments, by exactly the poll at which the times add up to the tinygram delay |
| `Retransmission.EmitTimers` | arq.h:1555-1558 | an emission restarts the retransmission timer of the pointer's message exactly when no segment of it behind the pointer is missing, and no other |
| `Retransmission.BurstRestarts` | arq.h:1555-1558 | after a burst that announced all that was due, the timers of exactly the messages it announced run anew, and nothing else changed |
| `Burst.EmitTakesHead` | arq.h:1555-1565 | in a window as `RunBursts.InvReady` provides it, each poll of a burst emits the head of what is left and leaves the tail |
| `SeqNum.SlotMapInjective` | arq.h:1035 | `seq % cap` tells apart every cap consecutive 12-bit numbers, wrapping runs included, if and only if cap divides 4096 |
| `SeqNum.SlotFormsAgree` | arq.h:1186-1187 | for such a cap, `(seq + i) % cap` and `((seq + i) % 4096) % cap` are the same slot |
| `Cobs.DecodeEncode` | arq.h:947-975 | encoding leaves a zero at the end and nowhere else, and decoding restores every payload byte |
| `Cobs.EncodeInPlace` | arq.h:947-962 | the in-place loop computes the encoding of the first len bytes and touches nothing behind them |
| `Cobs.DecodeInPlace` | arq.h:964-975 | on any bytes with their only zero at the end, encoded or not, the loop terminates, computes the decoding and touches nothing behind them |
| `Frames.ReadWriteHeader` | arq.h:795-869 | reading the 12 bytes of any header whose fields are in range gives the header back |
| `Frames.ReadWriteFrame` | arq.h:884-945 | a written frame reads back as success with its header and segment, for every checksum function |
| `WireFormat.HeaderOnWire` | arq.h:845-869 | the 12 bytes written, read as one number in network order, have each field at its bits |
| `WireFormat.HeaderFromWire` | arq.h:795-825 | any 12 bytes are read as the fields of their number; twelve of its bits are not read |
| `WireFormat.EncodingIs` | arq.h:947-962 | the first byte and each zero of the payload become the distance to the next zero or the end, other bytes travel as they are |
| `WireFormat.FrameOnWire` | arq.h:884-910 | a frame has 18 bytes besides its segment; with the stuffing undone it holds the header's number, the segment, and the checksum of both in network order |
| `WireFormat.ReportIs` | arq.h:926-945 | a decoded frame is malformed if and only if it is shorter than its segment length asks for, and else damaged if and only if the bytes behind the segment are not the checksum |
| `OnTheWire.HeaderIs` | arq.h:1532-1563 | the header of a poll as a number: the fields of the segment announced and of the acknowledgement reported, all else zero |
| `Frames.ReadIgnoresStale` | arq.h:912-945 | bytes behind a frame in the buffer do not matter; a frame too short for its header is malformed |
| `Frames.WriteInto` | arq.h:884-910 | writing parts and encoding in place leaves the frame in the buffer and nothing behind it changed, whatever was there before |
| `Frames.ReadFrom` | arq.h:912-945 | decoding in place and checking report the result, header and segment of the value model |
| `FrameStream.FilledSound` | arq.h:1341-1364 | whatever bytes arrive, bytes marked complete have their only zero at the end, others have none |
| `FrameStream.RecvFrame.Fill` | arq.h:1341-1364 | takes bytes up to the first zero, the end of the input or the end of the buffer, and nothing once a frame is complete |
| `FrameStream.FillIsMaximal` | arq.h:1350-1363 | a fill goes on until a zero, the end of the input or a full buffer |
| `FrameStream.OverfullSticks` | arq.h:1350-1363 | a buffer that is full without a zero takes nothing more and never becomes a frame, whatever comes |
| `FrameStream.RecvFrame.Take` | arq.h:1514-1517 | a complete frame is read in place and the buffer is empty again |
| `FrameStream.RecvFrame.FeedChunk` | arq.h:1341-1364 | filling from a chunk and reading after each complete frame leaves the bytes, and reports the readings, of exactly the frames that end in the chunk |
| `FrameStream.WireRoundTrip` | arq.h:1341-1364 | any list of headers and segments written as frames, concatenated and fed in pieces of any size, comes out as the same headers and segments with success, for every checksum function and whatever is left in the buffer |
| `FrameStream.ReadingsArePackets` | arq.h:912-945 | what is read from the frames of a list of packets, whatever lies behind each in the buffer, is the packets |
| `Crc.ComputeCrc32` | arq.h:1571-1613 | the table-driven loop computes, on every byte string, the bit-at-a-time reflected CRC with polynomial 0xEDB88320 of section 8 of RFC 1952 |
| `Crc.TableIs` | arq.h:1573-1606 | each of the 256 table entries is what eight steps of the register make of its index |
| `Crc.BitBurstDetected` | arq.h:1571-1613 | byte strings of equal length that differ, and only inside 32 consecutive bits, have different checksums |
| `Crc.ByteBurstDetected` | arq.h:1571-1613 | the same for a change inside at most four consecutive bytes |
| `Crc.SegmentChangeDetected` | arq.h:926-945 | a decoded frame that read back correctly, changed inside four consecutive bytes of its segment, is reported as a checksum error |
| `Connection.Connection.Connect` | arq.h:562-581 | only a closed connection starts; counters and flags are cleared |
| `Connection.Connection.StepClosed` | arq.h:1617-1632 | a closed connection reports data or acknowledgements as desync and answers a bare RST |
| `Connection.Connection.StepRstSent` | arq.h:1634-1667 | the branches of the connecting side, the order of its updates included |
| `Connection.Connection.StepRstRecvd` | arq.h:1669-1699 | the branches of the answering side |
| `Connection.Connection.Poll` | arq.h:715-744 | the loop over states terminates for every state and header and ends in the state, header and event of the value model |
| `ConnectionEvents.EstablishedEvent` | arq.h:1617-1707 | for every state and header, a poll reports an established connection if and only if it establishes one |
| `ConnectionEvents.FailureEvents` | arq.h:1634-1699 | during a handshake a failure is reported if and only if the connection closes: desync if and only if the header carries a segment, or an acknowledgement nothing was sent for; no response if and only if the frame that goes out is one more than allowed and the peer has not answered |
| `ConnectionEvents.FramesSent` | arq.h:1634-1699 | in every state and for every header: RST from the side that connected, RST and ACK from the side that answers, if and only if the timer is over, there is room and nothing stops it; ACK from the side that connected if and only if it completes; nothing else |
| `ConnectionEvents.ClosedEvents` | arq.h:1617-1632 | a closed connection reports desync if and only if a segment or an acknowledgement comes; a bare RST and nothing else makes it answer, at once if a frame can go out |
| `ConnectionEvents.CompletesIff` | arq.h:1634-1699 | a handshake completes if and only if nothing is unexpected, the peer has answered, and the acknowledgement of the side that connected can go out |
| `ConnectionEvents.GoesOn` | arq.h:1634-1699 | otherwise it goes on and remembers what came; a frame that goes out is counted and a new period starts, else the timer runs on or, once answered, stands |
| `ConnectionEvents.AnsweredWaitsForRoom` | arq.h:1661-1666 | an answered side sends nothing until a frame can go out, however long that takes, and establishes with an acknowledgement in the first poll in which one can |
| `ConnectAttempts.StateIs` | arq.h:1648-1659 | without incoming frames, the state after any schedule of polls is determined by the number of frames emitted and the time since the last |
| `ConnectAttempts.EmitsWhenDue` | arq.h:1648-1653 | a poll emits if and only if the side has not given up, a frame can go out, and the period since the last emission is over |
| `ConnectAttempts.EmissionsApart` | arq.h:1648-1659 | two emissions are at least one period of summed dt apart |
| `ConnectAttempts.AttemptsBounded` | arq.h:1652-1658 | at most attempts + 1 frames are emitted; the connection closes with no response exactly at the last of them and is silent afterwards |
| `ConnectAttempts.GivesUpIff` | arq.h:1652-1658 | an unanswered side can give up if and only if the configured attempts are below the largest unsigned, where the counter would wrap first |
| `Handshake.HandshakeAgrees` | arq.h:1617-1707 | when only A connects, over a channel that loses, repeats and reorders, B established implies A established, and A established implies that B sent RST and ACK, in every run |
| `Handshake.DesyncOnlyAfterGivingUp` | arq.h:1617-1707 | when only A connects, the first failure either side reports is that nobody answered, in every run |
| `Handshake.NobodyConnects` | arq.h:1617-1632 | when neither side connects, both stay closed and nothing is sent, in every run |
| `Handshake.EstablishedHeardPeer` | arq.h:1617-1707 | whoever connects, a side is established only after the other has sent it a frame |
| `Handshake.HandshakeAgreesIff` | arq.h:1617-1707 | for any settings of the two ends: in all runs a side left established without its peer is the one and only side that connected, if and only if not both sides may connect |
| `Handshake.CrossedConnectsCanDisagree` | arq.h:1637-1648 | when both connect, a run of five acts leaves one side established and the other closed |
| `NextPoll.ComputeNextPoll` | arq.h:1479-1503 | the loop over the window and the other timers computes the least running timer |
| `NextPoll.NextPollIsTight` | arq.h:1479-1503 | with no timer on and spent, a step of dt with no incoming frame makes some retransmission, tinygram, inter-segment or handshake timer run out if and only if dt reaches the returned time |
| `NextPoll.PollsLeaveArmed` | arq.h:1522-1552 | after every receive poll and send poll no timer is on and spent |
| `NextPoll.TightIff` | arq.h:1479-1503 | in any state at all, the result is tight if and only if no timer is on and spent, or it is zero because a handshake frame is due |
| `NextPoll.StepsAdd` | arq.h:1136-1147 | stepping d1 and then d2 is stepping d1 + d2, for the send window, the inter-segment timer and the handshake timer |
| `Layout.TakeIs` | arq.h:754-765 | an allocation whose end is an unsigned word succeeds if and only if the end is within the capacity; its block then starts at the least multiple of the alignment from the old end on, and otherwise nothing changes |
| `Layout.ArqAlloc` | arq.h:1390-1446 | the nine allocations in order; null if any of them failed |
| `Layout.RequiredSize` | arq.h:511-526 | the dry run on a null base ends at the offset behind the last block |
| `Layout.AllocSucceedsIff` | arq.h:1390-1446 | on an aligned seat, allocation succeeds if and only if the seat is at least the required size; then every block is aligned, inside the seat and apart from the others |
| `Layout.PlaceFails` | arq.h:758-763 | once a block does not fit the whole allocation fails, even if later blocks fit |
| `LayoutUse.BlocksHold` | arq.h:1390-1446 | each of the nine blocks holds exactly the array it is for: element i lies in it if and only if i is below the capacity of its window, each segment at the place the window computes for it, and each frame for segments up to the configured length |
| `LayoutUse.ElementsPlaced` | arq.h:1390-1446 | on a seat that suffices, every element of every array lies in the seat at an aligned address and in no other block |

## Left out

- Closing a connection, FIN and the closing states: declared in `arq.h` but not implemented; one state, `Unused`, stands for them.
- Window advertisement, keepalive, disconnect timeout and statistics: the code never acts on them.
- Null-parameter checks, the assert callback and mock macros; host byte order (wire bytes are big-endian here).
- `arq_backend_poll` as one function and the hold and release of the send frame: whether a frame can go out is the parameter `room` of the polls.
- Eventual delivery: it fails even within the guards (`ReadBeforeAck.ReadBeforeAckIsStuck`, `StuckRun.GuardedRunGetsStuck`); acknowledgements for numbers past 4095 are ignored until the send base wraps (`arq.h:1097`), and a frame buffer that fills without a zero never empties (`FrameStream.OverfullSticks`); the proofs are about safety and bounded progress.
- `arq__recv_wnd_pending`: it looks at the base and not at the copy point, so it is no exact test for readable data.
- Damaged frames in runs: the network of `TwoEnded` and `Handshake` loses, repeats and reorders but does not damage. `arq__recv_poll` hands the header of a frame with a wrong checksum on to the send poll and the connection (`arq.h:1514-1519`, `arq.h:1545-1547`), and `OnTheWire.AckIn` follows it; `OnTheWire.HeaderFreesIff` and `OnTheWire.DamagedAckFreesUnsent` say what such a header does.
- RecvWindowImpl.RecvWindow.Frame: segment numbers at or above the configured count are excluded (`RecvWindow.FrameOk`), because `arq__recv_wnd_frame` does not check them and would write outside the slot of the message, or outside the buffer (`RecvWindow.SegmentInsideIff`); segment counts of 32 and more are excluded because the shift that makes the vector is undefined for them.
- RecvWindowImpl.RecvWindow.Store: the same two exclusions.
- RecvWindowImpl.RecvWindow.Poll: the same two exclusions for the frame that arrives.
- 16-bit width of lengths, sizes and `slide` in the window structures: in runs within the guards no value reaches it; outside them `slide` can grow without bound here, while the C field wraps.
- Sizes that overflow an unsigned in `Layout`: excluded by `Layout.Fits`; the allocator itself wraps.
- Padding and pointer provenance: sizes and alignments of `arq_t`, `arq__msg_t` and `arq_time_t` are parameters, and pointers are addresses.
- Layout.ClearLow: models `x & ~(align - 1)` as subtracting the remainder, which is the same for a power of two.
- Feeding frames through the stream (`FrameStream.Feed`) reads after every complete frame; what a caller does that leaves a complete frame unread is `RecvFrame.Fill` returning 0.
- Data during a handshake: `Handshake` has idle data windows, so only handshake frames are on its channel.

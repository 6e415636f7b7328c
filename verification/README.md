# Verification of librtmfp

A Dafny model of the parts of librtmfp whose correctness is hardest to see by reading: the RTMFP
flow protocol from end to end, the split and merge of NetGroup media, the resumable FLV printer and
parser, and the arithmetic and containers below them. `dafny verify dfyconfig.toml` checks it.

Objects the library updates in place are classes whose methods are proved against functions of their
old state; the properties below are proved about those functions.

**The flow protocol.** `SevenBit`, `BinaryReading` and `Wire` are the encodings of section 2.3 of
RFC 7016. `RtmfpMessenger` cuts messages into numbered fragments and packs them; `Stages` is the
history it writes, and `Packing` says how full its packets are. `RtmfpSender` (specified in
`Sender`) sends, releases and repeats packets, and `Repetition` says without its loop what a
repetition sends; `RtmfpWriter` decides when. `RtmfpFlow` (specified in `Flow`) buffers, reorders,
skips and reassembles; `FlowManagement` is the loop over received bytes and `Reception` its meaning.
`Delivery` puts both ends and a network together: every datagram and every acknowledgement ever sent
may arrive at any time, again and again, or never, and writes, sends, releases and repetitions
happen in any order. Its invariant rests on `Reassembly` (what in-order delivery with skips means),
`Receiving` (what any input keeps) and `InTransit` (what the packets in flight carry). `Endpoints`
proves that the objects perform the steps of that system; `EndOfFlow` is a run of it; `Accounting`
is the life of a session over all its queues.

The invariant says, in short: the stages written are those acknowledged, then those in flight, then
those waiting, packet by packet; every datagram on its way is a packet of the history or an abandon
of fragments none of which is both reliable and missing at the receiver; the receiver has each packet
entirely or not at all, so every acknowledgement ends a packet; and what it delivered is what
reassembly in order delivers up to its stage, but for skipped unreliable stages.

**NetGroup.** `GroupFragments` is the publisher's splitter, `GroupMerge` and `GroupRuns` the meaning
of `GroupBuffer` over any run of requests, `GroupBuffering` its loops; `GroupWindow` is what a media
keeps. `FragmentsMap` is the availability bitmap on both peers; `NetGroups` the heard list, the
address map and the best list.

**FLV, calendar, buffer.** `Flv` and `Invoking` are `Invoker::read` and `Invoker::write`; `Calendar`
and `Dates` the date conversion; `Buffers` the byte buffer.

Where the code does not do what its purpose suggests, the code is kept, the exact condition is
proved, and an input shows the failure:

- an end of flow may overtake lost reliable data (`Delivery.EndDelivers`, `EndOfFlow.EndOvertakes`);
- an abandon of stage 2^64-1 has no next stage (`Flow.InputKeeps`, `Flow.LastStageBreaks`);
- a signature of 256 bytes or more does not read back (`Wire.SignatureRoundTrip`);
- a media packet of 256 parts does not merge, and one of 257 parts only after a current id
  (`GroupRuns.MergesExactly`, `GroupRuns.NotMerged`, `GroupRuns.LoneEndErased`);
- a bitmap byte that starts below id 8 is not written (`FragmentsMap.MapAgrees`,
  `FragmentsMap.LowIdsLost`);
- the best list divides by 0 when 32 or more peers are missing (`NetGroups.BuildBestList`,
  `NetGroups.FortyPeers`);
- a read into fewer than 15 bytes may not fit (`Invoking.MediaBuffer.Read`);
- dates after 5885486 do not convert back (`Calendar.FormulaExact`, `Calendar.FormulaFails`).

## Model

| member | source | states |
|---|---|---|
| `SevenBit.RoundTrip7Bit` | sources/Base/BinaryReader.cpp:106-117 | reading a 7-bit code gives back the value for every value its bytes can carry, and leaves the bytes after it |
| `SevenBit.CodableWidths` | sources/Base/BinaryWriter.cpp:86-103 | which values those are: all 16-, 32- and 64-bit ones at 3, 5 and 9 bytes, and exactly those under 2^29 at 4 bytes |
| `SevenBit.Write7Bit` | sources/Base/BinaryWriter.cpp:86-100 | the shift search and the loop write exactly the code, whose last byte keeps eight bits when the value needs every byte |
| `SevenBit.Get7BitSize` | include/Base/Binary.h:30-34 | the loop counts exactly the bytes of the code |
| `SevenBit.Parse7Is64Bits` | sources/Base/BinaryReader.cpp:106-117 | whatever the bytes, a code of at most 9 bytes never exceeds 64 bits |
| `BinaryReading.BinaryReader.Read7Bit` | sources/Base/BinaryReader.cpp:106-117 | the reading loop gives the value of the code and consumes exactly its bytes |
| `BinaryReading.BinaryReader.Read` | sources/Base/BinaryReader.cpp:45-53 | a read past the end moves to the end and yields nothing; otherwise it yields and consumes exactly the bytes asked for |
| `BinaryReading.BinaryReader.Next` | sources/Base/BinaryReader.cpp:29-34 | moves by the count asked for or by what is left, and tells which |
| `BinaryReading.BinaryReader.Shrink` | sources/Base/BinaryReader.cpp:36-43 | gives up what lies beyond the bytes asked for |
| `Bytes.RoundTrip24` | sources/Base/BinaryReader.cpp:65-71 | a 24-bit field reads back and leaves what follows |
| `Wire.SignatureRoundTrip` | sources/RTMFPSender.cpp:220-222 | a signature reads back if and only if its 8-bit length holds its size |
| `Wire.RequestRoundTrip` | sources/FlowManager.cpp:277-321 | decoding a request header gives back its flags, its flow, its stage, its signature and the flow it answers |
| `Wire.DatagramRoundTrip` | sources/FlowManager.cpp:277-348 | decoding one 0x10 chunk, its 0x11 chunks and 0xFF padding gives back flow, consecutive stages, flags and payloads, answered once, after the last |
| `Wire.ChunkSplit` | sources/FlowManager.cpp:177-181 | a length field that equals the bytes that follow cuts exactly the content of its chunk |
| `Wire.RangesRoundTrip` | sources/FlowManager.cpp:365-366 | the ranges of an acknowledgement read back as they were written |
| `Wire.AckRoundTrip` | sources/FlowManager.cpp:235-263 | a decoded acknowledgement gives back writer, stage and the width of the first hole |
| `Wire.BitmapHoleExact` | sources/FlowManager.cpp:246-258 | the hole of a bitmap is every fragment before the first set bit, each byte taken from its least significant bit on, or all of them when none is set |
| `Wire.BitmapAck` | sources/FlowManager.cpp:235-263 | an acknowledgement with a bitmap gives back writer, stage and exactly that hole and the stage before it; none when its bitmap is empty |
| `Wire.DeltaRoundTrip` | sources/RTMFPSender.cpp:217 | the third field of a packet's header reads back, whatever follows the packet |
| `Wire.PartsSkipped` | sources/FlowManager.cpp:302-311 | any list of header parts is stepped over up to the length that ends it |
| `Wire.DuplexWithParts` | sources/FlowManager.cpp:292-311 | the flow answered is the one its part names, 0 when another part stands there, whatever parts follow; the request is given up if and only if they end with a length and no content |
| `Wire.OtherChunks` | sources/FlowManager.cpp:183-233 | a chunk of the session is told and gone past, a fragment that continues nothing is gone past, and a chunk of unknown type ends the packet |
| `FlowManagement.ReadFullDuplex` | sources/FlowManager.cpp:292-311 | the loop over the header parts reads the flow answered, steps over parts of unknown kind, and gives up when one is cut short |
| `FlowManagement.ReadAck` | sources/FlowManager.cpp:235-263 | both forms of acknowledgement: the loop over the bitmap and the range count the first hole, as Wire.BitmapAck and Wire.AckRoundTrip say it |
| `FlowManagement.ReceivePacket` | sources/FlowManager.cpp:157-378 | the loop over any bytes inputs every fragment of the flow in order and answers exactly where its fragments end, until a chunk closes the session |
| `Flow.InputAccounts` | sources/RTMFPFlow.cpp:69-141 | every input of a 64-bit stage, in any state, keeps `fragmentation` equal to the buffered bytes in 32 bits, and takes back nothing delivered |
| `Flow.InputConserves` | sources/RTMFPFlow.cpp:69-168 | in any state, every byte an input brings is delivered, collected, buffered or counted as lost, once, and nothing else is but the estimate of an abandon, modulo 2^32 |
| `Flow.InputCloses` | sources/RTMFPFlow.cpp:69-168 | the stream is closed at most once and nothing follows; a completed flow delivers no more |
| `Flow.InputKeeps` | sources/RTMFPFlow.cpp:69-141 | before completion, an input keeps buffered stages at least two beyond the current one and does not decrease the stage, if and only if it neither abandons stage 2^64-1 over buffered fragments nor comes after it |
| `Flow.LastStageBreaks` | sources/RTMFPFlow.cpp:84-96 | an abandon of stage 2^64-1 leaves a buffered fragment behind, and stage 0 is then input as the next one |
| `Flow.OnceAndInOrder` | sources/RTMFPFlow.cpp:69-168 | over any sequence of such inputs the stages given to onFragment strictly increase, none was jumped over, and every stage up to the current one was given once or jumped over |
| `Flow.DrainKeeps` | sources/RTMFPFlow.cpp:131-136 | draining takes exactly the stages up to the first gap and leaves the others |
| `Flow.RangesLossless` | sources/RTMFPFlow.cpp:49-67 | read as section 2.3.14 of RFC 7016 says, the ranges report exactly the buffered stages, and the first one is the width of the first hole |
| `RtmfpFlow.RTMFPFlow.OnFragment` | sources/RTMFPFlow.cpp:143-168 | in place: appends to, starts, completes or ignores the message under reassembly |
| `RtmfpFlow.RTMFPFlow.Abandon` | sources/RTMFPFlow.cpp:90-114 | in place: the jump drops exactly what is buffered before the stage after it, in 64 bits, and counts what is lost in 32 |
| `RtmfpFlow.RTMFPFlow.DrainFragments` | sources/RTMFPFlow.cpp:131-136 | in place: the erasing loop delivers what follows without a gap |
| `RtmfpFlow.RTMFPFlow.Input` | sources/RTMFPFlow.cpp:69-141 | in place: the whole new state of the flow, in every branch, and the invariant kept |
| `RtmfpFlow.RTMFPFlow.BuildAck` | sources/RTMFPFlow.cpp:49-67 | the nested loops produce the ranges, in any state, and `size` is their encoded length in 16 bits |
| `Reassembly.OneMessage` | sources/RTMFPFlow.cpp:143-168 | stage by stage, a message is collected if none of its stages was skipped, and delivered whole at the last one |
| `Reassembly.ReassembleMessages` | sources/RTMFPFlow.cpp:143-168 | taking the stages in order but for skipped ones delivers exactly the messages entirely received, each whole, in order |
| `Receiving.FragmentReceived` | sources/RTMFPFlow.cpp:69-141 | a fragment of the history, at any time and any number of times, adds exactly its stage to what the receiver has and keeps the flow where in-order reassembly leads |
| `Receiving.AbandonReceived` | sources/RTMFPFlow.cpp:90-114 | an abandon adds exactly the stages up to its own, skipping those and no other |
| `Receiving.EndReceived` | sources/RTMFPFlow.cpp:78-79 | the end of a flow completes it at once and skips whatever had not been passed |
| `Reception.PacketReceived` | sources/FlowManager.cpp:323-376 | the fragments of a packet are all input before the one answer, which tells the state after the last |
| `Reception.AbandonAnswered` | sources/FlowManager.cpp:323-376 | an abandon alone in its packet is input and answered |
| `Reception.NothingAfterClose` | sources/FlowManager.cpp:193-202 | nothing after the chunk that closes the session reaches the flow or is answered |
| `Reception.OthersIgnored` | sources/FlowManager.cpp:183-275 | every other chunk that is no fragment of the flow leaves the flow and its answers alone, wherever it stands in the packet |
| `Reception.AnswerLossless` | sources/RTMFPFlow.cpp:49-67 | end to end, an answer tells the cumulative stage, the first hole, and exactly the stages buffered |
| `RtmfpMessenger.Messenger.HeaderSize` | sources/RTMFPSender.cpp:122-129 | the computed header size is exactly the number of bytes the header takes |
| `RtmfpMessenger.Messenger.Reserve` | sources/RTMFPSender.cpp:164-193 | a packet is opened if and only if there is none, less than 31 bytes of 1192 are left, or the reliability changes; the fragment takes all that is left of the message, or else exactly the room up to 11 bytes before the end, the prefix of the first fragment not counted |
| `RtmfpMessenger.Messenger.WriteChunk` | sources/RTMFPSender.cpp:195-230 | the bytes of a chunk, with the flags of the source, an end of flow included |
| `RtmfpMessenger.TakeContent` | sources/RTMFPSender.cpp:232-244 | copying crosses from the written bytes to the footer packet without loss |
| `RtmfpMessenger.Messenger.Write` | sources/RTMFPSender.cpp:147-247 | a message becomes consecutive stages whose payloads concatenate to it, bracketed at the inner cuts alone, in packets of one reliability that are as full as Packing.Thrifty says |
| `RtmfpMessenger.Messenger.Run` | sources/RTMFPSender.cpp:131-145 | all messages are cut in order into closed packets that decode to exactly their stages and are as full as they can be, each header presenting the flow and its distance to the acknowledged stage; the queue, `stage` and `queueing` grow by exactly them |
| `Packing.PacketAt` | sources/RTMFPSender.cpp:164-193 | of every packet of a run: its size is that of its fragments, one header and the padding; and a packet followed by another has less than 31 bytes left, or the next one differs in reliability |
| `Packing.CutEndsPacket` | sources/RTMFPSender.cpp:181-188 | a fragment with more to come is the last of its packet and leaves at most 11 bytes of it unused |
| `Packing.WholeWhenItFits` | sources/RTMFPSender.cpp:164-193 | a message that fits what its packet has left when it starts is one fragment |
| `Packing.HeadPresents` | sources/RTMFPSender.cpp:214-230 | what opens a finished packet decodes: the distance of its stage to the acknowledged one, and the signature and the flow answered exactly as long as no stage is acknowledged |
| `RtmfpMessenger.CloseTile` | sources/RTMFPSender.cpp:137-141 | the chunks written, with the cipher padding, are a packet that decodes to its fragments, fills whole cipher blocks, and without its padding has at most 1192 bytes |
| `RtmfpSender.Flush` | sources/RTMFPSender.cpp:28-52 | sends the longest run of waiting packets the session and the socket allow, and moves exactly those in flight with all counters |
| `RtmfpSender.Acquit` | sources/RTMFPSender.cpp:61-74 | releases whole packets while the acknowledgement, capped at the last stage sent, is ahead |
| `RtmfpSender.RepeatPackets` | sources/RTMFPSender.cpp:76-111 | the loop resends and abandons as the specification of repetition says, for any fragment budget and any refused sends |
| `Repetition.RepeatsAll` | sources/RTMFPSender.cpp:76-111 | without budget or refusal: one abandon of the unreliable packets before the first reliable one, if any, then the first six reliable packets in order |
| `Repetition.RepeatsWithin` | sources/RTMFPSender.cpp:103-108 | with a budget of fragments, exactly the repetition of the packets the budget reaches, whatever sends are refused |
| `Repetition.CoveredSum` | sources/RTMFPSender.cpp:103-108 | those are the packets up to the one whose fragments use up the budget |
| `Repetition.RepeatsUntilRefused` | sources/RTMFPSender.cpp:90-93 | whatever sends are refused, what is sent is the part before the first refused resend of what would be sent otherwise |
| `Repetition.RepeatsUnrefused` | sources/RTMFPSender.cpp:76-111 | with no send refused from where it stands, it is the repetition without refusals |
| `Endpoints.SendAbandon` | sources/RTMFPSender.cpp:113-119 | the bytes of an abandon, its length field exact |
| `InTransit.AbandonDecodes` | sources/RTMFPSender.cpp:113-119 | an abandon decodes to its flow, its stage and its flag, answered at once |
| `InTransit.RepeatAllSafe` | sources/RTMFPSender.cpp:76-111 | whatever the budget and the refusals, only reliable packets in flight are resent, and an abandon ends a packet with nothing reliable between the acknowledged stage and it |
| `InTransit.PackedSent` | include/RTMFPSender.h:34-40 | a packet of the history that is sent remembers its size; a reliable one keeps its bytes, and an unreliable one none |
| `InTransit.ReleasesExactly` | sources/RTMFPSender.cpp:61-74 | an acknowledgement that ends a packet releases the packets up to its stage, exactly |
| `Accounting.TotalsUpdate` | include/RTMFPSender.h:67-68 | changing one queue changes the sums over all queues by its own difference |
| `Accounting.JobBalanced` | sources/RTMFPSender.cpp:28-74 | every job of a session keeps its stages and byte counts balanced |
| `Accounting.LifeBalanced` | sources/RTMFPSender.cpp:28-74 | over a session's life and all its queues: stageSending = stageAck + fragments in flight, stage = stageSending + fragments waiting, `queueing` and `sendingSize` are the byte sums, and absent refused sends at least 6 - sendable packets are in flight |
| `RtmfpWriter.AcksAdvance` | sources/RTMFPWriter.cpp:54-79 | for acknowledgements in any order, the greatest stage is kept, releases advance strictly up to it, and no more repetitions follow the last release than lost fragments were told, each limited to 1 to 255 fragments |
| `RtmfpWriter.JobsIssued` | sources/RTMFPWriter.cpp:54-79 | which job each acknowledgement issues: a release of its stage exactly when it is beyond every one before; a repetition of the lost fragments told, 255 at most, exactly when it tells more of them than any since the last release |
| `RtmfpWriter.ReleasesRecords` | sources/RTMFPWriter.cpp:54-66 | over any acknowledgements the stages released are exactly the strict record maxima above the stage known, in order |
| `RtmfpWriter.DelayGrows` | sources/RTMFPWriter.cpp:98-101 | the delay after a repetition is the old one times 1.4142, rounded down, 10 seconds at most; it grows strictly exactly between 3 and 10000 milliseconds |
| `RtmfpWriter.RTMFPWriter.Acquit` | sources/RTMFPWriter.cpp:54-79 | in place: the reaction to one acknowledgement |
| `RtmfpWriter.RTMFPWriter.RepeatMessages` | sources/RTMFPWriter.cpp:81-103 | in place: when a repetition is due, with which limit, and the delay after it |
| `Endpoints.Write` | sources/RTMFPSender.cpp:131-145 | for messages that are not empty, the messenger performs a write step of the delivery system and of the accounting |
| `Endpoints.SendWaiting` | sources/RTMFPSender.cpp:28-52 | the sender performs a flush step of both |
| `Endpoints.Acknowledge` | sources/RTMFPSender.cpp:61-74 | the acquiter performs an acknowledgement step of both |
| `Endpoints.Repeat` | sources/RTMFPSender.cpp:76-119 | the repeater puts exactly the datagrams of a repetition step on the wire |
| `Endpoints.Deliver` | sources/FlowManager.cpp:157-378 | the receiving loop performs a delivery step on bytes that arrived |
| `Endpoints.WriteAnswer` | sources/FlowManager.cpp:360-366 | the acknowledgement chunk, whose 16-bit length is exact whenever it fits |
| `Delivery.WriteHolds` | sources/RTMFPSender.cpp:131-145 | writing keeps the invariant of the whole system |
| `Delivery.FlushHolds` | sources/RTMFPSender.cpp:28-52 | sending keeps it: what goes on the wire is packets of the history |
| `Delivery.AcquitHolds` | sources/RTMFPSender.cpp:61-74 | releasing keeps it: the acknowledged stage never passes the receiver's |
| `Delivery.RepeatHolds` | sources/RTMFPSender.cpp:76-119 | repeating keeps it: no abandon put on the wire covers a reliable fragment the receiver lacks |
| `Delivery.DeliverHolds` | sources/FlowManager.cpp:157-378 | receiving any datagram ever sent keeps it, and the receiver's stage never decreases |
| `Delivery.RunHolds` | sources/RTMFPFlow.cpp:69-168 | the invariant holds at every point of every run |
| `Delivery.StageAdvances` | sources/RTMFPFlow.cpp:69-141 | over a run without end the receiver's stage never decreases |
| `Delivery.MessagesDelivered` | sources/RTMFPFlow.cpp:69-168 | in every run, under any loss, repetition and reordering of packets and acknowledgements, what is delivered is an in-order, duplicate-free, byte-identical subsequence of the messages written, containing every reliable message whose last stage the receiver has passed |
| `Delivery.AllDelivered` | sources/RTMFPFlow.cpp:69-168 | when nothing was skipped and every stage arrived, every message was delivered |
| `Delivery.AcknowledgedPackets` | sources/RTMFPSender.cpp:61-74 | in every run every acknowledgement ends a packet, and stageAck <= the receiver's stage <= stageSending <= stage |
| `Delivery.AbandonSafe` | sources/RTMFPSender.cpp:90-119 | in every run, however late an abandon arrives, all stages it makes the receiver skip are unreliable |
| `Delivery.EndDelivers` | sources/RTMFPSender.cpp:197-198 | when an end of flow arrives, every reliable message was delivered before it if and only if the receiver had passed the last stage of each |
| `EndOfFlow.EndOvertakes` | sources/RTMFPFlow.cpp:90-114 | a run in which two reliable messages were sent and the second arrived, and an end that arrives then closes the flow without delivering either |
| `GroupFragments.OnMedia` | sources/GroupMedia.cpp:84-106 | the splitting loop makes the fragments of a packet, with its 8-bit counter; none of an empty one |
| `GroupFragments.SplitJoins` | sources/GroupMedia.cpp:84-106 | the fragments concatenate to the packet, whatever its size |
| `GroupFragments.SplitSizes` | sources/GroupMedia.cpp:86-104 | all fragments but the last have 959 bytes, and the last has 1 to 959 if and only if the packet has at most 256 * 959 |
| `GroupFragments.SmallMergeable` | sources/GroupMedia.cpp:88 | every packet of at most 255 * 959 bytes has a count its 8-bit fields can tell |
| `GroupFragments.MarkerTells` | sources/GroupMedia.cpp:92-94 | in the whole stream exactly the fragments marked data or start begin a packet |
| `GroupMerge.StartMerges` | sources/GroupBuffer.cpp:230-252 | from its start fragment a packet's fragments are counted right and merge to the packet with its type and time |
| `GroupMerge.ProcessProper` | sources/GroupBuffer.cpp:188-258 | whatever fragment is processed, what comes out is a packet of the publisher, the next one unless none was current |
| `GroupMerge.CompleteComesOut` | sources/GroupBuffer.cpp:218-258 | any fragment of the completely present next packet brings it out |
| `GroupMerge.ProcessFromAdvances` | sources/GroupBuffer.cpp:142-186 | a processing loop hands out consecutive packets of the publisher and stops only where the next is incomplete |
| `GroupRuns.RequestHolds` | sources/GroupBuffer.cpp:107-186 | every start, add and remove request keeps the invariant of a buffer against its publisher's stream |
| `GroupRuns.MergedInOrder` | sources/GroupBuffer.cpp:107-258 | in every run of requests, what came out is exact publisher packets with strictly increasing ids, consecutive between two resets; once started, with a current id, the packet after it is never completely present |
| `GroupRuns.StartedSince` | sources/GroupBuffer.cpp:113-156 | over any run, a buffer is started exactly from its first start request on, and nothing comes out before |
| `GroupRuns.StartFinds` | sources/GroupBuffer.cpp:113-122 | without a current id, a start request brings out first the packet the buffer begins with, when it is completely there |
| `GroupRuns.AddFinds` | sources/GroupBuffer.cpp:142-157 | without a current id, a fragment that begins a packet brings it out first once it is completely there |
| `GroupRuns.FirstLatches` | sources/GroupBuffer.cpp:209-218 | without a current id, the start of an incomplete packet makes it the next one, and a fragment that begins none is dropped |
| `GroupRuns.RemoveFinds` | sources/GroupBuffer.cpp:159-186 | a removal leaves no fragment below its bound and no current id below the one before it; a started buffer whose current id it forgot hands out at once, first, the packet that what is left begins with, when completely there |
| `GroupRuns.RequestKeeps` | sources/GroupBuffer.cpp:107-186 | what is stored after any request, exactly: a fragment is kept from the first time it comes until it is removed, but for the one a search without a current id starts at when it begins no packet |
| `GroupRuns.MergesExactly` | sources/GroupBuffer.cpp:205-232 | in any buffer that holds the fragments of a packet, after the current id or with none, they merge to it if and only if its 8-bit count of further fragments is not 255 and, with no current id, its only fragment is not marked as an end |
| `GroupRuns.NotMerged` | sources/GroupMedia.cpp:88 | a packet of 255 * 959 + 1 bytes does not merge |
| `GroupRuns.LoneEndErased` | sources/GroupBuffer.cpp:209-215 | a packet of 257 * 959 bytes is one fragment marked as an end, and is erased while no id is current |
| `GroupBuffering.MediaBuffer.ProcessFragment` | sources/GroupBuffer.cpp:188-258 | in place: the searches for the start and the end and the merging loop do what the specification says |
| `GroupBuffering.MediaBuffer.StartProcessing` | sources/GroupBuffer.cpp:113-122 | in place: a start request |
| `GroupBuffering.MediaBuffer.AddFragment` | sources/GroupBuffer.cpp:142-157 | in place: an add request |
| `GroupBuffering.MediaBuffer.RemoveFragments` | sources/GroupBuffer.cpp:159-186 | in place: a remove request, with its reset of the current id |
| `GroupWindow.GroupMedia.AddFragment` | sources/GroupMedia.cpp:227-231 | in place: a fragment that begins a packet later than any dated is dated; every dated fragment is kept and later dates are of later fragments |
| `GroupWindow.GroupMedia.EraseOldFragments` | sources/GroupMedia.cpp:332-379 | in place: erases exactly what precedes the fragment before the first date to keep, with the requests for it and the dates of old maps, moves the pull, and tells the group buffer; the fragment a date refers to is always there, and none dated within the time to keep is erased |
| `FragmentsMap.MapWritten` | sources/GroupMedia.cpp:414-423 | the loop writes the whole bitmap if and only if no byte of it starts between the first fragment and 8; a first id of 8 or more suffices |
| `FragmentsMap.UpdateFragmentMap` | sources/GroupMedia.cpp:381-426 | the message: its type, the last id, and the bitmap by either path, in a buffer of the full size that keeps what it held where nothing is written |
| `FragmentsMap.PublisherAgrees` | sources/GroupMedia.cpp:402-411 | on a contiguous set the publisher's fast path writes the same bytes as the loop over the bits |
| `FragmentsMap.MessageDecodes` | sources/PeerMedia.cpp:132-151 | the id and the bitmap read back from the message |
| `FragmentsMap.PeerMedia.HandleFragmentsMap` | sources/PeerMedia.cpp:132-151 | the publisher ignores maps; else only a newer one replaces the one known, and one without bytes moves the id alone |
| `FragmentsMap.PeerMedia.HasFragment` | sources/PeerMedia.cpp:174-195 | the lookup with its three early answers |
| `FragmentsMap.MapAgrees` | sources/PeerMedia.cpp:174-195 | the peer that received the map answers for every fragment, also before the first and beyond the last, exactly whether the writer has it, whatever the buffer held, if and only if no byte of the map starts below id 8 |
| `FragmentsMap.LowIdsLost` | sources/GroupMedia.cpp:414 | with the fragments 1 to 3, the first is not told |
| `Flv.FeedCut` | sources/Invoker.cpp:792-840 | however any bytes are cut, with the bytes left over presented again, the parser ends in the same state |
| `Flv.FeedPiecesWhole` | sources/Invoker.cpp:792-840 | the same for any number of pieces |
| `Flv.TagsPushed` | sources/Invoker.cpp:792-840 | whole tags give exactly their audio, video and data packets, type, 32-bit time and payload, and nothing is left |
| `Flv.PushedExactly` | sources/Invoker.cpp:823-834 | exactly the packets of the types 8, 9 and 18 are handed over |
| `Flv.TagReads` | sources/Invoker.cpp:893-915 | a tag is as long as its header, payload and footer, whose size field is that of the tag |
| `Flv.HeaderTells` | sources/Invoker.cpp:880-885 | the header of the stream tells format, version, audio and video, its own size and that of no tag before |
| `Flv.RoundTrip` | sources/Invoker.cpp:768-847 | the stream of any packets, cut in any pieces, gives exactly the packets to forward; cut short, the first of them |
| `Flv.ReadsPrint` | sources/Invoker.cpp:876-913 | whatever the sizes of the reads and the arrival of packets, what was read and what is left are the stream of the packets |
| `Flv.PrintThenParse` | sources/Invoker.cpp:768-925 | what reads gave, cut in any pieces and written, gives exactly the packets to forward |
| `Invoking.WriteBuffer.Write` | sources/Invoker.cpp:768-847 | in place: refuses a stream that does not start as one, else parses, tells the bytes consumed, and flushes at 1181 payload bytes |
| `Invoking.MediaBuffer.Read` | sources/Invoker.cpp:850-925 | in place: from 16 bytes on, fills at most the caller's buffer, at least all but 15 bytes of it while packets remain, with exactly the next bytes of the stream; at 15 it gives the header alone or nothing; below, where the 32-bit difference wraps, what it prints fits if and only if the stream was begun and all that is left fits |
| `Invoking.MediaBuffer.PrintPacket` | sources/Invoker.cpp:893-915 | in place: a packet's header once, as much payload as the limit allows, its footer at its end, when they fit |
| `Invoking.MediaBuffer.Push` | sources/Invoker.cpp:1014 | in place: a packet joins the end of the stream |
| `Calendar.DayNumberInjective` | sources/Base/Date.cpp:160-172 | two valid dates with the same number of days are the same |
| `Calendar.LeapYearsCount` | sources/Base/Date.cpp:70-78 | the closed form counts the leap years: it gives the first day of every year |
| `Calendar.FormulaExact` | sources/Base/Date.cpp:160-174 | the formula gives the time of a valid date if and only if its year is at most 5885486, where the 32-bit product of the years wraps |
| `Calendar.FormulaFails` | sources/Base/Date.cpp:170 | 1 January 5885487 is a date it gets wrong |
| `Dates.PassFixed` | sources/Base/Date.cpp:108-115 | one pass of the year search leaves the true year where it is, and no earlier one |
| `Dates.FindYear` | sources/Base/Date.cpp:105-115 | the fixpoint search terminates, each pass strictly closer, at the true year |
| `Dates.FindMonth` | sources/Base/Date.cpp:136-143 | the search in the month table gives the month and the day of a day of the year |
| `Dates.DateObject.Update` | sources/Base/Date.cpp:80-155 | in place: for every time from 1970 on, the fields are the valid date and clock of exactly that time, and the weekday |
| `Dates.DateObject.Time` | sources/Base/Date.cpp:160-188 | in place: a changed date gives its time back up to the last countable year, and never beyond |
| `Dates.DateOfTime` | sources/Base/Date.cpp:80-172 | a date and a clock are determined by their time, so the two conversions are inverses |
| `NetGroups.SomeAllowed` | sources/NetGroup.cpp:576 | while fewer peers are chosen than there are others, one can still be added |
| `NetGroups.Closest` | sources/NetGroup.cpp:515-532 | the walk round the ring terminates and gives six distinct peers, those from two before the address on, its own left out |
| `NetGroups.LowestLatency` | sources/NetGroup.cpp:543-552 | of the connected peers exactly the first six after the first one are added, the peer itself left out, and the count stays the size of the set |
| `NetGroups.RandomAllowed` | include/RTMFP.h:210-226 | the walk from a random place gives the first allowed entry of the ring from there, and none if and only if there is none |
| `NetGroups.TwoBeforeExact` | sources/NetGroup.cpp:515-520 | the walk of the neighbours starts two entries before the first address that is not less, or before the last one when all are, round the ring |
| `NetGroups.Advance` | sources/NetGroup.cpp:573-575 | the stepping loop goes the given part of the ring further, modulo its size |
| `NetGroups.OneDistant` | sources/NetGroup.cpp:570-577 | the peer added is the first allowed entry of the ring from the 2^missing-th part of it further on, and every entry before it is not allowed |
| `NetGroups.DivisorVanishes` | sources/NetGroup.cpp:572 | the divisor is 0 in 32 bits if and only if 32 or more peers are missing |
| `NetGroups.Distant` | sources/NetGroup.cpp:565-578 | the final loops terminate; every division is defined if and only if at most 31 peers are missing, and then each peer added is the first allowed one from the 2^m-th part of the ring beyond the last, m being missing, until the target is reached |
| `NetGroups.BuildBestList` | sources/NetGroup.cpp:504-579 | terminates and never contains the peer itself; it is exactly the six neighbours, the closest connected peers, the first allowed from the random place and the distant ones; it fails if and only if the target exceeds the count by more than 31, and else its size is the larger of the two |
| `NetGroups.FortyPeers` | sources/NetGroup.cpp:564-572 | with forty known peers, nobody connected and a target of 39, it fails |
| `NetGroups.ListingExact` | sources/NetGroup.cpp:331-332 | an address map in bijection with its peers lists them in order, no peer twice |
| `NetGroups.NetGroup.AddPeer2HeardList` | sources/NetGroup.cpp:316-334 | in place: a new peer enters both maps, which stay inverse if and only if no other known peer has its address; a known or died one enters neither |
| `NetGroups.NetGroup.HandlePeerDisconnection` | sources/NetGroup.cpp:336-355 | in place: the peer leaves both maps and is kept as died |
| `NetGroups.NetGroup.CleanHeardList` | sources/NetGroup.cpp:674-713 | in place: the erasing loop removes exactly the expired peers, from both maps |
| `NetGroups.NetGroup.BestList` | sources/NetGroup.cpp:504-579 | the best list of the group as its maps stand: everybody when there are at most six, else exactly the peers chosen from the listing of the addresses, or a failure |
| `Buffers.SmearFills` | sources/Base/Buffer.cpp:32-36 | the shifts set every bit below the highest one |
| `Buffers.CapacityLeast` | sources/Base/Buffer.cpp:27-38 | the capacity is the least power of two that is at least 16 and the size, up to 2^31; beyond, the size |
| `Buffers.Buffer.Clip` | sources/Base/Buffer.cpp:87-97 | in place: drops bytes from the front, within the same memory |
| `Buffers.Buffer.Resize` | sources/Base/Buffer.cpp:99-147 | in place: keeps the prefix that remains, whether it moves within its memory or to a new one of the computed capacity; offset and capacity always add up to the allocation |
| `Buffers.Buffer.Append` | sources/Base/Buffer.cpp:70-77 | in place: the contents are the old ones and the new bytes |

## Left out

- Sockets, DNS, threads, locks, timers, logging, files and the C API. Each run, input and request is one atomic step; elapsed time, random numbers, refused sends and the order of connected peers by latency are parameters.
- Encryption, checksum, key exchange and handshake: the network carries the clear chunks with their padding. The clear prefix of a packet only counts for its size, 9 bytes or 11 when a timestamp is echoed; an echo too old to encode is not distinguished from none.
- Packet objects shared by the queue, the packets in flight and the socket: packets are values, so the release of an unreliable packet's content is modelled and its sharing is not.
- Liveness: the timer that repeats stops when no packet waits to be sent (sources/RTMFPWriter.cpp:90). Repetitions may happen at any time here, and no statement says that one does.
- End of flow in the runs of module Delivery: they contain messages that are not empty. What an end does is stated separately, for any state such a run reaches.
- Flow creation, flows that are not known and their acknowledgements (sources/FlowManager.cpp:313-321, sources/FlowManager.cpp:371-372), the close of a congested session (sources/FlowManager.cpp:332-341), and the change of address of a session: one session and one accepting flow. Chunks of other flows are passed over; of the chunks that concern the session only their closing it is modelled.
- A length field that exceeds its packet is cut at the end of the packet.
- A writer's stages stay below 2^64-1. Counters of waiting and sent bytes are unbounded.
- An acknowledgement of 65536 bytes or more is never sent in module Delivery, since no datagram holds it; `Endpoints.WriteAnswer` shows its length field otherwise.
- The mark that tells the stream whether a fragment was the last of its packet, loss rates, byte rates and the congestion flag.
- Endpoints.Write: signatures of 256 bytes or more are excluded, since they do not read back (`Wire.SignatureRoundTrip`), and so are empty messages, which end the flow; `RtmfpMessenger.Messenger.Run` cuts them too.
- GroupMedia beyond the splitter, the bitmap and the window: push and pull scheduling and masks only choose what is sent to whom. Dates are taken from a clock that does not go back. The branch that would take a date older than the time to keep (sources/GroupMedia.cpp:340-342) cannot be reached. The removal bounds in the runs of module GroupRuns are arbitrary.
- GroupRuns.MergedInOrder: packets whose count the 8-bit fields cannot tell are excluded here and treated by GroupRuns.MergesExactly; ids are those of one publisher, none is added below a bound removed before, and the buffer is not deleted. That a split packet with id 1 comes out at all is not claimed: its parts are dropped while no id is current (sources/GroupBuffer.cpp:211-215).
- FragmentsMap.MapAgrees: a media already closed, an empty bitmap, and the fragments more than 2^35 before the last one, where the 32-bit offset wraps around, are not covered; for the eight fragments of the byte just after the bitmap it is stated that `HasFragment` gives no answer.
- FragmentsMap.PeerMedia.HandleFragmentsMap: what a received map changes in the media beside the peer's own map (sources/GroupMedia.cpp:61-83).
- NetGroups.LowestLatency: the order of the connected peers is given; the source passes over the first of them, and so does the model.
- NetGroups.Distant: a power of two from 2^32 on is 0 as the 32-bit divisor; the source converts it from a double, which its language leaves undefined beyond 32 bits.
- The estimate of the size of the group, which uses logarithms of doubles, is a parameter of the best list. NetGroups.BuildBestList and NetGroups.NetGroup.BestList take the peer's address to be no other peer's, as hashes are.
- Invoker: a read that waits for data, the search for the buffers of a connection, and the locks around a partly printed packet. The size limit of `write` cannot be exceeded by a 24-bit field.
- Invoking.MediaBuffer.Read: what the objects hold after a failure is not stated.
- Dates before 1970, local time and its offset, the setters and the parser of dates; the floor of a double is an integer division.
- Buffers.Buffer.Append: a sum of sizes beyond 32 bits, and the null buffer.
- AMF values, the RTMFP handshake messages and the NetGroup reports.

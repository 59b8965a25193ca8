# Netplay verification

A Dafny model of the netplay engine under `src/ConsoleNetplay`: a lockstep
input protocol with bounded caches, wire codecs and small state machines. Each
module models one component.

| module | component |
|---|---|
| `PlaybackDriver` | production of local inputs and the queue of confirmed frames that the emulator consumes |
| `Packets`, `PerSlot`, `InputFrameCodec`, `Protocol` | packet writer and reader, sorted per-slot vectors, the input-frame codec, protocol records |
| `OutboundQueue`, `TransportSession` | a peer's priority queue, and the registry of peers with its events |
| `SignalingServer` | rooms and clients of the signaling server |
| `CatchUp`, `Lockstep` | shared-clock and observer catch-up and resync requests; a whole peer that prepares, plays and catches up |
| `Crc32`, `SnapshotSystem`, `DesyncMonitor` | checksums, snapshots, and their comparison between peers |
| `InputTimeline` | the indexed list of input entries |
| `AutoTune`, `SelfStallDetector`, `InputAssignment` | delay tuning, stall detection, controller slots |
| `Wrappers`, `NetplayTypes`, `Sequences`, `Folds` | shared types, sequence functions, iteration and folding |

Components that change state in place are classes and methods. Each is proved
against a step function on values, and the properties of whole runs are lemmas
about that function. Answers from outside (sockets, clocks, the coordinator,
the console) are parameters over which everything is quantified.

Where the code does not keep a property one might expect, the model follows the
code, gives an input on which the property fails, and proves exactly when it
holds:

- A decoded input frame equals the encoded one, normalised, exactly within the
  size limits (`InputFrameCodec.RoundTripExactlyWhenWellSized`, fails in
  `InputFrameCodec.OversizedPayloadIsLost`).
- `serializedSize` counts all elements although at most 255 are written, so it is
  right exactly up to 255 (`Protocol.VectorSize`, `Protocol.DeclaredSizeIsWrong`).
- A client may go on naming a room that was deleted, and be heard by the members
  of a new room of that name, exactly after an owner left it behind
  (`SignalingServer.StaleExactlyWhenAbandonedSince`,
  `SignalingServer.HeardExactlyFromMembers`, `SignalingServer.OutsidersAreHeard`).
- A resync request need not follow 250 ms of uninterrupted lag, because a call
  turned away by the lag trigger does not clear the start of the lag
  (`CatchUp.RequestsAreWitnessed`, `CatchUp.ForgottenExactly`,
  `CatchUp.InterruptedLagStillAsks`).
- History invalidation pops from the back only and is exact exactly when the
  stale frames are all at the end
  (`DesyncMonitor.InvalidationIsExactWhenStaleAtEnd`,
  `DesyncMonitor.InvalidationLeavesStaleFrames`).
- The mismatch counter misses mismatches exactly when frames step back or one
  before the last is frame 0 (`DesyncMonitor.EveryMismatchCountsExactly`,
  `DesyncMonitor.FrameZeroIsNotCounted`).
- The candidate check may accept a slot that normalisation then drops, exactly
  for topologies that list a slot first as not assignable and later as assignable
  (`InputAssignment.AcceptedIsKeptExactly`, `InputAssignment.AcceptedSlotIsDropped`).

`dafny verify dfyconfig.toml` checks the project.

## Model

| member | source | states |
|---|---|---|
| `PlaybackDriver.RebuildIsLongestRun` | src/ConsoleNetplay/ConfirmedInputBufferDriver.cpp:391-452 | the from-scratch queue is characterised without its definition: a queue equals it if and only if it is the run first, first+1, ... up to the target on which every frame can be built, freshly built, that cannot be extended |
| `PlaybackDriver.LongestRunIsUnique` | src/ConsoleNetplay/ConfirmedInputBufferDriver.cpp:423-448 | any two such maximal fresh runs are equal |
| `PlaybackDriver.RunningPrepareQueue` | src/ConsoleNetplay/ConfirmedInputBufferDriver.cpp:391-452 | after a Running prepare, whatever the queue was before, it is contiguous, at most 2*prebuffer+1 long, every entry lies after the emulated frame, at or below the confirmed frontier and the playback cap, and is what the coordinator builds now |
| `PlaybackDriver.ReachableQueue` | src/ConsoleNetplay/ConfirmedInputBufferDriver.cpp:83-101 | over every sequence of calls the queue is contiguous and every entry in it was confirmed and built by the last Running prepare |
| `PlaybackDriver.DeliveredFramesAreConfirmed` | src/ConsoleNetplay/ConfirmedInputBufferDriver.cpp:463-478 | over every run, what is handed out is contiguous, confirmed, and exactly the queued frames of the window [current, limit] |
| `PlaybackDriver.PrepareThenConsume` | src/ConsoleNetplay/NetplayRuntimeSupport.cpp:1491-1514 | preparing and then consuming delivers the from-scratch run up to the smaller of target and queue limit |
| `PlaybackDriver.RecordingsExact` | src/ConsoleNetplay/ConfirmedInputBufferDriver.cpp:227-236 | an input is recorded by the production loop if and only if its frame lies in the produced interval and its slot is a local one, with the built value |
| `PlaybackDriver.RecordingsOnceEach` | src/ConsoleNetplay/ConfirmedInputBufferDriver.cpp:227-236 | the production loop records frames in order, each (frame, slot) once |
| `PlaybackDriver.RecordedOnceOverRuns` | src/ConsoleNetplay/ConfirmedInputBufferDriver.cpp:171-238 | over any run without reset or reanchor, recorded frames never go back, no (frame, slot) is recorded twice, and all lie above what had been produced at the start |
| `PlaybackDriver.ProductionReaches` | src/ConsoleNetplay/ConfirmedInputBufferDriver.cpp:183-238 | one call records nothing at or below the confirmed frontier or the production mark, and a Running call leaves production at or beyond exactFrame + prebuffer |
| `PlaybackDriver.ProducedFramesAreRecorded` | src/ConsoleNetplay/ConfirmedInputBufferDriver.cpp:171-238 | with fixed local slots, every frame produced during a run was recorded for every slot unless a call found it already confirmed |
| `PlaybackDriver.ConfirmedInputBufferDriver.Reset` | src/ConsoleNetplay/ConfirmedInputBufferDriver.cpp:83-91 | new state is the step function applied to the old one |
| `PlaybackDriver.ConfirmedInputBufferDriver.Reanchor` | src/ConsoleNetplay/ConfirmedInputBufferDriver.cpp:93-101 | new state is the step function applied to the old one |
| `PlaybackDriver.ConfirmedInputBufferDriver.SetPrebufferFrames` | src/ConsoleNetplay/ConfirmedInputBufferDriver.cpp:73-76 | changes the prebuffer only |
| `PlaybackDriver.ConfirmedInputBufferDriver.ProduceThrough` | src/ConsoleNetplay/ConfirmedInputBufferDriver.cpp:40-49 | the production loop: production reaches the larger of mark and target, and the log is exactly the recordings of the interval |
| `PlaybackDriver.ConfirmedInputBufferDriver.ProduceLocalBufferedInputs` | src/ConsoleNetplay/ConfirmedInputBufferDriver.cpp:171-238 | seeding loop and main loop together record what one loop over the whole interval records; all branches of the call give the specified state |
| `PlaybackDriver.ConfirmedInputBufferDriver.PopFrontBefore` | src/ConsoleNetplay/ConfirmedInputBufferDriver.cpp:408-410 | keeps exactly the queued frames not before the first one wanted |
| `PlaybackDriver.ConfirmedInputBufferDriver.PopBackAfter` | src/ConsoleNetplay/ConfirmedInputBufferDriver.cpp:419-421 | keeps exactly the queued frames up to the target |
| `PlaybackDriver.ConfirmedInputBufferDriver.Refresh` | src/ConsoleNetplay/ConfirmedInputBufferDriver.cpp:423-431 | every queued frame is built again; the queue is cut exactly at the first frame that cannot be |
| `PlaybackDriver.ConfirmedInputBufferDriver.Extend` | src/ConsoleNetplay/ConfirmedInputBufferDriver.cpp:433-448 | the queue becomes a fresh run from the first frame that cannot be extended |
| `PlaybackDriver.ConfirmedInputBufferDriver.RepairQueue` | src/ConsoleNetplay/ConfirmedInputBufferDriver.cpp:407-448 | the in-place repair of any contiguous queue ends in the from-scratch queue |
| `PlaybackDriver.ConfirmedInputBufferDriver.PreparePlaybackFrames` | src/ConsoleNetplay/ConfirmedInputBufferDriver.cpp:369-452 | every branch of prepare, with the queue equal to the from-scratch queue |
| `PlaybackDriver.ConfirmedInputBufferDriver.ReadThrough` | src/ConsoleNetplay/ConfirmedInputBufferDriver.cpp:472-477 | the frames up to the limit, in order |
| `PlaybackDriver.ConfirmedInputBufferDriver.ConsumePendingFrames` | src/ConsoleNetplay/ConfirmedInputBufferDriver.cpp:463-478 | drops frames before the current one and delivers exactly the window |
| `PlaybackDriver.PreparedExactly` | src/ConsoleNetplay/ConfirmedInputBufferDriver.cpp:376-452 | a prepare leaves a frame queued if and only if the session runs, the frame is one of the next 2 * prebuffer + 1, at most the confirmed frame (0 when inactive), at most the cap, produced unless a host without local slots waits for another playing participant, and it and every frame before it can be built; queued inputs are the built ones |
| `PlaybackDriver.QueuedThroughExactly` | src/ConsoleNetplay/ConfirmedInputBufferDriver.cpp:450-451 | after a Running prepare a frame is queued if and only if it lies after the emulated frame and at most at the queued mark |
| `PlaybackDriver.RecordedExactly` | src/ConsoleNetplay/ConfirmedInputBufferDriver.cpp:183-238 | a production records an input if and only if it is Running, the slot is local, the value is the built one, and the frame lies above the production mark and the confirmed frame and at most at exactFrame + prebuffer |
| `PlaybackDriver.MarksAfterProduction` | src/ConsoleNetplay/ConfirmedInputBufferDriver.cpp:199-238 | which frames lie at or below the production and queued marks after a Running production |
| `PlaybackDriver.IdleProduction` | src/ConsoleNetplay/ConfirmedInputBufferDriver.cpp:171-197 | any other production: inactive resets the marks, waiting for a sync empties the queue, and nothing else changes |
| `PlaybackDriver.ProductionAfterRestart` | src/ConsoleNetplay/ConfirmedInputBufferDriver.cpp:83-101 | after a reanchor production goes on behind the anchor, after a reset behind frame 0, and the queue is empty |
| `PlaybackDriver.FirstProduction` | src/ConsoleNetplay/ConfirmedInputBufferDriver.h:46-47 | a new driver records frames 1 to 10 for each local slot |
| `PlaybackDriver.ConsumedExactly` | src/ConsoleNetplay/ConfirmedInputBufferDriver.cpp:468-470 | consuming keeps exactly the queued frames from the current one on |
| `PlaybackDriver.DeliversExactly` | src/ConsoleNetplay/NetplayRuntimeSupport.cpp:1491-1514 | preparing and then consuming hands over a frame if and only if it is at most the queue limit and the prepare queues it, with the conditions written out |
| `PlaybackDriver.PrebufferIsSet` | src/ConsoleNetplay/ConfirmedInputBufferDriver.cpp:73-76 | setting the prebuffer changes the prebuffer and nothing else |
| `Packets.LittleEndianRoundTrip` | src/ConsoleNetplay/NetSerialization.h:22-29 | decoding the bytes of a number that fits its width gives the number |
| `Packets.TakeUIntRoundTrip` | src/ConsoleNetplay/NetSerialization.h:67-75 | a written number is read back and the suffix is left |
| `Packets.TakeBytesRoundTrip` | src/ConsoleNetplay/NetSerialization.h:87-96 | written bytes are read back and the suffix is left |
| `Packets.TakeStringRoundTrip` | src/ConsoleNetplay/NetSerialization.h:77-85 | a written string under 65536 bytes is read back and the suffix is left |
| `Packets.TakeUIntExtends` | src/ConsoleNetplay/NetSerialization.h:67-75 | a successful read does the same on any longer input |
| `Packets.TakeBytesExtends` | src/ConsoleNetplay/NetSerialization.h:87-96 | a successful read does the same on any longer input |
| `Packets.PacketWriter.WriteUInt` | src/ConsoleNetplay/NetSerialization.h:22-29 | appends the little-endian bytes |
| `Packets.PacketWriter.WriteBytes` | src/ConsoleNetplay/NetSerialization.h:31-38 | appends the bytes |
| `Packets.PacketWriter.WriteString` | src/ConsoleNetplay/NetSerialization.h:40-45 | appends the size modulo 65536 and all the bytes |
| `Packets.PacketReader.ReadUInt` | src/ConsoleNetplay/NetSerialization.h:67-75 | reads and advances, or fails exactly when too few bytes remain and leaves the position |
| `Packets.PacketReader.ReadBytes` | src/ConsoleNetplay/NetSerialization.h:87-96 | reads and advances, or fails exactly when too few bytes remain and leaves the position |
| `Packets.PacketReader.ReadString` | src/ConsoleNetplay/NetSerialization.h:77-85 | reads size and text as the pure reader does |
| `Packets.PacketReader.Remaining` | src/ConsoleNetplay/NetSerialization.h:105-108 | the number of bytes not read yet |
| `Packets.LowestByteFirst` | src/ConsoleNetplay/NetSerialization.h:22-29 | the byte order of two- and four-byte numbers, byte by byte |
| `Packets.WidthLimits` | src/ConsoleNetplay/NetSerialization.h:22-29 | the limits of fields of one, two, four and eight bytes |
| `PerSlot.SortedExtensional` | src/ConsoleNetplay/NetplayInputFrame.h:96-97 | two sorted vectors with the same entries are equal |
| `PerSlot.GetIsMembership` | src/ConsoleNetplay/NetplayInputFrame.h:50-59 | a lookup gives the value of the entry with the slot if there is one, the default otherwise |
| `PerSlot.PutMembership` | src/ConsoleNetplay/NetplayInputFrame.h:41-48 | assignment keeps the vector sorted and changes exactly the entry of its slot |
| `PerSlot.NonDefaultMembership` | src/ConsoleNetplay/NetplayInputFrame.h:113-138 | dropping default values keeps exactly the other entries, sorted |
| `PerSlot.PutAllRebuilds` | src/ConsoleNetplay/NetplayInputFrame.h:41-48 | inserting the non-default values of a vector, in any order that mentions all its slots, gives back the vector without its default values |
| `PerSlot.PerSlotValue.LowerBound` | src/ConsoleNetplay/NetplayInputFrame.h:26-38 | binary search: everything before the result has a smaller slot, nothing from it on does |
| `PerSlot.PerSlotValue.Set` | src/ConsoleNetplay/NetplayInputFrame.h:41-48 | insertion at the binary-search position is the sorted assignment |
| `PerSlot.PerSlotValue.Lookup` | src/ConsoleNetplay/NetplayInputFrame.h:50-59 | binary-search lookup agrees with the list lookup |
| `PerSlot.PerSlotValue.Erase` | src/ConsoleNetplay/NetplayInputFrame.h:88-94 | stays sorted and loses exactly the entry of the slot |
| `InputFrameCodec.ActiveSlotsExact` | src/ConsoleNetplay/NetplayInputFrame.h:113-138 | a slot is active if and only if it has a non-zero mask or a non-empty payload; active slots are listed once |
| `InputFrameCodec.TakeSlotRoundTrip` | src/ConsoleNetplay/NetplayInputFrameSerialization.cpp:61-75 | a slot record is read back from its bytes and any suffix |
| `InputFrameCodec.ActiveSlotsRebuild` | src/ConsoleNetplay/NetplayInputFrameSerialization.cpp:131-143 | re-inserting the records of the active slots, in the order the encoder emits them, gives the three sorted vectors without zero masks and empty payloads |
| `InputFrameCodec.TakeFrameRoundTrip` | src/ConsoleNetplay/NetplayInputFrameSerialization.cpp:79-148 | a well-sized frame is read back, normalised, from its bytes followed by any suffix |
| `InputFrameCodec.RoundTrip` | src/ConsoleNetplay/NetplayInputFrameSerialization.cpp:79-148 | decoding the encoding of a well-sized frame gives the frame with zero masks and empty payloads removed |
| `InputFrameCodec.RoundTripExactlyWhenWellSized` | src/ConsoleNetplay/NetplayInputFrameSerialization.cpp:79-148 | that round trip holds if and only if there are fewer than 256 active slots and all payloads are under 65536 bytes |
| `InputFrameCodec.OversizedPayloadIsLost` | src/ConsoleNetplay/NetplayInputFrameSerialization.cpp:88-91 | a frame for which it does not: a payload of 65536 bytes is announced as empty |
| `InputFrameCodec.TooManySlotsRefused` | src/ConsoleNetplay/NetplayInputFrameSerialization.cpp:87-103 | a frame with 256 or more active slots and fitting payloads encodes to bytes the decoder refuses |
| `InputFrameCodec.DecodedFramesRoundTrip` | src/ConsoleNetplay/NetplayInputFrameSerialization.cpp:120-148 | whatever decodes is normal and well sized, and decodes again from its own encoding |
| `InputFrameCodec.DecodableIsPrefixFree` | src/ConsoleNetplay/NetplayInputFrameSerialization.cpp:120-148 | no strict prefix and no strict extension of a decodable byte string decodes |
| `InputFrameCodec.CollectActiveSlots` | src/ConsoleNetplay/NetplayInputFrame.h:113-138 | the three append loops and the final filter give the active slots in concatenated order without repeats |
| `InputFrameCodec.WriteSlots` | src/ConsoleNetplay/NetplayInputFrameSerialization.cpp:92-103 | appends the records of the slots in order |
| `InputFrameCodec.Serialize` | src/ConsoleNetplay/NetplayInputFrameSerialization.cpp:79-105 | writes the encoding |
| `InputFrameCodec.SerializedSize` | src/ConsoleNetplay/NetplayInputFrameSerialization.cpp:107-118 | is the length of the encoding |
| `InputFrameCodec.ReadSlot` | src/ConsoleNetplay/NetplayInputFrameSerialization.cpp:69-75 | reads one record as the pure reader does, or fails |
| `InputFrameCodec.ReadWireHeader` | src/ConsoleNetplay/NetplayInputFrameSerialization.cpp:52-59 | reads the five header fields as the pure reader does, or fails |
| `InputFrameCodec.ReadHeader` | src/ConsoleNetplay/NetplayInputFrameSerialization.cpp:123-130 | reads header and frame payload, and refuses another version, as the pure reader does |
| `InputFrameCodec.StoreRecord` | src/ConsoleNetplay/NetplayInputFrameSerialization.cpp:134-142 | stores only non-zero masks and non-empty payloads |
| `InputFrameCodec.DeserializeSlots` | src/ConsoleNetplay/NetplayInputFrameSerialization.cpp:131-147 | reads the announced number of records and refuses left-over bytes |
| `InputFrameCodec.Deserialize` | src/ConsoleNetplay/NetplayInputFrameSerialization.cpp:120-148 | is the decoder on every byte string, including all failures |
| `InputFrameCodec.ActiveSlotsInOrder` | src/ConsoleNetplay/NetplayInputFrame.h:130-138 | active slots are emitted in the order in which low masks, high masks and payloads first mention them |
| `InputFrameCodec.EncodedLayout` | src/ConsoleNetplay/NetplayInputFrameSerialization.cpp:79-105 | byte for byte: version 4, frame, epoch, slot count, payload size, frame payload, slot records |
| `InputFrameCodec.SlotLayout` | src/ConsoleNetplay/NetplayInputFrameSerialization.cpp:61-67 | byte for byte: slot, low mask, high mask, payload size, payload |
| `InputFrameCodec.OnlyVersionFourDecodes` | src/ConsoleNetplay/NetplayInputFrameSerialization.cpp:120-128 | nothing that is shorter than 12 bytes or has another version decodes |
| `Protocol.FieldsRoundTrip` | src/ConsoleNetplay/NetProtocol.cpp:558-570 | any list of fixed-width fields that fit is read back before any suffix |
| `Protocol.VectorRoundTrip` | src/ConsoleNetplay/NetProtocol.cpp:126-147 | a counted vector is read back, cut at 255 elements, before any suffix |
| `Protocol.VectorSize` | src/ConsoleNetplay/NetProtocol.cpp:149-156 | the computed size is the encoded size if and only if there are at most 255 elements |
| `Protocol.DeclaredSizeIsWrong` | src/ConsoleNetplay/NetProtocol.cpp:291-319 | 256 assignments: the computed size is not the encoded size |
| `Protocol.TopologyRoundTrip` | src/ConsoleNetplay/NetProtocol.cpp:96-156 | a topology decodes to its first 255 slots and leaves the suffix; its computed size is right exactly up to 255 slots |
| `Protocol.FrameStatusRoundTrip` | src/ConsoleNetplay/NetProtocol.cpp:264-289 | the same for frame status records |
| `Protocol.StartSessionRoundTrip` | src/ConsoleNetplay/NetProtocol.cpp:367-384 | the same for session starts |
| `Protocol.ConfirmedEntryRoundTrip` | src/ConsoleNetplay/NetProtocol.cpp:198-244 | the same for confirmed input entries |
| `Protocol.AssignControllerRoundTrip` | src/ConsoleNetplay/NetProtocol.cpp:291-319 | the same for controller assignments |
| `Protocol.ChatMessageRoundTrip` | src/ConsoleNetplay/NetProtocol.cpp:343-365 | a chat message decodes to itself if and only if its text is not empty and name and text are within their limits |
| `Protocol.LegacyResyncRequest` | src/ConsoleNetplay/NetProtocol.cpp:572-590 | a request without the trailing epoch decodes with epoch 0 when fewer than four bytes follow, and takes the next four bytes as its epoch otherwise |
| `Protocol.ResyncRequestRoundTrip` | src/ConsoleNetplay/NetProtocol.cpp:558-590 | a full request is read back before any suffix |
| `Protocol.SerializeTopology` | src/ConsoleNetplay/NetProtocol.cpp:126-133 | writes the topology bytes |
| `Protocol.DeserializeTopologySlot` | src/ConsoleNetplay/NetProtocol.cpp:106-114 | reads one slot as the pure reader does, or fails |
| `Protocol.DeserializeTopology` | src/ConsoleNetplay/NetProtocol.cpp:135-147 | reads a topology as the pure reader does, or fails |
| `Protocol.SerializeFrameStatus` | src/ConsoleNetplay/NetProtocol.cpp:264-271 | writes the record |
| `Protocol.DeserializeFrameStatus` | src/ConsoleNetplay/NetProtocol.cpp:273-280 | reads the record or fails |
| `Protocol.SerializeConfirmedEntry` | src/ConsoleNetplay/NetProtocol.cpp:212-221 | writes the record |
| `Protocol.DeserializeConfirmedEntry` | src/ConsoleNetplay/NetProtocol.cpp:223-236 | reads the record or fails |
| `Protocol.SerializeAssignController` | src/ConsoleNetplay/NetProtocol.cpp:291-299 | writes the record |
| `Protocol.DeserializeAssignController` | src/ConsoleNetplay/NetProtocol.cpp:301-314 | reads the record or fails |
| `Protocol.SerializeStartSession` | src/ConsoleNetplay/NetProtocol.cpp:367-372 | writes the record |
| `Protocol.DeserializeStartSession` | src/ConsoleNetplay/NetProtocol.cpp:374-379 | reads the record or fails |
| `Protocol.SerializeChatMessage` | src/ConsoleNetplay/NetProtocol.cpp:343-348 | writes the record |
| `Protocol.DeserializeChatMessage` | src/ConsoleNetplay/NetProtocol.cpp:350-365 | reads the record or fails, also on the length limits |
| `Protocol.SerializeResyncRequest` | src/ConsoleNetplay/NetProtocol.cpp:558-570 | writes the record |
| `Protocol.DeserializeResyncRequest` | src/ConsoleNetplay/NetProtocol.cpp:572-590 | reads both forms or fails |
| `Protocol.VectorLayout` | src/ConsoleNetplay/NetProtocol.cpp:126-133 | a count of at most 255 and that many elements in order |
| `Protocol.TopologyLayouts` | src/ConsoleNetplay/NetProtocol.cpp:96-133 | slots, frame status and session starts field by field, with the widths of the fields |
| `Protocol.ResyncRequestLayout` | src/ConsoleNetplay/NetProtocol.cpp:558-570 | ten fields with their widths, the epoch last |
| `Protocol.OtherLayouts` | src/ConsoleNetplay/NetProtocol.cpp:198-221 | slot masks, confirmed entries, controller assignments and chat messages field by field |
| `OutboundQueue.InsertKeepsOrder` | src/ConsoleNetplay/NetTransport.cpp:929-937 | queueing keeps the order and adds only the packet: no Gameplay or Diagnostics packet stands before a Control packet, and no Diagnostics packet before a Gameplay one |
| `OutboundQueue.InsertIsLastOnChannel` | src/ConsoleNetplay/NetTransport.cpp:929-937 | within each channel the queued packet comes last and nothing else moves |
| `OutboundQueue.FlushSplits` | src/ConsoleNetplay/NetTransport.cpp:994-1021 | what a flush sends followed by what it leaves is the queue it found, and at most 32 packets go out |
| `OutboundQueue.FlushSendsByPriority` | src/ConsoleNetplay/NetTransport.cpp:994-1021 | while a Control packet is left waiting only Control packets were sent, and while a Gameplay packet is left waiting no Diagnostics packet was |
| `OutboundQueue.SendConserves` | src/ConsoleNetplay/NetTransport.cpp:940-982 | a send keeps, per channel, accepted = transmitted followed by waiting, and the order of channels |
| `OutboundQueue.FlushConserves` | src/ConsoleNetplay/NetTransport.cpp:994-1021 | a flush keeps the same, for any answers of the data channel |
| `OutboundQueue.Enqueue` | src/ConsoleNetplay/NetTransport.cpp:911-938 | the insertion loop is the specified insertion, which keeps Control before Gameplay before Diagnostics |
| `OutboundQueue.EnqueueOrSend` | src/ConsoleNetplay/NetTransport.cpp:940-982 | queue, send at once, queue on "not open", or report failure, as specified for every answer |
| `OutboundQueue.FlushQueue` | src/ConsoleNetplay/NetTransport.cpp:994-1021 | the flush loop is the specified flush, for every sequence of answers |
| `OutboundQueue.SendExactly` | src/ConsoleNetplay/NetTransport.cpp:940-982 | a packet goes out at once if and only if the channel is open, nothing waits, at most 262144 bytes are buffered and the send succeeds; it is refused if and only if that send fails outright; otherwise it is queued |
| `OutboundQueue.FlushExactly` | src/ConsoleNetplay/NetTransport.cpp:994-1021 | the k-th waiting packet goes out if and only if it is among the first 32 and for it and all before it at most 65536 bytes were buffered and the send succeeded; the flush fails if and only if the next one was tried and failed outright |
| `TransportSession.StepKeepsInvariant` | src/ConsoleNetplay/NetTransport.cpp:640-723 | every operation keeps: handles positive, increasing and below the next one, remote ids distinct and not the local one, events of every handle alternating and in step with its connected flag, packets conserved, unissued handles without trace |
| `TransportSession.RunKeepsInvariant` | src/ConsoleNetplay/NetTransport.cpp:984-1023 | every run of operations keeps it |
| `TransportSession.SessionIsSound` | src/ConsoleNetplay/NetTransport.cpp:1285-1420 | in every session: distinct handles and remote ids; events alternate from Connected and are none or end in Disconnected once the peer is gone; per channel accepted = transmitted followed by waiting for live peers, and transmitted is a prefix of accepted for all |
| `TransportSession.HandlesAreNotReused` | src/ConsoleNetplay/NetTransport.cpp:1304-1305 | once a peer is removed, whatever follows, its handle stays unknown and its trace does not change |
| `TransportSession.StepFrozen` | src/ConsoleNetplay/NetTransport.cpp:640-723 | one operation leaves the trace of a removed handle alone |
| `TransportSession.ClosesExactly` | src/ConsoleNetplay/NetTransport.cpp:1408-1420 | a round of closing removes a peer if and only if closing all was requested, its deadline has passed, or its close was requested |
| `TransportSession.OpenKeepsInvariant` | src/ConsoleNetplay/NetTransport.cpp:1285-1333 | opening a peer, also when it fails after taking a handle |
| `TransportSession.OpenedKeepsInvariant` | src/ConsoleNetplay/NetTransport.cpp:1590-1607 | the channel-open event |
| `TransportSession.ClosedKeepsInvariant` | src/ConsoleNetplay/NetTransport.cpp:1609-1626 | the channel-closed event |
| `TransportSession.ClosePeerKeepsInvariant` | src/ConsoleNetplay/NetTransport.cpp:1335-1359 | closing removes that peer and no other |
| `TransportSession.ProcessKeepsInvariant` | src/ConsoleNetplay/NetTransport.cpp:1408-1420 | exactly the pending handles are gone afterwards |
| `TransportSession.SendKeepsInvariant` | src/ConsoleNetplay/NetTransport.cpp:2023-2034 | sending, also when it fails |
| `TransportSession.FlushKeepsInvariant` | src/ConsoleNetplay/NetTransport.cpp:984-1023 | flushing all peers, also when some fail |
| `TransportSession.WebRtcTransport.FindPeerByHandle` | src/ConsoleNetplay/NetTransport.cpp:640-645 | the first peer with the handle |
| `TransportSession.WebRtcTransport.InitializePeerConnection` | src/ConsoleNetplay/NetTransport.cpp:1285-1333 | new state is the step function applied to the old one; the invariant is kept |
| `TransportSession.WebRtcTransport.DataChannelOpen` | src/ConsoleNetplay/NetTransport.cpp:1590-1607 | as above, and the events returned are those added to the trace |
| `TransportSession.WebRtcTransport.DataChannelClosed` | src/ConsoleNetplay/NetTransport.cpp:1609-1626 | as above, and the events returned are those added to the trace |
| `TransportSession.WebRtcTransport.RequestPeerClose` | src/ConsoleNetplay/NetTransport.cpp:664-679 | marks the peer, keeps an existing deadline, and records the handle once |
| `TransportSession.WebRtcTransport.HandlePeerFailure` | src/ConsoleNetplay/NetTransport.cpp:1391-1406 | a host asks for the close of the peer, a client for shutdown |
| `TransportSession.WebRtcTransport.ErasePeer` | src/ConsoleNetplay/NetTransport.cpp:1335-1359 | removes the peer, with a Disconnected event if it was connected |
| `TransportSession.WebRtcTransport.TakePendingPeerCloses` | src/ConsoleNetplay/NetTransport.cpp:695-723 | all handles, or the overdue ones followed by the requested ones not among them |
| `TransportSession.WebRtcTransport.ProcessPendingPeerClose` | src/ConsoleNetplay/NetTransport.cpp:1408-1420 | closes exactly those, keeping the invariant |
| `TransportSession.WebRtcTransport.SendPacket` | src/ConsoleNetplay/NetTransport.cpp:2023-2034 | new state is the step function applied to the old one; the answer says whether the packet was accepted |
| `TransportSession.WebRtcTransport.FlushPeerQueue` | src/ConsoleNetplay/NetTransport.cpp:986-1022 | one peer is flushed as specified |
| `TransportSession.WebRtcTransport.FlushQueuedPeerPackets` | src/ConsoleNetplay/NetTransport.cpp:984-1023 | all peers are flushed in registry order |
| `TransportSession.OpensExactly` | src/ConsoleNetplay/NetTransport.cpp:1285-1333 | a peer is added if and only if its id is admissible, unknown and the connection comes about, with the next handle, not connected and nothing waiting; a failed attempt uses up the handle |
| `TransportSession.OpenedExactly` | src/ConsoleNetplay/NetTransport.cpp:1590-1607 | Connected is reported if and only if the peer is known and was not connected |
| `TransportSession.ClosedExactly` | src/ConsoleNetplay/NetTransport.cpp:1609-1626 | Disconnected is reported if and only if the peer was connected; a known peer is due for closing 350 ms later |
| `TransportSession.ScheduledExactly` | src/ConsoleNetplay/NetTransport.cpp:681-693 | the deadline is set for a known peer, and no other peer or field changes |
| `TransportSession.RequestCloseExactly` | src/ConsoleNetplay/NetTransport.cpp:664-679 | a known peer is due at once unless it has a deadline; the handle is noted unless it is 0 |
| `TransportSession.CloseCauses` | src/ConsoleNetplay/NetTransport.cpp:1391-1406 | a failure closes the peer on a host and ends the session of a client; disconnecting waits 350 ms for a connected peer and not for another |
| `TransportSession.LeftPeerIsClosed` | src/ConsoleNetplay/NetTransport.cpp:1761-1765 | a known peer that left the room is closed; anyone else leaving changes nothing |
| `TransportSession.SendsExactly` | src/ConsoleNetplay/NetTransport.cpp:2023-2034 | a packet is accepted if and only if the peer is known, not to be closed, and it is not tried at once and refused; it goes out if and only if it is tried and sent; a client gives up if and only if it is tried and refused |
| `TransportSession.SendLeavesExactly` | src/ConsoleNetplay/NetTransport.cpp:940-982 | sending touches no other peer, and a host marks the peer for closing if and only if the packet was tried and refused |
| `TransportSession.FlushesExactly` | src/ConsoleNetplay/NetTransport.cpp:984-1023 | each open peer that is not to be closed sends and keeps exactly what flushing its queue does, others nothing; a host marks exactly the peers whose queue failed, and a client gives up if and only if one failed |
| `TransportSession.ShutdownsHaveCauses` | src/ConsoleNetplay/NetTransport.cpp:1391-1406 | in every session closing all was requested only after the signaling server was lost, and only a client gives up |
| `SignalingServer.StepKeepsInvariant` | src/ConsoleNetplay/WebRtcSignalingServer.cpp:261-437 | every request keeps: a room has a non-empty name, its owner is a member, every member is a known client with a non-empty peer id that names the room, occupancy is within a limit of at least 2 |
| `SignalingServer.JoinKeepsInvariant` | src/ConsoleNetplay/WebRtcSignalingServer.cpp:348-404 | a join keeps it, and the owner-missing branch is never taken |
| `SignalingServer.RunKeepsInvariant` | src/ConsoleNetplay/WebRtcSignalingServer.cpp:478-514 | every run of requests keeps it |
| `SignalingServer.ReachableStates` | src/ConsoleNetplay/WebRtcSignalingServer.cpp:160-224 | in every reachable state all rooms are in order, no room is empty, and no join finds the owner missing |
| `SignalingServer.OneRoomPerConnection` | src/ConsoleNetplay/WebRtcSignalingServer.cpp:160-224 | no connection is a member of two rooms |
| `SignalingServer.StaleStep` | src/ConsoleNetplay/WebRtcSignalingServer.cpp:160-224 | a client comes to name a room it is not in exactly when the owner of its room leaves it behind, and stops doing so exactly when it creates, joins, leaves or disconnects itself |
| `SignalingServer.StaleExactlyWhenAbandoned` | src/ConsoleNetplay/WebRtcSignalingServer.cpp:172-202 | if every client that names a room is in it, that remains so after a request if and only if the request is not an owner leaving a room in which others remain |
| `SignalingServer.StaleExactlyWhenAbandonedSince` | src/ConsoleNetplay/WebRtcSignalingServer.cpp:160-224 | in every run a client names a room it is not in if and only if an owner left it behind and it has not changed room since |
| `SignalingServer.OutsidersAreHeard` | src/ConsoleNetplay/WebRtcSignalingServer.cpp:160-177 | runs (0 creates r, 1 joins, 0 creates q, 2 creates r) after which 1 is not in r, its signals reach 2, and 2 is told when 1 leaves |
| `SignalingServer.HeardExactlyFromMembers` | src/ConsoleNetplay/WebRtcSignalingServer.cpp:439-476 | in every run, the sender of a forwarded signal and the subject of a departure notice is a member of the room exactly when it is not abandoned |
| `SignalingServer.OnlyMembersAreHeard` | src/ConsoleNetplay/WebRtcSignalingServer.cpp:439-476 | in every run in which no owner leaves others behind, only members are heard |
| `SignalingServer.JoinTellsExactlyTheMembers` | src/ConsoleNetplay/WebRtcSignalingServer.cpp:348-427 | after a successful join each other member has been told of the joiner once, the joiner of each other member once by its current peer id, and nobody else anything |
| `SignalingServer.ToldCounts` | src/ConsoleNetplay/WebRtcSignalingServer.cpp:412-418 | the messages to the joiner name each peer id as often as members go by it |
| `SignalingServer.AnnouncedCounts` | src/ConsoleNetplay/WebRtcSignalingServer.cpp:420-426 | each listed member gets exactly one announcement |
| `SignalingServer.DesktopSignalingServer.AttachClient` | src/ConsoleNetplay/WebRtcSignalingServer.cpp:516-521 | new state is the step function applied to the old one |
| `SignalingServer.DesktopSignalingServer.HandleHello` | src/ConsoleNetplay/WebRtcSignalingServer.cpp:261-282 | as above, with Welcome, which echoes the room id, or the error for an empty id |
| `SignalingServer.DesktopSignalingServer.DetachFromCurrentRoom` | src/ConsoleNetplay/WebRtcSignalingServer.cpp:160-177 | the member leaves; the room goes when the owner left or nobody remains |
| `SignalingServer.DesktopSignalingServer.HandleCreateRoom` | src/ConsoleNetplay/WebRtcSignalingServer.cpp:306-346 | as specified, with the exact reply for each outcome |
| `SignalingServer.DesktopSignalingServer.EnterRoom` | src/ConsoleNetplay/WebRtcSignalingServer.cpp:385-390 | another current room is left first |
| `SignalingServer.DesktopSignalingServer.HandleJoinRoom` | src/ConsoleNetplay/WebRtcSignalingServer.cpp:348-427 | as specified; the first reply is RoomJoined for an admitted connection, otherwise the error text of the condition that failed first: blank ids, no such room, wrong password, room full |
| `SignalingServer.DesktopSignalingServer.AnnounceJoin` | src/ConsoleNetplay/WebRtcSignalingServer.cpp:392-426 | replies in some order of the set of other members |
| `SignalingServer.DesktopSignalingServer.DetachClient` | src/ConsoleNetplay/WebRtcSignalingServer.cpp:179-224 | new state, and the departure record: orphans of an owner, or the notice to send |
| `SignalingServer.DesktopSignalingServer.AnnounceDeparture` | src/ConsoleNetplay/WebRtcSignalingServer.cpp:226-249 | closes exactly the orphans, or tells exactly the remaining members once |
| `SignalingServer.DesktopSignalingServer.HandleDeparture` | src/ConsoleNetplay/WebRtcSignalingServer.cpp:251-259 | leaving and disconnecting: new state, exactly the orphans closed, exactly the remaining members told once |
| `SignalingServer.DesktopSignalingServer.HandleDirectSignal` | src/ConsoleNetplay/WebRtcSignalingServer.cpp:439-476 | one message: the forward to a member with the target id of the room the sender names, stamped with that room and the sender id, or the exact error, given only if there is no such member; a sender that is heard is a member exactly when its client is not stale |
| `SignalingServer.TrimExactly` | src/ConsoleNetplay/WebRtcSignalingServer.cpp:94-102 | trimming cuts off exactly the blanks at both ends |
| `SignalingServer.JoinAdmitsExactly` | src/ConsoleNetplay/WebRtcSignalingServer.cpp:348-404 | a join is admitted if and only if the trimmed ids are not empty, the room exists, the password equals the room's, and it holds fewer members than its limit; then the connection is a member under its new id, otherwise nothing changes |
| `SignalingServer.JoinMakesMemberExactly` | src/ConsoleNetplay/WebRtcSignalingServer.cpp:348-404 | a connection outside the room becomes a member of it if and only if those conditions hold |
| `SignalingServer.JoinNeedsThePassword` | src/ConsoleNetplay/WebRtcSignalingServer.cpp:376-379 | over every run, a join makes a connection a member only with the password of the create request that made the room |
| `SignalingServer.RoomsAreAsCreated` | src/ConsoleNetplay/WebRtcSignalingServer.cpp:332-338 | over every run, every room has the password, limit and owner of the create request that made it |
| `SignalingServer.CreateMakesExactly` | src/ConsoleNetplay/WebRtcSignalingServer.cpp:306-346 | a room is made if and only if the trimmed ids are not empty and there is none of the name, with that password, a limit of at least 2, and its creator as owner and only member |
| `SignalingServer.LeaveExactly` | src/ConsoleNetplay/WebRtcSignalingServer.cpp:179-224 | an unknown connection changes nothing; who leaves or disconnects is in no room; a room goes if and only if its owner or its last member left |
| `SignalingServer.HelloExactly` | src/ConsoleNetplay/WebRtcSignalingServer.cpp:261-282 | a hello sets the id of the client, unless it is blank, and leaves its room alone |
| `SignalingServer.AttachExactly` | src/ConsoleNetplay/WebRtcSignalingServer.cpp:516-521 | a new connection is a client without id and room, a known one stays as it is |
| `SignalingServer.OthersUntouched` | src/ConsoleNetplay/WebRtcSignalingServer.cpp:261-437 | no request touches the client of another connection or the settings of a room; rooms come only from create requests |
| `SignalingServer.DepartureExactly` | src/ConsoleNetplay/WebRtcSignalingServer.cpp:179-249 | who is closed (fellow members of a leaving owner) and who is told (of any other member with an id), if and only if |
| `CatchUp.SharedClockReplays` | src/ConsoleNetplay/NetplayRuntimeSupport.cpp:1250-1268 | the shared-clock loop simulates consecutive frames, each once with the confirmed input of its number, at most maxFrames of them and none past the confirmed frontier |
| `CatchUp.ObserverReplays` | src/ConsoleNetplay/NetplayRuntimeSupport.cpp:1320-1329 | the same for the observer loop, up to its target |
| `CatchUp.StepReplays` | src/ConsoleNetplay/NetplayRuntimeSupport.cpp:1129-1332 | the same for any catch-up call |
| `CatchUp.RunReplays` | src/ConsoleNetplay/NetplayRuntimeSupport.cpp:1129-1332 | any mix of calls replays the confirmed log from the starting frame to the frame reached |
| `CatchUp.PeersAgree` | src/ConsoleNetplay/NetplayRuntimeSupport.cpp:1129-1332 | two peers that start from one state and frame with the same confirmed log are in the same state whenever they reach the same frame |
| `CatchUp.RequestsAreSpaced` | src/ConsoleNetplay/NetplayRuntimeSupport.cpp:1209-1233 | while time does not go back, a resync is asked for again only 1500 ms after the last accepted request |
| `CatchUp.ForgottenExactly` | src/ConsoleNetplay/NetplayRuntimeSupport.cpp:1152-1207 | a call that finds the lag within budget forgets since when it was over budget if and only if the lag trigger does not turn it away or a requested resync has begun |
| `CatchUp.RequestsAreWitnessed` | src/ConsoleNetplay/NetplayRuntimeSupport.cpp:1173-1210 | a resync is asked for only if a call at least 250 ms earlier was over budget; the lag was uninterrupted since then if and only if the lag trigger turned no call away in between |
| `CatchUp.UntriggeredRequestsPersist` | src/ConsoleNetplay/NetplayRuntimeSupport.cpp:1179-1210 | without the lag trigger every request follows 250 ms of uninterrupted lag |
| `CatchUp.InterruptedLagStillAsks` | src/ConsoleNetplay/NetplayRuntimeSupport.cpp:1173-1210 | with it not: calls find 20, 0 and 20 frames of lag within 300 ms, and the last one asks |
| `CatchUp.Console.RunFrame` | src/ConsoleNetplay/NetplayRuntimeSupport.cpp:1263-1264 | a frame is simulated if and only if the input was queued and the update succeeded |
| `CatchUp.SharedClockCatchup.AdvanceIfNeeded` | src/ConsoleNetplay/NetplayRuntimeSupport.cpp:1129-1290 | the loop runs if and only if the call is eligible, triggered and within budget; request state and request decision are those of the decision function |
| `CatchUp.RunSharedClockLoop` | src/ConsoleNetplay/NetplayRuntimeSupport.cpp:1250-1268 | the loop is the specified one, and counts the frames it advanced |
| `CatchUp.AdvanceObserverIfNeeded` | src/ConsoleNetplay/NetplayRuntimeSupport.cpp:1292-1332 | the loop runs if and only if the peer has no local slots and has confirmed, visible frames to catch up with; the conditions stand in the contract |
| `CatchUp.SharedClockRunsExactly` | src/ConsoleNetplay/NetplayRuntimeSupport.cpp:1250-1268 | the k-th frame of a call is run if and only if k < maxFrames and for it and every frame before it: the number is at most the confirmed one, 0 < its start <= the shared clock of that iteration, and it can be built, is queued and is run |
| `CatchUp.ObserverRunsExactly` | src/ConsoleNetplay/NetplayRuntimeSupport.cpp:1306-1329 | the k-th frame is run if and only if k < maxFrames, it is below the confirmed frontier and the frame shown, and it and every frame before it can be built, is queued and is run |
| `CatchUp.LagExactly` | src/ConsoleNetplay/NetplayRuntimeSupport.cpp:1142-1171 | the estimated lag reaches n if and only if the clock is known and synchronised, has passed the last report of the host, and enough frame times have gone by |
| `CatchUp.CatchesUpExactly` | src/ConsoleNetplay/NetplayRuntimeSupport.cpp:1137-1177 | a call runs the loop if and only if it is that of a running client, the lag is within budget, and a required trigger sees 2 frames of lag and a confirmed frame |
| `CatchUp.AsksExactly` | src/ConsoleNetplay/NetplayRuntimeSupport.cpp:1179-1229 | a call asks for a resync if and only if host and confirmed input are ahead by more than the budget, that has been so for 250 ms, and the last accepted request is 1500 ms old |
| `CatchUp.RemembersExactly` | src/ConsoleNetplay/NetplayRuntimeSupport.cpp:1152-1233 | what a call remembers of lag, requests and epoch |
| `CatchUp.FrameMicrosExactly` | src/ConsoleNetplay/NetplayRuntimeSupport.cpp:1142-1150 | the frame time is one second divided by the frame rate, between 1 and 1000000 microseconds |
| `Lockstep.StepKeepsSynced` | src/ConsoleNetplay/NetplayAppRuntime.cpp:1091-1092 | whatever a peer does next, only inputs of the agreed log wait in its driver and in the queue of its console |
| `Lockstep.StepReplays` | src/ConsoleNetplay/NetplayRuntimeSupport.cpp:1491-1531 | one step of a peer (a driver call, queueing, a catch-up call, playing a queued frame) simulates consecutive frames of the log, each once |
| `Lockstep.RunReplays` | src/ConsoleNetplay/NetplayAppRuntime.cpp:1085-1093 | every run of a peer, in any mix of such steps, is the simulation of the log from the starting frame to the frame reached |
| `Lockstep.PeersAgree` | src/ConsoleNetplay/NetplayAppRuntime.cpp:1085-1093 | two peers that start from one state and frame and mix production, prepare, consume, play and catch-up each in its own order are in the same state whenever they reach the same frame of the same log |
| `Lockstep.OfferedExactly` | src/ConsoleNetplay/NetplayRuntimeSupport.cpp:1521-1531 | offering frames queues exactly those the console takes |
| `Lockstep.QueuesCurrentExactly` | src/ConsoleNetplay/NetplayAppRuntime.cpp:1138-1150 | the current frame is queued if and only if it was before, or can be built and is taken |
| `Lockstep.PlaysExactly` | src/ConsoleNetplay/NetplayRuntimeSupport.cpp:1263-1264 | a frame is played if and only if its input is queued and the console runs it |
| `Lockstep.DiscardsExactly` | src/ConsoleNetplay/NetplayAppRuntime.cpp:1060-1060 | discarding keeps exactly the inputs up to the frame |
| `Lockstep.LeavesExactly` | src/ConsoleNetplay/NetplayRuntimeSupport.cpp:1250-1268 | a catch-up call can leave queued only the input of the frame it stopped at |
| `Lockstep.QueuedFramesPlay` | src/ConsoleNetplay/NetplayAppRuntime.cpp:1085-1093 | queued frames play one after the other |
| `Crc32.ShiftIsLinear` | src/ConsoleNetplay/NetplayCrc32.h:14-19 | one bit step is linear over exclusive or |
| `Crc32.ShiftIsInjective` | src/ConsoleNetplay/NetplayCrc32.h:14-19 | one bit step loses no information |
| `Crc32.FeedIsLookup` | src/ConsoleNetplay/NetplayCrc32.h:13-19 | eight bit steps on a register with a byte mixed in are one lookup in the table of section 8 of RFC 1952, which is defined on its own with the polynomial 0xEDB88320 |
| `Crc32.FeedIsUpdate` | src/ConsoleNetplay/NetplayCrc32.h:12-20 | feeding bytes bit by bit is the table-driven update of section 8 of RFC 1952 |
| `Crc32.FeedBit` | src/ConsoleNetplay/NetplayCrc32.h:15-18 | one pass of the inner loop |
| `Crc32.FeedByte` | src/ConsoleNetplay/NetplayCrc32.h:13-19 | the inner loop, with the byte shifted along, is eight steps of the register alone |
| `Crc32.FeedBytes` | src/ConsoleNetplay/NetplayCrc32.h:12-20 | the outer loop |
| `Crc32.ComputeCrc32` | src/ConsoleNetplay/NetplayCrc32.h:8-22 | the function equals the table-driven CRC-32 of section 8 of RFC 1952, defined independently of the loop, on every byte string |
| `Crc32.BurstsAreDetected` | src/ConsoleNetplay/NetplayCrc32.h:8-22 | two different strings of equal length that differ only within four consecutive bytes have different CRCs |
| `Crc32.CheckValue` | src/ConsoleNetplay/NetplayCrc32.h:8-22 | the CRC of the digits 1 to 9 is 0xCBF43926 |
| `Crc32.CrcIsComplement` | src/ConsoleNetplay/NetplayCrc32.h:12-21 | the reference CRC is the complement of the register after feeding the bytes bit by bit |
| `SnapshotSystem.WindowIsSuffixOfHistory` | src/ConsoleNetplay/SnapshotSystem.cpp:36-86 | in every run the window is a suffix of the unbounded history with the same rewind rule, strictly increasing in frames, and within capacity |
| `SnapshotSystem.HistoryIsGenuine` | src/ConsoleNetplay/SnapshotSystem.cpp:46-50 | every stored CRC is that of its data |
| `SnapshotSystem.LookupsAgreeWithHistory` | src/ConsoleNetplay/SnapshotSystem.cpp:54-73 | a lookup gives nothing or exactly what the unbounded history would, with the CRC of its data |
| `SnapshotSystem.SnapshotStore.Trim` | src/ConsoleNetplay/SnapshotSystem.cpp:81-86 | keeps the newest capacity records |
| `SnapshotSystem.SnapshotStore.Configure` | src/ConsoleNetplay/SnapshotSystem.cpp:10-14 | new state is the step function applied to the old one |
| `SnapshotSystem.SnapshotStore.Clear` | src/ConsoleNetplay/SnapshotSystem.cpp:16-19 | forgets all records |
| `SnapshotSystem.SnapshotStore.Push` | src/ConsoleNetplay/SnapshotSystem.cpp:36-52 | new state is the step function applied to the old one |
| `SnapshotSystem.SnapshotStore.FindSnapshot` | src/ConsoleNetplay/SnapshotSystem.cpp:54-61 | the first record with the frame |
| `SnapshotSystem.HistoryCrcs` | src/ConsoleNetplay/SnapshotSystem.cpp:75-79 | every CRC is that of RFC 1952, and 0 for empty data |
| `SnapshotSystem.PushKeepsExactly` | src/ConsoleNetplay/SnapshotSystem.cpp:36-52 | a push ends the window with the new snapshot and keeps the newest of the earlier frames beside it; with capacity 0 it keeps nothing |
| `SnapshotSystem.ConfigureKeepsExactly` | src/ConsoleNetplay/SnapshotSystem.cpp:10-19 | a new capacity keeps the newest that fit; clearing keeps none |
| `DesyncMonitor.HistoriesAreWindows` | src/ConsoleNetplay/DesyncMonitor.cpp:15-59 | when no side reports a frame twice, the histories are the last 512 entries of the streams, for any length |
| `DesyncMonitor.ComparedWhenMet` | src/ConsoleNetplay/DesyncMonitor.cpp:72-91 | a submission is compared exactly when the report of the other side is still among its last 512, both with known CRCs, and mismatches exactly when they differ |
| `DesyncMonitor.ComparedExactlyOnce` | src/ConsoleNetplay/DesyncMonitor.cpp:15-109 | over any interleaving of two such streams each frame is compared once exactly if its later report meets the earlier one in that way, and never otherwise; a mismatch is reported once exactly where they differ |
| `DesyncMonitor.CounterIsClimb` | src/ConsoleNetplay/DesyncMonitor.cpp:90-107 | over every run of submissions, invalidations and resets the mismatch counter is the length, up to 255, of the climb in frame numbers that ends the current streak of mismatches |
| `DesyncMonitor.EveryMismatchCountsExactly` | src/ConsoleNetplay/DesyncMonitor.cpp:93-99 | the counter counts every mismatch of the streak (up to 255) if and only if its last 255 frames never step back and none but the last is frame 0 |
| `DesyncMonitor.FrameZeroIsNotCounted` | src/ConsoleNetplay/DesyncMonitor.cpp:93-99 | a run in which it does not: frames 0 and 1 mismatch and the counter is 1 |
| `DesyncMonitor.ResolvedExactly` | src/ConsoleNetplay/DesyncMonitor.cpp:105-107 | over every such run a mismatch is reported as resolved exactly by the first agreeing comparison after a streak |
| `DesyncMonitor.InvalidationIsExactWhenStaleAtEnd` | src/ConsoleNetplay/DesyncMonitor.cpp:34-39 | popping from the back removes exactly the frames at or above the bound if and only if they are all at the end |
| `DesyncMonitor.InvalidationLeavesStaleFrames` | src/ConsoleNetplay/DesyncMonitor.cpp:34-39 | a run in which they are not: frame 5, reported before frame 3, survives an invalidation from frame 4 on |
| `DesyncMonitor.HistoriesAscend` | src/ConsoleNetplay/DesyncMonitor.cpp:15-59 | over every run of any length whose submissions ascend since the last invalidation or reset, the histories ascend |
| `DesyncMonitor.AscendingInvalidation` | src/ConsoleNetplay/DesyncMonitor.cpp:32-44 | in every such run an invalidation removes exactly the frames at or above its bound from both histories |
| `DesyncMonitor.StoreEntry` | src/ConsoleNetplay/DesyncMonitor.cpp:46-59 | replaces the newest entry of the frame or appends within capacity |
| `DesyncMonitor.Detector.Clear` | src/ConsoleNetplay/DesyncMonitor.cpp:7-13 | back to the empty monitor |
| `DesyncMonitor.Detector.FindEntry` | src/ConsoleNetplay/DesyncMonitor.cpp:61-70 | the newest entry of the frame |
| `DesyncMonitor.Detector.EvaluateFrame` | src/ConsoleNetplay/DesyncMonitor.cpp:72-109 | all outcomes of a comparison; histories unchanged |
| `DesyncMonitor.Detector.SubmitLocalCrc` | src/ConsoleNetplay/DesyncMonitor.cpp:15-19 | new state and update as specified |
| `DesyncMonitor.Detector.SubmitRemoteCrc` | src/ConsoleNetplay/DesyncMonitor.cpp:21-25 | new state and update as specified |
| `DesyncMonitor.Detector.InvalidateHistoryAfter` | src/ConsoleNetplay/DesyncMonitor.cpp:32-44 | new state as specified |
| `DesyncMonitor.ReportsExactly` | src/ConsoleNetplay/DesyncMonitor.cpp:72-109 | a submission reports its own frame, and the counter on a mismatch |
| `DesyncMonitor.StoresExactly` | src/ConsoleNetplay/DesyncMonitor.cpp:46-59 | a history holds the entry in the place of one of its frame or at the end, and loses only the oldest of 512 |
| `InputTimeline.StepKeepsBounded` | src/ConsoleNetplay/InputTimeline.cpp:23-109 | every operation keeps keys unique and the size within capacity |
| `InputTimeline.RunIsBounded` | src/ConsoleNetplay/InputTimeline.cpp:23-109 | in every run keys are unique and the size is within capacity |
| `InputTimeline.PushThenScan` | src/ConsoleNetplay/InputTimeline.cpp:80-97 | a pushed entry is found under its key, and every other key keeps its entry unless the push evicted it |
| `InputTimeline.IndexedTimeline.Find` | src/ConsoleNetplay/InputTimeline.cpp:58-67 | the index lookup equals a scan of the list |
| `InputTimeline.IndexedTimeline.Configure` | src/ConsoleNetplay/InputTimeline.cpp:23-30 | list and index stay in step; the newest capacity entries remain |
| `InputTimeline.IndexedTimeline.Clear` | src/ConsoleNetplay/InputTimeline.cpp:32-36 | list and index become empty |
| `InputTimeline.IndexedTimeline.OverwriteNode` | src/ConsoleNetplay/InputTimeline.cpp:85-88 | the entry is overwritten in place and found under its key |
| `InputTimeline.IndexedTimeline.AppendNode` | src/ConsoleNetplay/InputTimeline.cpp:95-96 | the entry is appended and indexed |
| `InputTimeline.IndexedTimeline.EraseAt` | src/ConsoleNetplay/InputTimeline.cpp:103-104 | one node goes, with its key |
| `InputTimeline.IndexedTimeline.Push` | src/ConsoleNetplay/InputTimeline.cpp:80-97 | list and index behave as the bounded FIFO with in-place overwrite |
| `InputTimeline.IndexedTimeline.EraseFramesAfter` | src/ConsoleNetplay/InputTimeline.cpp:99-109 | exactly the entries up to the frame remain, in order |
| `InputTimeline.EraseKeepsExactly` | src/ConsoleNetplay/InputTimeline.cpp:99-109 | erasing keeps exactly the entries up to the frame |
| `InputTimeline.OldestGoFirst` | src/ConsoleNetplay/InputTimeline.cpp:80-97 | entries pushed under distinct keys since configuring are the newest of them that fit, in order |
| `InputTimeline.ConfigureKeepsNewest` | src/ConsoleNetplay/InputTimeline.cpp:23-36 | configuring keeps the newest entries, clearing none |
| `InputTimeline.OverwriteAt` | src/ConsoleNetplay/InputTimeline.cpp:85-88 | overwriting changes the one entry with the key and nothing else |
| `AutoTune.FloorIsBounded` | src/ConsoleNetplay/NetplayAutoTune.cpp:82-103 | the ping floor is between 1 and 16 in every run |
| `AutoTune.RecommendationsAreBounded` | src/ConsoleNetplay/NetplayAutoTune.cpp:143-273 | every recommended delay lies between the ping floor and 16 |
| `AutoTune.SmoothedWithinObserved` | src/ConsoleNetplay/NetplayAutoTune.cpp:82-116 | the smoothed ping is 0 until a non-zero ping was observed since the reset, and lies between the least and greatest observed ones afterwards |
| `AutoTune.StepKeepsCount` | src/ConsoleNetplay/NetplayAutoTune.cpp:190-204 | without a reset, the stable count never exceeds the frames passed since it was restarted, so a reduction comes 1200 frames later at the earliest |
| `AutoTune.ReductionsAreSpaced` | src/ConsoleNetplay/NetplayAutoTune.cpp:206-219 | two reductions with no reset between them and non-decreasing frames are at least 1200 frames apart |
| `AutoTune.ReductionsAcrossReset` | src/ConsoleNetplay/NetplayAutoTune.cpp:105-116 | with a reset between they are not: reductions at frame 1200 of one session and 1201 of the next |
| `AutoTune.NetplayAutoTune.HighestPeerPing` | src/ConsoleNetplay/NetplayAutoTune.cpp:72-80 | the highest ping of the connected participants |
| `AutoTune.NetplayAutoTune.UpdateSmoothedPingFloor` | src/ConsoleNetplay/NetplayAutoTune.cpp:82-103 | new smoothed ping and floor as specified |
| `AutoTune.NetplayAutoTune.DecideDelay` | src/ConsoleNetplay/NetplayAutoTune.cpp:165-226 | new state and recommendation as specified |
| `AutoTune.NetplayAutoTune.UpdateDelay` | src/ConsoleNetplay/NetplayAutoTune.cpp:143-226 | new state and recommendation as specified |
| `AutoTune.NetplayAutoTune.RecommendForImpendingResync` | src/ConsoleNetplay/NetplayAutoTune.cpp:228-273 | new state and recommendation as specified |
| `AutoTune.DelayForPingExactly` | src/ConsoleNetplay/NetplayAutoTune.cpp:58-70 | the delay for a ping reaches n frames, for n from 2 to 16, if and only if the ping is at least n - 1/2 frame times |
| `AutoTune.HighestPingExactly` | src/ConsoleNetplay/NetplayAutoTune.cpp:72-80 | an upper bound of the pings of connected participants that one of them has, or 0 |
| `AutoTune.SmoothedIsWeighted` | src/ConsoleNetplay/NetplayAutoTune.cpp:82-103 | over every run the smoothed ping is the weighted mean of the pings observed since the last reset |
| `AutoTune.FloorExactly` | src/ConsoleNetplay/NetplayAutoTune.cpp:82-103 | the floor after an update is the delay for the smoothed ping, or stays, or is 1 |
| `AutoTune.RecommendsExactly` | src/ConsoleNetplay/NetplayAutoTune.cpp:165-219 | an update recommends the floor if and only if the delay is below it, and one frame less if and only if the delay is above it, nothing disturbs the session, the frame is new, and 1200 frames are counted |
| `AutoTune.CountsExactly` | src/ConsoleNetplay/NetplayAutoTune.cpp:184-204 | what is counted after an update |
| `AutoTune.RaisesExactly` | src/ConsoleNetplay/NetplayAutoTune.cpp:228-273 | before a resync the delay is raised if and only if the cause is a desync or stall, increases are not blocked and the delay is below 16 |
| `AutoTune.SwitchesExactly` | src/ConsoleNetplay/NetplayAutoTune.cpp:130-136 | switching on or off changes nothing else |
| `AutoTune.OffMeansNothing` | src/ConsoleNetplay/NetplayAutoTune.cpp:143-155 | a tuner that is off recommends nothing; an update restarts its count and keeps the smoothed ping and the floor |
| `AutoTune.StateAfterUpdate` | src/ConsoleNetplay/NetplayAutoTune.cpp:157-226 | the delay the tuner shows after an update is what it recommends, or the current one held between 1 and 16 |
| `AutoTune.StateAfterResync` | src/ConsoleNetplay/NetplayAutoTune.cpp:228-273 | before a resync for a desync or stall that is not blocked the count restarts, and the delay shown is the raised one, or 16 at the most; otherwise nothing changes |
| `SelfStallDetector.TriggersAreSpaced` | src/ConsoleNetplay/SelfStallDetector.cpp:45-72 | two triggers in one stretch of eligible observations are at least 5000 ms apart |
| `SelfStallDetector.TriggersAcrossIneligible` | src/ConsoleNetplay/SelfStallDetector.cpp:19-22 | across an ineligible observation they are not: triggers 2 ms apart |
| `SelfStallDetector.BaselineIsWitnessed` | src/ConsoleNetplay/SelfStallDetector.cpp:24-47 | the baseline is an earlier observation of the same epoch since which nothing advanced |
| `SelfStallDetector.TriggersAreWitnessed` | src/ConsoleNetplay/SelfStallDetector.cpp:49-72 | each trigger is witnessed by an interval of the same epoch, of at least 2000 ms or 3 playback stops, in which nothing advanced past its start |
| `SelfStallDetector.StallDetector.Reset` | src/ConsoleNetplay/SelfStallDetector.cpp:8-13 | back to the initial state |
| `SelfStallDetector.StallDetector.Observe` | src/ConsoleNetplay/SelfStallDetector.cpp:15-73 | new state and answer as specified |
| `SelfStallDetector.TriggersExactly` | src/ConsoleNetplay/SelfStallDetector.cpp:19-72 | it triggers if and only if the session is watched and stuck, the cooldown is over, and 2000 ms or 3 playback stops have gone by without progress |
| `SelfStallDetector.RemembersExactly` | src/ConsoleNetplay/SelfStallDetector.cpp:19-72 | what it remembers after each observation, and when the 5000 ms of cooldown start |
| `InputAssignment.NormalizeIsExact` | src/ConsoleNetplay/NetSession.cpp:19-48 | normalising gives the strictly sorted list of exactly the assignable slots the participant had, and its first as the single assignment |
| `InputAssignment.NormalizeIsIdempotent` | src/ConsoleNetplay/NetSession.cpp:19-48 | normalising twice is normalising once |
| `InputAssignment.SortedIsUnique` | src/ConsoleNetplay/NetSession.cpp:42-46 | strictly sorted lists with the same slots are equal, so any sort and removal of duplicates gives this one |
| `InputAssignment.AssignableIsAvailable` | src/ConsoleNetplay/NetplayInputAssignment.cpp:75-91 | a slot that normalisation keeps is available to the candidate check |
| `InputAssignment.AvailableIsAssignableExactly` | src/ConsoleNetplay/NetplayInputAssignment.cpp:75-91 | every available slot is one normalisation keeps if and only if no slot has a first descriptor that is not assignable and a later one that is |
| `InputAssignment.AcceptedIsKeptExactly` | src/ConsoleNetplay/NetplayInputAssignment.cpp:118-151 | in every room, a slot the check accepts is kept by normalisation, if and only if the topology satisfies that condition |
| `InputAssignment.AcceptedSlotIsDropped` | src/ConsoleNetplay/NetplayInputAssignment.cpp:118-151 | a topology that does not: slot 1 listed as not assignable and again as assignable is accepted for an observer and then dropped |
| `InputAssignment.CandidateDecides` | src/ConsoleNetplay/NetplayInputAssignment.cpp:118-151 | a slot is accepted for a participant if and only if the room is in order without it, some descriptor offers it, and nobody else has it or goes by the same id |
| `InputAssignment.ParticipantInfo.NormalizeControllerAssignments` | src/ConsoleNetplay/NetSession.cpp:19-48 | erase, sort and remove duplicates in place give the normalised participant |
| `InputAssignment.SortAndDeduplicate` | src/ConsoleNetplay/NetplayInputAssignment.cpp:135-137 | sorted without repeats |
| `InputAssignment.ClaimAll` | src/ConsoleNetplay/NetplayInputAssignment.cpp:139-147 | succeeds if and only if all slots are available and none was claimed; then all are claimed |
| `InputAssignment.EffectiveAssignments` | src/ConsoleNetplay/NetplayInputAssignment.cpp:128-137 | the normalised slots with the candidate added for its participant |
| `InputAssignment.CanAssignInputCandidate` | src/ConsoleNetplay/NetplayInputAssignment.cpp:118-151 | true if and only if, with every participant normalised under the new topology and the slot added, all slots are available and no two participants share one |
| `InputAssignment.NormalizesExactly` | src/ConsoleNetplay/NetSession.cpp:19-48 | a slot is kept if and only if the participant names it, it is no observer, and its first descriptor is assignable; the list is in strict order and its first, or observer, is the single assignment |
| `InputAssignment.AcceptedExactly` | src/ConsoleNetplay/NetplayInputAssignment.cpp:118-151 | a slot is accepted if and only if some descriptor offers it, nobody else goes by the same id or may keep it, and no slot may be kept by two participants |

## Left out

- Frame numbers, handles, epochs and counters are natural numbers; 32-bit wrap-around is not modelled, except for the difference of the playback-stop counter.
- Bytes of fixed-width fields are little-endian, as on the platforms the program is built for; the wire format is defined by memory copies.
- The coordinator is not part of this model: its confirmed frame, playback frames, clocks and answers to requests are inputs, and playback answers are fixed within one call.
- The emulator is a deterministic step function; a successful update advances the frame count by one, and a frame is played only with the input queued for its number. Loading states and changing epochs are not part of `Lockstep`: its log is that of one epoch.
- Mutexes, callbacks, threads and clock reads: each locked region is one atomic step and time is an input. The departure notice of the signaling server reads the state of its own, later region.
- Iteration order of sets of connections is not fixed: message order is any listing of the members.
- Broadcast sends (loops of single sends), peer tags, pings, connection-path logging, and payload wrapping.
- Handshake timeouts, signaling bootstrap, SDP and ICE messages, data-channel callbacks.
- Clearing or shutting down a transport session, which drops peers without events and starts handles at 1 again: runs are within one session. Every registered peer has a connection object.
- The room list reply, starting and stopping the signaling server, and the owner's peer id in the departure record, which nothing reads.
- Protocol records made only of fixed fields or of fields and strings (`PacketHeader`, `JoinRoomData`, `RomValidationData`, `InputFrameData`, `PeerHealthData` and others): `Protocol.FieldsRoundTrip` and `Packets.TakeStringRoundTrip` are their round trips.
- `findMutable`, `latest`, `latestFor` and `latestConfirmedFor` of the timeline; `latest` of the snapshots; size and capacity getters.
- Statistics, log texts and decision reasons, and fields that only feed them (`lagOverBudgetSinceFrame`, `lastResyncRequestFrame`, `lastConfirmedLagWaitLogFrame`, `lastAdjustmentFrame`, metadata of CRC history entries); contents of the resync request record.
- Floating-point rounding in `AutoTune`: pings are smoothed over real numbers. The Emscripten branch, which is a constant.
- CRC input bytes are 32-bit words below 256.
- `runtimeSyncInputDelaySettings`, `runtimeClientHostPlaybackCapFrame` (the cap is an input of prepare), session-state processing, `NetplayAppRuntime`, `RemoteInputStallMonitor`, labels, the ENet transport and the console adapters.
- TransportSession.WebRtcTransport.FindPeerByHandle: returns a position instead of a pointer into the registry.
- SelfStallDetector.TriggersAreSpaced: within a stretch of eligible observations, because an ineligible one clears the cooldown (`TriggersAcrossIneligible`).
- AutoTune.ReductionsAreSpaced: without a reset between, because a reset lets the count start from frame 0 (`ReductionsAcrossReset`).

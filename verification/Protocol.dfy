/** The variable-length protocol records. Vectors are cut at 255 elements,
    strings carry a 16-bit length, and the resync request ends in an optional
    timeline epoch that older peers do not send. */
module Protocol {
  import opened Wrappers
  import opened Packets
  import opened NetplayTypes

  type Text = seq<Byte>

  const MAX_ELEMENTS := 255
  const MAX_DISPLAY_NAME_BYTES := 32
  const MAX_CHAT_MESSAGE_BYTES := 256

  // ---- Runs of fixed-width fields ---------------------------------------------

  predicate Fit(vs: seq<nat>, ws: seq<nat>) {
    |vs| == |ws| && forall i :: 0 <= i < |vs| ==> vs[i] < Pow256(ws[i])
  }

  function FieldsBytes(vs: seq<nat>, ws: seq<nat>): (s: seq<Byte>)
    requires |vs| == |ws|
    ensures |s| == Sum(ws)
  {
    if vs == [] then [] else LittleEndian(vs[0], ws[0]) + FieldsBytes(vs[1..], ws[1..])
  }

  function Sum(ws: seq<nat>): nat { if ws == [] then 0 else ws[0] + Sum(ws[1..]) }

  function TakeFields(s: seq<Byte>, ws: seq<nat>): (r: Option<Parsed<seq<nat>>>)
    ensures r.Some? ==> Fit(r.value.value, ws)
    decreases |ws|
  {
    if ws == [] then Some(Parsed([], s))
    else
      var Parsed(v, s1) :- TakeUInt(s, ws[0]);
      var Parsed(vs, s2) :- TakeFields(s1, ws[1..]);
      Some(Parsed([v] + vs, s2))
  }

  lemma {:induction false} FieldsRoundTrip(vs: seq<nat>, ws: seq<nat>, s: seq<Byte>)
    requires Fit(vs, ws)
    ensures TakeFields(FieldsBytes(vs, ws) + s, ws) == Some(Parsed(vs, s))
    decreases |ws|
  {
    if vs == [] {
      assert [] + s == s;
    } else {
      var tail := FieldsBytes(vs[1..], ws[1..]);
      ConcatAssociative(LittleEndian(vs[0], ws[0]), tail, s);
      TakeUIntRoundTrip(vs[0], ws[0], tail + s);
      FieldsRoundTrip(vs[1..], ws[1..], s);
      assert [vs[0]] + vs[1..] == vs;
    }
  }

  // ---- Vectors -----------------------------------------------------------------

  function Capped(n: nat): nat { if n < MAX_ELEMENTS then n else MAX_ELEMENTS }

  function VectorBytes<T>(put: T -> seq<Byte>, ts: seq<T>): seq<Byte> {
    LittleEndian(Capped(|ts|), 1) + ManyBytes(put, ts[..Capped(|ts|)])
  }

  function TakeVector<T>(take: seq<Byte> -> Option<Parsed<T>>, s: seq<Byte>): Option<Parsed<seq<T>>> {
    var Parsed(count, s1) :- TakeUInt(s, 1);
    TakeMany(take, s1, count)
  }

  /** A vector comes back cut at 255 elements; the suffix is left alone. */
  lemma VectorRoundTrip<T>(put: T -> seq<Byte>, take: seq<Byte> -> Option<Parsed<T>>, ts: seq<T>, s: seq<Byte>)
    requires forall i :: 0 <= i < |ts| ==> Inverse(put, take, ts[i])
    ensures TakeVector(take, VectorBytes(put, ts) + s) == Some(Parsed(ts[..Min(|ts|, 255)], s))
  {
    var n := Capped(|ts|);
    var kept := ts[..n];
    ConcatAssociative(LittleEndian(n, 1), ManyBytes(put, kept), s);
    TakeUIntRoundTrip(n, 1, ManyBytes(put, kept) + s);
    TakeManyRoundTrip(put, take, kept, n, s);
    assert kept[..n] == kept && kept[n..] == [];
    assert ManyBytes(put, []) + s == s;
  }

  function SizeOf<T>(size: T -> nat, ts: seq<T>): nat {
    if ts == [] then 0 else size(ts[0]) + SizeOf(size, ts[1..])
  }

  lemma {:induction false} ManySize<T>(put: T -> seq<Byte>, size: T -> nat, ts: seq<T>)
    requires forall t :: |put(t)| == size(t)
    ensures |ManyBytes(put, ts)| == SizeOf(size, ts)
  {
    if ts != [] {
      ManySize(put, size, ts[1..]);
    }
  }

  lemma {:induction false} SizeOfSplit<T>(size: T -> nat, ts: seq<T>, n: nat)
    requires n <= |ts|
    ensures SizeOf(size, ts) == SizeOf(size, ts[..n]) + SizeOf(size, ts[n..])
  {
    if n == 0 {
      assert ts[..0] == [] && ts[0..] == ts;
    } else {
      SizeOfSplit(size, ts[1..], n - 1);
      assert ts[..n][1..] == ts[1..][..n - 1] && ts[n..] == ts[1..][n - 1..];
    }
  }

  /** The declared size counts every element, so it is the size on the wire
      exactly when no element is cut. */
  lemma VectorSize<T>(put: T -> seq<Byte>, size: T -> nat, ts: seq<T>)
    requires forall t :: |put(t)| == size(t) && size(t) > 0
    ensures |VectorBytes(put, ts)| == 1 + SizeOf(size, ts) <==> |ts| <= 255
  {
    var n := Capped(|ts|);
    ManySize(put, size, ts[..n]);
    SizeOfSplit(size, ts, n);
    if |ts| <= MAX_ELEMENTS {
      assert ts[..n] == ts;
    } else {
      assert SizeOf(size, ts[n..]) > 0;
    }
  }

  // ---- Input topology -----------------------------------------------------------

  datatype TopologySlot = TopologySlot(slot: UInt8, assignable: UInt8, groupId: UInt16, deviceId: UInt16,
                                       groupLabel: Text, inputLabel: Text)
  {
    predicate WellSized() { |groupLabel| < Pow256(2) && |inputLabel| < Pow256(2) }
  }

  const TOPOLOGY_SLOT_FIELDS: seq<nat> := [1, 1, 2, 2]

  function TopologySlotBytes(t: TopologySlot): seq<Byte> {
    FieldsBytes([t.slot, t.assignable, t.groupId, t.deviceId], TOPOLOGY_SLOT_FIELDS) +
      (StringBytes(t.groupLabel) + StringBytes(t.inputLabel))
  }

  function TakeTopologySlot(s: seq<Byte>): (r: Option<Parsed<TopologySlot>>) {
    var Parsed(v, s1) :- TakeFields(s, TOPOLOGY_SLOT_FIELDS);
    var Parsed(groupLabel, s2) :- TakeString(s1);
    var Parsed(inputLabel, s3) :- TakeString(s2);
    Some(Parsed(TopologySlot(v[0], v[1], v[2], v[3], groupLabel, inputLabel), s3))
  }

  function TopologySlotSize(t: TopologySlot): nat {
    1 + 1 + 2 + 2 + 2 + |t.groupLabel| + 2 + |t.inputLabel|
  }

  lemma TopologySlotRoundTrip(t: TopologySlot)
    requires t.WellSized()
    ensures Inverse(TopologySlotBytes, TakeTopologySlot, t)
  {
    var vs := [t.slot, t.assignable, t.groupId, t.deviceId];
    forall s: seq<Byte> ensures TakeTopologySlot(TopologySlotBytes(t) + s) == Some(Parsed(t, s)) {
      ConcatAssociative(StringBytes(t.groupLabel), StringBytes(t.inputLabel), s);
      ConcatAssociative(FieldsBytes(vs, TOPOLOGY_SLOT_FIELDS),
                        StringBytes(t.groupLabel) + StringBytes(t.inputLabel), s);
      FieldsRoundTrip(vs, TOPOLOGY_SLOT_FIELDS, StringBytes(t.groupLabel) + (StringBytes(t.inputLabel) + s));
      TakeStringRoundTrip(t.groupLabel, StringBytes(t.inputLabel) + s);
      TakeStringRoundTrip(t.inputLabel, s);
    }
  }

  type Topology = seq<TopologySlot>

  predicate WellSizedTopology(slots: Topology) {
    forall i :: 0 <= i < |slots| ==> slots[i].WellSized()
  }

  function TopologyBytes(slots: Topology): seq<Byte> { VectorBytes(TopologySlotBytes, slots) }

  function TakeTopology(s: seq<Byte>): Option<Parsed<Topology>> { TakeVector(TakeTopologySlot, s) }

  function TopologySize(slots: Topology): nat { 1 + SizeOf(TopologySlotSize, slots) }

  lemma TopologyRoundTrip(slots: Topology, s: seq<Byte>)
    requires WellSizedTopology(slots)
    ensures TakeTopology(TopologyBytes(slots) + s) == Some(Parsed(slots[..Min(|slots|, 255)], s))
    ensures |TopologyBytes(slots)| == TopologySize(slots) <==> |slots| <= 255
  {
    forall i | 0 <= i < |slots| ensures Inverse(TopologySlotBytes, TakeTopologySlot, slots[i]) {
      TopologySlotRoundTrip(slots[i]);
    }
    VectorRoundTrip(TopologySlotBytes, TakeTopologySlot, slots, s);
    assert Sum(TOPOLOGY_SLOT_FIELDS) == 6;
    VectorSize(TopologySlotBytes, TopologySlotSize, slots);
  }

  // ---- Frame status and session start: fixed fields, then the topology ---------

  datatype FrameStatus = FrameStatus(timelineEpoch: UInt32, currentFrame: UInt32, lastConfirmedFrame: UInt32,
                                     inputDelayFrames: UInt8, topology: Topology)

  const FRAME_STATUS_FIELDS: seq<nat> := [4, 4, 4, 1]

  function FrameStatusBytes(d: FrameStatus): seq<Byte> {
    FieldsBytes([d.timelineEpoch, d.currentFrame, d.lastConfirmedFrame, d.inputDelayFrames], FRAME_STATUS_FIELDS) +
      TopologyBytes(d.topology)
  }

  function TakeFrameStatus(s: seq<Byte>): Option<Parsed<FrameStatus>> {
    var Parsed(v, s1) :- TakeFields(s, FRAME_STATUS_FIELDS);
    var Parsed(topology, s2) :- TakeTopology(s1);
    Some(Parsed(FrameStatus(v[0], v[1], v[2], v[3], topology), s2))
  }

  function FrameStatusSize(d: FrameStatus): nat { 4 + 4 + 4 + 1 + TopologySize(d.topology) }

  lemma FrameStatusRoundTrip(d: FrameStatus, s: seq<Byte>)
    requires WellSizedTopology(d.topology)
    ensures TakeFrameStatus(FrameStatusBytes(d) + s) ==
            Some(Parsed(d.(topology := d.topology[..Min(|d.topology|, 255)]), s))
    ensures |FrameStatusBytes(d)| == FrameStatusSize(d) <==> |d.topology| <= 255
  {
    var vs := [d.timelineEpoch, d.currentFrame, d.lastConfirmedFrame, d.inputDelayFrames];
    ConcatAssociative(FieldsBytes(vs, FRAME_STATUS_FIELDS), TopologyBytes(d.topology), s);
    FieldsRoundTrip(vs, FRAME_STATUS_FIELDS, TopologyBytes(d.topology) + s);
    TopologyRoundTrip(d.topology, s);
    assert Sum(FRAME_STATUS_FIELDS) == 13;
  }

  datatype StartSession = StartSession(state: UInt8, inputDelayFrames: UInt8, topology: Topology)

  const START_SESSION_FIELDS: seq<nat> := [1, 1]

  function StartSessionBytes(d: StartSession): seq<Byte> {
    FieldsBytes([d.state, d.inputDelayFrames], START_SESSION_FIELDS) + TopologyBytes(d.topology)
  }

  function TakeStartSession(s: seq<Byte>): Option<Parsed<StartSession>> {
    var Parsed(v, s1) :- TakeFields(s, START_SESSION_FIELDS);
    var Parsed(topology, s2) :- TakeTopology(s1);
    Some(Parsed(StartSession(v[0], v[1], topology), s2))
  }

  function StartSessionSize(d: StartSession): nat { 1 + 1 + TopologySize(d.topology) }

  lemma StartSessionRoundTrip(d: StartSession, s: seq<Byte>)
    requires WellSizedTopology(d.topology)
    ensures TakeStartSession(StartSessionBytes(d) + s) ==
            Some(Parsed(d.(topology := d.topology[..Min(|d.topology|, 255)]), s))
    ensures |StartSessionBytes(d)| == StartSessionSize(d) <==> |d.topology| <= 255
  {
    var vs := [d.state, d.inputDelayFrames];
    ConcatAssociative(FieldsBytes(vs, START_SESSION_FIELDS), TopologyBytes(d.topology), s);
    FieldsRoundTrip(vs, START_SESSION_FIELDS, TopologyBytes(d.topology) + s);
    TopologyRoundTrip(d.topology, s);
    assert Sum(START_SESSION_FIELDS) == 2;
  }

  // ---- Confirmed input frame entries ----------------------------------------------

  datatype SlotMask = SlotMask(slot: UInt8, lo: UInt64, hi: UInt64)

  const SLOT_MASK_FIELDS: seq<nat> := [1, 8, 8]

  function SlotMaskBytes(m: SlotMask): seq<Byte> { FieldsBytes([m.slot, m.lo, m.hi], SLOT_MASK_FIELDS) }

  function TakeSlotMask(s: seq<Byte>): Option<Parsed<SlotMask>> {
    var Parsed(v, s1) :- TakeFields(s, SLOT_MASK_FIELDS);
    Some(Parsed(SlotMask(v[0], v[1], v[2]), s1))
  }

  lemma SlotMaskRoundTrip(m: SlotMask)
    ensures Inverse(SlotMaskBytes, TakeSlotMask, m)
  {
    forall s: seq<Byte> ensures TakeSlotMask(SlotMaskBytes(m) + s) == Some(Parsed(m, s)) {
      FieldsRoundTrip([m.slot, m.lo, m.hi], SLOT_MASK_FIELDS, s);
    }
  }

  datatype ConfirmedEntry = ConfirmedEntry(frameStartClockMicros: UInt64, slotMasks: seq<SlotMask>, payloadSize: UInt16)

  function ConfirmedEntryBytes(d: ConfirmedEntry): seq<Byte> {
    LittleEndian(d.frameStartClockMicros, 8) +
      (VectorBytes(SlotMaskBytes, d.slotMasks) + LittleEndian(d.payloadSize, 2))
  }

  function TakeConfirmedEntry(s: seq<Byte>): Option<Parsed<ConfirmedEntry>> {
    var Parsed(clock, s1) :- TakeUInt(s, 8);
    var Parsed(masks, s2) :- TakeVector(TakeSlotMask, s1);
    var Parsed(size, s3) :- TakeUInt(s2, 2);
    Some(Parsed(ConfirmedEntry(clock, masks, size), s3))
  }

  function ConfirmedEntrySize(d: ConfirmedEntry): nat { 8 + 1 + (1 + 8 + 8) * |d.slotMasks| + 2 }

  lemma ConfirmedEntryRoundTrip(d: ConfirmedEntry, s: seq<Byte>)
    ensures TakeConfirmedEntry(ConfirmedEntryBytes(d) + s) ==
            Some(Parsed(d.(slotMasks := d.slotMasks[..Min(|d.slotMasks|, 255)]), s))
    ensures |ConfirmedEntryBytes(d)| == ConfirmedEntrySize(d) <==> |d.slotMasks| <= 255
  {
    var masks, size := VectorBytes(SlotMaskBytes, d.slotMasks), LittleEndian(d.payloadSize, 2);
    ConcatAssociative(masks, size, s);
    ConcatAssociative(LittleEndian(d.frameStartClockMicros, 8), masks + size, s);
    TakeUIntRoundTrip(d.frameStartClockMicros, 8, masks + (size + s));
    forall i | 0 <= i < |d.slotMasks| ensures Inverse(SlotMaskBytes, TakeSlotMask, d.slotMasks[i]) {
      SlotMaskRoundTrip(d.slotMasks[i]);
    }
    VectorRoundTrip(SlotMaskBytes, TakeSlotMask, d.slotMasks, size + s);
    TakeUIntRoundTrip(d.payloadSize, 2, s);
    assert Sum(SLOT_MASK_FIELDS) == 17;
    VectorSize(SlotMaskBytes, (m: SlotMask) => 17, d.slotMasks);
    ConstantSize(d.slotMasks, 17);
  }

  lemma {:induction false} ConstantSize<T>(ts: seq<T>, k: nat)
    ensures SizeOf((t: T) => k, ts) == k * |ts|
  {
    if ts != [] {
      ConstantSize(ts[1..], k);
    }
  }

  // ---- Controller assignments -------------------------------------------------------

  datatype AssignController = AssignController(participantId: UInt8, assignments: seq<UInt8>)

  function PlayerSlotBytes(slot: UInt8): seq<Byte> { LittleEndian(slot, 1) }

  function TakePlayerSlot(s: seq<Byte>): Option<Parsed<UInt8>> {
    var Parsed(slot, s1) :- TakeUInt(s, 1);
    Some(Parsed(slot, s1))
  }

  function AssignControllerBytes(d: AssignController): seq<Byte> {
    LittleEndian(d.participantId, 1) + VectorBytes(PlayerSlotBytes, d.assignments)
  }

  function TakeAssignController(s: seq<Byte>): Option<Parsed<AssignController>> {
    var Parsed(participantId, s1) :- TakeUInt(s, 1);
    var Parsed(slots, s2) :- TakeVector(TakePlayerSlot, s1);
    Some(Parsed(AssignController(participantId, slots), s2))
  }

  function AssignControllerSize(d: AssignController): nat { 1 + 1 + 1 * |d.assignments| }

  /** 256 assignments: one more than is written. */
  lemma DeclaredSizeIsWrong(d: AssignController)
    requires d == AssignController(0, seq(256, i => 0))
    ensures |AssignControllerBytes(d)| != AssignControllerSize(d)
  {
    AssignControllerRoundTrip(d, []);
  }

  lemma AssignControllerRoundTrip(d: AssignController, s: seq<Byte>)
    ensures TakeAssignController(AssignControllerBytes(d) + s) ==
            Some(Parsed(d.(assignments := d.assignments[..Min(|d.assignments|, 255)]), s))
    ensures |AssignControllerBytes(d)| == AssignControllerSize(d) <==> |d.assignments| <= 255
  {
    var slots := VectorBytes(PlayerSlotBytes, d.assignments);
    ConcatAssociative(LittleEndian(d.participantId, 1), slots, s);
    TakeUIntRoundTrip(d.participantId, 1, slots + s);
    forall i | 0 <= i < |d.assignments| ensures Inverse(PlayerSlotBytes, TakePlayerSlot, d.assignments[i]) {
      forall r: seq<Byte> {
        TakeUIntRoundTrip(d.assignments[i], 1, r);
      }
    }
    VectorRoundTrip(PlayerSlotBytes, TakePlayerSlot, d.assignments, s);
    VectorSize(PlayerSlotBytes, (m: UInt8) => 1, d.assignments);
    ConstantSize(d.assignments, 1);
  }

  // ---- Chat ------------------------------------------------------------------------

  datatype ChatMessage = ChatMessage(participantId: UInt8, displayName: Text, text: Text)

  function ChatMessageBytes(d: ChatMessage): seq<Byte> {
    LittleEndian(d.participantId, 1) + (StringBytes(d.displayName) + StringBytes(d.text))
  }

  function TakeChatMessage(s: seq<Byte>): Option<Parsed<ChatMessage>> {
    var Parsed(participantId, s1) :- TakeUInt(s, 1);
    var Parsed(displayName, s2) :- TakeString(s1);
    var Parsed(text, s3) :- TakeString(s2);
    var d := ChatMessage(participantId, displayName, text);
    if |displayName| > MAX_DISPLAY_NAME_BYTES || text == [] || |text| > MAX_CHAT_MESSAGE_BYTES then None
    else Some(Parsed(d, s3))
  }

  /** A chat message comes back exactly when it is within the byte limits. */
  lemma ChatMessageRoundTrip(d: ChatMessage, s: seq<Byte>)
    ensures TakeChatMessage(ChatMessageBytes(d) + s) == Some(Parsed(d, s)) <==>
            |d.displayName| <= 32 && 0 < |d.text| <= 256
  {
    if |d.displayName| <= 32 && 0 < |d.text| <= 256 {
      assert Pow256(2) == 65536;
      ConcatAssociative(StringBytes(d.displayName), StringBytes(d.text), s);
      ConcatAssociative(LittleEndian(d.participantId, 1), StringBytes(d.displayName) + StringBytes(d.text), s);
      TakeUIntRoundTrip(d.participantId, 1, StringBytes(d.displayName) + (StringBytes(d.text) + s));
      TakeStringRoundTrip(d.displayName, StringBytes(d.text) + s);
      TakeStringRoundTrip(d.text, s);
    }
  }

  // ---- Resync request ----------------------------------------------------------------

  datatype ResyncRequest = ResyncRequest(
    timelineEpoch: UInt32, participantId: UInt8, reason: UInt8, localFrame: UInt32, estimatedHostFrame: UInt32,
    confirmedThroughFrame: UInt32, lagFrames: UInt16, catchupBudgetFrames: UInt16, source: UInt16, flags: UInt16)

  const RESYNC_REQUEST_FIELDS: seq<nat> := [1, 1, 4, 4, 4, 2, 2, 2, 2]

  /** The request as peers without the trailing epoch send it. */
  function LegacyResyncRequestBytes(d: ResyncRequest): seq<Byte> {
    FieldsBytes([d.participantId, d.reason, d.localFrame, d.estimatedHostFrame, d.confirmedThroughFrame, d.lagFrames,
                 d.catchupBudgetFrames, d.source, d.flags], RESYNC_REQUEST_FIELDS)
  }

  function ResyncRequestBytes(d: ResyncRequest): seq<Byte> {
    LegacyResyncRequestBytes(d) + LittleEndian(d.timelineEpoch, 4)
  }

  function TakeResyncRequest(s: seq<Byte>): Option<Parsed<ResyncRequest>> {
    var Parsed(v, s1) :- TakeFields(s, RESYNC_REQUEST_FIELDS);
    var Parsed(epoch, s2) := if |s1| >= 4 then TakeUInt(s1, 4).value else Parsed(0, s1);
    Some(Parsed(ResyncRequest(epoch, v[0], v[1], v[2], v[3], v[4], v[5], v[6], v[7], v[8]), s2))
  }

  lemma LegacyResyncRequest(d: ResyncRequest, s: seq<Byte>)
    ensures TakeResyncRequest(LegacyResyncRequestBytes(d) + s) ==
            if |s| < 4 then Some(Parsed(d.(timelineEpoch := 0), s))
            else Some(Parsed(d.(timelineEpoch := TakeUInt(s, 4).value.value), s[4..]))
  {
    FieldsRoundTrip([d.participantId, d.reason, d.localFrame, d.estimatedHostFrame, d.confirmedThroughFrame,
                     d.lagFrames, d.catchupBudgetFrames, d.source, d.flags], RESYNC_REQUEST_FIELDS, s);
  }

  lemma ResyncRequestRoundTrip(d: ResyncRequest, s: seq<Byte>)
    ensures TakeResyncRequest(ResyncRequestBytes(d) + s) == Some(Parsed(d, s))
  {
    ConcatAssociative(LegacyResyncRequestBytes(d), LittleEndian(d.timelineEpoch, 4), s);
    LegacyResyncRequest(d, LittleEndian(d.timelineEpoch, 4) + s);
    TakeUIntRoundTrip(d.timelineEpoch, 4, s);
  }

  // ---- Layout ------------------------------------------------------------------------

  lemma FieldsCons(v: nat, w: nat, vs: seq<nat>, ws: seq<nat>)
    requires |vs| == |ws|
    ensures FieldsBytes([v] + vs, [w] + ws) == LittleEndian(v, w) + FieldsBytes(vs, ws)
  {
    assert ([v] + vs)[1..] == vs && ([w] + ws)[1..] == ws;
  }

  /** Counted vectors: the count, at most 255, and that many elements in order. */
  lemma VectorLayout<T>(put: T -> seq<Byte>, ts: seq<T>)
    ensures VectorBytes(put, ts) == LittleEndian(Min(|ts|, 255), 1) + ManyBytes(put, ts[..Min(|ts|, 255)])
  {}

  /** What the records look like on the wire, field by field with their widths. */
  lemma TopologyLayouts(t: TopologySlot, f: FrameStatus, s: StartSession)
    ensures TopologySlotBytes(t) ==
            FieldsBytes([t.slot, t.assignable, t.groupId, t.deviceId], [1, 1, 2, 2]) +
            ((LittleEndian(|t.groupLabel|, 2) + t.groupLabel) + (LittleEndian(|t.inputLabel|, 2) + t.inputLabel))
    ensures FrameStatusBytes(f) ==
            FieldsBytes([f.timelineEpoch, f.currentFrame, f.lastConfirmedFrame, f.inputDelayFrames], [4, 4, 4, 1]) +
            VectorBytes(TopologySlotBytes, f.topology)
    ensures StartSessionBytes(s) ==
            FieldsBytes([s.state, s.inputDelayFrames], [1, 1]) + VectorBytes(TopologySlotBytes, s.topology)
  {}

  lemma ResyncRequestLayout(d: ResyncRequest)
    ensures ResyncRequestBytes(d) ==
            FieldsBytes([d.participantId, d.reason, d.localFrame, d.estimatedHostFrame, d.confirmedThroughFrame,
                         d.lagFrames, d.catchupBudgetFrames, d.source, d.flags], [1, 1, 4, 4, 4, 2, 2, 2, 2]) +
            LittleEndian(d.timelineEpoch, 4)
  {}

  lemma OtherLayouts(m: SlotMask, e: ConfirmedEntry, a: AssignController, c: ChatMessage)
    ensures SlotMaskBytes(m) == FieldsBytes([m.slot, m.lo, m.hi], [1, 8, 8])
    ensures ConfirmedEntryBytes(e) ==
            LittleEndian(e.frameStartClockMicros, 8) +
            (VectorBytes(SlotMaskBytes, e.slotMasks) + LittleEndian(e.payloadSize, 2))
    ensures AssignControllerBytes(a) == LittleEndian(a.participantId, 1) + VectorBytes(PlayerSlotBytes, a.assignments)
    ensures ChatMessageBytes(c) ==
            LittleEndian(c.participantId, 1) +
            ((LittleEndian(|c.displayName|, 2) + c.displayName) + (LittleEndian(|c.text|, 2) + c.text))
  {}

  // ---- Serializers and deserializers ---------------------------------------------

  method WriteFields(writer: PacketWriter, vs: seq<nat>, ws: seq<nat>)
    requires |vs| == |ws|
    modifies writer
    ensures writer.data == old(writer.data) + FieldsBytes(vs, ws)
  {
    for i := 0 to |vs|
      invariant writer.data + FieldsBytes(vs[i..], ws[i..]) == old(writer.data) + FieldsBytes(vs, ws)
    {
      assert vs[i..][1..] == vs[i + 1..] && ws[i..][1..] == ws[i + 1..];
      ConcatAssociative(writer.data, LittleEndian(vs[i], ws[i]), FieldsBytes(vs[i + 1..], ws[i + 1..]));
      writer.WriteUInt(vs[i], ws[i]);
    }
  }

  method ReadFields(reader: PacketReader, ws: seq<nat>) returns (r: Option<seq<nat>>)
    requires reader.Valid()
    modifies reader
    ensures reader.Valid() && r == ValueOf(TakeFields(old(reader.Rest()), ws))
    ensures r.Some? ==> Fit(r.value, ws) && reader.Rest() == TakeFields(old(reader.Rest()), ws).value.rest
    decreases |ws|
  {
    if ws == [] {
      return Some([]);
    }
    var v := reader.ReadUInt(ws[0]);
    if v.None? {
      return None;
    }
    var vs := ReadFields(reader, ws[1..]);
    if vs.None? {
      return None;
    }
    r := Some([v.value] + vs.value);
  }

  method SerializeTopology(writer: PacketWriter, slots: Topology)
    modifies writer
    ensures writer.data == old(writer.data) + TopologyBytes(slots)
  {
    var count := if |slots| < MAX_ELEMENTS then |slots| else MAX_ELEMENTS;
    var kept := slots[..count];
    ConcatAssociative(writer.data, LittleEndian(count, 1), ManyBytes(TopologySlotBytes, kept));
    writer.WriteUInt(count, 1);
    for i := 0 to count
      invariant writer.data + ManyBytes(TopologySlotBytes, kept[i..]) == old(writer.data) + TopologyBytes(slots)
    {
      var t := slots[i];
      assert kept[i..][0] == t && kept[i..][1..] == kept[i + 1..];
      ConcatAssociative(writer.data, TopologySlotBytes(t), ManyBytes(TopologySlotBytes, kept[i + 1..]));
      SerializeTopologySlot(writer, t);
    }
  }

  method SerializeTopologySlot(writer: PacketWriter, t: TopologySlot)
    modifies writer
    ensures writer.data == old(writer.data) + TopologySlotBytes(t)
  {
    WriteFields(writer, [t.slot, t.assignable, t.groupId, t.deviceId], TOPOLOGY_SLOT_FIELDS);
    writer.WriteString(t.groupLabel);
    writer.WriteString(t.inputLabel);
  }

  method DeserializeTopologySlot(reader: PacketReader) returns (r: Option<TopologySlot>)
    requires reader.Valid()
    modifies reader
    ensures reader.Valid() && r == ValueOf(TakeTopologySlot(old(reader.Rest())))
    ensures r.Some? ==> reader.Rest() == TakeTopologySlot(old(reader.Rest())).value.rest
  {
    var v := ReadFields(reader, TOPOLOGY_SLOT_FIELDS);
    if v.None? { return None; }
    var groupLabel := reader.ReadString();
    if groupLabel.None? { return None; }
    var inputLabel := reader.ReadString();
    if inputLabel.None? { return None; }
    r := Some(TopologySlot(v.value[0], v.value[1], v.value[2], v.value[3], groupLabel.value, inputLabel.value));
  }

  method DeserializeTopology(reader: PacketReader) returns (r: Option<Topology>)
    requires reader.Valid()
    modifies reader
    ensures reader.Valid() && r == ValueOf(TakeTopology(old(reader.Rest())))
    ensures r.Some? ==> reader.Rest() == TakeTopology(old(reader.Rest())).value.rest
  {
    var count := reader.ReadUInt(1);
    if count.None? { return None; }
    ghost var start := reader.Rest();
    ReadSoFarStart(TakeTopologySlot, start, count.value);
    var slots := [];
    for i := 0 to count.value
      invariant reader.Valid() && |slots| == i
      invariant ReadSoFar(TakeTopologySlot, start, count.value, slots, reader.Rest())
    {
      ReadSoFarStep(TakeTopologySlot, start, count.value, slots, reader.Rest());
      var slot := DeserializeTopologySlot(reader);
      if slot.None? { return None; }
      slots := slots + [slot.value];
    }
    assert slots + [] == slots;
    r := Some(slots);
  }

  method SerializeFrameStatus(writer: PacketWriter, d: FrameStatus)
    modifies writer
    ensures writer.data == old(writer.data) + FrameStatusBytes(d)
  {
    WriteFields(writer, [d.timelineEpoch, d.currentFrame, d.lastConfirmedFrame, d.inputDelayFrames],
      FRAME_STATUS_FIELDS);
    SerializeTopology(writer, d.topology);
  }

  method DeserializeFrameStatus(reader: PacketReader) returns (r: Option<FrameStatus>)
    requires reader.Valid()
    modifies reader
    ensures reader.Valid() && r == ValueOf(TakeFrameStatus(old(reader.Rest())))
    ensures r.Some? ==> reader.Rest() == TakeFrameStatus(old(reader.Rest())).value.rest
  {
    var v := ReadFields(reader, FRAME_STATUS_FIELDS);
    if v.None? { return None; }
    var topology := DeserializeTopology(reader);
    if topology.None? { return None; }
    r := Some(FrameStatus(v.value[0], v.value[1], v.value[2], v.value[3], topology.value));
  }

  method SerializeConfirmedEntry(writer: PacketWriter, d: ConfirmedEntry)
    modifies writer
    ensures writer.data == old(writer.data) + ConfirmedEntryBytes(d)
  {
    ghost var before := writer.data;
    writer.WriteUInt(d.frameStartClockMicros, 8);
    ghost var start := writer.data;
    var count := if |d.slotMasks| < MAX_ELEMENTS then |d.slotMasks| else MAX_ELEMENTS;
    ghost var kept := d.slotMasks[..count];
    ConcatAssociative(writer.data, LittleEndian(count, 1), ManyBytes(SlotMaskBytes, kept));
    writer.WriteUInt(count, 1);
    for i := 0 to count
      invariant writer.data + ManyBytes(SlotMaskBytes, kept[i..]) == start + VectorBytes(SlotMaskBytes, d.slotMasks)
    {
      var m := d.slotMasks[i];
      assert kept[i..][0] == m && kept[i..][1..] == kept[i + 1..];
      ConcatAssociative(writer.data, SlotMaskBytes(m), ManyBytes(SlotMaskBytes, kept[i + 1..]));
      WriteFields(writer, [m.slot, m.lo, m.hi], SLOT_MASK_FIELDS);
    }
    writer.WriteUInt(d.payloadSize, 2);
    ConcatAssociative(before, LittleEndian(d.frameStartClockMicros, 8),
                      VectorBytes(SlotMaskBytes, d.slotMasks) + LittleEndian(d.payloadSize, 2));
    ConcatAssociative(start, VectorBytes(SlotMaskBytes, d.slotMasks), LittleEndian(d.payloadSize, 2));
  }

  method DeserializeConfirmedEntry(reader: PacketReader) returns (r: Option<ConfirmedEntry>)
    requires reader.Valid()
    modifies reader
    ensures reader.Valid() && r == ValueOf(TakeConfirmedEntry(old(reader.Rest())))
    ensures r.Some? ==> reader.Rest() == TakeConfirmedEntry(old(reader.Rest())).value.rest
  {
    var clock := reader.ReadUInt(8);
    if clock.None? { return None; }
    var count := reader.ReadUInt(1);
    if count.None? { return None; }
    ghost var start := reader.Rest();
    ReadSoFarStart(TakeSlotMask, start, count.value);
    var masks := [];
    for i := 0 to count.value
      invariant reader.Valid() && |masks| == i
      invariant ReadSoFar(TakeSlotMask, start, count.value, masks, reader.Rest())
    {
      ReadSoFarStep(TakeSlotMask, start, count.value, masks, reader.Rest());
      var v := ReadFields(reader, SLOT_MASK_FIELDS);
      if v.None? { return None; }
      masks := masks + [SlotMask(v.value[0], v.value[1], v.value[2])];
    }
    assert masks + [] == masks;
    var size := reader.ReadUInt(2);
    if size.None? { return None; }
    r := Some(ConfirmedEntry(clock.value, masks, size.value));
  }

  method SerializeAssignController(writer: PacketWriter, d: AssignController)
    modifies writer
    ensures writer.data == old(writer.data) + AssignControllerBytes(d)
  {
    ghost var before := writer.data;
    writer.WriteUInt(d.participantId, 1);
    ghost var start := writer.data;
    var count := if |d.assignments| < MAX_ELEMENTS then |d.assignments| else MAX_ELEMENTS;
    ghost var kept := d.assignments[..count];
    ConcatAssociative(writer.data, LittleEndian(count, 1), ManyBytes(PlayerSlotBytes, kept));
    writer.WriteUInt(count, 1);
    for i := 0 to count
      invariant writer.data + ManyBytes(PlayerSlotBytes, kept[i..]) ==
                  start + VectorBytes(PlayerSlotBytes, d.assignments)
    {
      assert kept[i..][0] == d.assignments[i] && kept[i..][1..] == kept[i + 1..];
      ConcatAssociative(writer.data, PlayerSlotBytes(d.assignments[i]), ManyBytes(PlayerSlotBytes, kept[i + 1..]));
      writer.WriteUInt(d.assignments[i], 1);
    }
    ConcatAssociative(before, LittleEndian(d.participantId, 1), VectorBytes(PlayerSlotBytes, d.assignments));
  }

  method DeserializeAssignController(reader: PacketReader) returns (r: Option<AssignController>)
    requires reader.Valid()
    modifies reader
    ensures reader.Valid() && r == ValueOf(TakeAssignController(old(reader.Rest())))
    ensures r.Some? ==> reader.Rest() == TakeAssignController(old(reader.Rest())).value.rest
  {
    var participantId := reader.ReadUInt(1);
    if participantId.None? { return None; }
    var count := reader.ReadUInt(1);
    if count.None? { return None; }
    ghost var start := reader.Rest();
    ReadSoFarStart(TakePlayerSlot, start, count.value);
    var slots: seq<UInt8> := [];
    for i := 0 to count.value
      invariant reader.Valid() && |slots| == i
      invariant ReadSoFar(TakePlayerSlot, start, count.value, slots, reader.Rest())
    {
      ReadSoFarStep(TakePlayerSlot, start, count.value, slots, reader.Rest());
      var slot := reader.ReadUInt(1);
      if slot.None? { return None; }
      slots := slots + [slot.value];
    }
    assert slots + [] == slots;
    r := Some(AssignController(participantId.value, slots));
  }

  method DeserializeChatMessage(reader: PacketReader) returns (r: Option<ChatMessage>)
    requires reader.Valid()
    modifies reader
    ensures reader.Valid() && r == ValueOf(TakeChatMessage(old(reader.Rest())))
    ensures r.Some? ==> reader.Rest() == TakeChatMessage(old(reader.Rest())).value.rest
  {
    var participantId := reader.ReadUInt(1);
    if participantId.None? { return None; }
    var displayName := reader.ReadString();
    if displayName.None? { return None; }
    var text := reader.ReadString();
    if text.None? { return None; }
    if |displayName.value| > MAX_DISPLAY_NAME_BYTES || text.value == [] || |text.value| > MAX_CHAT_MESSAGE_BYTES {
      return None;
    }
    r := Some(ChatMessage(participantId.value, displayName.value, text.value));
  }

  method SerializeStartSession(writer: PacketWriter, d: StartSession)
    modifies writer
    ensures writer.data == old(writer.data) + StartSessionBytes(d)
  {
    WriteFields(writer, [d.state, d.inputDelayFrames], START_SESSION_FIELDS);
    SerializeTopology(writer, d.topology);
  }

  method DeserializeStartSession(reader: PacketReader) returns (r: Option<StartSession>)
    requires reader.Valid()
    modifies reader
    ensures reader.Valid() && r == ValueOf(TakeStartSession(old(reader.Rest())))
    ensures r.Some? ==> reader.Rest() == TakeStartSession(old(reader.Rest())).value.rest
  {
    var v := ReadFields(reader, START_SESSION_FIELDS);
    if v.None? { return None; }
    var topology := DeserializeTopology(reader);
    if topology.None? { return None; }
    r := Some(StartSession(v.value[0], v.value[1], topology.value));
  }

  method SerializeChatMessage(writer: PacketWriter, d: ChatMessage)
    modifies writer
    ensures writer.data == old(writer.data) + ChatMessageBytes(d)
  {
    writer.WriteUInt(d.participantId, 1);
    writer.WriteString(d.displayName);
    writer.WriteString(d.text);
  }

  method SerializeResyncRequest(writer: PacketWriter, d: ResyncRequest)
    modifies writer
    ensures writer.data == old(writer.data) + ResyncRequestBytes(d)
  {
    WriteFields(writer, [d.participantId, d.reason, d.localFrame, d.estimatedHostFrame, d.confirmedThroughFrame,
                         d.lagFrames, d.catchupBudgetFrames, d.source, d.flags], RESYNC_REQUEST_FIELDS);
    writer.WriteUInt(d.timelineEpoch, 4);
  }

  method DeserializeResyncRequest(reader: PacketReader) returns (r: Option<ResyncRequest>)
    requires reader.Valid()
    modifies reader
    ensures reader.Valid() && r == ValueOf(TakeResyncRequest(old(reader.Rest())))
    ensures r.Some? ==> reader.Rest() == TakeResyncRequest(old(reader.Rest())).value.rest
  {
    var v := ReadFields(reader, RESYNC_REQUEST_FIELDS);
    if v.None? { return None; }
    var epoch := Some(0);
    var left := reader.Remaining();
    if left >= 4 {
      epoch := reader.ReadUInt(4);
    }
    r := Some(ResyncRequest(epoch.value, v.value[0], v.value[1], v.value[2], v.value[3], v.value[4],
                            v.value[5], v.value[6], v.value[7], v.value[8]));
  }
}

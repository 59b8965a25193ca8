/** The input-frame wire format. The encoder writes the slots in the order in
    which the three per-slot vectors first mention them; the decoder inserts
    each record into sorted vectors by bisection. */
module InputFrameCodec {
  import opened Wrappers
  import opened Packets
  import opened PerSlot

  const WIRE_VERSION: Byte := 4

  type Bytes = seq<Byte>

  datatype InputFrame = InputFrame(
    frame: UInt32,
    timelineEpoch: UInt32,
    maskLo: seq<Entry<UInt64>>,
    maskHi: seq<Entry<UInt64>>,
    slotPayloads: seq<Entry<Bytes>>,
    framePayload: Bytes)
  {
    predicate Valid() {
      Sorted(maskLo) && Sorted(maskHi) && Sorted(slotPayloads)
    }

    function Lo(slot: UInt8): UInt64 { Get(maskLo, slot, 0) }
    function Hi(slot: UInt8): UInt64 { Get(maskHi, slot, 0) }
    function Payload(slot: UInt8): Bytes { Get(slotPayloads, slot, []) }

    predicate HasData(slot: UInt8) {
      Lo(slot) != 0 || Hi(slot) != 0 || Payload(slot) != []
    }

    function ActiveSlots(): seq<UInt8> {
      Having(Unique(SlotsOf(maskLo) + SlotsOf(maskHi) + SlotsOf(slotPayloads)))
    }

    function Having(slots: seq<UInt8>): seq<UInt8> {
      if slots == [] then [] else (if HasData(slots[0]) then [slots[0]] else []) + Having(slots[1..])
    }

    /** The frame without zero masks and empty payloads. */
    function Normalized(): InputFrame {
      this.(maskLo := NonDefault(maskLo, 0), maskHi := NonDefault(maskHi, 0),
            slotPayloads := NonDefault(slotPayloads, []))
    }

    /** Fits the header fields: an 8-bit slot count, 16-bit payload sizes. */
    predicate WellSized() {
      && |ActiveSlots()| < Pow256(1)
      && |framePayload| < Pow256(2)
      && (forall slot :: slot in ActiveSlots() ==> |Payload(slot)| < Pow256(2))
    }
  }

  function SlotsOf<T>(es: seq<Entry<T>>): (r: seq<UInt8>)
    ensures |r| == |es| && forall i :: 0 <= i < |es| ==> r[i] == es[i].slot
  {
    seq(|es|, i requires 0 <= i < |es| => es[i].slot)
  }

  /** First mentions, in order. */
  function Unique(slots: seq<UInt8>): seq<UInt8> {
    if slots == [] then []
    else
      var u, last := Unique(slots[..|slots| - 1]), slots[|slots| - 1];
      if last in u then u else u + [last]
  }

  // ---- What is on the wire ---------------------------------------------------

  datatype SlotRecord = SlotRecord(slot: UInt8, lo: UInt64, hi: UInt64, payload: Bytes)

  function Record(f: InputFrame, slot: UInt8): SlotRecord {
    SlotRecord(slot, f.Lo(slot), f.Hi(slot), f.Payload(slot))
  }

  function Records(f: InputFrame, slots: seq<UInt8>): seq<SlotRecord> {
    seq(|slots|, i requires 0 <= i < |slots| => Record(f, slots[i]))
  }

  function SlotBytes(r: SlotRecord): Bytes {
    LittleEndian(r.slot, 1) +
      (LittleEndian(r.lo, 8) + (LittleEndian(r.hi, 8) + (LittleEndian(|r.payload|, 2) + r.payload)))
  }

  function SlotsBytes(f: InputFrame, slots: seq<UInt8>): Bytes {
    ManyBytes(SlotBytes, Records(f, slots))
  }

  function Encode(f: InputFrame): Bytes {
    LittleEndian(WIRE_VERSION, 1) + (LittleEndian(f.frame, 4) + (LittleEndian(f.timelineEpoch, 4) +
      (LittleEndian(|f.ActiveSlots()|, 1) + (LittleEndian(|f.framePayload|, 2) +
        (f.framePayload + SlotsBytes(f, f.ActiveSlots()))))))
  }

  function TakeSlot(s: Bytes): (r: Option<Parsed<SlotRecord>>)
    ensures r.Some? ==> |r.value.value.payload| < Pow256(2)
  {
    var Parsed(slot, s1) :- TakeUInt(s, 1);
    var Parsed(lo, s2) :- TakeUInt(s1, 8);
    var Parsed(hi, s3) :- TakeUInt(s2, 8);
    var Parsed(size, s4) :- TakeUInt(s3, 2);
    var Parsed(payload, s5) :- TakeBytes(s4, size);
    Some(Parsed(SlotRecord(slot, lo, hi, payload), s5))
  }

  function Apply(f: InputFrame, r: SlotRecord): InputFrame {
    f.(maskLo := if r.lo != 0 then Put(f.maskLo, r.slot, r.lo) else f.maskLo,
       maskHi := if r.hi != 0 then Put(f.maskHi, r.slot, r.hi) else f.maskHi,
       slotPayloads := if r.payload != [] then Put(f.slotPayloads, r.slot, r.payload) else f.slotPayloads)
  }

  function ApplyAll(acc: InputFrame, records: seq<SlotRecord>): InputFrame
    decreases records
  {
    if records == [] then acc else ApplyAll(Apply(acc, records[0]), records[1..])
  }

  datatype Header = Header(frame: UInt32, timelineEpoch: UInt32, slotCount: UInt8, framePayload: Bytes)

  function TakeHeader(s: Bytes): (r: Option<Parsed<Header>>)
    ensures r.Some? ==> |r.value.value.framePayload| < Pow256(2)
  {
    var Parsed(w, s5) :- TakeWireHeader(s);
    if w.version != WIRE_VERSION then None
    else
      var Parsed(payload, s6) :- TakeBytes(s5, w.payloadSize);
      Some(Parsed(Header(w.frame, w.timelineEpoch, w.slotCount, payload), s6))
  }

  datatype WireHeader =
    WireHeader(version: UInt8, frame: UInt32, timelineEpoch: UInt32, slotCount: UInt8, payloadSize: nat)

  function TakeWireHeader(s: Bytes): (r: Option<Parsed<WireHeader>>)
    ensures r.Some? ==> r.value.value.payloadSize < Pow256(2)
  {
    var Parsed(version, s1) :- TakeUInt(s, 1);
    var Parsed(frame, s2) :- TakeUInt(s1, 4);
    var Parsed(epoch, s3) :- TakeUInt(s2, 4);
    var Parsed(count, s4) :- TakeUInt(s3, 1);
    var Parsed(size, s5) :- TakeUInt(s4, 2);
    Some(Parsed(WireHeader(version, frame, epoch, count, size), s5))
  }

  function Empty(h: Header): InputFrame {
    InputFrame(h.frame, h.timelineEpoch, [], [], [], h.framePayload)
  }

  /** The decoder up to its final check that no bytes remain. */
  function TakeFrame(s: Bytes): Option<Parsed<InputFrame>> {
    var Parsed(header, s1) :- TakeHeader(s);
    var Parsed(records, s2) :- TakeMany(TakeSlot, s1, header.slotCount);
    Some(Parsed(ApplyAll(Empty(header), records), s2))
  }

  function Decode(s: Bytes): Option<InputFrame> {
    var Parsed(f, rest) :- TakeFrame(s);
    if rest == [] then Some(f) else None
  }

  // ---- Active slots ------------------------------------------------------------

  lemma {:induction false} UniqueMembership(slots: seq<UInt8>)
    ensures forall x :: x in slots ==> x in Unique(slots)
    ensures forall x :: x in Unique(slots) ==> x in slots
    ensures forall i, j :: 0 <= i < j < |Unique(slots)| ==> Unique(slots)[i] != Unique(slots)[j]
  {
    if slots != [] {
      var front, last := slots[..|slots| - 1], slots[|slots| - 1];
      UniqueMembership(front);
      assert slots == front + [last];
    }
  }

  lemma {:induction false} HavingMembership(f: InputFrame, slots: seq<UInt8>)
    ensures forall x :: x in slots && f.HasData(x) ==> x in f.Having(slots)
    ensures forall x :: x in f.Having(slots) ==> x in slots && f.HasData(x)
    ensures (forall i, j :: 0 <= i < j < |slots| ==> slots[i] != slots[j]) ==>
            (forall i, j :: 0 <= i < j < |f.Having(slots)| ==> f.Having(slots)[i] != f.Having(slots)[j])
  {
    if slots != [] {
      HavingMembership(f, slots[1..]);
      assert slots == [slots[0]] + slots[1..];
      assert forall i :: 0 <= i < |f.Having(slots[1..])| ==> f.Having(slots[1..])[i] in f.Having(slots[1..]);
    }
  }

  /** The active slots are exactly the slots with data, each listed once. */
  lemma ActiveSlotsExact(f: InputFrame, slot: UInt8)
    requires f.Valid()
    ensures slot in f.ActiveSlots() <==> f.HasData(slot)
    ensures forall i, j :: 0 <= i < j < |f.ActiveSlots()| ==> f.ActiveSlots()[i] != f.ActiveSlots()[j]
  {
    var all := SlotsOf(f.maskLo) + SlotsOf(f.maskHi) + SlotsOf(f.slotPayloads);
    UniqueMembership(all);
    HavingMembership(f, Unique(all));
    if f.HasData(slot) {
      MentionedIfSet(f.maskLo, slot, 0);
      MentionedIfSet(f.maskHi, slot, 0);
      MentionedIfSet(f.slotPayloads, slot, []);
      assert slot in all;
    }
  }

  lemma MentionedIfSet<T>(es: seq<Entry<T>>, slot: UInt8, default: T)
    requires Sorted(es)
    ensures Get(es, slot, default) != default ==> slot in SlotsOf(es)
  {
    GetIsMembership(es, slot, default);
    if Get(es, slot, default) != default {
      var i :| 0 <= i < |es| && es[i] == Entry(slot, Get(es, slot, default));
      assert SlotsOf(es)[i] == slot;
    }
  }

  /** Where a slot is mentioned first. */
  function FirstAt(order: seq<UInt8>, x: UInt8): nat {
    if order == [] || order[0] == x then 0 else 1 + FirstAt(order[1..], x)
  }

  predicate Follows(order: seq<UInt8>, xs: seq<UInt8>) {
    forall i, j :: 0 <= i < j < |xs| ==> FirstAt(order, xs[i]) < FirstAt(order, xs[j])
  }

  lemma {:induction false} FirstAtSnoc(order: seq<UInt8>, last: UInt8, x: UInt8)
    ensures x in order ==> FirstAt(order + [last], x) == FirstAt(order, x) < |order|
    ensures x !in order && x == last ==> FirstAt(order + [last], x) == |order|
  {
    if order != [] {
      assert (order + [last])[1..] == order[1..] + [last];
      FirstAtSnoc(order[1..], last, x);
    }
  }

  lemma {:induction false} UniqueFollows(slots: seq<UInt8>)
    ensures Follows(slots, Unique(slots))
  {
    if slots != [] {
      var front, last := slots[..|slots| - 1], slots[|slots| - 1];
      var u := Unique(front);
      UniqueFollows(front);
      UniqueMembership(front);
      assert slots == front + [last];
      forall i, j | 0 <= i < j < |Unique(slots)|
        ensures FirstAt(slots, Unique(slots)[i]) < FirstAt(slots, Unique(slots)[j])
      {
        assert u[i] in u;
        FirstAtSnoc(front, last, u[i]);
        if j < |u| {
          assert u[j] in u;
          FirstAtSnoc(front, last, u[j]);
        } else {
          FirstAtSnoc(front, last, last);
        }
      }
    }
  }

  lemma {:induction false} HavingFollows(f: InputFrame, order: seq<UInt8>, slots: seq<UInt8>)
    requires Follows(order, slots)
    ensures Follows(order, f.Having(slots))
  {
    if slots != [] {
      var rest := f.Having(slots[1..]);
      HavingFollows(f, order, slots[1..]);
      HavingMembership(f, slots[1..]);
      forall j | 0 <= j < |rest| ensures FirstAt(order, slots[0]) < FirstAt(order, rest[j]) {
        assert rest[j] in rest;
        var k :| 0 <= k < |slots[1..]| && slots[1..][k] == rest[j];
        assert slots[k + 1] == rest[j];
      }
    }
  }

  /** The encoder emits slots in the order in which the low masks, the high masks
      and the payloads first mention them. */
  lemma ActiveSlotsInOrder(f: InputFrame)
    ensures Follows(SlotsOf(f.maskLo) + SlotsOf(f.maskHi) + SlotsOf(f.slotPayloads), f.ActiveSlots())
  {
    var all := SlotsOf(f.maskLo) + SlotsOf(f.maskHi) + SlotsOf(f.slotPayloads);
    UniqueFollows(all);
    HavingFollows(f, all, Unique(all));
  }

  // ---- Layout --------------------------------------------------------------------

  /** An encoded frame: version 4, frame, epoch, slot count, payload size, the
      frame payload, and the slot records. */
  lemma EncodedLayout(f: InputFrame)
    ensures var s, n := Encode(f), |f.framePayload|;
            && |s| >= 12 + n && s[0] == 4
            && s[1..5] == LittleEndian(f.frame, 4) && s[5..9] == LittleEndian(f.timelineEpoch, 4)
            && s[9..10] == LittleEndian(|f.ActiveSlots()|, 1) && s[10..12] == LittleEndian(n, 2)
            && s[12..12 + n] == f.framePayload
            && s[12 + n..] == ManyBytes(SlotBytes, Records(f, f.ActiveSlots()))
  {
    var s6 := SlotsBytes(f, f.ActiveSlots());
    var s5 := f.framePayload + s6;
    var s4 := LittleEndian(|f.framePayload|, 2) + s5;
    var s3 := LittleEndian(|f.ActiveSlots()|, 1) + s4;
    var s2 := LittleEndian(f.timelineEpoch, 4) + s3;
    var s1 := LittleEndian(f.frame, 4) + s2;
    var s := Encode(f);
    assert LittleEndian(WIRE_VERSION, 1) == [4] && s[0..] == s;
    Peel(s, 0, LittleEndian(WIRE_VERSION, 1), s1);
    Peel(s, 1, LittleEndian(f.frame, 4), s2);
    Peel(s, 5, LittleEndian(f.timelineEpoch, 4), s3);
    Peel(s, 9, LittleEndian(|f.ActiveSlots()|, 1), s4);
    Peel(s, 10, LittleEndian(|f.framePayload|, 2), s5);
    Peel(s, 12, f.framePayload, s6);
  }

  lemma Peel(s: Bytes, k: nat, a: Bytes, rest: Bytes)
    requires k <= |s| && s[k..] == a + rest
    ensures k + |a| <= |s| && s[k..k + |a|] == a && s[k + |a|..] == rest
  {
    assert s[k..][..|a|] == s[k..k + |a|] && s[k..][|a|..] == s[k + |a|..];
  }

  /** A slot record: slot, low mask, high mask, payload size and payload. */
  lemma SlotLayout(f: InputFrame, slot: UInt8)
    ensures var s, payload := SlotBytes(Record(f, slot)), Get(f.slotPayloads, slot, []);
            && |s| == 19 + |payload| && s[0] == slot
            && s[1..9] == LittleEndian(Get(f.maskLo, slot, 0), 8) && s[9..17] == LittleEndian(Get(f.maskHi, slot, 0), 8)
            && s[17..19] == LittleEndian(|payload|, 2) && s[19..] == payload
  {
    var r := Record(f, slot);
    var s3 := LittleEndian(|r.payload|, 2) + r.payload;
    var s2 := LittleEndian(r.hi, 8) + s3;
    var s1 := LittleEndian(r.lo, 8) + s2;
    var s := SlotBytes(r);
    assert LittleEndian(r.slot, 1)[0] == slot && s[0..] == s;
    Peel(s, 0, LittleEndian(r.slot, 1), s1);
    Peel(s, 1, LittleEndian(r.lo, 8), s2);
    Peel(s, 9, LittleEndian(r.hi, 8), s3);
    Peel(s, 17, LittleEndian(|r.payload|, 2), r.payload);
  }

  // ---- Round trip ----------------------------------------------------------------

  lemma TakeSlotRoundTrip(r: SlotRecord)
    requires |r.payload| < Pow256(2)
    ensures Inverse(SlotBytes, TakeSlot, r)
  {
    forall s: Bytes ensures TakeSlot(SlotBytes(r) + s) == Some(Parsed(r, s)) {
      var s4 := r.payload + s;
      var s3 := LittleEndian(|r.payload|, 2) + s4;
      var s2 := LittleEndian(r.hi, 8) + s3;
      var s1 := LittleEndian(r.lo, 8) + s2;
      assert SlotBytes(r) + s == LittleEndian(r.slot, 1) + s1;
      TakeUIntRoundTrip(r.slot, 1, s1);
      TakeUIntRoundTrip(r.lo, 8, s2);
      TakeUIntRoundTrip(r.hi, 8, s3);
      TakeUIntRoundTrip(|r.payload|, 2, s4);
      TakeBytesRoundTrip(r.payload, s);
    }
  }

  /** Reading `n` records leaves the bytes of the slots after them. */
  lemma TakeSlotsRoundTrip(f: InputFrame, slots: seq<UInt8>, n: nat, s: Bytes)
    requires n <= |slots|
    requires forall slot :: slot in slots ==> |f.Payload(slot)| < Pow256(2)
    ensures TakeMany(TakeSlot, SlotsBytes(f, slots) + s, n) ==
            Some(Parsed(Records(f, slots[..n]), SlotsBytes(f, slots[n..]) + s))
  {
    var records := Records(f, slots);
    assert records[..n] == Records(f, slots[..n]) && records[n..] == Records(f, slots[n..]);
    RecordsInvert(f, slots);
    TakeManyRoundTrip(SlotBytes, TakeSlot, records, n, s);
  }

  lemma RecordsInvert(f: InputFrame, slots: seq<UInt8>)
    requires forall slot :: slot in slots ==> |f.Payload(slot)| < Pow256(2)
    ensures forall i :: 0 <= i < |slots| ==> Inverse(SlotBytes, TakeSlot, Records(f, slots)[i])
  {
    forall i | 0 <= i < |slots| ensures Inverse(SlotBytes, TakeSlot, Records(f, slots)[i]) {
      assert slots[i] in slots;
      TakeSlotRoundTrip(Record(f, slots[i]));
    }
  }

  lemma {:induction false} ApplyAllIsPutAll(acc: InputFrame, f: InputFrame, slots: seq<UInt8>)
    ensures ApplyAll(acc, Records(f, slots)) ==
            acc.(maskLo := PutAll(acc.maskLo, f.maskLo, 0, slots),
                 maskHi := PutAll(acc.maskHi, f.maskHi, 0, slots),
                 slotPayloads := PutAll(acc.slotPayloads, f.slotPayloads, [], slots))
    decreases slots
  {
    if slots != [] {
      assert Records(f, slots)[1..] == Records(f, slots[1..]);
      ApplyAllIsPutAll(Apply(acc, Record(f, slots[0])), f, slots[1..]);
    }
  }

  /** Applying the records of the active slots to an empty frame gives the
      frame without its zero masks and empty payloads. */
  lemma ActiveSlotsRebuild(f: InputFrame, count: UInt8)
    requires f.Valid()
    ensures ApplyAll(Empty(Header(f.frame, f.timelineEpoch, count, f.framePayload)), Records(f, f.ActiveSlots())) ==
              f.Normalized()
  {
    var slots := f.ActiveSlots();
    ApplyAllIsPutAll(Empty(Header(f.frame, f.timelineEpoch, count, f.framePayload)), f, slots);
    forall e | e in f.maskLo && e.value != 0 ensures e.slot in slots {
      GetIsMembership(f.maskLo, e.slot, 0);
      ActiveSlotsExact(f, e.slot);
    }
    forall e | e in f.maskHi && e.value != 0 ensures e.slot in slots {
      GetIsMembership(f.maskHi, e.slot, 0);
      ActiveSlotsExact(f, e.slot);
    }
    forall e | e in f.slotPayloads && e.value != [] ensures e.slot in slots {
      GetIsMembership(f.slotPayloads, e.slot, []);
      ActiveSlotsExact(f, e.slot);
    }
    PutAllRebuilds(f.maskLo, 0, slots);
    PutAllRebuilds(f.maskHi, 0, slots);
    PutAllRebuilds(f.slotPayloads, [], slots);
  }

  lemma EncodeThenSuffix(f: InputFrame, s: Bytes)
    ensures Encode(f) + s ==
            LittleEndian(WIRE_VERSION, 1) + (LittleEndian(f.frame, 4) + (LittleEndian(f.timelineEpoch, 4) +
              (LittleEndian(|f.ActiveSlots()|, 1) + (LittleEndian(|f.framePayload|, 2) +
                (f.framePayload + (SlotsBytes(f, f.ActiveSlots()) + s))))))
  {
    var t6 := SlotsBytes(f, f.ActiveSlots());
    var t5 := f.framePayload + t6;
    var t4 := LittleEndian(|f.framePayload|, 2) + t5;
    var t3 := LittleEndian(|f.ActiveSlots()|, 1) + t4;
    var t2 := LittleEndian(f.timelineEpoch, 4) + t3;
    var t1 := LittleEndian(f.frame, 4) + t2;
    ConcatAssociative(f.framePayload, t6, s);
    ConcatAssociative(LittleEndian(|f.framePayload|, 2), t5, s);
    ConcatAssociative(LittleEndian(|f.ActiveSlots()|, 1), t4, s);
    ConcatAssociative(LittleEndian(f.timelineEpoch, 4), t3, s);
    ConcatAssociative(LittleEndian(f.frame, 4), t2, s);
    ConcatAssociative(LittleEndian(WIRE_VERSION, 1), t1, s);
  }

  /** The header and frame payload are read back, whatever the slot count. */
  lemma TakeHeaderRoundTrip(f: InputFrame, s: Bytes, count: UInt8)
    requires |f.framePayload| < Pow256(2)
    requires count == FromLittleEndian(LittleEndian(|f.ActiveSlots()|, 1))
    ensures TakeHeader(Encode(f) + s) ==
            Some(Parsed(Header(f.frame, f.timelineEpoch, count, f.framePayload), SlotsBytes(f, f.ActiveSlots()) + s))
  {
    var s6 := SlotsBytes(f, f.ActiveSlots()) + s;
    var s5 := f.framePayload + s6;
    var s4 := LittleEndian(|f.framePayload|, 2) + s5;
    var s3 := LittleEndian(|f.ActiveSlots()|, 1) + s4;
    var s2 := LittleEndian(f.timelineEpoch, 4) + s3;
    var s1 := LittleEndian(f.frame, 4) + s2;
    assert Encode(f) + s == LittleEndian(WIRE_VERSION, 1) + s1 by {
      EncodeThenSuffix(f, s);
    }
    TakeUIntRoundTrip(WIRE_VERSION, 1, s1);
    TakeUIntRoundTrip(f.frame, 4, s2);
    TakeUIntRoundTrip(f.timelineEpoch, 4, s3);
    assert TakeUInt(s3, 1) == Some(Parsed(count, s4)) by {
      assert s3[..1] == LittleEndian(|f.ActiveSlots()|, 1) && s3[1..] == s4;
    }
    TakeUIntRoundTrip(|f.framePayload|, 2, s5);
    TakeBytesRoundTrip(f.framePayload, s6);
  }

  lemma TakeFrameRoundTrip(f: InputFrame, s: Bytes)
    requires f.Valid() && f.WellSized()
    ensures TakeFrame(Encode(f) + s) == Some(Parsed(f.Normalized(), s))
  {
    var slots := f.ActiveSlots();
    LittleEndianRoundTrip(|slots|, 1);
    TakeHeaderRoundTrip(f, s, |slots|);
    TakeSlotsRoundTrip(f, slots, |slots|, s);
    assert slots[..|slots|] == slots && slots[|slots|..] == [];
    assert SlotsBytes(f, []) + s == s;
    ActiveSlotsRebuild(f, |slots|);
  }

  // ---- What a decoder can return ---------------------------------------------

  /** Sorted vectors without defaults, and payloads that fit a 16-bit size. */
  predicate Normal(f: InputFrame) {
    && f.Valid()
    && (forall e :: e in f.maskLo ==> e.value != 0)
    && (forall e :: e in f.maskHi ==> e.value != 0)
    && (forall e :: e in f.slotPayloads ==> e.value != [] && |e.value| < Pow256(2))
  }

  lemma ApplyKeepsNormal(f: InputFrame, r: SlotRecord)
    requires Normal(f) && |r.payload| < Pow256(2)
    ensures Normal(Apply(f, r))
    ensures forall slot :: Apply(f, r).HasData(slot) ==> slot == r.slot || f.HasData(slot)
  {
    PutMembership(f.maskLo, r.slot, r.lo);
    PutMembership(f.maskHi, r.slot, r.hi);
    PutMembership(f.slotPayloads, r.slot, r.payload);
    forall slot | Apply(f, r).HasData(slot) ensures slot == r.slot || f.HasData(slot) {
      GetAfterPut(f.maskLo, r.slot, r.lo, slot, 0);
      GetAfterPut(f.maskHi, r.slot, r.hi, slot, 0);
      GetAfterPut(f.slotPayloads, r.slot, r.payload, slot, []);
    }
  }

  lemma GetAfterPut<T>(es: seq<Entry<T>>, slot: UInt8, value: T, other: UInt8, default: T)
    requires Sorted(es)
    ensures other != slot ==> Get(Put(es, slot, value), other, default) == Get(es, other, default)
  {
    PutMembership(es, slot, value);
    GetIsMembership(es, other, default);
    GetIsMembership(Put(es, slot, value), other, default);
  }

  /** Applying records keeps a frame normal, and adds data only to their slots. */
  lemma {:induction false} ApplyAllNormal(acc: InputFrame, records: seq<SlotRecord>)
    requires Normal(acc)
    requires forall i :: 0 <= i < |records| ==> |records[i].payload| < Pow256(2)
    ensures Normal(ApplyAll(acc, records))
    ensures forall slot :: ApplyAll(acc, records).HasData(slot) ==>
              acc.HasData(slot) || exists i :: 0 <= i < |records| && records[i].slot == slot
    decreases records
  {
    if records != [] {
      var next := Apply(acc, records[0]);
      ApplyKeepsNormal(acc, records[0]);
      ApplyAllNormal(next, records[1..]);
      forall slot | ApplyAll(acc, records).HasData(slot)
        ensures acc.HasData(slot) || exists i :: 0 <= i < |records| && records[i].slot == slot
      {
        if !next.HasData(slot) {
          var i :| 0 <= i < |records[1..]| && records[1..][i].slot == slot;
          assert records[i + 1].slot == slot;
        } else if !acc.HasData(slot) {
          assert records[0].slot == slot;
        }
      }
    }
  }

  lemma {:induction false} DistinctFits(a: seq<UInt8>, b: seq<UInt8>)
    requires forall i, j :: 0 <= i < j < |a| ==> a[i] != a[j]
    requires forall x :: x in a ==> x in b
    ensures |a| <= |b|
  {
    if a != [] {
      var x, rest := a[|a| - 1], a[..|a| - 1];
      assert x in a && x in b;
      var k :| 0 <= k < |b| && b[k] == x;
      var c := b[..k] + b[k + 1..];
      forall y | y in rest ensures y in c {
        assert y in a && y in b;
        var i :| 0 <= i < |b| && b[i] == y;
        assert y == c[if i < k then i else i - 1];
      }
      DistinctFits(rest, c);
    }
  }

  lemma {:induction false} NonDefaultOfNonDefault<T>(es: seq<Entry<T>>, default: T)
    requires forall e :: e in es ==> e.value != default
    ensures NonDefault(es, default) == es
  {
    if es != [] {
      NonDefaultOfNonDefault(es[1..], default);
      assert es[0] in es;
    }
  }

  /** A normal frame is its own normal form, and is well-sized when only the
      slots of a short list hold data. */
  lemma NormalFramesFit(f: InputFrame, read: seq<UInt8>)
    requires Normal(f) && |f.framePayload| < Pow256(2) && |read| < Pow256(1)
    requires forall slot :: f.HasData(slot) ==> slot in read
    ensures f.Normalized() == f && f.WellSized()
  {
    NonDefaultOfNonDefault(f.maskLo, 0);
    NonDefaultOfNonDefault(f.maskHi, 0);
    NonDefaultOfNonDefault(f.slotPayloads, []);
    var active := f.ActiveSlots();
    forall slot | slot in active ensures slot in read && |f.Payload(slot)| < Pow256(2) {
      ActiveSlotsExact(f, slot);
      GetIsMembership(f.slotPayloads, slot, []);
    }
    ActiveSlotsExact(f, 0);
    DistinctFits(active, read);
  }

  lemma BuiltFramesFit(h: Header, records: seq<SlotRecord>)
    requires |h.framePayload| < Pow256(2) && |records| < Pow256(1)
    requires forall i :: 0 <= i < |records| ==> |records[i].payload| < Pow256(2)
    ensures var f := ApplyAll(Empty(h), records);
            Normal(f) && f.Normalized() == f && f.WellSized()
  {
    var f := ApplyAll(Empty(h), records);
    ApplyAllNormal(Empty(h), records);
    ApplyAllKeepsPayload(Empty(h), records);
    var read := seq(|records|, i requires 0 <= i < |records| => records[i].slot);
    forall slot | f.HasData(slot) ensures slot in read {
      var i :| 0 <= i < |records| && records[i].slot == slot;
      assert read[i] == slot;
    }
    NormalFramesFit(f, read);
  }

  /** Every decoded frame is normal, equals its own normal form and is
      well-sized, so encoding it again and decoding gives it back. */
  lemma DecodedFramesRoundTrip(s: Bytes)
    requires Decode(s).Some?
    ensures var f := Decode(s).value;
            Normal(f) && f.Normalized() == f && f.WellSized() && Decode(Encode(f)) == Some(f)
  {
    var Parsed(header, s1) := TakeHeader(s).value;
    TakeManyAll(TakeSlot, (r: SlotRecord) => |r.payload| < Pow256(2), s1, header.slotCount);
    BuiltFramesFit(header, TakeMany(TakeSlot, s1, header.slotCount).value.value);
    RoundTrip(Decode(s).value);
  }

  lemma {:induction false} ApplyAllKeepsPayload(acc: InputFrame, records: seq<SlotRecord>)
    ensures ApplyAll(acc, records).framePayload == acc.framePayload
    decreases records
  {
    if records != [] {
      ApplyAllKeepsPayload(Apply(acc, records[0]), records[1..]);
    }
  }

  lemma RoundTrip(f: InputFrame)
    requires f.Valid() && f.WellSized()
    ensures Decode(Encode(f)) == Some(f.Normalized())
  {
    assert Encode(f) + [] == Encode(f);
    TakeFrameRoundTrip(f, []);
  }

  /** Decoding gives the frame without zero masks and empty payloads exactly
      when the counts fit their header fields; a frame that does not fit is
      refused or comes back different. */
  lemma RoundTripExactlyWhenWellSized(f: InputFrame)
    requires f.Valid()
    ensures Decode(Encode(f)) == Some(f.Normalized()) <==> f.WellSized()
  {
    if f.WellSized() {
      RoundTrip(f);
    }
    if Decode(Encode(f)) == Some(f.Normalized()) {
      DecodedFramesRoundTrip(Encode(f));
      PayloadsFitIfNormal(f);
      if |f.ActiveSlots()| >= Pow256(1) {
        TooManySlotsRefused(f);
      }
    }
  }

  lemma PayloadsFitIfNormal(f: InputFrame)
    requires f.Valid() && Normal(f.Normalized())
    ensures forall slot :: slot in f.ActiveSlots() ==> |f.Payload(slot)| < Pow256(2)
  {
    NonDefaultMembership(f.slotPayloads, []);
    forall slot | slot in f.ActiveSlots() ensures |f.Payload(slot)| < Pow256(2) {
      GetIsMembership(f.slotPayloads, slot, []);
      if f.Payload(slot) != [] {
        assert Entry(slot, f.Payload(slot)) in f.Normalized().slotPayloads;
      }
    }
  }

  /** A frame that is not: a payload of 65536 bytes is announced as empty. */
  lemma OversizedPayloadIsLost(f: InputFrame)
    requires f == InputFrame(0, 0, [], [], [], seq(65536, i => 0))
    ensures f.Valid() && Decode(Encode(f)) != Some(f.Normalized())
  {
    assert Pow256(2) == 65536 by {
      assert Pow256(1) == 256;
    }
    RoundTripExactlyWhenWellSized(f);
  }

  /** With 256 active slots the count wraps to 0, bytes remain and the decoder
      refuses them. */
  lemma TooManySlotsRefused(f: InputFrame)
    requires |f.framePayload| < Pow256(2)
    requires forall slot :: slot in f.ActiveSlots() ==> |f.Payload(slot)| < Pow256(2)
    requires |f.ActiveSlots()| >= Pow256(1)
    ensures Decode(Encode(f)) == None
  {
    var slots := f.ActiveSlots();
    var count := FromLittleEndian(LittleEndian(|slots|, 1));
    assert Encode(f) + [] == Encode(f);
    TakeHeaderRoundTrip(f, [], count);
    TakeSlotsRoundTrip(f, slots, count, []);
    assert |SlotsBytes(f, slots[count..])| > 0;
  }

  // ---- Prefix-freeness ---------------------------------------------------------

  lemma TakeSlotExtends()
    ensures Extends(TakeSlot)
  {
    forall s: Bytes, x: Bytes | TakeSlot(s).Some?
      ensures TakeSlot(s + x) == Some(Parsed(TakeSlot(s).value.value, TakeSlot(s).value.rest + x))
    {
      var s1 := TakeUInt(s, 1).value.rest;
      var s2 := TakeUInt(s1, 8).value.rest;
      var s3 := TakeUInt(s2, 8).value.rest;
      var Parsed(size, s4) := TakeUInt(s3, 2).value;
      TakeUIntExtends(s, 1, x);
      TakeUIntExtends(s1, 8, x);
      TakeUIntExtends(s2, 8, x);
      TakeUIntExtends(s3, 2, x);
      TakeBytesExtends(s4, size, x);
    }
  }

  lemma TakeHeaderExtends(s: Bytes, x: Bytes)
    requires TakeHeader(s).Some?
    ensures TakeHeader(s + x) == Some(Parsed(TakeHeader(s).value.value, TakeHeader(s).value.rest + x))
  {
    var s1 := TakeUInt(s, 1).value.rest;
    var s2 := TakeUInt(s1, 4).value.rest;
    var s3 := TakeUInt(s2, 4).value.rest;
    var s4 := TakeUInt(s3, 1).value.rest;
    var Parsed(size, s5) := TakeUInt(s4, 2).value;
    TakeUIntExtends(s, 1, x);
    TakeUIntExtends(s1, 4, x);
    TakeUIntExtends(s2, 4, x);
    TakeUIntExtends(s3, 1, x);
    TakeUIntExtends(s4, 2, x);
    TakeBytesExtends(s5, size, x);
  }

  /** No strict prefix and no strict extension of a decodable string decodes. */
  lemma DecodableIsPrefixFree(s: Bytes, x: Bytes)
    requires x != []
    ensures !(Decode(s).Some? && Decode(s + x).Some?)
  {
    if Decode(s).Some? {
      TakeHeaderExtends(s, x);
      TakeSlotExtends();
      var Parsed(header, s1) := TakeHeader(s).value;
      TakeManyExtends(TakeSlot, s1, header.slotCount, x);
    }
  }

  /** Nothing but version 4 decodes. */
  lemma OnlyVersionFourDecodes(s: Bytes)
    requires Decode(s).Some?
    ensures |s| >= 12 && s[0] == 4
  {
    assert FromLittleEndian(s[..1]) == s[0] by {
      assert s[..1][1..] == [];
    }
  }

  // ---- Encoder and decoder ---------------------------------------------------

  method AppendUnique<T>(slots: seq<UInt8>, es: seq<Entry<T>>, ghost seen: seq<UInt8>) returns (r: seq<UInt8>)
    requires slots == Unique(seen)
    ensures r == Unique(seen + SlotsOf(es))
  {
    r := slots;
    assert seen + SlotsOf(es)[..0] == seen;
    for i := 0 to |es|
      invariant r == Unique(seen + SlotsOf(es)[..i])
    {
      ghost var next := seen + SlotsOf(es)[..i + 1];
      assert next[..|next| - 1] == seen + SlotsOf(es)[..i];
      if es[i].slot !in r {
        r := r + [es[i].slot];
      }
    }
    assert SlotsOf(es)[..|es|] == SlotsOf(es);
  }

  method CollectActiveSlots(f: InputFrame) returns (slots: seq<UInt8>)
    ensures slots == f.ActiveSlots()
  {
    var all := AppendUnique([], f.maskLo, []);
    assert [] + SlotsOf(f.maskLo) == SlotsOf(f.maskLo);
    all := AppendUnique(all, f.maskHi, SlotsOf(f.maskLo));
    all := AppendUnique(all, f.slotPayloads, SlotsOf(f.maskLo) + SlotsOf(f.maskHi));
    slots := [];
    for i := 0 to |all|
      invariant slots + f.Having(all[i..]) == f.Having(all)
    {
      assert all[i..][1..] == all[i + 1..];
      if f.HasData(all[i]) {
        slots := slots + [all[i]];
      }
    }
  }

  method WriteHeader(writer: PacketWriter, f: InputFrame, slotCount: nat)
    modifies writer
    ensures writer.data == old(writer.data) + LittleEndian(WIRE_VERSION, 1) + LittleEndian(f.frame, 4) +
              LittleEndian(f.timelineEpoch, 4) + LittleEndian(slotCount, 1) + LittleEndian(|f.framePayload|, 2)
  {
    writer.WriteUInt(WIRE_VERSION, 1);
    writer.WriteUInt(f.frame, 4);
    writer.WriteUInt(f.timelineEpoch, 4);
    writer.WriteUInt(slotCount, 1);
    writer.WriteUInt(|f.framePayload|, 2);
  }

  method WriteSlot(writer: PacketWriter, r: SlotRecord)
    modifies writer
    ensures writer.data == old(writer.data) + SlotBytes(r)
  {
    ConcatFive(writer.data, LittleEndian(r.slot, 1), LittleEndian(r.lo, 8), LittleEndian(r.hi, 8),
               LittleEndian(|r.payload|, 2), r.payload);
    writer.WriteUInt(r.slot, 1);
    writer.WriteUInt(r.lo, 8);
    writer.WriteUInt(r.hi, 8);
    writer.WriteUInt(|r.payload|, 2);
    writer.WriteBytes(r.payload);
  }

  lemma SlotsBytesFrom(f: InputFrame, slots: seq<UInt8>, i: nat)
    requires i < |slots|
    ensures SlotsBytes(f, slots[i..]) == SlotBytes(Record(f, slots[i])) + SlotsBytes(f, slots[i + 1..])
  {
    var records := Records(f, slots[i..]);
    assert records[0] == Record(f, slots[i]);
    assert records[1..] == Records(f, slots[i + 1..]);
  }

  method WriteSlots(writer: PacketWriter, f: InputFrame, slots: seq<UInt8>)
    requires forall slot :: slot in slots ==> f.HasData(slot)
    modifies writer
    ensures writer.data == old(writer.data) + SlotsBytes(f, slots)
  {
    ghost var all := writer.data + SlotsBytes(f, slots);
    for i := 0 to |slots|
      invariant writer.data + SlotsBytes(f, slots[i..]) == all
    {
      var slot := slots[i];
      if !f.HasData(slot) {
        continue;
      }
      var record := SlotRecord(slot, f.Lo(slot), f.Hi(slot), f.Payload(slot));
      SlotsBytesFrom(f, slots, i);
      ConcatAssociative(writer.data, SlotBytes(record), SlotsBytes(f, slots[i + 1..]));
      WriteSlot(writer, record);
    }
  }

  method Serialize(f: InputFrame) returns (bytes: Bytes)
    requires f.Valid()
    ensures bytes == Encode(f)
  {
    var slots := CollectActiveSlots(f);
    var writer := new PacketWriter();
    WriteHeader(writer, f, |slots|);
    writer.WriteBytes(f.framePayload);
    forall slot | slot in slots ensures f.HasData(slot) {
      ActiveSlotsExact(f, slot);
    }
    WriteSlots(writer, f, slots);
    bytes := writer.data;
    ghost var version, frame, epoch := LittleEndian(WIRE_VERSION, 1), LittleEndian(f.frame, 4),
      LittleEndian(f.timelineEpoch, 4);
    ghost var count, size, body := LittleEndian(|slots|, 1), LittleEndian(|f.framePayload|, 2), SlotsBytes(f, slots);
    ConcatSeven(version, frame, epoch, count, size, f.framePayload, body);
  }

  method SerializedSize(f: InputFrame) returns (size: nat)
    requires f.Valid()
    ensures size == |Encode(f)|
  {
    size := 1 + 4 + 4 + 1 + 2 + |f.framePayload|;
    var slots := CollectActiveSlots(f);
    EncodedSize(f);
    for i := 0 to |slots|
      invariant size + |SlotsBytes(f, slots[i..])| == |Encode(f)|
    {
      ActiveSlotsExact(f, slots[i]);
      SlotsBytesFrom(f, slots, i);
      SlotSize(Record(f, slots[i]));
      if f.HasData(slots[i]) {
        size := size + 1 + 8 + 8 + 2 + |f.Payload(slots[i])|;
      }
    }
  }

  lemma SlotSize(r: SlotRecord)
    ensures |SlotBytes(r)| == 1 + 8 + 8 + 2 + |r.payload|
  {}

  lemma EncodedSize(f: InputFrame)
    ensures |Encode(f)| == 1 + 4 + 4 + 1 + 2 + |f.framePayload| + |SlotsBytes(f, f.ActiveSlots())|
  {}

  method ReadSlot(reader: PacketReader) returns (r: Option<SlotRecord>)
    requires reader.Valid()
    modifies reader
    ensures reader.Valid() && r == ValueOf(TakeSlot(old(reader.Rest())))
    ensures r.Some? ==> reader.Rest() == TakeSlot(old(reader.Rest())).value.rest
  {
    var slot := reader.ReadUInt(1);
    if slot.None? { return None; }
    var lo := reader.ReadUInt(8);
    if lo.None? { return None; }
    var hi := reader.ReadUInt(8);
    if hi.None? { return None; }
    var size := reader.ReadUInt(2);
    if size.None? { return None; }
    var payload := Some([]);
    if size.value != 0 {
      payload := reader.ReadBytes(size.value);
      if payload.None? { return None; }
    }
    r := Some(SlotRecord(slot.value, lo.value, hi.value, payload.value));
  }

  method ReadHeader(reader: PacketReader) returns (r: Option<Header>)
    requires reader.Valid()
    modifies reader
    ensures reader.Valid() && r == ValueOf(TakeHeader(old(reader.Rest())))
    ensures r.Some? ==> reader.Rest() == TakeHeader(old(reader.Rest())).value.rest
  {
    var w := ReadWireHeader(reader);
    if w.None? { return None; }
    if w.value.version != WIRE_VERSION { return None; }
    var payload := reader.ReadBytes(w.value.payloadSize);
    if payload.None? { return None; }
    r := Some(Header(w.value.frame, w.value.timelineEpoch, w.value.slotCount, payload.value));
  }

  method ReadWireHeader(reader: PacketReader) returns (r: Option<WireHeader>)
    requires reader.Valid()
    modifies reader
    ensures reader.Valid() && r == ValueOf(TakeWireHeader(old(reader.Rest())))
    ensures r.Some? ==> reader.Rest() == TakeWireHeader(old(reader.Rest())).value.rest
  {
    var version := reader.ReadUInt(1);
    if version.None? { return None; }
    var frame := reader.ReadUInt(4);
    if frame.None? { return None; }
    var epoch := reader.ReadUInt(4);
    if epoch.None? { return None; }
    var count := reader.ReadUInt(1);
    if count.None? { return None; }
    var size := reader.ReadUInt(2);
    if size.None? { return None; }
    r := Some(WireHeader(version.value, frame.value, epoch.value, count.value, size.value));
  }

  method Deserialize(data: Bytes) returns (r: Option<InputFrame>)
    ensures r == Decode(data)
  {
    DecodeSplits(data);
    var reader := new PacketReader(data);
    var header := ReadHeader(reader);
    if header.None? { return None; }
    var lo := new PerSlotValue<UInt64>();
    var hi := new PerSlotValue<UInt64>();
    var payloads := new PerSlotValue<Bytes>();
    r := DeserializeSlots(reader, header.value.slotCount, header.value, lo, hi, payloads);
  }

  /** The decoder after the header. */
  function DecodeSlots(header: Header, s: Bytes, count: nat): Option<InputFrame> {
    var parsed := TakeMany(TakeSlot, s, count);
    if parsed.Some? && parsed.value.rest == [] then Some(ApplyAll(Empty(header), parsed.value.value)) else None
  }

  lemma DecodeSplits(s: Bytes)
    ensures Decode(s) == match TakeHeader(s)
                         case None => None
                         case Some(Parsed(header, rest)) => DecodeSlots(header, rest, header.slotCount)
  {}

  method StoreRecord(r: SlotRecord, lo: PerSlotValue<UInt64>, hi: PerSlotValue<UInt64>, payloads: PerSlotValue<Bytes>)
    requires lo.Valid() && hi.Valid() && payloads.Valid() && lo != hi
    modifies lo, hi, payloads
    ensures lo.Valid() && hi.Valid() && payloads.Valid()
    ensures lo.entries == if r.lo != 0 then Put(old(lo.entries), r.slot, r.lo) else old(lo.entries)
    ensures hi.entries == if r.hi != 0 then Put(old(hi.entries), r.slot, r.hi) else old(hi.entries)
    ensures payloads.entries == if r.payload != [] then Put(old(payloads.entries), r.slot, r.payload)
              else old(payloads.entries)
  {
    if r.lo != 0 {
      lo.Set(r.slot, r.lo);
    }
    if r.hi != 0 {
      hi.Set(r.slot, r.hi);
    }
    if r.payload != [] {
      payloads.Set(r.slot, r.payload);
    }
  }

  method DeserializeSlots(reader: PacketReader, count: nat, header: Header,
                          lo: PerSlotValue<UInt64>, hi: PerSlotValue<UInt64>, payloads: PerSlotValue<Bytes>)
    returns (r: Option<InputFrame>)
    requires reader.Valid() && lo.Valid() && hi.Valid() && payloads.Valid() && lo != hi
    requires lo.entries == [] && hi.entries == [] && payloads.entries == []
    modifies reader, lo, hi, payloads
    ensures r == DecodeSlots(header, old(reader.Rest()), count)
  {
    ghost var start := reader.Rest();
    ghost var read := [];
    ReadSoFarStart(TakeSlot, start, count);
    for i := 0 to count
      invariant reader.Valid() && lo.Valid() && hi.Valid() && payloads.Valid() && |read| == i
      invariant ReadSoFar(TakeSlot, start, count, read, reader.Rest())
      invariant ApplyAll(Empty(header), read) ==
                InputFrame(header.frame, header.timelineEpoch, lo.entries, hi.entries, payloads.entries,
                  header.framePayload)
    {
      ghost var before := reader.Rest();
      var record := ReadSlot(reader);
      ReadSoFarStep(TakeSlot, start, count, read, before);
      if record.None? { return None; }
      ApplyAllSnoc(Empty(header), read, record.value);
      read := read + [record.value];
      StoreRecord(record.value, lo, hi, payloads);
    }
    assert TakeMany(TakeSlot, start, count) == Some(Parsed(read, reader.Rest())) by {
      assert read + [] == read;
    }
    var left := reader.Remaining();
    if left != 0 { return None; }
    r := Some(InputFrame(header.frame, header.timelineEpoch, lo.entries, hi.entries, payloads.entries,
      header.framePayload));
  }

  lemma {:induction false} ApplyAllSnoc(acc: InputFrame, records: seq<SlotRecord>, r: SlotRecord)
    ensures ApplyAll(acc, records + [r]) == Apply(ApplyAll(acc, records), r)
    decreases records
  {
    if records != [] {
      assert (records + [r])[1..] == records[1..] + [r];
      ApplyAllSnoc(Apply(acc, records[0]), records[1..], r);
    }
  }
}

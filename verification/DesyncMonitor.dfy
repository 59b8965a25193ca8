/** The desync monitor: two streams of per-frame CRCs, local and remote, are
    kept in bounded histories, and a frame is compared as soon as both sides
    have reported it. A CRC of 0 means "not known". A rollback invalidates the
    frames from a bound on. */
module DesyncMonitor {
  import opened Wrappers
  import opened NetplayTypes
  import opened Sequences

  const HISTORY_CAPACITY := 512
  const MAX_MISMATCH_COUNT := 255

  datatype Entry = Entry(frame: FrameNumber, crc32: nat)

  datatype Monitor = Monitor(
    local: seq<Entry>,
    remote: seq<Entry>,
    lastMismatchFrame: FrameNumber,
    consecutiveMismatches: nat)
  {
    function History(side: bool): seq<Entry> { if side then local else remote }
  }

  datatype Op = Local(entry: Entry) | Remote(entry: Entry) | Invalidate(frame: FrameNumber) | Reset {
    predicate Submits() { Local? || Remote? }
  }

  datatype Update = Update(
    compared: bool,
    mismatchDetected: bool,
    mismatchResolved: bool,
    frame: FrameNumber,
    consecutiveMismatches: nat)

  // ---- What a call does ----------------------------------------------------------------

  /** The last entry of a frame, searched from the newest. */
  function IndexOf(h: seq<Entry>, frame: FrameNumber): (r: Option<nat>)
    ensures r.Some? ==> r.value < |h| && h[r.value].frame == frame
  {
    if h == [] then None
    else if h[|h| - 1].frame == frame then Some(|h| - 1)
    else IndexOf(h[..|h| - 1], frame)
  }

  function Store(h: seq<Entry>, e: Entry): seq<Entry> {
    var i := IndexOf(h, e.frame);
    if i.Some? then h[i.value := e] else LastN(h + [e], HISTORY_CAPACITY)
  }

  function Stored(m: Monitor, s: Op): Monitor
    requires s.Submits()
  {
    if s.Local? then m.(local := Store(m.local, s.entry)) else m.(remote := Store(m.remote, s.entry))
  }

  predicate Comparable(m: Monitor, frame: FrameNumber) {
    var l, r := IndexOf(m.local, frame), IndexOf(m.remote, frame);
    l.Some? && r.Some? && m.local[l.value].crc32 != 0 && m.remote[r.value].crc32 != 0
  }

  predicate Differs(m: Monitor, frame: FrameNumber)
    requires Comparable(m, frame)
  {
    m.local[IndexOf(m.local, frame).value].crc32 != m.remote[IndexOf(m.remote, frame).value].crc32
  }

  function Evaluate(m: Monitor, frame: FrameNumber): (Monitor, Update) {
    if !Comparable(m, frame) then (m, Update(false, false, false, frame, 0))
    else if Differs(m, frame) then
      var count := if m.lastMismatchFrame != 0 && frame >= m.lastMismatchFrame
                   then Min(m.consecutiveMismatches + 1, MAX_MISMATCH_COUNT) else 1;
      (m.(lastMismatchFrame := frame, consecutiveMismatches := count), Update(true, true, false, frame, count))
    else
      (m.(lastMismatchFrame := 0, consecutiveMismatches := 0),
       Update(true, false, m.lastMismatchFrame != 0 || m.consecutiveMismatches != 0, frame, 0))
  }

  function Submit(m: Monitor, s: Op): (Monitor, Update)
    requires s.Submits()
  {
    Evaluate(Stored(m, s), s.entry.frame)
  }

  /** The history without the frames at or above the bound at its end. */
  function DropTail(h: seq<Entry>, frame: FrameNumber): seq<Entry> {
    if h != [] && h[|h| - 1].frame >= frame then DropTail(h[..|h| - 1], frame) else h
  }

  function Invalidated(m: Monitor, frame: FrameNumber): Monitor {
    Monitor(DropTail(m.local, frame), DropTail(m.remote, frame),
            if m.lastMismatchFrame >= frame then 0 else m.lastMismatchFrame,
            if m.lastMismatchFrame >= frame then 0 else m.consecutiveMismatches)
  }

  const EMPTY: Monitor := Monitor([], [], 0, 0)

  function Step(m: Monitor, op: Op): Monitor {
    match op
    case Invalidate(frame) => Invalidated(m, frame)
    case Reset => EMPTY
    case _ => Submit(m, op).0
  }

  function Run(ops: seq<Op>): Monitor {
    if ops == [] then EMPTY else Step(Run(ops[..|ops| - 1]), ops[|ops| - 1])
  }

  // ---- What is compared over a whole run -----------------------------------------------

  /** What one side submitted, in order. */
  function Side(ops: seq<Op>, local: bool): seq<Entry> {
    if ops == [] then []
    else
      var op := ops[|ops| - 1];
      Side(ops[..|ops| - 1], local) + (if op.Submits() && op.Local? == local then [op.entry] else [])
  }

  predicate DistinctFrames(h: seq<Entry>) {
    forall i, j :: 0 <= i < j < |h| ==> h[i].frame != h[j].frame
  }

  /** Two interleaved streams in which no side reports a frame twice. */
  predicate Streams(ops: seq<Op>) {
    && (forall i :: 0 <= i < |ops| ==> ops[i].Submits())
    && DistinctFrames(Side(ops, true)) && DistinctFrames(Side(ops, false))
  }

  /** The other side's report of the frame, with a known CRC, is among its last
      512 when `s` is submitted with a known CRC. */
  predicate MetBy(ops: seq<Op>, s: Op, o: Entry)
    requires s.Submits()
  {
    o in LastN(Side(ops, !s.Local?), 512) && o.frame == s.entry.frame && o.crc32 != 0 && s.entry.crc32 != 0
  }

  ghost predicate ComparedAt(ops: seq<Op>, k: nat, frame: FrameNumber) {
    k < |ops| && ops[k].Submits() && ops[k].entry.frame == frame && exists o :: MetBy(ops[..k], ops[k], o)
  }

  ghost predicate DiffersAt(ops: seq<Op>, k: nat, frame: FrameNumber) {
    && k < |ops| && ops[k].Submits() && ops[k].entry.frame == frame
    && exists o :: MetBy(ops[..k], ops[k], o) && o.crc32 != ops[k].entry.crc32
  }

  /** How often a frame was compared, and how often a mismatch was reported. */
  function Comparisons(ops: seq<Op>, frame: FrameNumber): nat {
    if ops == [] then 0
    else
      var front, op := ops[..|ops| - 1], ops[|ops| - 1];
      Comparisons(front, frame) +
        (if op.Submits() && op.entry.frame == frame && Submit(Run(front), op).1.compared then 1 else 0)
  }

  function Mismatches(ops: seq<Op>, frame: FrameNumber): nat {
    if ops == [] then 0
    else
      var front, op := ops[..|ops| - 1], ops[|ops| - 1];
      Mismatches(front, frame) +
        (if op.Submits() && op.entry.frame == frame && Submit(Run(front), op).1.mismatchDetected then 1 else 0)
  }

  lemma {:induction false} IndexOfFinds(h: seq<Entry>, frame: FrameNumber)
    ensures IndexOf(h, frame).None? <==> forall i :: 0 <= i < |h| ==> h[i].frame != frame
  {
    if h != [] {
      IndexOfFinds(h[..|h| - 1], frame);
      assert forall i :: 0 <= i < |h| - 1 ==> h[..|h| - 1][i] == h[i];
    }
  }

  /** A history holds the stored entry afterwards, in the place of an entry of its
      frame or at the end, and loses nothing else but the oldest of 512. */
  lemma StoresExactly(h: seq<Entry>, e: Entry)
    requires DistinctFrames(h) && |h| <= 512
    ensures var r := Store(h, e);
            if i :| 0 <= i < |h| && h[i].frame == e.frame then r == h[i := e]
            else if |h| < 512 then r == h + [e]
            else r == h[1..] + [e]
  {
    IndexOfFinds(h, e.frame);
  }

  /** The entry of a frame is the one the index points at. */
  lemma EntryOf(h: seq<Entry>, frame: FrameNumber, e: Entry)
    requires DistinctFrames(h)
    ensures e in h && e.frame == frame <==> IndexOf(h, frame).Some? && h[IndexOf(h, frame).value] == e
  {
    IndexOfFinds(h, frame);
  }

  lemma StreamsFront(front: seq<Op>, s: Op)
    requires Streams(front + [s])
    ensures Streams(front) && s.Submits()
    ensures Side(front + [s], s.Local?) == Side(front, s.Local?) + [s.entry]
    ensures Side(front + [s], !s.Local?) == Side(front, !s.Local?)
  {
    var ops := front + [s];
    assert ops[|front|] == s && forall i :: 0 <= i < |front| ==> front[i] == ops[i];
    SidesGrow(front, s);
    DistinctFront(Side(front, s.Local?), s.entry);
  }

  lemma SidesGrow(front: seq<Op>, s: Op)
    requires s.Submits()
    ensures Side(front + [s], s.Local?) == Side(front, s.Local?) + [s.entry]
    ensures Side(front + [s], !s.Local?) == Side(front, !s.Local?)
  {
    assert (front + [s])[..|front|] == front;
  }

  lemma DistinctFront(h: seq<Entry>, e: Entry)
    requires DistinctFrames(h + [e])
    ensures DistinctFrames(h)
    ensures forall o :: o in h ==> o.frame != e.frame
  {
    var all := h + [e];
    assert all[|h|] == e && forall i :: 0 <= i < |h| ==> all[i] == h[i];
  }

  lemma StoreSlides(side: seq<Entry>, e: Entry)
    requires DistinctFrames(side + [e])
    ensures Store(LastN(side, HISTORY_CAPACITY), e) == LastN(side + [e], HISTORY_CAPACITY)
  {
    var h := LastN(side, HISTORY_CAPACITY);
    forall i | 0 <= i < |h| ensures h[i].frame != e.frame {
      var j := |side| - |h| + i;
      assert (side + [e])[j] == h[i] && (side + [e])[|side|] == e;
    }
    IndexOfFinds(h, e.frame);
  }

  /** The histories are the last 512 entries of the streams. */
  lemma {:induction false} HistoriesAreWindows(ops: seq<Op>)
    requires Streams(ops)
    ensures Run(ops).local == LastN(Side(ops, true), 512)
    ensures Run(ops).remote == LastN(Side(ops, false), 512)
  {
    if ops != [] {
      var front, s := ops[..|ops| - 1], ops[|ops| - 1];
      assert ops == front + [s];
      StreamsFront(front, s);
      HistoriesAreWindows(front);
      StoreSlides(Side(front, s.Local?), s.entry);
    }
  }

  lemma WindowIsDistinct(side: seq<Entry>)
    requires DistinctFrames(side)
    ensures DistinctFrames(LastN(side, HISTORY_CAPACITY))
  {}

  /** A submission is compared exactly when the other side's report is still in
      its window, and mismatches exactly when the CRCs differ. */
  lemma ComparedWhenMet(ops: seq<Op>, s: Op)
    requires s.Submits() && Streams(ops + [s])
    ensures var u := Submit(Run(ops), s).1;
            && (u.compared <==> exists o :: MetBy(ops, s, o))
            && (u.mismatchDetected <==> exists o :: MetBy(ops, s, o) && o.crc32 != s.entry.crc32)
  {
    StoredIsWindows(ops, s);
    FoundInOther(Stored(Run(ops), s), s);
    assert forall o :: MetBy(ops, s, o) <==>
      o in Stored(Run(ops), s).History(!s.Local?) && o.frame == s.entry.frame && o.crc32 != 0 && s.entry.crc32 != 0;
  }

  lemma StoredIsWindows(ops: seq<Op>, s: Op)
    requires s.Submits() && Streams(ops + [s])
    ensures var m := Stored(Run(ops), s);
            && DistinctFrames(m.local) && DistinctFrames(m.remote) && s.entry in m.History(s.Local?)
            && m.History(!s.Local?) == LastN(Side(ops, !s.Local?), HISTORY_CAPACITY)
  {
    var all := ops + [s];
    StreamsFront(ops, s);
    HistoriesAreWindows(ops);
    StoreSlides(Side(ops, s.Local?), s.entry);
    WindowIsDistinct(Side(all, true));
    WindowIsDistinct(Side(all, false));
    var own := LastN(Side(all, s.Local?), HISTORY_CAPACITY);
    assert own[|own| - 1] == s.entry;
  }

  lemma FoundInOther(m: Monitor, s: Op)
    requires s.Submits() && DistinctFrames(m.local) && DistinctFrames(m.remote) && s.entry in m.History(s.Local?)
    ensures var other := m.History(!s.Local?);
            && (Comparable(m, s.entry.frame) <==>
                exists o :: o in other && o.frame == s.entry.frame && o.crc32 != 0 && s.entry.crc32 != 0)
            && (Comparable(m, s.entry.frame) && Differs(m, s.entry.frame) <==>
                exists o :: o in other && o.frame == s.entry.frame && o.crc32 != 0 && s.entry.crc32 != 0
                            && o.crc32 != s.entry.crc32)
  {
    var own, other, frame := m.History(s.Local?), m.History(!s.Local?), s.entry.frame;
    EntryOf(own, frame, s.entry);
    forall o | o in other && o.frame == frame
      ensures IndexOf(other, frame).Some? && other[IndexOf(other, frame).value] == o
    {
      EntryOf(other, frame, o);
    }
  }

  /** A compared frame was reported by both sides. */
  lemma {:induction false} ComparedIsReported(ops: seq<Op>, k: nat, frame: FrameNumber, local: bool)
    requires ComparedAt(ops, k, frame) || DiffersAt(ops, k, frame)
    ensures exists e :: e in Side(ops, local) && e.frame == frame
    decreases |ops|
  {
    var front, last := ops[..|ops| - 1], ops[|ops| - 1];
    if k < |front| {
      assert front[..k] == ops[..k];
      ComparedIsReported(front, k, frame, local);
      var e :| e in Side(front, local) && e.frame == frame;
      assert e in Side(ops, local);
    } else {
      assert ops[..k] == front;
      var o :| MetBy(front, last, o);
      var e := if last.Local? == local then last.entry else o;
      assert e in Side(ops, local) && e.frame == frame;
    }
  }

  /** For any interleaving of two streams with distinct frames, of any length: a
      frame is compared once if the later report still meets the earlier one
      among the last 512 of its side, both with known CRCs, and never otherwise;
      a mismatch is reported once exactly where these differ. */
  lemma {:induction false} ComparedExactlyOnce(ops: seq<Op>, frame: FrameNumber)
    requires Streams(ops)
    ensures Comparisons(ops, frame) == if exists k :: ComparedAt(ops, k, frame) then 1 else 0
    ensures Mismatches(ops, frame) == if exists k :: DiffersAt(ops, k, frame) then 1 else 0
  {
    if ops != [] {
      var front, s := ops[..|ops| - 1], ops[|ops| - 1];
      assert ops == front + [s];
      StreamsFront(front, s);
      ComparedExactlyOnce(front, frame);
      ComparedWhenMet(front, s);
      ComparedInLonger(front, s, frame);
      if s.entry.frame == frame {
        NotComparedBefore(front, s);
      }
    }
  }

  /** Where a longer run compares: where the shorter one does, or at its end. */
  lemma AtPrefix(front: seq<Op>, s: Op, k: nat, frame: FrameNumber)
    ensures k < |front| ==> (ComparedAt(front + [s], k, frame) <==> ComparedAt(front, k, frame))
    ensures k < |front| ==> (DiffersAt(front + [s], k, frame) <==> DiffersAt(front, k, frame))
  {
    if k < |front| {
      assert (front + [s])[..k] == front[..k];
    }
  }

  lemma AtEnd(front: seq<Op>, s: Op, frame: FrameNumber)
    requires s.Submits()
    ensures ComparedAt(front + [s], |front|, frame) <==> s.entry.frame == frame && exists o :: MetBy(front, s, o)
    ensures DiffersAt(front + [s], |front|, frame) <==>
              s.entry.frame == frame && exists o :: MetBy(front, s, o) && o.crc32 != s.entry.crc32
  {
    assert (front + [s])[..|front|] == front;
  }

  lemma ComparedInLonger(front: seq<Op>, s: Op, frame: FrameNumber)
    requires s.Submits()
    ensures (exists k :: ComparedAt(front + [s], k, frame)) <==>
            (exists k :: ComparedAt(front, k, frame)) || (s.entry.frame == frame && exists o :: MetBy(front, s, o))
    ensures (exists k :: DiffersAt(front + [s], k, frame)) <==>
            (exists k :: DiffersAt(front, k, frame)) ||
            (s.entry.frame == frame && exists o :: MetBy(front, s, o) && o.crc32 != s.entry.crc32)
  {
    AtEnd(front, s, frame);
    forall k: nat ensures k < |front| ==> (ComparedAt(front + [s], k, frame) <==> ComparedAt(front, k, frame))
    ensures k < |front| ==> (DiffersAt(front + [s], k, frame) <==> DiffersAt(front, k, frame))
    {
      AtPrefix(front, s, k, frame);
    }
  }

  /** A side that reports a frame now has not reported it before. */
  lemma NotComparedBefore(front: seq<Op>, s: Op)
    requires s.Submits() && Streams(front + [s])
    ensures forall k :: !ComparedAt(front, k, s.entry.frame) && !DiffersAt(front, k, s.entry.frame)
  {
    StreamsFront(front, s);
    DistinctFront(Side(front, s.Local?), s.entry);
    forall k: nat ensures !ComparedAt(front, k, s.entry.frame) && !DiffersAt(front, k, s.entry.frame) {
      if ComparedAt(front, k, s.entry.frame) || DiffersAt(front, k, s.entry.frame) {
        ComparedIsReported(front, k, s.entry.frame, s.Local?);
      }
    }
  }

  // ---- Consecutive mismatches -------------------------------------------------------------

  /** The frames that mismatched since the last comparison that agreed, reset,
      or invalidation of the latest of them. */
  function Streak(ops: seq<Op>): seq<FrameNumber> {
    if ops == [] then []
    else
      var front, op := ops[..|ops| - 1], ops[|ops| - 1];
      var streak := Streak(front);
      match op
      case Reset => []
      case Invalidate(frame) => if streak != [] && streak[|streak| - 1] >= frame then [] else streak
      case _ =>
        var u := Submit(Run(front), op).1;
        if !u.compared then streak else if u.mismatchDetected then streak + [u.frame] else []
  }

  /** How many frames at the end follow each other without stepping back; a
      frame after frame 0 starts over. */
  function Climb(frames: seq<FrameNumber>): nat {
    var n := |frames|;
    if n <= 1 then n
    else if frames[n - 2] != 0 && frames[n - 1] >= frames[n - 2] then Climb(frames[..n - 1]) + 1
    else 1
  }

  predicate Counts(m: Monitor, streak: seq<FrameNumber>) {
    && m.consecutiveMismatches == Min(Climb(streak), 255)
    && m.lastMismatchFrame == (if streak == [] then 0 else streak[|streak| - 1])
  }

  lemma MismatchCounted(m: Monitor, streak: seq<FrameNumber>, frame: FrameNumber)
    requires Counts(m, streak)
    ensures var restarts := m.lastMismatchFrame == 0 || frame < m.lastMismatchFrame;
            Climb(streak + [frame]) == if restarts then 1 else Climb(streak) + 1
  {
    assert (streak + [frame])[..|streak|] == streak;
  }

  lemma EvaluationCounted(m: Monitor, streak: seq<FrameNumber>, frame: FrameNumber)
    requires Counts(m, streak)
    ensures var (m', u) := Evaluate(m, frame);
            Counts(m', if !u.compared then streak else if u.mismatchDetected then streak + [frame] else [])
  {
    MismatchCounted(m, streak, frame);
  }

  /** In every run the counter is the length of the climb that ends the streak,
      up to 255. */
  lemma {:induction false} CounterIsClimb(ops: seq<Op>)
    ensures Counts(Run(ops), Streak(ops))
  {
    if ops != [] {
      var front, op := ops[..|ops| - 1], ops[|ops| - 1];
      CounterIsClimb(front);
      if op.Submits() {
        var m, streak := Stored(Run(front), op), Streak(front);
        assert Run(ops) == Evaluate(m, op.entry.frame).0;
        EvaluationCounted(m, streak, op.entry.frame);
      }
    }
  }

  lemma {:induction false} ClimbIsPositive(frames: seq<FrameNumber>)
    ensures Climb(frames) == 0 <==> frames == []
  {}

  /** A submission reports its own frame, and on a mismatch the counter. */
  lemma ReportsExactly(ops: seq<Op>, s: Op)
    requires s.Submits()
    ensures var u := Submit(Run(ops), s).1;
            && u.frame == s.entry.frame
            && u.consecutiveMismatches == (if u.mismatchDetected then Run(ops + [s]).consecutiveMismatches else 0)
            && (u.mismatchDetected ==> u.compared)
  {
    RunsOn(ops, s);
  }

  /** A mismatch is reported as resolved exactly by the first agreeing
      comparison after a streak. */
  lemma ResolvedExactly(ops: seq<Op>, s: Op)
    requires s.Submits()
    ensures var u := Submit(Run(ops), s).1;
            u.mismatchResolved <==> u.compared && !u.mismatchDetected && Streak(ops) != []
  {
    CounterIsClimb(ops);
    ClimbIsPositive(Streak(ops));
  }

  /** No frame steps back and none but the last is frame 0. */
  predicate Orderly(frames: seq<FrameNumber>) {
    forall i :: 0 <= i < |frames| - 1 ==> frames[i] != 0 && frames[i] <= frames[i + 1]
  }

  lemma {:induction false} ClimbReaches(frames: seq<FrameNumber>, n: nat)
    requires n <= |frames|
    ensures Climb(frames) >= n <==> Orderly(LastN(frames, n))
    ensures Climb(frames) <= |frames|
  {
    var tail := LastN(frames, n);
    if n > 1 {
      var front := frames[..|frames| - 1];
      ClimbReaches(front, n - 1);
      assert LastN(front, n - 1) == tail[..n - 1];
      assert Orderly(tail) <==> Orderly(tail[..n - 1]) && tail[n - 2] != 0 && tail[n - 2] <= tail[n - 1];
    } else if |frames| > 1 {
      ClimbReaches(frames[..|frames| - 1], 0);
    }
  }

  /** In every run, every mismatch of the streak is counted (up to 255) if and
      only if the last 255 of them are orderly. */
  lemma EveryMismatchCountsExactly(ops: seq<Op>)
    ensures Run(ops).consecutiveMismatches == Min(|Streak(ops)|, 255) <==> Orderly(LastN(Streak(ops), 255))
  {
    var streak := Streak(ops);
    CounterIsClimb(ops);
    ClimbReaches(streak, Min(|streak|, 255));
  }

  /** A run in which one is not: frames 0 and 1 mismatch, the counter says 1. */
  lemma FrameZeroIsNotCounted(ops: seq<Op>)
    requires ops == [Local(Entry(0, 1)), Remote(Entry(0, 2)), Local(Entry(1, 1)), Remote(Entry(1, 2))]
    ensures Streak(ops) == [0, 1] && Run(ops).consecutiveMismatches == 1
  {
    var first := [ops[0], ops[1]];
    assert first + [ops[2]] + [ops[3]] == ops;
    FrameZeroMismatches(ops[0], ops[1]);
    FrameOneStartsOver(first, ops[2], ops[3]);
  }

  lemma FrameOneStartsOver(ops: seq<Op>, c: Op, d: Op)
    requires Run(ops) == Monitor([Entry(0, 1)], [Entry(0, 2)], 0, 1) && c == Local(Entry(1, 1)) &&
             d == Remote(Entry(1, 2))
    ensures Run(ops + [c] + [d]).consecutiveMismatches == 1 && Streak(ops + [c] + [d]) == Streak(ops) + [1]
  {
    NewFrameWaitsIn(ops, Run(ops), c);
    FrameOneMismatches(ops + [c], d);
  }

  lemma FrameOneMismatches(ops: seq<Op>, d: Op)
    requires Run(ops) == Monitor([Entry(0, 1), Entry(1, 1)], [Entry(0, 2)], 0, 1) && d == Remote(Entry(1, 2))
    ensures Run(ops + [d]).consecutiveMismatches == 1 && Streak(ops + [d]) == Streak(ops) + [1]
  {
    RunsOn(ops, d);
    assert IndexOf([Entry(0, 2)], 1).None?;
    assert Stored(Run(ops), d) == Monitor([Entry(0, 1), Entry(1, 1)], [Entry(0, 2), Entry(1, 2)], 0, 1);
  }

  lemma FrameZeroMismatches(a: Op, b: Op)
    requires a == Local(Entry(0, 1)) && b == Remote(Entry(0, 2))
    ensures Streak([a, b]) == [0] && Run([a, b]) == Monitor([Entry(0, 1)], [Entry(0, 2)], 0, 1)
  {
    NewFrameWaitsIn([], EMPTY, a);
    assert [] + [a] == [a] && [a] + [b] == [a, b];
    RunsOn([a], b);
    assert Stored(Run([a]), b) == Monitor([Entry(0, 1)], [Entry(0, 2)], 0, 0);
  }

  lemma NewFrameWaitsIn(ops: seq<Op>, m: Monitor, s: Op)
    requires Run(ops) == m
    requires s.Submits() && |m.local| < HISTORY_CAPACITY && |m.remote| < HISTORY_CAPACITY
    requires forall i :: 0 <= i < |m.local| ==> m.local[i].frame != s.entry.frame
    requires forall i :: 0 <= i < |m.remote| ==> m.remote[i].frame != s.entry.frame
    ensures Streak(ops + [s]) == Streak(ops)
    ensures Run(ops + [s]) == if s.Local? then m.(local := m.local + [s.entry]) else m.(remote := m.remote + [s.entry])
  {
    RunsOn(ops, s);
    NewFrameWaits(m, s);
  }

  /** A frame that neither history holds is appended and not compared. */
  lemma NewFrameWaits(m: Monitor, s: Op)
    requires s.Submits() && |m.local| < HISTORY_CAPACITY && |m.remote| < HISTORY_CAPACITY
    requires forall i :: 0 <= i < |m.local| ==> m.local[i].frame != s.entry.frame
    requires forall i :: 0 <= i < |m.remote| ==> m.remote[i].frame != s.entry.frame
    ensures var (m', u) := Submit(m, s);
            && !u.compared
            && m' == if s.Local? then m.(local := m.local + [s.entry]) else m.(remote := m.remote + [s.entry])
  {
    IndexOfFinds(m.local, s.entry.frame);
    IndexOfFinds(m.remote, s.entry.frame);
  }

  lemma RunsOn(ops: seq<Op>, op: Op)
    ensures Run(ops + [op]) == Step(Run(ops), op)
    ensures op.Submits() ==>
              var u := Submit(Run(ops), op).1;
              Streak(ops + [op]) ==
                if !u.compared then Streak(ops) else if u.mismatchDetected then Streak(ops) + [u.frame] else []
  {
    assert (ops + [op])[..|ops|] == ops;
  }

  // ---- Invalidation ------------------------------------------------------------------------

  function Below(h: seq<Entry>, frame: FrameNumber): seq<Entry> {
    if h == [] then []
    else Below(h[..|h| - 1], frame) + (if h[|h| - 1].frame < frame then [h[|h| - 1]] else [])
  }

  /** No stale frame sits in front of one that is kept. */
  predicate StaleAtEnd(h: seq<Entry>, frame: FrameNumber) {
    forall i, j :: 0 <= i < j < |h| && h[j].frame < frame ==> h[i].frame < frame
  }

  predicate AllBelow(h: seq<Entry>, frame: FrameNumber) {
    forall i :: 0 <= i < |h| ==> h[i].frame < frame
  }

  lemma {:induction false} BelowAll(h: seq<Entry>, frame: FrameNumber)
    ensures |Below(h, frame)| <= |h|
    ensures |Below(h, frame)| == |h| <==> AllBelow(h, frame)
    ensures AllBelow(h, frame) ==> Below(h, frame) == h
  {
    if h != [] {
      var front, last := h[..|h| - 1], h[|h| - 1];
      BelowAll(front, frame);
      assert h == front + [last];
      assert AllBelow(h, frame) ==> AllBelow(front, frame) && last.frame < frame by {
        assert forall i :: 0 <= i < |front| ==> front[i] == h[i];
      }
      assert AllBelow(front, frame) && last.frame < frame ==> AllBelow(h, frame) by {
        assert forall i :: 0 <= i < |front| ==> h[i] == front[i];
      }
    }
  }

  /** Popping from the back removes exactly the frames at or above the bound if
      and only if those frames are all at the end. */
  lemma {:induction false} InvalidationIsExactWhenStaleAtEnd(h: seq<Entry>, frame: FrameNumber)
    ensures DropTail(h, frame) == Below(h, frame) <==> StaleAtEnd(h, frame)
  {
    if h != [] {
      var front := h[..|h| - 1];
      assert forall i :: 0 <= i < |front| ==> front[i] == h[i];
      if h[|h| - 1].frame >= frame {
        InvalidationIsExactWhenStaleAtEnd(front, frame);
      } else {
        BelowAll(h, frame);
      }
    }
  }

  /** A run in which they are not: frame 5, reported before frame 3, survives an
      invalidation from frame 4 on. */
  lemma InvalidationLeavesStaleFrames()
    ensures Run([Local(Entry(5, 1)), Local(Entry(3, 1)), Invalidate(4)]).local == [Entry(5, 1), Entry(3, 1)]
  {
    var a, b, c := Local(Entry(5, 1)), Local(Entry(3, 1)), Invalidate(4);
    NewFrameWaitsIn([], EMPTY, a);
    assert [] + [a] == [a] && [a] + [b] == [a, b] && [a, b] + [c] == [a, b, c];
    NewFrameWaitsIn([a], Monitor([a.entry], [], 0, 0), b);
    RunsOn([a, b], c);
  }

  /** One more than the latest frame of a side that has not been invalidated. */
  function Next(ops: seq<Op>, local: bool): nat {
    if ops == [] then 0
    else
      var front, op := ops[..|ops| - 1], ops[|ops| - 1];
      match op
      case Reset => 0
      case Invalidate(frame) => Min(Next(front, local), frame)
      case _ => if op.Local? == local then op.entry.frame + 1 else Next(front, local)
  }

  /** Since the last reset or invalidation, neither side reports a frame before
      its latest one; reporting the latest again is allowed. */
  predicate Ascending(ops: seq<Op>) {
    ops == [] ||
    var front, op := ops[..|ops| - 1], ops[|ops| - 1];
    Ascending(front) && (op.Submits() ==> Next(front, op.Local?) <= op.entry.frame + 1)
  }

  predicate AscendsBelow(h: seq<Entry>, bound: nat) {
    (forall i, j :: 0 <= i < j < |h| ==> h[i].frame < h[j].frame) && AllBelow(h, bound)
  }

  lemma StoreAscends(h: seq<Entry>, e: Entry, bound: nat)
    requires AscendsBelow(h, bound) && bound <= e.frame + 1
    ensures AscendsBelow(Store(h, e), e.frame + 1)
  {
    IndexOfFinds(h, e.frame);
    if IndexOf(h, e.frame).None? {
      var all := h + [e];
      assert AscendsBelow(all, e.frame + 1);
    }
  }

  lemma DropTailAscends(h: seq<Entry>, frame: FrameNumber, bound: nat)
    requires AscendsBelow(h, bound)
    ensures AscendsBelow(DropTail(h, frame), Min(bound, frame))
    decreases h
  {
    if h != [] && h[|h| - 1].frame >= frame {
      DropTailAscends(h[..|h| - 1], frame, bound);
    }
  }

  /** While submissions ascend the histories do, however long the run. */
  lemma {:induction false} HistoriesAscend(ops: seq<Op>, local: bool)
    requires Ascending(ops)
    ensures AscendsBelow(Run(ops).History(local), Next(ops, local))
  {
    if ops != [] {
      var front, op := ops[..|ops| - 1], ops[|ops| - 1];
      HistoriesAscend(front, local);
      var h := Run(front).History(local);
      match op
      case Reset =>
      case Invalidate(frame) => DropTailAscends(h, frame, Next(front, local));
      case _ =>
        assert Run(ops).History(local) == if op.Local? == local then Store(h, op.entry) else h;
        if op.Local? == local {
          StoreAscends(h, op.entry, Next(front, local));
        }
    }
  }

  /** With ascending submissions, interleaved with invalidations and resets in
      any way and for any length, an invalidation removes exactly the frames at
      or above its bound from both histories. */
  lemma AscendingInvalidation(ops: seq<Op>, frame: FrameNumber, local: bool)
    requires Ascending(ops)
    ensures Run(ops + [Invalidate(frame)]).History(local) == Below(Run(ops).History(local), frame)
  {
    var all := ops + [Invalidate(frame)];
    assert all[..|all| - 1] == ops;
    HistoriesAscend(ops, local);
    InvalidationIsExactWhenStaleAtEnd(Run(ops).History(local), frame);
  }

  // ---- The monitor itself --------------------------------------------------------------------

  method StoreEntry(h: seq<Entry>, e: Entry) returns (r: seq<Entry>)
    requires |h| <= HISTORY_CAPACITY
    ensures r == Store(h, e) && |r| <= HISTORY_CAPACITY
  {
    var i := |h|;
    assert h[..i] == h;
    while i > 0
      invariant 0 <= i <= |h|
      invariant IndexOf(h, e.frame) == IndexOf(h[..i], e.frame)
    {
      i := i - 1;
      assert h[..i + 1][..i] == h[..i];
      if h[i].frame == e.frame {
        return h[i := e];
      }
    }
    r := h + [e];
    while |r| > HISTORY_CAPACITY
      invariant r == h + [e] || (|h| == HISTORY_CAPACITY && r == (h + [e])[1..])
      decreases |r|
    {
      r := r[1..];
    }
  }

  class Detector {
    var local: seq<Entry>
    var remote: seq<Entry>
    var lastMismatchFrame: FrameNumber
    var consecutiveMismatches: nat

    ghost function State(): Monitor
      reads this
    {
      Monitor(local, remote, lastMismatchFrame, consecutiveMismatches)
    }

    ghost predicate Valid()
      reads this
    {
      |local| <= HISTORY_CAPACITY && |remote| <= HISTORY_CAPACITY
    }

    constructor ()
      ensures Valid() && State() == EMPTY
    {
      local, remote, lastMismatchFrame, consecutiveMismatches := [], [], 0, 0;
    }

    method Clear()
      modifies this
      ensures Valid() && State() == Step(old(State()), Reset)
    {
      local, remote, lastMismatchFrame, consecutiveMismatches := [], [], 0, 0;
    }

    method FindEntry(h: seq<Entry>, frame: FrameNumber) returns (r: Option<nat>)
      ensures r == IndexOf(h, frame)
    {
      var i := |h|;
      assert h[..i] == h;
      while i > 0
        invariant 0 <= i <= |h|
        invariant IndexOf(h, frame) == IndexOf(h[..i], frame)
      {
        i := i - 1;
        assert h[..i + 1][..i] == h[..i];
        if h[i].frame == frame {
          return Some(i);
        }
      }
      r := None;
    }

    method EvaluateFrame(frame: FrameNumber) returns (u: Update)
      modifies this
      ensures (State(), u) == Evaluate(old(State()), frame)
      ensures local == old(local) && remote == old(remote)
    {
      u := Update(false, false, false, frame, 0);
      var l := FindEntry(local, frame);
      var r := FindEntry(remote, frame);
      if l.None? || r.None? {
        return;
      }
      if local[l.value].crc32 == 0 || remote[r.value].crc32 == 0 {
        return;
      }
      if local[l.value].crc32 != remote[r.value].crc32 {
        if lastMismatchFrame != 0 && frame >= lastMismatchFrame {
          consecutiveMismatches := if consecutiveMismatches + 1 < 255 then consecutiveMismatches + 1 else 255;
        } else {
          consecutiveMismatches := 1;
        }
        lastMismatchFrame := frame;
        return Update(true, true, false, frame, consecutiveMismatches);
      }
      u := Update(true, false, lastMismatchFrame != 0 || consecutiveMismatches != 0, frame, 0);
      lastMismatchFrame, consecutiveMismatches := 0, 0;
    }

    method SubmitLocalCrc(e: Entry) returns (u: Update)
      requires Valid()
      modifies this
      ensures Valid() && State() == Step(old(State()), Local(e)) && u == Submit(old(State()), Local(e)).1
    {
      local := StoreEntry(local, e);
      u := EvaluateFrame(e.frame);
    }

    method SubmitRemoteCrc(e: Entry) returns (u: Update)
      requires Valid()
      modifies this
      ensures Valid() && State() == Step(old(State()), Remote(e)) && u == Submit(old(State()), Remote(e)).1
    {
      remote := StoreEntry(remote, e);
      u := EvaluateFrame(e.frame);
    }

    method InvalidateHistoryAfter(frame: FrameNumber)
      requires Valid()
      modifies this
      ensures Valid() && State() == Step(old(State()), Invalidate(frame))
    {
      while local != [] && local[|local| - 1].frame >= frame
        invariant DropTail(local, frame) == DropTail(old(local), frame) && |local| <= HISTORY_CAPACITY
        invariant State() == old(State()).(local := local)
        decreases |local|
      {
        local := local[..|local| - 1];
      }
      while remote != [] && remote[|remote| - 1].frame >= frame
        invariant DropTail(remote, frame) == DropTail(old(remote), frame) && |remote| <= HISTORY_CAPACITY
        invariant State() == old(State()).(local := DropTail(old(local), frame), remote := remote)
        decreases |remote|
      {
        remote := remote[..|remote| - 1];
      }
      if lastMismatchFrame >= frame {
        lastMismatchFrame, consecutiveMismatches := 0, 0;
      }
    }
  }
}

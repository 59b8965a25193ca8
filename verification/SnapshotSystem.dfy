/** The snapshot window: at most `capacity` snapshots in frame order. A snapshot
    of an older frame makes every newer one stale. The window is compared with
    a history that obeys the same rule and never forgets. */
module SnapshotSystem {
  import opened Wrappers
  import opened NetplayTypes
  import opened Sequences
  import Crc32

  type Data = seq<Crc32.ByteWord>

  datatype Snapshot = Snapshot(frame: FrameNumber, crc32: bv32, data: Data)

  function DataCrc(data: Data): bv32 { if data == [] then 0 else Crc32.RfcCrc(data) }

  function Taken(frame: FrameNumber, data: Data): Snapshot { Snapshot(frame, DataCrc(data), data) }

  datatype Window = Window(capacity: nat, records: seq<Snapshot>)

  datatype Op = Configure(capacity: nat) | Clear | Push(frame: FrameNumber, data: Data)

  /** The records without those at or after `frame` at its end. */
  function Before(rs: seq<Snapshot>, frame: FrameNumber): seq<Snapshot> {
    if rs != [] && rs[|rs| - 1].frame >= frame then Before(rs[..|rs| - 1], frame) else rs
  }

  /** The window after a snapshot, newest last. */
  function Pushed(w: Window, x: Snapshot): Window {
    if w.capacity == 0 then w else w.(records := LastN(Before(w.records, x.frame) + [x], w.capacity))
  }

  function Step(w: Window, op: Op): Window {
    match op
    case Configure(capacity) => Window(capacity, LastN(w.records, capacity))
    case Clear => w.(records := [])
    case Push(frame, data) => Pushed(w, Taken(frame, data))
  }

  function Run(ops: seq<Op>): Window {
    if ops == [] then Window(0, []) else Step(Run(ops[..|ops| - 1]), ops[|ops| - 1])
  }

  /** Everything pushed that no older push has made stale. */
  function History(ops: seq<Op>): seq<Snapshot> {
    if ops == [] then []
    else
      var h, op := History(ops[..|ops| - 1]), ops[|ops| - 1];
      match op
      case Configure(_) => h
      case Clear => []
      case Push(frame, data) => Before(h, frame) + [Taken(frame, data)]
  }

  function Find(rs: seq<Snapshot>, frame: FrameNumber): Option<Snapshot> {
    if rs == [] then None else if rs[0].frame == frame then Some(rs[0]) else Find(rs[1..], frame)
  }

  predicate Increasing(rs: seq<Snapshot>) {
    forall i, j :: 0 <= i < j < |rs| ==> rs[i].frame < rs[j].frame
  }

  predicate Genuine(rs: seq<Snapshot>) {
    forall i :: 0 <= i < |rs| ==> rs[i].crc32 == DataCrc(rs[i].data)
  }

  predicate Suffix(a: seq<Snapshot>, b: seq<Snapshot>) {
    |a| <= |b| && a == b[|b| - |a|..]
  }

  lemma {:induction false} BeforeIsPrefix(rs: seq<Snapshot>, frame: FrameNumber)
    requires Increasing(rs)
    ensures Before(rs, frame) <= rs
    ensures forall i :: 0 <= i < |rs| ==> (i < |Before(rs, frame)| <==> rs[i].frame < frame)
  {
    if rs != [] && rs[|rs| - 1].frame >= frame {
      BeforeIsPrefix(rs[..|rs| - 1], frame);
      assert forall i :: 0 <= i < |rs| - 1 ==> rs[..|rs| - 1][i] == rs[i];
    }
  }

  /** Rewinding keeps a suffix a suffix. */
  lemma {:induction false} BeforeKeepsSuffix(a: seq<Snapshot>, b: seq<Snapshot>, frame: FrameNumber)
    requires Suffix(a, b)
    ensures Suffix(Before(a, frame), Before(b, frame))
    decreases b
  {
    if a != [] && a[|a| - 1].frame >= frame {
      BeforeKeepsSuffix(a[..|a| - 1], b[..|b| - 1], frame);
    }
  }

  /** In every run the window is a suffix of the history, which is strictly
      increasing in frames. */
  lemma {:induction false} WindowIsSuffixOfHistory(ops: seq<Op>)
    ensures Suffix(Run(ops).records, History(ops))
    ensures Increasing(History(ops)) && Increasing(Run(ops).records)
    ensures |Run(ops).records| <= Run(ops).capacity
  {
    if ops != [] {
      var before, op := ops[..|ops| - 1], ops[|ops| - 1];
      WindowIsSuffixOfHistory(before);
      if op.Push? {
        PushKeepsSuffix(Run(before), History(before), Taken(op.frame, op.data));
      }
      SuffixIncreasing(Run(ops).records, History(ops));
    }
  }

  lemma SuffixIncreasing(a: seq<Snapshot>, b: seq<Snapshot>)
    requires Suffix(a, b) && Increasing(b)
    ensures Increasing(a)
  {
    assert forall i :: 0 <= i < |a| ==> a[i] == b[|b| - |a| + i];
  }

  lemma PushKeepsSuffix(w: Window, h: seq<Snapshot>, x: Snapshot)
    requires Suffix(w.records, h) && Increasing(h) && |w.records| <= w.capacity
    ensures var h' := Before(h, x.frame) + [x];
            && Suffix(Pushed(w, x).records, h') && Increasing(h')
            && |Pushed(w, x).records| <= w.capacity
  {
    BeforeSnocIncreasing(h, x);
    if w.capacity > 0 {
      var p, q := Before(w.records, x.frame), Before(h, x.frame);
      BeforeKeepsSuffix(w.records, h, x.frame);
      SuffixSnoc(p, q, x);
      SuffixLastN(p + [x], q + [x], w.capacity);
    }
  }

  lemma SuffixSnoc(a: seq<Snapshot>, b: seq<Snapshot>, x: Snapshot)
    requires Suffix(a, b)
    ensures Suffix(a + [x], b + [x])
  {}

  lemma SuffixLastN(a: seq<Snapshot>, b: seq<Snapshot>, n: nat)
    requires Suffix(a, b)
    ensures Suffix(LastN(a, n), b) && |LastN(a, n)| <= n
  {}

  lemma BeforeSnocIncreasing(h: seq<Snapshot>, x: Snapshot)
    requires Increasing(h)
    ensures Increasing(Before(h, x.frame) + [x])
  {
    BeforeIsPrefix(h, x.frame);
    var p := Before(h, x.frame);
    assert forall i :: 0 <= i < |p| ==> p[i] == h[i];
  }

  /** Every CRC in the history is the CRC of its data. */
  lemma {:induction false} HistoryIsGenuine(ops: seq<Op>)
    ensures Genuine(History(ops))
  {
    if ops != [] {
      var before, op := ops[..|ops| - 1], ops[|ops| - 1];
      HistoryIsGenuine(before);
      if op.Push? {
        WindowIsSuffixOfHistory(before);
        BeforeIsPrefix(History(before), op.frame);
      }
    }
  }

  lemma {:induction false} FindInIncreasing(rs: seq<Snapshot>, frame: FrameNumber)
    requires Increasing(rs)
    ensures forall i :: 0 <= i < |rs| && rs[i].frame == frame ==> Find(rs, frame) == Some(rs[i])
    ensures Find(rs, frame).Some? ==> Find(rs, frame).value in rs && Find(rs, frame).value.frame == frame
  {
    if rs != [] {
      FindInIncreasing(rs[1..], frame);
      forall i | 0 <= i < |rs| && rs[i].frame == frame ensures Find(rs, frame) == Some(rs[i]) {
        if i > 0 {
          assert rs[1..][i - 1] == rs[i];
        }
      }
    }
  }

  /** Whatever the run, a lookup answers nothing or exactly what the history
      that forgets nothing would answer, and a found CRC is that of its data. */
  lemma LookupsAgreeWithHistory(ops: seq<Op>, frame: FrameNumber)
    ensures var found := Find(Run(ops).records, frame);
            found == None || (found == Find(History(ops), frame) && found.value.crc32 == DataCrc(found.value.data))
  {
    WindowIsSuffixOfHistory(ops);
    HistoryIsGenuine(ops);
    FindInSuffix(Run(ops).records, History(ops), frame);
  }

  lemma FindInSuffix(rs: seq<Snapshot>, h: seq<Snapshot>, frame: FrameNumber)
    requires Suffix(rs, h) && Increasing(rs) && Increasing(h) && Genuine(h)
    ensures var found := Find(rs, frame);
            found == None || (found == Find(h, frame) && found.value.crc32 == DataCrc(found.value.data))
  {
    FindInIncreasing(rs, frame);
    FindInIncreasing(h, frame);
    if Find(rs, frame).Some? {
      var i :| 0 <= i < |rs| && rs[i] == Find(rs, frame).value;
      assert h[|h| - |rs| + i] == rs[i];
    }
  }

  /** Every CRC in the history is that of section 8 of RFC 1952, and 0 for empty data. */
  lemma HistoryCrcs(ops: seq<Op>, i: nat)
    requires i < |History(ops)|
    ensures var x := History(ops)[i]; x.crc32 == if x.data == [] then 0 else Crc32.RfcCrc(x.data)
  {
    HistoryIsGenuine(ops);
  }

  /** A push keeps every older snapshot that fits beside the new one, and is
      found afterwards, unless the capacity is 0, which keeps nothing. */
  lemma PushKeepsExactly(ops: seq<Op>, frame: FrameNumber, data: Data)
    ensures var w, w' := Run(ops), Run(ops + [Push(frame, data)]);
            && w'.capacity == w.capacity
            && (w.capacity == 0 ==> w'.records == [])
            && (w.capacity > 0 ==> w'.records != [] && w'.records[|w'.records| - 1].frame == frame)
            && (w.capacity > 0 ==> w'.records[|w'.records| - 1].data == data)
            && (w.capacity > 0 ==> w'.records[..|w'.records| - 1] == LastN(Before(w.records, frame), w.capacity - 1))
  {
    WindowIsSuffixOfHistory(ops);
    assert (ops + [Push(frame, data)])[..|ops|] == ops;
    LastNSnoc(Before(Run(ops).records, frame), Taken(frame, data), Run(ops).capacity);
  }

  lemma LastNSnoc(rs: seq<Snapshot>, x: Snapshot, n: nat)
    ensures n > 0 ==> LastN(rs + [x], n) == LastN(rs, n - 1) + [x]
  {}

  /** A new capacity keeps the newest snapshots that fit; clearing keeps none. */
  lemma ConfigureKeepsExactly(ops: seq<Op>, capacity: nat)
    ensures var w, w' := Run(ops), Run(ops + [Configure(capacity)]);
            w'.capacity == capacity && w'.records == LastN(w.records, capacity)
    ensures Run(ops + [Clear]) == Window(Run(ops).capacity, [])
  {
    assert (ops + [Configure(capacity)])[..|ops|] == ops && (ops + [Clear])[..|ops|] == ops;
  }

  class SnapshotStore {
    var capacity: nat
    var records: seq<Snapshot>

    ghost function State(): Window
      reads this
    {
      Window(capacity, records)
    }

    constructor ()
      ensures State() == Run([])
    {
      capacity, records := 0, [];
    }

    method Trim()
      modifies this`records
      ensures records == LastN(old(records), capacity)
    {
      while |records| > capacity
        invariant LastN(records, capacity) == LastN(old(records), capacity)
      {
        assert |records| - 1 > capacity ==> records[1..][|records| - 1 - capacity..] == records[|records| - capacity..];
        records := records[1..];
      }
    }

    method Configure(capacity: nat)
      modifies this
      ensures State() == Step(old(State()), Op.Configure(capacity))
    {
      this.capacity := capacity;
      Trim();
    }

    method Clear()
      modifies this
      ensures State() == Step(old(State()), Op.Clear)
    {
      records := [];
    }

    method Push(frame: FrameNumber, data: Data)
      modifies this`records
      ensures State() == Step(old(State()), Op.Push(frame, data))
    {
      if capacity == 0 {
        return;
      }
      while records != [] && records[|records| - 1].frame >= frame
        invariant Before(records, frame) == Before(old(records), frame)
        decreases |records|
      {
        records := records[..|records| - 1];
      }
      var crc: bv32 := 0;
      if data != [] {
        crc := Crc32.ComputeCrc32(data);
      }
      assert Snapshot(frame, crc, data) == Taken(frame, data);
      records := records + [Snapshot(frame, crc, data)];
      Trim();
    }

    method FindSnapshot(frame: FrameNumber) returns (r: Option<Snapshot>)
      ensures r == Find(records, frame)
    {
      for i := 0 to |records|
        invariant Find(records[i..], frame) == Find(records, frame)
      {
        assert records[i..][1..] == records[i + 1..];
        if records[i].frame == frame {
          return Some(records[i]);
        }
      }
      r := None;
    }
  }
}

/** The confirmed-input buffer driver: it produces local inputs ahead of the
    emulator and keeps a queue of confirmed frames for the emulation thread.

    `Step` says what each call does, in the simplest terms: a Running prepare
    builds the queue from scratch, a Running production fills one range of
    frames. The class `ConfirmedInputBufferDriver` does it the way the program
    does, by repairing the queue it already has and by two production loops,
    and is proved equal to `Step`. */
module PlaybackDriver {
  import opened Wrappers
  import opened NetplayTypes

  type PlayerSlot = s: nat | s < 256

  datatype Participant = Participant(id: nat, connected: bool, reconnectReserved: bool, observer: bool)

  datatype ConfirmedFrame<Input> = ConfirmedFrame(frame: FrameNumber, input: Input)

  datatype LocalInput<Input> = LocalInput(frame: FrameNumber, slot: PlayerSlot, input: Input)

  /** What the driver sees of the coordinator during one call. `playback(f)` is
      the answer of `tryBuildPlaybackFrame(f)`. */
  datatype Coordinator<Input> = Coordinator(
    active: bool,
    hosting: bool,
    localParticipantId: nat,
    participants: seq<Participant>,
    latestConfirmedFrame: FrameNumber,
    playback: FrameNumber -> Option<Input>)
  {
    function ConfirmedThrough(): FrameNumber {
      if active then latestConfirmedFrame else 0
    }

    predicate HasConnectedRemotePlayableInput() {
      hosting &&
      exists p :: p in participants &&
        p.id != localParticipantId && p.connected && !p.reconnectReserved && !p.observer
    }
  }

  datatype DriverState<Input> = DriverState(
    producedThrough: FrameNumber,
    queuedThrough: FrameNumber,
    prebuffer: nat,
    lastProduceHadLocalSlots: bool,
    pending: seq<ConfirmedFrame<Input>>)

  datatype Call<Input> =
    | Reset
    | Reanchor(anchor: FrameNumber)
    | SetPrebuffer(frames: nat)
    | Produce(active: bool, awaitingSync: bool, session: SessionState, localSlots: seq<PlayerSlot>,
              build: (PlayerSlot, FrameNumber) -> Input, exactFrame: FrameNumber, confirmedThrough: FrameNumber)
    | Prepare(coordinator: Coordinator<Input>, active: bool, awaitingSync: bool, session: SessionState,
              emulationFrame: FrameNumber, maxPlayback: Option<FrameNumber>)
    | Consume(currentFrame: FrameNumber, queueLimit: FrameNumber)

  const DEFAULT_PREBUFFER := 10

  function Fresh<Input>(): DriverState<Input> {
    DriverState(0, 0, DEFAULT_PREBUFFER, false, [])
  }

  // ---- What each call does --------------------------------------------------

  /** The inputs a Running production records: every frame of (lo, hi], in
      order, and for each frame every local slot, in order. */
  function Recordings<Input>(lo: FrameNumber, hi: FrameNumber, slots: seq<PlayerSlot>,
                             build: (PlayerSlot, FrameNumber) -> Input): seq<LocalInput<Input>>
    decreases hi
  {
    if hi <= lo then [] else Recordings(lo, hi - 1, slots, build) + SlotInputs(hi, slots, build)
  }

  function SlotInputs<Input>(frame: FrameNumber, slots: seq<PlayerSlot>,
                             build: (PlayerSlot, FrameNumber) -> Input): seq<LocalInput<Input>>
  {
    seq(|slots|, i requires 0 <= i < |slots| => LocalInput(frame, slots[i], build(slots[i], frame)))
  }

  /** The playback queue built from nothing: frames `first`, `first + 1`, ... up
      to `target`, stopping at the first one that cannot be built. */
  function Rebuild<Input>(first: FrameNumber, target: FrameNumber,
                          playback: FrameNumber -> Option<Input>): seq<ConfirmedFrame<Input>>
    decreases target + 1 - first
  {
    if first <= target && playback(first).Some?
    then [ConfirmedFrame(first, playback(first).value)] + Rebuild(first + 1, target, playback)
    else []
  }

  function TargetThrough<Input>(s: DriverState<Input>, c: Coordinator<Input>, emulationFrame: FrameNumber,
                                maxPlayback: Option<FrameNumber>): FrameNumber
  {
    var horizon := emulationFrame + s.prebuffer * 2 + 1;
    var waiting := c.hosting && !s.lastProduceHadLocalSlots && c.HasConnectedRemotePlayableInput();
    var target := if waiting then Min(c.ConfirmedThrough(), horizon)
                  else Min(Min(s.producedThrough, c.ConfirmedThrough()), horizon);
    if maxPlayback.Some? then Min(target, maxPlayback.value) else target
  }

  function LastFrame<Input>(q: seq<ConfirmedFrame<Input>>, otherwise: FrameNumber): FrameNumber {
    if q == [] then otherwise else q[|q| - 1].frame
  }

  predicate RunningCall<Input>(call: Call<Input>)
    requires call.Produce? || call.Prepare?
  {
    call.active && !call.awaitingSync && call.session == Running
  }

  predicate Resets<Input>(call: Call<Input>) {
    call.Reset? || ((call.Produce? || call.Prepare?) && !call.active)
  }

  function ResetState<Input>(s: DriverState<Input>): DriverState<Input> {
    DriverState(0, 0, s.prebuffer, false, [])
  }

  function Step<Input>(s: DriverState<Input>, call: Call<Input>): DriverState<Input> {
    if Resets(call) then ResetState(s) else
    match call
    case Reset => ResetState(s)
    case Reanchor(anchor) => DriverState(anchor, anchor, s.prebuffer, false, [])
    case SetPrebuffer(frames) => s.(prebuffer := frames)
    case Produce(_, awaitingSync, session, localSlots, _, exactFrame, confirmedThrough) =>
      if awaitingSync then s.(lastProduceHadLocalSlots := false, pending := [])
      else if session != Running then s
      else if localSlots == [] then
        var produced := Max(s.producedThrough, exactFrame + s.prebuffer);
        s.(lastProduceHadLocalSlots := false, producedThrough := produced,
           queuedThrough := Min(s.queuedThrough, produced))
      else
        s.(lastProduceHadLocalSlots := true,
           producedThrough := Max(Max(s.producedThrough, confirmedThrough), exactFrame + s.prebuffer),
           queuedThrough := Max(s.queuedThrough, confirmedThrough))
    case Prepare(c, _, awaitingSync, session, emulationFrame, maxPlayback) =>
      if awaitingSync || session != Running then s.(pending := [])
      else
        var queue := Rebuild(emulationFrame + 1, TargetThrough(s, c, emulationFrame, maxPlayback), c.playback);
        s.(pending := queue, queuedThrough := LastFrame(queue, emulationFrame))
    case Consume(currentFrame, _) => s.(pending := NotBefore(s.pending, currentFrame))
  }

  /** The inputs a call hands to `recordLocalInputFrame`. */
  function Recorded<Input>(s: DriverState<Input>, call: Call<Input>): seq<LocalInput<Input>> {
    if call.Produce? && RunningCall(call) && call.localSlots != []
    then Recordings(Max(s.producedThrough, call.confirmedThrough), call.exactFrame + s.prebuffer,
                    call.localSlots, call.build)
    else []
  }

  function NotBefore<Input>(q: seq<ConfirmedFrame<Input>>, frame: FrameNumber): seq<ConfirmedFrame<Input>> {
    if q == [] then []
    else (if q[0].frame >= frame then [q[0]] else []) + NotBefore(q[1..], frame)
  }

  function NotAfter<Input>(q: seq<ConfirmedFrame<Input>>, frame: FrameNumber): seq<ConfirmedFrame<Input>> {
    if q == [] then []
    else (if q[0].frame <= frame then [q[0]] else []) + NotAfter(q[1..], frame)
  }

  /** The frames a call hands to the emulation thread: those of the window. */
  function Delivered<Input>(s: DriverState<Input>, call: Call<Input>): seq<ConfirmedFrame<Input>> {
    if call.Consume? then NotAfter(NotBefore(s.pending, call.currentFrame), call.queueLimit) else []
  }

  predicate Contiguous<Input>(q: seq<ConfirmedFrame<Input>>) {
    forall i :: 0 <= i < |q| ==> q[i].frame == q[0].frame + i
  }

  // ---- The queue built from scratch ----------------------------------------

  ghost predicate FreshAt<Input>(q: seq<ConfirmedFrame<Input>>, i: nat, first: FrameNumber, target: FrameNumber,
                                 playback: FrameNumber -> Option<Input>)
  {
    i < |q| && q[i].frame == first + i && first + i <= target && playback(first + i) == Some(q[i].input)
  }

  ghost predicate FreshRun<Input>(q: seq<ConfirmedFrame<Input>>, first: FrameNumber, target: FrameNumber,
                                  playback: FrameNumber -> Option<Input>)
  {
    forall i :: 0 <= i < |q| ==> FreshAt(q, i, first, target, playback)
  }

  predicate Maximal<Input>(q: seq<ConfirmedFrame<Input>>, first: FrameNumber, target: FrameNumber,
                           playback: FrameNumber -> Option<Input>)
  {
    target < first + |q| || playback(first + |q|).None?
  }

  lemma {:induction false} RebuildIsRun<Input>(first: FrameNumber, target: FrameNumber,
                                               playback: FrameNumber -> Option<Input>)
    ensures FreshRun(Rebuild(first, target, playback), first, target, playback)
    ensures Maximal(Rebuild(first, target, playback), first, target, playback)
    decreases target + 1 - first
  {
    if first <= target && playback(first).Some? {
      RebuildIsRun(first + 1, target, playback);
      var tail := Rebuild(first + 1, target, playback);
      var q := Rebuild(first, target, playback);
      forall i | 1 <= i < |q|
        ensures FreshAt(q, i, first, target, playback)
      {
        assert FreshAt(tail, i - 1, first + 1, target, playback) && q[i] == tail[i - 1];
      }
    }
  }

  lemma LongestRunIsUnique<Input>(p: seq<ConfirmedFrame<Input>>, q: seq<ConfirmedFrame<Input>>,
                                  first: FrameNumber, target: FrameNumber, playback: FrameNumber -> Option<Input>)
    requires FreshRun(p, first, target, playback) && Maximal(p, first, target, playback)
    requires FreshRun(q, first, target, playback) && Maximal(q, first, target, playback)
    ensures p == q
  {
    assert |p| < |q| ==> FreshAt(q, |p|, first, target, playback);
    assert |q| < |p| ==> FreshAt(p, |q|, first, target, playback);
    forall i | 0 <= i < |p| ensures p[i] == q[i] {
      assert FreshAt(p, i, first, target, playback) && FreshAt(q, i, first, target, playback);
    }
  }

  /** `Rebuild` is the longest run: it is the one queue that starts at `first`,
      stays within `target`, holds fresh entries and cannot be extended. */
  lemma RebuildIsLongestRun<Input>(q: seq<ConfirmedFrame<Input>>, first: FrameNumber, target: FrameNumber,
                                   playback: FrameNumber -> Option<Input>)
    ensures q == Rebuild(first, target, playback) <==>
            FreshRun(q, first, target, playback) && Maximal(q, first, target, playback)
  {
    RebuildIsRun(first, target, playback);
    if FreshRun(q, first, target, playback) && Maximal(q, first, target, playback) {
      LongestRunIsUnique(q, Rebuild(first, target, playback), first, target, playback);
    }
  }

  lemma RunningPrepareQueue<Input>(s: DriverState<Input>, call: Call<Input>)
    requires call.Prepare? && RunningCall(call)
    ensures var q := Step(s, call).pending;
            && |q| <= 2 * s.prebuffer + 1
            && (forall e :: e in q ==> call.emulationFrame < e.frame <= call.coordinator.ConfirmedThrough()
                                       && call.coordinator.playback(e.frame) == Some(e.input)
                                       && (call.maxPlayback.Some? ==> e.frame <= call.maxPlayback.value))
            && Contiguous(q)
  {
    var target := TargetThrough(s, call.coordinator, call.emulationFrame, call.maxPlayback);
    var q := Step(s, call).pending;
    RebuildIsLongestRun(q, call.emulationFrame + 1, target, call.coordinator.playback);
    if q != [] {
      assert FreshAt(q, |q| - 1, call.emulationFrame + 1, target, call.coordinator.playback);
    }
    forall i | 0 <= i < |q|
      ensures q[i].frame == call.emulationFrame + 1 + i <= target &&
              call.coordinator.playback(q[i].frame) == Some(q[i].input)
    {
      assert FreshAt(q, i, call.emulationFrame + 1, target, call.coordinator.playback);
    }
  }

  ghost predicate HoldsFrame<Input>(q: seq<ConfirmedFrame<Input>>, f: FrameNumber) {
    exists i :: 0 <= i < |q| && q[i].frame == f
  }

  lemma RunHoldsExactly<Input>(q: seq<ConfirmedFrame<Input>>, first: FrameNumber, target: FrameNumber,
                               playback: FrameNumber -> Option<Input>, f: FrameNumber)
    requires FreshRun(q, first, target, playback) && Maximal(q, first, target, playback)
    ensures HoldsFrame(q, f) <==> first <= f <= target && forall g :: first <= g <= f ==> playback(g).Some?
  {
    if HoldsFrame(q, f) {
      var i :| 0 <= i < |q| && q[i].frame == f;
      assert FreshAt(q, i, first, target, playback);
      forall g | first <= g <= f ensures playback(g).Some? {
        assert FreshAt(q, g - first, first, target, playback);
      }
    }
    var next := first + |q|;
    assert target < next || playback(next).None?;
    if first <= f <= target && forall g :: first <= g <= f ==> playback(g).Some? {
      assert f < next;
      assert FreshAt(q, f - first, first, target, playback);
    }
  }

  /** Exactly which frames a prepare queues: those of the next 2 * prebuffer + 1
      that are confirmed, within the cap, produced (unless this host has no local
      slots and waits for another playing participant), and that can be built
      together with every frame before them. */
  lemma PreparedExactly<Input>(s: DriverState<Input>, call: Call<Input>, f: FrameNumber)
    requires call.Prepare?
    ensures var c := call.coordinator;
            HoldsFrame(Step(s, call).pending, f) <==>
            && call.active && !call.awaitingSync && call.session == Running
            && call.emulationFrame < f <= call.emulationFrame + 2 * s.prebuffer + 1
            && f <= (if c.active then c.latestConfirmedFrame else 0)
            && (call.maxPlayback.Some? ==> f <= call.maxPlayback.value)
            && (f <= s.producedThrough ||
                (c.hosting && !s.lastProduceHadLocalSlots &&
                 exists p :: p in c.participants && p.id != c.localParticipantId && p.connected &&
                   !p.reconnectReserved && !p.observer))
            && forall g :: call.emulationFrame < g <= f ==> c.playback(g).Some?
    ensures forall e :: e in Step(s, call).pending ==> call.coordinator.playback(e.frame) == Some(e.input)
  {
    if call.active && !call.awaitingSync && call.session == Running {
      var target := TargetThrough(s, call.coordinator, call.emulationFrame, call.maxPlayback);
      var q := Step(s, call).pending;
      RebuildIsLongestRun(q, call.emulationFrame + 1, target, call.coordinator.playback);
      RunHoldsExactly(q, call.emulationFrame + 1, target, call.coordinator.playback, f);
      TargetReaches(s, call.coordinator, call.emulationFrame, call.maxPlayback, f);
      RunningPrepareQueue(s, call);
    }
  }

  lemma TargetReaches<Input>(s: DriverState<Input>, c: Coordinator<Input>, emulationFrame: FrameNumber,
                             maxPlayback: Option<FrameNumber>, f: FrameNumber)
    ensures f <= TargetThrough(s, c, emulationFrame, maxPlayback) <==>
            && f <= emulationFrame + 2 * s.prebuffer + 1
            && f <= (if c.active then c.latestConfirmedFrame else 0)
            && (maxPlayback.Some? ==> f <= maxPlayback.value)
            && (f <= s.producedThrough ||
                (c.hosting && !s.lastProduceHadLocalSlots &&
                 exists p :: p in c.participants && p.id != c.localParticipantId && p.connected &&
                   !p.reconnectReserved && !p.observer))
  {}

  /** After a Running prepare the queue reaches exactly through the frame that
      `queuedThrough` says. */
  lemma QueuedThroughExactly<Input>(s: DriverState<Input>, call: Call<Input>, f: FrameNumber)
    requires call.Prepare? && call.active && !call.awaitingSync && call.session == Running
    ensures call.emulationFrame <= Step(s, call).queuedThrough
    ensures HoldsFrame(Step(s, call).pending, f) <==> call.emulationFrame < f <= Step(s, call).queuedThrough
  {
    var q := Step(s, call).pending;
    RunningPrepareQueue(s, call);
    if q != [] {
      var target := TargetThrough(s, call.coordinator, call.emulationFrame, call.maxPlayback);
      RebuildIsLongestRun(q, call.emulationFrame + 1, target, call.coordinator.playback);
      assert FreshAt(q, 0, call.emulationFrame + 1, target, call.coordinator.playback);
      if call.emulationFrame < f <= Step(s, call).queuedThrough {
        assert q[f - call.emulationFrame - 1].frame == f;
      }
    }
  }

  // ---- Whole runs ------------------------------------------------------------

  function Final<Input>(calls: seq<Call<Input>>): DriverState<Input> {
    if calls == [] then Fresh() else Step(Final(calls[..|calls| - 1]), calls[|calls| - 1])
  }

  /** The coordinator of the last Running prepare, if there was one. */
  function LastPrepared<Input>(calls: seq<Call<Input>>): Option<Coordinator<Input>> {
    if calls == [] then None
    else
      var last := calls[|calls| - 1];
      if last.Prepare? && RunningCall(last) then Some(last.coordinator) else LastPrepared(calls[..|calls| - 1])
  }

  ghost predicate BuiltBy<Input>(q: seq<ConfirmedFrame<Input>>, c: Option<Coordinator<Input>>) {
    forall e :: e in q ==>
      c.Some? && e.frame <= c.value.ConfirmedThrough() && c.value.playback(e.frame) == Some(e.input)
  }

  lemma {:induction false} NotBeforeIsSuffix<Input>(q: seq<ConfirmedFrame<Input>>, frame: FrameNumber) returns (k: nat)
    requires Contiguous(q)
    ensures k <= |q| && NotBefore(q, frame) == q[k..] && SplitsAt(q, frame, k)
  {
    if q == [] {
      k := 0;
    } else {
      assert forall i :: 0 <= i < |q[1..]| ==> q[1..][i] == q[i + 1];
      var j := NotBeforeIsSuffix(q[1..], frame);
      if q[0].frame < frame {
        k := j + 1;
        assert q[1..][j..] == q[k..];
      } else {
        k := 0;
        if q[1..] != [] {
          assert q[1..][0].frame >= frame;
        }
        assert [q[0]] + q[1..] == q;
      }
      SplitsAtTail(q, frame, j, k);
    }
  }

  /** The first k frames, and no others, are before `frame`. */
  predicate SplitsAt<Input>(q: seq<ConfirmedFrame<Input>>, frame: FrameNumber, k: nat) {
    forall i :: 0 <= i < |q| ==> (i < k <==> q[i].frame < frame)
  }

  lemma SplitsAtTail<Input>(q: seq<ConfirmedFrame<Input>>, frame: FrameNumber, j: nat, k: nat)
    requires q != [] && Contiguous(q) && SplitsAt(q[1..], frame, j)
    requires k == if q[0].frame < frame then j + 1 else 0
    ensures SplitsAt(q, frame, k)
  {
    forall i | 0 <= i < |q| ensures i < k <==> q[i].frame < frame {
      if i > 0 {
        assert q[i] == q[1..][i - 1];
      }
    }
  }

  lemma {:induction false} NotAfterIsPrefix<Input>(q: seq<ConfirmedFrame<Input>>, frame: FrameNumber) returns (k: nat)
    requires Contiguous(q)
    ensures k <= |q| && NotAfter(q, frame) == q[..k]
    ensures forall i :: 0 <= i < |q| ==> (i < k <==> q[i].frame <= frame)
  {
    if q == [] {
      k := 0;
    } else {
      assert forall i :: 0 <= i < |q[1..]| ==> q[1..][i] == q[i + 1];
      var j := NotAfterIsPrefix(q[1..], frame);
      if q[0].frame <= frame {
        k := j + 1;
        assert [q[0]] + q[1..][..j] == q[..k];
      } else {
        k := 0;
        if q[1..] != [] {
          assert q[1..][0].frame > frame;
        }
      }
      forall i | 0 <= i < |q| ensures i < k <==> q[i].frame <= frame {
        assert i > 0 ==> q[i] == q[1..][i - 1];
      }
    }
  }

  /** In every reachable state the queue is contiguous, and every entry still in
      it is what the last Running prepare's coordinator confirmed and built. */
  lemma {:induction false} ReachableQueue<Input>(calls: seq<Call<Input>>)
    ensures Contiguous(Final(calls).pending)
    ensures BuiltBy(Final(calls).pending, LastPrepared(calls))
  {
    if calls != [] {
      var before, call := calls[..|calls| - 1], calls[|calls| - 1];
      ReachableQueue(before);
      var s := Final(before);
      if call.Prepare? && RunningCall(call) {
        RunningPrepareQueue(s, call);
      } else if call.Consume? {
        var k := NotBeforeIsSuffix(s.pending, call.currentFrame);
      }
    }
  }

  /** Whatever the run, a frame handed to the emulation thread lies in the asked
      window and is a confirmed frame of the last Running prepare. */
  lemma DeliveredFramesAreConfirmed<Input>(calls: seq<Call<Input>>, currentFrame: FrameNumber, queueLimit: FrameNumber)
    ensures var out := Delivered(Final(calls), Consume(currentFrame, queueLimit));
            && Contiguous(out)
            && BuiltBy(out, LastPrepared(calls))
            && (forall e :: e in out ==> e in Final(calls).pending && currentFrame <= e.frame <= queueLimit)
            && (forall e :: e in Final(calls).pending && currentFrame <= e.frame <= queueLimit ==> e in out)
  {
    ReachableQueue(calls);
    var q := Final(calls).pending;
    WindowOfQueue(q, currentFrame, queueLimit);
    BuiltBySubset(q, NotAfter(NotBefore(q, currentFrame), queueLimit), LastPrepared(calls));
  }

  lemma BuiltBySubset<Input>(q: seq<ConfirmedFrame<Input>>, out: seq<ConfirmedFrame<Input>>,
                             c: Option<Coordinator<Input>>)
    requires BuiltBy(q, c) && forall e :: e in out ==> e in q
    ensures BuiltBy(out, c)
  {}

  lemma WindowOfQueue<Input>(q: seq<ConfirmedFrame<Input>>, lo: FrameNumber, hi: FrameNumber)
    requires Contiguous(q)
    ensures Contiguous(NotAfter(NotBefore(q, lo), hi))
    ensures forall e :: e in NotAfter(NotBefore(q, lo), hi) ==> e in q && lo <= e.frame <= hi
    ensures forall e :: e in q && lo <= e.frame <= hi ==> e in NotAfter(NotBefore(q, lo), hi)
  {
    var k := NotBeforeIsSuffix(q, lo);
    var m := NotAfterIsPrefix(q[k..], hi);
    assert q[k..][..m] == q[k..k + m];
    forall e | e in q[k..k + m] ensures e in q && lo <= e.frame <= hi {
      WindowMembership(q, k, m, lo, hi, e);
    }
    forall e | e in q && lo <= e.frame <= hi ensures e in q[k..k + m] {
      WindowMembership(q, k, m, lo, hi, e);
    }
  }

  lemma WindowMembership<Input>(q: seq<ConfirmedFrame<Input>>, k: nat, m: nat, lo: FrameNumber, hi: FrameNumber,
                                e: ConfirmedFrame<Input>)
    requires k + m <= |q|
    requires forall i :: 0 <= i < |q| ==> (i < k <==> q[i].frame < lo)
    requires forall i :: 0 <= i < |q[k..]| ==> (i < m <==> q[k..][i].frame <= hi)
    ensures e in q[k..k + m] <==> e in q && lo <= e.frame <= hi
  {
    if e in q && lo <= e.frame <= hi {
      var i :| 0 <= i < |q| && q[i] == e;
      assert q[k..][i - k] == e;
      assert q[k..k + m][i - k] == e;
    }
    if e in q[k..k + m] {
      var i :| 0 <= i < m && q[k..k + m][i] == e;
      assert q[k..][i] == e && q[k + i] == e;
    }
  }

  /** Preparing for a frame and consuming right away hands over the longest run
      that starts at the next frame and stays within the queue limit. */
  lemma PrepareThenConsume<Input>(s: DriverState<Input>, call: Call<Input>, queueLimit: FrameNumber)
    requires call.Prepare? && RunningCall(call)
    ensures var target := TargetThrough(s, call.coordinator, call.emulationFrame, call.maxPlayback);
            Delivered(Step(s, call), Consume(call.emulationFrame, queueLimit)) ==
            Rebuild(call.emulationFrame + 1, Min(target, queueLimit), call.coordinator.playback)
  {
    var target := TargetThrough(s, call.coordinator, call.emulationFrame, call.maxPlayback);
    var q := Rebuild(call.emulationFrame + 1, target, call.coordinator.playback);
    RebuildNotBefore(call.emulationFrame + 1, target, call.coordinator.playback, call.emulationFrame);
    RebuildNotAfter(call.emulationFrame + 1, target, call.coordinator.playback, queueLimit);
    assert Step(s, call).pending == q;
  }

  /** Exactly which frames preparing and consuming right away hands over: those the
      prepare queues, up to the queue limit. */
  lemma DeliversExactly<Input>(s: DriverState<Input>, call: Call<Input>, queueLimit: FrameNumber, f: FrameNumber)
    requires call.Prepare? && call.active && !call.awaitingSync && call.session == Running
    ensures var c, out := call.coordinator, Delivered(Step(s, call), Consume(call.emulationFrame, queueLimit));
            && Contiguous(out)
            && (forall e :: e in out ==> c.playback(e.frame) == Some(e.input))
            && (HoldsFrame(out, f) <==>
                && f <= queueLimit
                && call.emulationFrame < f <= call.emulationFrame + 2 * s.prebuffer + 1
                && f <= (if c.active then c.latestConfirmedFrame else 0)
                && (call.maxPlayback.Some? ==> f <= call.maxPlayback.value)
                && (f <= s.producedThrough ||
                    (c.hosting && !s.lastProduceHadLocalSlots &&
                     exists p :: p in c.participants && p.id != c.localParticipantId && p.connected &&
                       !p.reconnectReserved && !p.observer))
                && forall g :: call.emulationFrame < g <= f ==> c.playback(g).Some?)
  {
    var q := Step(s, call).pending;
    RunningPrepareQueue(s, call);
    PreparedExactly(s, call, f);
    WindowHolds(q, call.emulationFrame, queueLimit, f);
    WindowOfQueue(q, call.emulationFrame, queueLimit);
  }

  lemma WindowHolds<Input>(q: seq<ConfirmedFrame<Input>>, lo: FrameNumber, hi: FrameNumber, f: FrameNumber)
    requires Contiguous(q)
    ensures HoldsFrame(NotAfter(NotBefore(q, lo), hi), f) <==> HoldsFrame(q, f) && lo <= f <= hi
  {
    var out := NotAfter(NotBefore(q, lo), hi);
    WindowOfQueue(q, lo, hi);
    if HoldsFrame(q, f) && lo <= f <= hi {
      var i :| 0 <= i < |q| && q[i].frame == f;
      assert q[i] in out;
    }
    if HoldsFrame(out, f) {
      var i :| 0 <= i < |out| && out[i].frame == f;
      assert out[i] in out;
    }
  }

  lemma {:induction false} RebuildNotBefore<Input>(first: FrameNumber, target: FrameNumber,
                                                   playback: FrameNumber -> Option<Input>,
                                                   frame: FrameNumber)
    requires frame <= first
    ensures NotBefore(Rebuild(first, target, playback), frame) == Rebuild(first, target, playback)
    decreases target + 1 - first
  {
    var q := Rebuild(first, target, playback);
    if q != [] {
      RebuildNotBefore(first + 1, target, playback, frame);
      assert q[1..] == Rebuild(first + 1, target, playback);
    }
  }

  lemma {:induction false} RebuildNotAfter<Input>(first: FrameNumber, target: FrameNumber,
                                                  playback: FrameNumber -> Option<Input>,
                                                  limit: FrameNumber)
    ensures NotAfter(Rebuild(first, target, playback), limit) == Rebuild(first, Min(target, limit), playback)
    decreases target + 1 - first
  {
    var q := Rebuild(first, target, playback);
    if q != [] {
      RebuildNotAfter(first + 1, target, playback, limit);
      assert q[1..] == Rebuild(first + 1, target, playback);
    }
  }

  // ---- Production over whole runs ------------------------------------------

  predicate Distinct(slots: seq<PlayerSlot>) {
    forall i, j :: 0 <= i < j < |slots| ==> slots[i] != slots[j]
  }

  /** Recorded exactly: every frame of (lo, hi] for every slot, nothing else. */
  lemma {:induction false} RecordingsExact<Input>(lo: FrameNumber, hi: FrameNumber, slots: seq<PlayerSlot>,
                                                  build: (PlayerSlot, FrameNumber) -> Input, x: LocalInput<Input>)
    ensures x in Recordings(lo, hi, slots, build) <==>
            lo < x.frame <= hi && x.slot in slots && x.input == build(x.slot, x.frame)
    decreases hi
  {
    if lo < hi {
      RecordingsExact(lo, hi - 1, slots, build, x);
      var last := SlotInputs(hi, slots, build);
      if x.frame == hi && x.slot in slots && x.input == build(x.slot, hi) {
        var i :| 0 <= i < |slots| && slots[i] == x.slot;
        assert last[i] == x;
      }
    }
  }

  ghost predicate OnceEach<Input>(log: seq<LocalInput<Input>>) {
    forall i, j :: 0 <= i < j < |log| ==>
      log[i].frame <= log[j].frame && (log[i].frame == log[j].frame ==> log[i].slot != log[j].slot)
  }

  lemma OnceEachAppend<Input>(a: seq<LocalInput<Input>>, b: seq<LocalInput<Input>>, bound: FrameNumber)
    requires OnceEach(a) && OnceEach(b)
    requires forall x :: x in a ==> x.frame <= bound
    requires forall x :: x in b ==> bound < x.frame
    ensures OnceEach(a + b)
  {
    var c := a + b;
    forall i, j | 0 <= i < j < |c|
      ensures c[i].frame <= c[j].frame && (c[i].frame == c[j].frame ==> c[i].slot != c[j].slot)
    {
      assert i < |a| ==> c[i] in a;
      assert j >= |a| ==> c[j] in b;
    }
  }

  lemma {:induction false} RecordingsOnceEach<Input>(lo: FrameNumber, hi: FrameNumber, slots: seq<PlayerSlot>,
                                                     build: (PlayerSlot, FrameNumber) -> Input)
    requires Distinct(slots)
    ensures OnceEach(Recordings(lo, hi, slots, build))
    decreases hi
  {
    if lo < hi {
      RecordingsOnceEach(lo, hi - 1, slots, build);
      forall x | x in Recordings(lo, hi - 1, slots, build) ensures x.frame <= hi - 1 {
        RecordingsExact(lo, hi - 1, slots, build, x);
      }
      OnceEachAppend(Recordings(lo, hi - 1, slots, build), SlotInputs(hi, slots, build), hi - 1);
    }
  }

  predicate KeepsTimeline<Input>(call: Call<Input>) {
    !Resets(call) && !call.Reanchor?
  }

  /** Everything recorded by a run that starts in state `s`. */
  function RecordedBy<Input>(s: DriverState<Input>, calls: seq<Call<Input>>): seq<LocalInput<Input>>
    decreases calls
  {
    if calls == [] then [] else Recorded(s, calls[0]) + RecordedBy(Step(s, calls[0]), calls[1..])
  }

  function After<Input>(s: DriverState<Input>, calls: seq<Call<Input>>): DriverState<Input>
    decreases calls
  {
    if calls == [] then s else After(Step(s, calls[0]), calls[1..])
  }

  /** Between resets and reanchors, production only moves forward; recorded
      frames never go back, no (frame, slot) is recorded twice, and nothing at
      or below what had been produced is recorded again. */
  lemma {:induction false} RecordedOnceOverRuns<Input>(s: DriverState<Input>, calls: seq<Call<Input>>)
    requires forall c :: c in calls ==> KeepsTimeline(c) && (c.Produce? ==> Distinct(c.localSlots))
    ensures OnceEach(RecordedBy(s, calls))
    ensures forall x :: x in RecordedBy(s, calls) ==> s.producedThrough < x.frame <= After(s, calls).producedThrough
    ensures s.producedThrough <= After(s, calls).producedThrough
    decreases calls
  {
    if calls != [] {
      var call, rest := calls[0], calls[1..];
      var t := Step(s, call);
      RecordedOnceOverRuns(t, rest);
      ProductionReaches(s, call);
      RecordedOnce(s, call);
      OnceEachAppend(Recorded(s, call), RecordedBy(t, rest), t.producedThrough);
    }
  }

  lemma RecordedOnce<Input>(s: DriverState<Input>, call: Call<Input>)
    requires call.Produce? ==> Distinct(call.localSlots)
    ensures OnceEach(Recorded(s, call))
  {
    if Recorded(s, call) != [] {
      RecordingsOnceEach(Max(s.producedThrough, call.confirmedThrough), call.exactFrame + s.prebuffer,
                         call.localSlots, call.build);
    }
  }

  /** One production call: nothing at or below the confirmed frontier or at or
      below what was produced is recorded, and a Running call leaves production
      at or beyond exactFrame + prebuffer. */
  lemma ProductionReaches<Input>(s: DriverState<Input>, call: Call<Input>)
    requires KeepsTimeline(call)
    ensures s.producedThrough <= Step(s, call).producedThrough
    ensures call.Produce? && RunningCall(call) ==> call.exactFrame + s.prebuffer <= Step(s, call).producedThrough
    ensures forall x :: x in Recorded(s, call) ==>
              Max(s.producedThrough, call.confirmedThrough) < x.frame <= Step(s, call).producedThrough
  {
    if call.Produce? && RunningCall(call) && call.localSlots != [] {
      forall x | x in Recorded(s, call)
        ensures Max(s.producedThrough, call.confirmedThrough) < x.frame <= Step(s, call).producedThrough
      {
        RecordingsExact(Max(s.producedThrough, call.confirmedThrough), call.exactFrame + s.prebuffer,
                        call.localSlots, call.build, x);
      }
    }
  }

  /** Exactly which inputs a production records: for every local slot, every
      frame above the production mark and the confirmed frontier and up to
      exactFrame + prebuffer. */
  lemma RecordedExactly<Input>(s: DriverState<Input>, call: Call<Input>, x: LocalInput<Input>)
    requires call.Produce?
    ensures x in Recorded(s, call) <==>
            && call.active && !call.awaitingSync && call.session == Running
            && x.slot in call.localSlots && x.input == call.build(x.slot, x.frame)
            && s.producedThrough < x.frame && call.confirmedThrough < x.frame <= call.exactFrame + s.prebuffer
  {
    RecordingsExact(Max(s.producedThrough, call.confirmedThrough), call.exactFrame + s.prebuffer,
                    call.localSlots, call.build, x);
  }

  /** How far a production leaves the marks: frames at or below either are those
      at or below one of the named bounds. */
  lemma MarksAfterProduction<Input>(s: DriverState<Input>, call: Call<Input>, f: FrameNumber)
    requires call.Produce? && call.active && !call.awaitingSync && call.session == Running
    ensures var t := Step(s, call);
            && (f <= t.producedThrough <==>
                f <= s.producedThrough || f <= call.exactFrame + s.prebuffer ||
                (call.localSlots != [] && f <= call.confirmedThrough))
            && (f <= t.queuedThrough <==>
                if call.localSlots == [] then f <= s.queuedThrough && f <= t.producedThrough
                else f <= s.queuedThrough || f <= call.confirmedThrough)
            && t.pending == s.pending && t.prebuffer == s.prebuffer
            && (t.lastProduceHadLocalSlots <==> call.localSlots != [])
  {}

  /** Production that is not Running leaves the marks alone, unless the session
      is inactive; waiting for a sync empties the queue. */
  lemma IdleProduction<Input>(s: DriverState<Input>, call: Call<Input>)
    requires call.Produce? && (!call.active || call.awaitingSync || call.session != Running)
    ensures var t := Step(s, call);
            && t.prebuffer == s.prebuffer
            && t.pending == (if call.active && !call.awaitingSync then s.pending else [])
            && t.producedThrough == (if call.active then s.producedThrough else 0)
            && t.queuedThrough == (if call.active then s.queuedThrough else 0)
            && (t.lastProduceHadLocalSlots <==> s.lastProduceHadLocalSlots && call.active && !call.awaitingSync)
  {}

  /** After a reanchor production goes on right behind the anchor; after a reset
      it goes on behind frame 0; neither leaves a frame queued. */
  lemma ProductionAfterRestart<Input>(s: DriverState<Input>, restart: Call<Input>, call: Call<Input>,
                                      x: LocalInput<Input>)
    requires restart.Reset? || restart.Reanchor?
    requires call.Produce? && call.active && !call.awaitingSync && call.session == Running
    ensures Step(s, restart).pending == []
    ensures x in Recorded(Step(s, restart), call) <==>
            && x.slot in call.localSlots && x.input == call.build(x.slot, x.frame)
            && (if restart.Reset? then 0 else restart.anchor) < x.frame
            && call.confirmedThrough < x.frame <= call.exactFrame + s.prebuffer
  {
    RecordedExactly(Step(s, restart), call, x);
  }

  /** A new driver is ten frames ahead. */
  lemma FirstProduction<Input>(call: Call<Input>, x: LocalInput<Input>)
    requires call.Produce? && call.active && !call.awaitingSync && call.session == Running
    requires call.exactFrame == 0 && call.confirmedThrough == 0
    ensures x in Recorded(Fresh(), call) <==>
            x.slot in call.localSlots && x.input == call.build(x.slot, x.frame) && 1 <= x.frame <= 10
    ensures !Fresh<Input>().lastProduceHadLocalSlots && Fresh<Input>().pending == []
  {
    RecordedExactly(Fresh(), call, x);
  }

  /** Consuming keeps exactly the frames from the current one on. */
  lemma ConsumedExactly<Input>(s: DriverState<Input>, call: Call<Input>)
    requires Contiguous(s.pending) && call.Consume?
    ensures forall e :: e in Step(s, call).pending ==> e in s.pending && e.frame >= call.currentFrame
    ensures forall e :: e in s.pending && e.frame >= call.currentFrame ==> e in Step(s, call).pending
  {
    var k := NotBeforeIsSuffix(s.pending, call.currentFrame);
    forall e | e in s.pending && e.frame >= call.currentFrame ensures e in s.pending[k..] {
      var i :| 0 <= i < |s.pending| && s.pending[i] == e;
      assert s.pending[k..][i - k] == e;
    }
  }

  /** Setting the prebuffer changes nothing else. */
  lemma PrebufferIsSet<Input>(s: DriverState<Input>, frames: nat)
    ensures var s' := Step(s, Call<Input>.SetPrebuffer(frames));
            s'.prebuffer == frames && s'.(prebuffer := s.prebuffer) == s
  {}

  /** With fixed local slots nothing is skipped: every frame produced during the
      run was recorded for every slot, unless some call found it confirmed. */
  lemma {:induction false} ProducedFramesAreRecorded<Input>(s: DriverState<Input>, calls: seq<Call<Input>>,
                                                            slots: seq<PlayerSlot>, f: FrameNumber, slot: PlayerSlot)
    requires slot in slots
    requires forall c :: c in calls ==> KeepsTimeline(c) && (c.Produce? ==> c.localSlots == slots)
    requires s.producedThrough < f <= After(s, calls).producedThrough
    ensures (exists x :: x in RecordedBy(s, calls) && x.frame == f && x.slot == slot)
         || (exists c :: c in calls && c.Produce? && f <= c.confirmedThrough)
    decreases calls
  {
    var call, rest := calls[0], calls[1..];
    var t := Step(s, call);
    if f <= t.producedThrough {
      if f > call.confirmedThrough {
        var x := LocalInput(f, slot, call.build(slot, f));
        RecordingsExact(Max(s.producedThrough, call.confirmedThrough), call.exactFrame + s.prebuffer,
                        slots, call.build, x);
        assert x in Recorded(s, call);
      }
    } else {
      ProducedFramesAreRecorded(t, rest, slots, f, slot);
      if x :| x in RecordedBy(t, rest) && x.frame == f && x.slot == slot {
        assert x in RecordedBy(s, calls);
      }
    }
  }

  // ---- The driver itself ------------------------------------------------------

  class ConfirmedInputBufferDriver<Input> {
    var producedThrough: FrameNumber
    var queuedThrough: FrameNumber
    var prebuffer: nat
    var lastProduceHadLocalSlots: bool
    var pending: seq<ConfirmedFrame<Input>>

    ghost predicate Valid()
      reads this
    {
      Contiguous(pending)
    }

    ghost function State(): DriverState<Input>
      reads this
    {
      DriverState(producedThrough, queuedThrough, prebuffer, lastProduceHadLocalSlots, pending)
    }

    constructor ()
      ensures Valid() && State() == Fresh()
    {
      producedThrough, queuedThrough, prebuffer := 0, 0, DEFAULT_PREBUFFER;
      lastProduceHadLocalSlots, pending := false, [];
    }

    method Reset()
      modifies this
      ensures Valid() && State() == Step(old(State()), Call<Input>.Reset)
    {
      producedThrough, queuedThrough := 0, 0;
      lastProduceHadLocalSlots, pending := false, [];
    }

    method Reanchor(frame: FrameNumber)
      modifies this
      ensures Valid() && State() == Step(old(State()), Call<Input>.Reanchor(frame))
    {
      producedThrough, queuedThrough := frame, frame;
      lastProduceHadLocalSlots, pending := false, [];
    }

    method SetPrebufferFrames(frames: nat)
      requires Valid()
      modifies this
      ensures Valid() && State() == Step(old(State()), Call<Input>.SetPrebuffer(frames))
    {
      prebuffer := frames;
    }

    /** Produces every frame up to `target`, for every local slot, appending to
        the inputs `log` already recorded since frame `lo`. */
    method ProduceThrough(target: FrameNumber, localSlots: seq<PlayerSlot>, build: (PlayerSlot, FrameNumber) -> Input,
                          ghost lo: FrameNumber, log: seq<LocalInput<Input>>)
      returns (recorded: seq<LocalInput<Input>>)
      requires lo <= producedThrough && log == Recordings(lo, producedThrough, localSlots, build)
      modifies this`producedThrough
      ensures producedThrough == Max(old(producedThrough), target)
      ensures recorded == Recordings(lo, producedThrough, localSlots, build)
    {
      recorded := log;
      while producedThrough < target
        invariant old(producedThrough) <= producedThrough <= Max(old(producedThrough), target)
        invariant recorded == Recordings(lo, producedThrough, localSlots, build)
      {
        producedThrough := producedThrough + 1;
        ghost var before := recorded;
        ghost var all := SlotInputs(producedThrough, localSlots, build);
        for i := 0 to |localSlots|
          invariant recorded == before + all[..i]
        {
          recorded := recorded + [LocalInput(producedThrough, localSlots[i], build(localSlots[i], producedThrough))];
          assert all[..i + 1] == all[..i] + [all[i]];
        }
        assert all[..|localSlots|] == all;
      }
    }

    /** Seeds the initial prebuffer and then fills up to exactFrame + prebuffer:
        two loops that together record what one loop would. */
    method ProduceLocalBufferedInputs(active: bool, awaitingSync: bool, session: SessionState,
                                      localSlots: seq<PlayerSlot>,
                                      build: (PlayerSlot, FrameNumber) -> Input, exactFrame: FrameNumber,
                                      confirmedThroughFrame: FrameNumber)
      returns (recorded: seq<LocalInput<Input>>)
      requires Valid()
      modifies this
      ensures var call := Produce(active, awaitingSync, session, localSlots, build, exactFrame, confirmedThroughFrame);
              Valid() && State() == Step(old(State()), call) && recorded == Recorded(old(State()), call)
    {
      recorded := [];
      if !active {
        Reset();
        return;
      }
      if awaitingSync {
        lastProduceHadLocalSlots, pending := false, [];
        return;
      }
      if session != Running {
        return;
      }
      lastProduceHadLocalSlots := localSlots != [];
      if localSlots == [] {
        var target := exactFrame + prebuffer;
        if producedThrough < target {
          producedThrough := target;
        }
        if queuedThrough > producedThrough {
          queuedThrough := producedThrough;
        }
        return;
      }
      if producedThrough < confirmedThroughFrame {
        producedThrough := confirmedThroughFrame;
      }
      if queuedThrough < confirmedThroughFrame {
        queuedThrough := confirmedThroughFrame;
      }
      ghost var lo := producedThrough;
      recorded := ProduceThrough(prebuffer, localSlots, build, lo, recorded);
      recorded := ProduceThrough(exactFrame + prebuffer, localSlots, build, lo, recorded);
    }

    /** Drops the frames before `first` from the front of the queue. */
    method PopFrontBefore(first: FrameNumber)
      requires Valid()
      modifies this`pending
      ensures Valid() && pending == NotBefore(old(pending), first)
    {
      while pending != [] && pending[0].frame < first
        invariant Valid() && NotBefore(pending, first) == NotBefore(old(pending), first)
        decreases |pending|
      {
        pending := pending[1..];
      }
      ghost var k := NotBeforeIsSuffix(pending, first);
      if pending != [] {
        assert pending[0].frame >= first;
      }
    }

    /** Drops the frames after `target` from the back of the queue. */
    method PopBackAfter(target: FrameNumber)
      requires Valid()
      modifies this`pending
      ensures Valid() && pending == NotAfter(old(pending), target)
      ensures forall e :: e in pending ==> e.frame <= target
    {
      ghost var k := NotAfterIsPrefix(pending, target);
      while pending != [] && pending[|pending| - 1].frame > target
        invariant Valid() && k <= |pending| && pending <= old(pending)
        decreases |pending|
      {
        pending := pending[..|pending| - 1];
      }
    }

    /** Builds every queued frame again; cuts the queue at the first failure. */
    method Refresh(ghost target: FrameNumber, playback: FrameNumber -> Option<Input>)
      requires Valid() && forall e :: e in pending ==> e.frame <= target
      modifies this`pending
      ensures pending != [] ==> FreshRun(pending, pending[0].frame, target, playback)
      ensures |pending| <= |old(pending)|
      ensures forall j :: 0 <= j < |pending| ==> pending[j].frame == old(pending)[j].frame
      ensures |pending| < |old(pending)| ==> playback(old(pending)[|pending|].frame).None?
    {
      var i := 0;
      while i < |pending|
        invariant 0 <= i <= |pending| == |old(pending)| && Valid()
        invariant forall j :: 0 <= j < |pending| ==> pending[j].frame == old(pending)[j].frame
        invariant forall e :: e in pending ==> e.frame <= target
        invariant forall j :: 0 <= j < i ==> playback(pending[j].frame) == Some(pending[j].input)
        decreases |pending| - i
      {
        var frame := pending[i].frame;
        if playback(frame).None? {
          pending := pending[..i];
          return;
        }
        pending := pending[i := ConfirmedFrame(frame, playback(frame).value)];
        i := i + 1;
      }
    }

    /** Starts over unless the queue begins at `first`, then appends frames until
        `target` or the first one that cannot be built. */
    method Extend(first: FrameNumber, target: FrameNumber, playback: FrameNumber -> Option<Input>)
      requires pending != [] ==> FreshRun(pending, pending[0].frame, target, playback)
      modifies this`pending
      ensures FreshRun(pending, first, target, playback) && Maximal(pending, first, target, playback)
    {
      var frame := first;
      if pending != [] {
        assert FreshAt(pending, |pending| - 1, pending[0].frame, target, playback);
        if pending[0].frame != first {
          pending := [];
        } else {
          frame := pending[|pending| - 1].frame + 1;
        }
      }
      while frame <= target
        invariant frame == first + |pending| && FreshRun(pending, first, target, playback)
        decreases target + 1 - frame
      {
        if playback(frame).None? {
          return;
        }
        ghost var before := pending;
        pending := pending + [ConfirmedFrame(frame, playback(frame).value)];
        frame := frame + 1;
        forall i | 0 <= i < |before| ensures FreshAt(pending, i, first, target, playback) {
          assert FreshAt(before, i, first, target, playback);
        }
      }
    }

    /** Repairs the queue for the emulator's next frame. Whatever contiguous
        queue it starts from, the result is the queue built from scratch. */
    method RepairQueue(first: FrameNumber, target: FrameNumber, playback: FrameNumber -> Option<Input>)
      requires Valid()
      modifies this`pending
      ensures pending == Rebuild(first, target, playback)
    {
      PopFrontBefore(first);
      if target < first {
        pending := [];
      } else {
        PopBackAfter(target);
        Refresh(target, playback);
        Extend(first, target, playback);
        RebuildIsLongestRun(pending, first, target, playback);
      }
    }

    method PreparePlaybackFrames(coordinator: Coordinator<Input>, active: bool, awaitingSync: bool,
                                 session: SessionState,
                                 emulationFrame: FrameNumber, maxPlayback: Option<FrameNumber>)
      requires Valid()
      modifies this
      ensures Valid()
      ensures State() ==
              Step(old(State()), Prepare(coordinator, active, awaitingSync, session, emulationFrame, maxPlayback))
    {
      ghost var call := Prepare(coordinator, active, awaitingSync, session, emulationFrame, maxPlayback);
      if !active {
        Reset();
        return;
      }
      if awaitingSync {
        pending := [];
        return;
      }
      if session != Running {
        pending := [];
        return;
      }
      var current := DriverState(producedThrough, queuedThrough, prebuffer, lastProduceHadLocalSlots, pending);
      var target := TargetThrough(current, coordinator, emulationFrame, maxPlayback);
      RunningPrepareQueue(State(), call);
      RepairQueue(emulationFrame + 1, target, coordinator.playback);
      queuedThrough := if pending == [] then emulationFrame else pending[|pending| - 1].frame;
    }

    /** Hands the frames of [currentFrame, queueLimit] to the consumer, in order. */
    method ConsumePendingFrames(currentFrame: FrameNumber, queueLimit: FrameNumber)
      returns (out: seq<ConfirmedFrame<Input>>)
      requires Valid()
      modifies this`pending
      ensures Valid()
      ensures State() == Step(old(State()), Consume(currentFrame, queueLimit))
      ensures out == Delivered(old(State()), Consume(currentFrame, queueLimit))
    {
      PopFrontBefore(currentFrame);
      out := ReadThrough(queueLimit);
    }

    /** The queued frames up to `queueLimit`. */
    method ReadThrough(queueLimit: FrameNumber) returns (out: seq<ConfirmedFrame<Input>>)
      requires Valid()
      ensures out == NotAfter(pending, queueLimit)
    {
      out := [];
      ghost var k := NotAfterIsPrefix(pending, queueLimit);
      var i := 0;
      while i < |pending|
        invariant 0 <= i <= k && out == pending[..i]
      {
        if pending[i].frame > queueLimit {
          return;
        }
        out := out + [pending[i]];
        i := i + 1;
      }
    }
  }
}

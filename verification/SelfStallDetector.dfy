/** The self-stall detector: while a session runs normally it watches whether
    simulation or confirmation advances, and asks for a resync when neither has
    for two seconds or three playback stops. Times are nanoseconds. */
module SelfStallDetector {
  import opened Wrappers

  const MILLISECOND := 1_000_000
  const STALL_TIMEOUT_MS := 2000
  const RECOVERY_COOLDOWN_MS := 5000
  const CHURN_THRESHOLD := 3
  const COUNTER_RANGE := 0x1_0000_0000

  datatype Snapshot = Snapshot(
    active: bool,
    running: bool,
    inputModeNormal: bool,
    timelineEpoch: nat,
    activeResyncId: nat,
    pendingResyncAckCount: nat,
    connectedRemotes: nat,
    localFrame: nat,
    confirmedFrame: nat,
    remoteConfirmedFrame: nat,
    playbackStops: nat)

  datatype Sample = Sample(timelineEpoch: nat, localFrame: nat, confirmedFrame: nat, remoteConfirmedFrame: nat,
                           playbackStops: nat)

  datatype Detector = Detector(baseline: Option<Sample>, lastProgressAt: nat, cooldownUntil: nat)

  datatype Observation = Observation(snapshot: Snapshot, now: nat)

  const INITIAL: Detector := Detector(None, 0, 0)

  // ---- One update ------------------------------------------------------------------

  predicate IsEligible(s: Snapshot) {
    && s.active && s.running && s.inputModeNormal
    && s.activeResyncId == 0 && s.pendingResyncAckCount == 0 && s.connectedRemotes > 0
  }

  function MakeSample(s: Snapshot): Sample {
    Sample(s.timelineEpoch, s.localFrame, s.confirmedFrame, s.remoteConfirmedFrame, s.playbackStops)
  }

  predicate HasForwardProgress(baseline: Sample, current: Sample) {
    current.localFrame > baseline.localFrame || current.confirmedFrame > baseline.confirmedFrame
  }

  /** Playback stops since the baseline, on a 32-bit counter. */
  function ChurnSince(baseline: Sample, current: Sample): nat {
    (current.playbackStops - baseline.playbackStops) % COUNTER_RANGE
  }

  /** Everything this peer could know is simulated or confirmed already. */
  predicate CaughtUp(s: Sample) {
    s.confirmedFrame >= s.localFrame && s.remoteConfirmedFrame >= s.confirmedFrame
  }

  function Update(d: Detector, o: Observation): (Detector, bool) {
    if !IsEligible(o.snapshot) then (INITIAL, false)
    else
      var current := MakeSample(o.snapshot);
      var rebased := d.(baseline := Some(current), lastProgressAt := o.now);
      if d.baseline.None? || d.baseline.value.timelineEpoch != current.timelineEpoch ||
         HasForwardProgress(d.baseline.value, current) || CaughtUp(current) then (rebased, false)
      else if o.now < d.cooldownUntil then (d, false)
      else if (o.now - d.lastProgressAt) / MILLISECOND < STALL_TIMEOUT_MS &&
        ChurnSince(d.baseline.value, current) < CHURN_THRESHOLD
      then (d, false)
      else (rebased.(cooldownUntil := o.now + RECOVERY_COOLDOWN_MS * MILLISECOND), true)
  }

  function After(obs: seq<Observation>): Detector {
    if obs == [] then INITIAL else Update(After(obs[..|obs| - 1]), obs[|obs| - 1]).0
  }

  /** Whether the i-th observation asks for a resync. */
  predicate Triggers(obs: seq<Observation>, i: nat)
    requires i < |obs|
  {
    Update(After(obs[..i]), obs[i]).1
  }

  // ---- Exactly when it triggers and starts over -------------------------------------------

  /** The session runs normally with someone else connected and no resync. */
  predicate Watched(s: Snapshot) {
    && s.active && s.running && s.inputModeNormal && s.connectedRemotes != 0
    && s.activeResyncId == 0 && s.pendingResyncAckCount == 0
  }

  /** Neither simulation nor confirmation advanced past the baseline, in the same
      epoch, and there is something left to simulate or to confirm. */
  predicate Stuck(b: Sample, s: Snapshot) {
    && s.timelineEpoch == b.timelineEpoch && s.localFrame <= b.localFrame && s.confirmedFrame <= b.confirmedFrame
    && (s.confirmedFrame < s.localFrame || s.remoteConfirmedFrame < s.confirmedFrame)
  }

  /** It triggers exactly while watched and stuck, out of cooldown, after 2000 ms
      without progress or 3 playback stops on a 32-bit counter. */
  lemma TriggersExactly(d: Detector, o: Observation)
    ensures Update(d, o).1 <==>
            && Watched(o.snapshot) && d.baseline.Some? && Stuck(d.baseline.value, o.snapshot)
            && o.now >= d.cooldownUntil
            && (o.now - d.lastProgressAt >= 2_000_000_000 ||
                (o.snapshot.playbackStops - d.baseline.value.playbackStops) % 0x1_0000_0000 >= 3)
  {
    var elapsed := o.now - d.lastProgressAt;
    assert elapsed / MILLISECOND < 2000 <==> elapsed < 2_000_000_000;
  }

  /** What it remembers: nothing while not watched; the observation itself when it
      is the first, when it is not stuck, or when it triggers, which also starts
      a cooldown of 5000 ms; otherwise what it knew. */
  lemma RemembersExactly(d: Detector, o: Observation)
    ensures var (d', triggered) := Update(d, o);
            if !Watched(o.snapshot) then d' == Detector(None, 0, 0) && !triggered
            else
              && d'.cooldownUntil == (if triggered then o.now + 5_000_000_000 else d.cooldownUntil)
              && (if triggered || d.baseline.None? || !Stuck(d.baseline.value, o.snapshot)
                  then d'.lastProgressAt == o.now && d'.baseline.Some? &&
                       d'.baseline.value.timelineEpoch == o.snapshot.timelineEpoch &&
                       d'.baseline.value.localFrame == o.snapshot.localFrame &&
                       d'.baseline.value.confirmedFrame == o.snapshot.confirmedFrame &&
                       d'.baseline.value.playbackStops == o.snapshot.playbackStops
                  else d'.lastProgressAt == d.lastProgressAt && d'.baseline == d.baseline)
  {}

  // ---- Runs of eligible observations -----------------------------------------------------

  /** Observations i..j are eligible, in time order, with a counter that grows. */
  predicate Stretch(obs: seq<Observation>, i: nat, j: nat) {
    && i <= j < |obs|
    && (forall k :: i <= k <= j ==> IsEligible(obs[k].snapshot) && obs[k].snapshot.playbackStops < COUNTER_RANGE)
    && (forall k, l :: i <= k < l <= j ==>
          obs[k].now <= obs[l].now && obs[k].snapshot.playbackStops <= obs[l].snapshot.playbackStops)
  }

  lemma AfterStep(obs: seq<Observation>, i: nat)
    requires i < |obs|
    ensures After(obs[..i + 1]) == Update(After(obs[..i]), obs[i]).0
  {
    var longer := obs[..i + 1];
    assert longer[..|longer| - 1] == obs[..i];
  }

  lemma {:induction false} CooldownLasts(obs: seq<Observation>, i: nat, j: nat)
    requires i < j < |obs| && Triggers(obs, i)
    requires forall k :: i <= k < j ==> IsEligible(obs[k].snapshot) && obs[i].now <= obs[k].now
    ensures After(obs[..j]).cooldownUntil >= obs[i].now + RECOVERY_COOLDOWN_MS * MILLISECOND
    decreases j
  {
    assert obs[i].now <= obs[j - 1].now;
    AfterStep(obs, j - 1);
    var before := After(obs[..j - 1]);
    UpdateCooldown(before, obs[j - 1]);
    if i + 1 < j {
      CooldownLasts(obs, i, j - 1);
    }
  }

  lemma UpdateCooldown(d: Detector, o: Observation)
    requires IsEligible(o.snapshot)
    ensures var (d', triggered) := Update(d, o);
            d'.cooldownUntil == if triggered then o.now + RECOVERY_COOLDOWN_MS * MILLISECOND else d.cooldownUntil
  {}

  /** Two triggers in one stretch are at least 5000 ms apart. */
  lemma TriggersAreSpaced(obs: seq<Observation>, i: nat, j: nat)
    requires Stretch(obs, i, j) && i < j && Triggers(obs, i) && Triggers(obs, j)
    ensures obs[j].now - obs[i].now >= 5_000_000_000
  {
    CooldownLasts(obs, i, j);
  }

  function AtFrameTen(playbackStops: nat, active: bool): Snapshot {
    Snapshot(active, true, true, 1, 0, 0, 1, 10, 5, 5, playbackStops)
  }

  /** An ineligible observation clears the cooldown: stuck at frame 10, triggers
      2 ms apart with one inactive observation between them. */
  lemma TriggersAcrossIneligible(obs: seq<Observation>)
    requires obs == [Observation(AtFrameTen(0, true), 0), Observation(AtFrameTen(3, true), 1 * MILLISECOND),
                     Observation(AtFrameTen(3, false), 2 * MILLISECOND),
                     Observation(AtFrameTen(3, true), 2 * MILLISECOND),
                     Observation(AtFrameTen(6, true), 3 * MILLISECOND)]
    ensures Triggers(obs, 1) && Triggers(obs, 4)
  {
    AfterStep(obs, 0);
    AfterStep(obs, 2);
    AfterStep(obs, 3);
  }

  /** From observation b on, up to before n, the epoch is the same and nothing
      advanced past what b saw. */
  predicate NoProgressSince(obs: seq<Observation>, b: nat, n: nat) {
    b < n <= |obs| &&
    forall k :: b <= k < n ==>
      && IsEligible(obs[k].snapshot)
      && obs[k].snapshot.timelineEpoch == obs[b].snapshot.timelineEpoch
      && obs[k].snapshot.localFrame <= obs[b].snapshot.localFrame
      && obs[k].snapshot.confirmedFrame <= obs[b].snapshot.confirmedFrame
  }

  /** The baseline is always an earlier observation since which there has been
      no progress. */
  lemma {:induction false} BaselineIsWitnessed(obs: seq<Observation>, n: nat) returns (b: nat)
    requires n <= |obs| && After(obs[..n]).baseline.Some?
    ensures NoProgressSince(obs, b, n)
    ensures After(obs[..n]).baseline.value == MakeSample(obs[b].snapshot) &&
            After(obs[..n]).lastProgressAt == obs[b].now
    decreases n
  {
    AfterStep(obs, n - 1);
    var before := After(obs[..n - 1]);
    var rebased := before.baseline.None? || (After(obs[..n]).baseline.value == MakeSample(obs[n - 1].snapshot) &&
                                             After(obs[..n]).lastProgressAt == obs[n - 1].now);
    if rebased {
      b := n - 1;
    } else {
      b := BaselineIsWitnessed(obs, n - 1);
    }
  }

  /** Each trigger has a witness: an earlier observation of the same epoch, at
      least 2000 ms or 3 playback stops ago, past which nothing advanced. */
  lemma TriggersAreWitnessed(obs: seq<Observation>, s: nat, j: nat) returns (b: nat)
    requires Stretch(obs, s, j) && Triggers(obs, j) && (s == 0 || !IsEligible(obs[s - 1].snapshot))
    ensures s <= b < j && NoProgressSince(obs, b, j + 1)
    ensures obs[j].now - obs[b].now >= 2_000_000_000
         || obs[j].snapshot.playbackStops - obs[b].snapshot.playbackStops >= 3
  {
    b := BaselineIsWitnessed(obs, j);
  }

  // ---- The detector itself -------------------------------------------------------------------

  class StallDetector {
    var baseline: Option<Sample>
    var lastProgressAt: nat
    var cooldownUntil: nat

    ghost function State(): Detector
      reads this
    {
      Detector(baseline, lastProgressAt, cooldownUntil)
    }

    constructor ()
      ensures State() == INITIAL
    {
      baseline, lastProgressAt, cooldownUntil := None, 0, 0;
    }

    method Reset()
      modifies this
      ensures State() == INITIAL
    {
      baseline, lastProgressAt, cooldownUntil := None, 0, 0;
    }

    method Rebase(current: Sample, now: nat)
      modifies `baseline, `lastProgressAt
      ensures baseline == Some(current) && lastProgressAt == now
    {
      baseline, lastProgressAt := Some(current), now;
    }

    method Observe(snapshot: Snapshot, now: nat) returns (shouldResync: bool)
      modifies this
      ensures (State(), shouldResync) == Update(old(State()), Observation(snapshot, now))
    {
      shouldResync := false;
      if !IsEligible(snapshot) {
        Reset();
        return;
      }
      var current := MakeSample(snapshot);
      if baseline.None? || baseline.value.timelineEpoch != current.timelineEpoch {
        Rebase(current, now);
        return;
      }
      if HasForwardProgress(baseline.value, current) {
        Rebase(current, now);
        return;
      }
      if current.confirmedFrame >= current.localFrame && current.remoteConfirmedFrame >= current.confirmedFrame {
        Rebase(current, now);
        return;
      }
      if now < cooldownUntil {
        return;
      }
      var stalledFor := (now - lastProgressAt) / MILLISECOND;
      var churn := ChurnSince(baseline.value, current);
      if stalledFor < STALL_TIMEOUT_MS && churn < CHURN_THRESHOLD {
        return;
      }
      Rebase(current, now);
      cooldownUntil := now + RECOVERY_COOLDOWN_MS * MILLISECOND;
      shouldResync := true;
    }
  }
}

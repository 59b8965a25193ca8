/** Controller assignments: every participant's slots are normalised against an
    input topology, and a candidate assignment is accepted when no slot is
    unavailable or shared. */
module InputAssignment {
  import opened Wrappers

  type Slot = s: nat | s < 256

  const OBSERVER: Slot := 255

  datatype SlotDescriptor = SlotDescriptor(slot: Slot, assignable: bool)

  type Topology = seq<SlotDescriptor>

  datatype Participant = Participant(id: nat, assignment: Slot, assignments: seq<Slot>)

  // ---- Topologies ------------------------------------------------------------------

  /** Normalisation asks the first descriptor of the slot. */
  predicate IsAssignable(slot: Slot, topology: Topology) {
    topology != [] &&
    if topology[0].slot == slot then topology[0].assignable else IsAssignable(slot, topology[1..])
  }

  /** The candidate check asks whether any descriptor offers the slot. */
  function Available(topology: Topology): seq<Slot> {
    if topology == [] then []
    else
      var offered := topology[0].assignable && topology[0].slot != OBSERVER;
      (if offered then [topology[0].slot] else []) + Available(topology[1..])
  }

  predicate IsAvailable(slot: Slot, topology: Topology) { slot == OBSERVER || slot in Available(topology) }

  lemma {:induction false} AssignableIsAvailable(slot: Slot, topology: Topology)
    requires IsAssignable(slot, topology)
    ensures IsAvailable(slot, topology)
  {
    if topology[0].slot != slot {
      AssignableIsAvailable(slot, topology[1..]);
    }
  }

  lemma {:induction false} AvailableExactly(slot: Slot, topology: Topology)
    ensures slot in Available(topology) <==>
            slot != OBSERVER && exists i :: 0 <= i < |topology| && topology[i].slot == slot && topology[i].assignable
  {
    if topology != [] {
      AvailableExactly(slot, topology[1..]);
      assert forall i :: 1 <= i < |topology| ==> topology[i] == topology[1..][i - 1];
    }
  }

  /** No earlier descriptor is for the same slot. */
  predicate IsFirst(topology: Topology, i: nat) {
    i < |topology| && forall k :: 0 <= k < i ==> topology[k].slot != topology[i].slot
  }

  lemma {:induction false} FirstIsAsked(topology: Topology, i: nat)
    requires IsFirst(topology, i)
    ensures IsAssignable(topology[i].slot, topology) == topology[i].assignable
  {
    if i > 0 {
      var rest := topology[1..];
      assert forall k :: 0 <= k < |rest| ==> rest[k] == topology[k + 1];
      assert topology[0].slot != topology[i].slot;
      FirstIsAsked(rest, i - 1);
    }
  }

  lemma FirstBefore(topology: Topology, j: nat) returns (i: nat)
    requires j < |topology|
    ensures i <= j && IsFirst(topology, i) && topology[i].slot == topology[j].slot
  {
    if IsFirst(topology, j) {
      i := j;
    } else {
      var k :| 0 <= k < j && topology[k].slot == topology[j].slot;
      i := FirstBefore(topology, k);
    }
  }

  /** The slot is not assignable by one descriptor and assignable by another. */
  predicate Contradicts(first: SlotDescriptor, other: SlotDescriptor) {
    first.slot == other.slot != OBSERVER && !first.assignable && other.assignable
  }

  /** A slot whose first descriptor is not assignable has no assignable one. */
  predicate FirstDecides(topology: Topology) {
    forall i, j :: 0 <= i < j < |topology| && IsFirst(topology, i) ==> !Contradicts(topology[i], topology[j])
  }

  /** Every available slot is assignable if and only if first descriptors decide. */
  lemma AvailableIsAssignableExactly(topology: Topology)
    ensures (forall slot: Slot :: slot in Available(topology) ==> IsAssignable(slot, topology)) <==>
            FirstDecides(topology)
  {
    if FirstDecides(topology) {
      forall slot: Slot | slot in Available(topology) ensures IsAssignable(slot, topology) {
        AvailableExactly(slot, topology);
        var j :| 0 <= j < |topology| && topology[j].slot == slot && topology[j].assignable;
        var i := FirstBefore(topology, j);
        FirstIsAsked(topology, i);
      }
    } else {
      var i, j :| 0 <= i < j < |topology| && IsFirst(topology, i) && Contradicts(topology[i], topology[j]);
      AvailableExactly(topology[i].slot, topology);
      FirstIsAsked(topology, i);
    }
  }

  lemma DistinctSlotsDecide(topology: Topology)
    requires forall i, j :: 0 <= i < j < |topology| ==> topology[i].slot != topology[j].slot
    ensures FirstDecides(topology)
  {}

  // ---- Normalisation ------------------------------------------------------------------

  predicate StrictlySorted(s: seq<Slot>) {
    forall i, j :: 0 <= i < j < |s| ==> s[i] < s[j]
  }

  function InsertSlot(s: seq<Slot>, x: Slot): seq<Slot> {
    if s == [] || x < s[0] then [x] + s
    else if x == s[0] then s
    else [s[0]] + InsertSlot(s[1..], x)
  }

  /** The slots sorted, without repetitions. */
  function SortUnique(s: seq<Slot>): seq<Slot> {
    if s == [] then [] else InsertSlot(SortUnique(s[..|s| - 1]), s[|s| - 1])
  }

  /** The slots a participant may keep: no observer slots and, given a
      topology, only assignable ones. */
  predicate Keeps(slot: Slot, topology: Option<Topology>) {
    slot != OBSERVER && (topology.Some? ==> IsAssignable(slot, topology.value))
  }

  function Kept(s: seq<Slot>, topology: Option<Topology>): seq<Slot> {
    if s == [] then []
    else Kept(s[..|s| - 1], topology) + (if Keeps(s[|s| - 1], topology) then [s[|s| - 1]] else [])
  }

  /** The slots a participant has: the list, or the single one if it is empty. */
  function AssignmentsOf(p: Participant): seq<Slot> {
    if p.assignments != [] then p.assignments else if p.assignment != OBSERVER then [p.assignment] else []
  }

  function Normalize(p: Participant, topology: Option<Topology>): Participant {
    var slots := SortUnique(Kept(AssignmentsOf(p), topology));
    p.(assignments := slots, assignment := if slots == [] then OBSERVER else slots[0])
  }

  lemma {:induction false} InsertSlotSorts(s: seq<Slot>, x: Slot)
    requires StrictlySorted(s)
    ensures StrictlySorted(InsertSlot(s, x))
    ensures forall y :: y in InsertSlot(s, x) ==> y == x || y in s
    ensures forall y :: y == x || y in s ==> y in InsertSlot(s, x)
  {
    if s == [] || x <= s[0] {
    } else {
      InsertSlotSorts(s[1..], x);
      var r := InsertSlot(s[1..], x);
      assert s == [s[0]] + s[1..];
      assert forall y :: y in r ==> s[0] < y;
      ConsKeepsSorted(s[0], r);
    }
  }

  lemma ConsKeepsSorted(x: Slot, r: seq<Slot>)
    requires StrictlySorted(r) && forall y :: y in r ==> x < y
    ensures StrictlySorted([x] + r)
  {
    assert forall i :: 0 <= i < |r| ==> r[i] in r;
  }

  lemma {:induction false} SortUniqueSorts(s: seq<Slot>)
    ensures StrictlySorted(SortUnique(s))
    ensures forall y :: y in SortUnique(s) ==> y in s
    ensures forall y :: y in s ==> y in SortUnique(s)
  {
    if s != [] {
      SortUniqueSorts(s[..|s| - 1]);
      InsertSlotSorts(SortUnique(s[..|s| - 1]), s[|s| - 1]);
      assert s == s[..|s| - 1] + [s[|s| - 1]];
    }
  }

  lemma {:induction false} KeptExactly(s: seq<Slot>, topology: Option<Topology>)
    ensures forall y :: y in Kept(s, topology) ==> y in s && Keeps(y, topology)
    ensures forall y :: y in s && Keeps(y, topology) ==> y in Kept(s, topology)
  {
    if s != [] {
      KeptExactly(s[..|s| - 1], topology);
      assert s == s[..|s| - 1] + [s[|s| - 1]];
    }
  }

  /** Strictly sorted lists with the same slots are equal: however sorting and
      removing duplicates is done, the result is this one. */
  lemma {:induction false} SortedIsUnique(a: seq<Slot>, b: seq<Slot>)
    requires StrictlySorted(a) && StrictlySorted(b)
    requires forall x :: x in a ==> x in b
    requires forall x :: x in b ==> x in a
    ensures a == b
  {
    assert a != [] ==> a[0] in a;
    assert b != [] ==> b[0] in b;
    if a != [] && b != [] {
      assert a[0] in b && b[0] in a;
      assert a[0] == b[0];
      assert a == [a[0]] + a[1..] && b == [b[0]] + b[1..];
      forall x | x in a[1..] ensures x in b[1..] {
        assert x in b && x != b[0];
      }
      forall x | x in b[1..] ensures x in a[1..] {
        assert x in a && x != a[0];
      }
      SortedIsUnique(a[1..], b[1..]);
    }
  }

  /** Normalising gives exactly the slots the participant may keep, strictly
      sorted, with the first one (or observer) as the single assignment. */
  lemma NormalizeIsExact(p: Participant, topology: Option<Topology>)
    ensures var n := Normalize(p, topology);
            && n.id == p.id && StrictlySorted(n.assignments) && AssignmentsOf(n) == n.assignments
            && (forall y :: y in n.assignments ==> y in AssignmentsOf(p) && Keeps(y, topology))
            && (forall y :: y in AssignmentsOf(p) && Keeps(y, topology) ==> y in n.assignments)
            && n.assignment == (if n.assignments == [] then OBSERVER else n.assignments[0])
  {
    KeptExactly(AssignmentsOf(p), topology);
    SortUniqueSorts(Kept(AssignmentsOf(p), topology));
  }

  lemma NormalizeIsIdempotent(p: Participant, topology: Option<Topology>)
    ensures Normalize(Normalize(p, topology), topology) == Normalize(p, topology)
  {
    var n := Normalize(p, topology);
    NormalizeIsExact(p, topology);
    NormalizeIsExact(n, topology);
    SortedIsUnique(Normalize(n, topology).assignments, n.assignments);
  }

  /** The participant may keep the slot: it has it, by its list or, with an empty
      list, as its single assignment; it is not the observer slot 255; and the
      first descriptor of the slot is assignable, if there is a topology. */
  predicate MayKeep(p: Participant, topology: Option<Topology>, y: Slot) {
    && (y in p.assignments || (p.assignments == [] && p.assignment == y)) && y != 255
    && (topology.Some? ==> exists i :: 0 <= i < |topology.value| && IsFirst(topology.value, i) &&
                             topology.value[i].slot == y && topology.value[i].assignable)
  }

  lemma AssignableExactly(slot: Slot, topology: Topology)
    ensures IsAssignable(slot, topology) <==>
            exists i ::
              0 <= i < |topology| && IsFirst(topology, i) && topology[i].slot == slot && topology[i].assignable
  {
    if j :| 0 <= j < |topology| && topology[j].slot == slot {
      var i := FirstBefore(topology, j);
      FirstIsAsked(topology, i);
      assert forall k :: 0 <= k < |topology| && IsFirst(topology, k) && topology[k].slot == slot ==> k == i;
    } else {
      NotListed(slot, topology);
    }
  }

  lemma {:induction false} NotListed(slot: Slot, topology: Topology)
    requires forall j :: 0 <= j < |topology| ==> topology[j].slot != slot
    ensures !IsAssignable(slot, topology)
  {
    if topology != [] {
      NotListed(slot, topology[1..]);
    }
  }

  /** Normalising keeps exactly the slots that may be kept, in strict order, and
      makes the first of them, or observer, the single assignment. */
  lemma NormalizesExactly(p: Participant, topology: Option<Topology>, y: Slot)
    ensures var n := Normalize(p, topology);
            && (y in n.assignments <==> MayKeep(p, topology, y))
            && (forall i, j :: 0 <= i < j < |n.assignments| ==> n.assignments[i] < n.assignments[j])
            && n.assignment == (if n.assignments == [] then 255 else n.assignments[0]) && n.id == p.id
  {
    NormalizeIsExact(p, topology);
    if topology.Some? {
      AssignableExactly(y, topology.value);
    }
  }

  // ---- The candidate check --------------------------------------------------------------

  /** The slots a participant would have: its normalised ones, and the candidate
      slot for the participant it is meant for. */
  function Effective(p: Participant, topology: Topology, participantId: nat, slot: Slot): set<Slot> {
    (set y | y in Normalize(p, Some(topology)).assignments) +
      (if p.id == participantId && slot != OBSERVER then {slot} else {})
  }

  function EffectiveSets(ps: seq<Participant>, topology: Topology, participantId: nat, slot: Slot): seq<set<Slot>> {
    seq(|ps|, i requires 0 <= i < |ps| => Effective(ps[i], topology, participantId, slot))
  }

  /** All slots are available and no two sets share one. */
  ghost predicate Fit(sets: seq<set<Slot>>, topology: Topology) {
    && (forall i, y :: 0 <= i < |sets| && y in sets[i] ==> IsAvailable(y, topology))
    && (forall i, j :: 0 <= i < j < |sets| ==> sets[i] !! sets[j])
  }

  lemma FitWithOneMore(sets: seq<set<Slot>>, topology: Topology, k: nat, slot: Slot)
    requires k < |sets|
    ensures Fit(sets[k := sets[k] + {slot}], topology) <==>
            && Fit(sets, topology) && IsAvailable(slot, topology)
            && forall i :: 0 <= i < |sets| && i != k ==> slot !in sets[i]
  {
    var more := sets[k := sets[k] + {slot}];
    assert slot in more[k];
    if Fit(more, topology) {
      SmallerFits(sets, more, topology);
      forall i | 0 <= i < |sets| && i != k ensures slot !in sets[i] {
        assert more[i] == sets[i];
        assert i < k ==> more[i] !! more[k];
        assert k < i ==> more[k] !! more[i];
      }
    }
  }

  lemma SmallerFits(less: seq<set<Slot>>, more: seq<set<Slot>>, topology: Topology)
    requires |less| == |more| && Fit(more, topology)
    requires forall i :: 0 <= i < |less| ==> less[i] <= more[i]
    ensures Fit(less, topology)
  {
    forall i, j | 0 <= i < j < |less| ensures less[i] !! less[j] {
      assert more[i] !! more[j] && less[i] <= more[i] && less[j] <= more[j];
    }
    forall i, y | 0 <= i < |less| && y in less[i] ensures IsAvailable(y, topology) {
      assert y in more[i];
    }
  }

  /** A participant may take a slot exactly when nothing clashes without it,
      some descriptor offers it, and nobody else has it or goes by the same id. */
  lemma CandidateDecides(ps: seq<Participant>, topology: Topology, k: nat, slot: Slot)
    requires k < |ps| && slot != OBSERVER
    ensures Fit(EffectiveSets(ps, topology, ps[k].id, slot), topology) <==>
            && Fit(EffectiveSets(ps, topology, ps[k].id, OBSERVER), topology)
            && slot in Available(topology)
            && forall i :: 0 <= i < |ps| && i != k ==>
                 ps[i].id != ps[k].id && slot !in Normalize(ps[i], Some(topology)).assignments
  {
    var id := ps[k].id;
    var now, later := EffectiveSets(ps, topology, id, OBSERVER), EffectiveSets(ps, topology, id, slot);
    assert forall i :: 0 <= i < |ps| ==> (slot in now[i] <==> slot in Normalize(ps[i], Some(topology)).assignments);
    assert forall i :: 0 <= i < |ps| ==> later[i] == now[i] + (if ps[i].id == id then {slot} else {});
    if i :| 0 <= i < |ps| && i != k && ps[i].id == id {
      assert slot in later[i] && slot in later[k];
      assert i < k ==> !(later[i] !! later[k]);
      assert k < i ==> !(later[k] !! later[i]);
    } else {
      assert later == now[k := now[k] + {slot}];
      FitWithOneMore(now, topology, k, slot);
    }
  }

  /** The check accepts the slot for the k-th participant exactly when some
      descriptor offers it, nobody else goes by the same id or may keep it, and no
      slot may be kept by two participants. */
  lemma AcceptedExactly(ps: seq<Participant>, topology: Topology, k: nat, slot: Slot)
    requires k < |ps| && slot != 255
    ensures Fit(EffectiveSets(ps, topology, ps[k].id, slot), topology) <==>
            && (exists i :: 0 <= i < |topology| && topology[i].slot == slot && topology[i].assignable)
            && (forall i :: 0 <= i < |ps| && i != k ==>
                  ps[i].id != ps[k].id && !MayKeep(ps[i], Some(topology), slot))
            && (forall i, j, y :: 0 <= i < j < |ps| && MayKeep(ps[i], Some(topology), y) ==>
                  !MayKeep(ps[j], Some(topology), y))
  {
    CandidateDecides(ps, topology, k, slot);
    AvailableExactly(slot, topology);
    KeptSetsFit(ps, topology, ps[k].id);
    forall i | 0 <= i < |ps|
      ensures slot in Normalize(ps[i], Some(topology)).assignments <==> MayKeep(ps[i], Some(topology), slot)
    {
      NormalizesExactly(ps[i], Some(topology), slot);
    }
  }

  lemma KeptSetsFit(ps: seq<Participant>, topology: Topology, id: nat)
    ensures Fit(EffectiveSets(ps, topology, id, OBSERVER), topology) <==>
            forall i, j, y :: 0 <= i < j < |ps| && MayKeep(ps[i], Some(topology), y) ==>
              !MayKeep(ps[j], Some(topology), y)
  {
    var sets := EffectiveSets(ps, topology, id, OBSERVER);
    if Fit(sets, topology) {
      forall i, j, y | 0 <= i < j < |ps| && MayKeep(ps[i], Some(topology), y)
        ensures !MayKeep(ps[j], Some(topology), y)
      {
        KeptSetMember(ps, topology, id, i, y);
        KeptSetMember(ps, topology, id, j, y);
        assert sets[i] !! sets[j];
      }
    }
    if forall i, j, y :: 0 <= i < j < |ps| && MayKeep(ps[i], Some(topology), y) ==> !MayKeep(ps[j], Some(topology), y) {
      forall i, y | 0 <= i < |sets| && y in sets[i] ensures IsAvailable(y, topology) {
        KeptSetMember(ps, topology, id, i, y);
      }
      forall i, j, y | 0 <= i < j < |sets| && y in sets[i] ensures y !in sets[j] {
        KeptSetMember(ps, topology, id, i, y);
        KeptSetMember(ps, topology, id, j, y);
      }
    }
  }

  lemma KeptSetMember(ps: seq<Participant>, topology: Topology, id: nat, i: nat, y: Slot)
    requires i < |ps|
    ensures y in EffectiveSets(ps, topology, id, OBSERVER)[i] <==> MayKeep(ps[i], Some(topology), y)
    ensures MayKeep(ps[i], Some(topology), y) ==> IsAvailable(y, topology)
  {
    NormalizesExactly(ps[i], Some(topology), y);
    AssignableExactly(y, topology);
    if MayKeep(ps[i], Some(topology), y) {
      AssignableIsAvailable(y, topology);
    }
  }

  // ---- Accepted slots and normalisation ------------------------------------------------------

  /** The candidate check accepts the slot for the k-th participant. */
  ghost predicate Accepted(ps: seq<Participant>, topology: Topology, k: nat, slot: Slot) {
    k < |ps| && slot != OBSERVER && Fit(EffectiveSets(ps, topology, ps[k].id, slot), topology)
  }

  /** Normalising after the slot was given to the participant keeps it. */
  predicate IsKept(p: Participant, topology: Topology, slot: Slot) {
    slot in Normalize(p.(assignments := AssignmentsOf(p) + [slot]), Some(topology)).assignments
  }

  lemma KeptWhenAssignable(p: Participant, topology: Topology, slot: Slot)
    requires slot != OBSERVER
    ensures IsKept(p, topology, slot) <==> IsAssignable(slot, topology)
  {
    NormalizeIsExact(p.(assignments := AssignmentsOf(p) + [slot]), Some(topology));
  }

  lemma AcceptedIsAvailable(ps: seq<Participant>, topology: Topology, k: nat, slot: Slot)
    requires Accepted(ps, topology, k, slot)
    ensures slot in Available(topology)
  {
    var sets := EffectiveSets(ps, topology, ps[k].id, slot);
    assert slot in sets[k];
    assert IsAvailable(slot, topology);
  }

  lemma LoneObserverIsAccepted(topology: Topology, slot: Slot)
    requires slot in Available(topology)
    ensures Accepted([Participant(0, OBSERVER, [])], topology, 0, slot)
  {
    var p := Participant(0, OBSERVER, []);
    AvailableExactly(slot, topology);
    NormalizeIsExact(p, Some(topology));
    assert Effective(p, topology, 0, slot) == {slot};
  }

  /** In every room, what the check accepts normalisation keeps, if and only if
      in the topology first descriptors decide. */
  lemma AcceptedIsKeptExactly(topology: Topology)
    ensures (forall ps, k, slot :: Accepted(ps, topology, k, slot) ==> IsKept(ps[k], topology, slot)) <==>
            FirstDecides(topology)
  {
    AvailableIsAssignableExactly(topology);
    if FirstDecides(topology) {
      forall ps, k, slot | Accepted(ps, topology, k, slot) ensures IsKept(ps[k], topology, slot) {
        AcceptedIsAvailable(ps, topology, k, slot);
        KeptWhenAssignable(ps[k], topology, slot);
      }
    } else {
      var slot: Slot :| slot in Available(topology) && !IsAssignable(slot, topology);
      AvailableExactly(slot, topology);
      var ps := [Participant(0, OBSERVER, [])];
      LoneObserverIsAccepted(topology, slot);
      KeptWhenAssignable(ps[0], topology, slot);
    }
  }

  /** A topology in which they do not: slot 1 is listed as not assignable and
      again as assignable. The check accepts it, normalisation drops it. */
  lemma AcceptedSlotIsDropped(topology: Topology)
    requires topology == [SlotDescriptor(1, false), SlotDescriptor(1, true)]
    ensures var ps := [Participant(0, OBSERVER, [])];
            Accepted(ps, topology, 0, 1) && !IsKept(ps[0], topology, 1)
  {
    AvailableExactly(1, topology);
    LoneObserverIsAccepted(topology, 1);
    KeptWhenAssignable(Participant(0, OBSERVER, []), topology, 1);
    FirstIsAsked(topology, 0);
  }

  // ---- The operations themselves -----------------------------------------------------------

  class ParticipantInfo {
    const id: nat
    var controllerAssignment: Slot
    var controllerAssignments: seq<Slot>

    ghost function State(): Participant
      reads this
    {
      Participant(id, controllerAssignment, controllerAssignments)
    }

    constructor (id: nat, controllerAssignment: Slot, controllerAssignments: seq<Slot>)
      ensures State() == Participant(id, controllerAssignment, controllerAssignments)
    {
      this.id, this.controllerAssignment, this.controllerAssignments := id, controllerAssignment, controllerAssignments;
    }

    method NormalizeControllerAssignments(topology: Option<Topology>)
      modifies this
      ensures State() == Normalize(old(State()), topology)
    {
      if controllerAssignments == [] && controllerAssignment != OBSERVER {
        controllerAssignments := [controllerAssignment];
      }
      var slots := controllerAssignments;
      var kept := [];
      for i := 0 to |slots|
        invariant kept == Kept(slots[..i], topology)
      {
        assert slots[..i + 1][..i] == slots[..i];
        if slots[i] != OBSERVER && (topology.None? || IsAssignable(slots[i], topology.value)) {
          kept := kept + [slots[i]];
        }
      }
      assert slots[..|slots|] == slots;
      controllerAssignments := SortAndDeduplicate(kept);
      controllerAssignment := if controllerAssignments == [] then OBSERVER else controllerAssignments[0];
    }
  }

  method SortAndDeduplicate(slots: seq<Slot>) returns (r: seq<Slot>)
    ensures r == SortUnique(slots)
    ensures StrictlySorted(r)
  {
    r := [];
    for i := 0 to |slots|
      invariant r == SortUnique(slots[..i]) && StrictlySorted(r)
    {
      assert slots[..i + 1][..i] == slots[..i];
      var at := 0;
      while at < |r| && r[at] < slots[i]
        invariant 0 <= at <= |r|
        invariant forall k :: 0 <= k < at ==> r[k] < slots[i]
      {
        at := at + 1;
      }
      InsertSlotSorts(r, slots[i]);
      InsertSlotSplices(r, slots[i], at);
      if at == |r| || r[at] != slots[i] {
        r := r[..at] + [slots[i]] + r[at..];
      }
    }
    assert slots[..|slots|] == slots;
  }

  lemma {:induction false} InsertSlotSplices(s: seq<Slot>, x: Slot, at: nat)
    requires at <= |s| && (forall k :: 0 <= k < at ==> s[k] < x) && (at < |s| ==> x <= s[at])
    ensures InsertSlot(s, x) == if at < |s| && s[at] == x then s else s[..at] + [x] + s[at..]
  {
    if at > 0 {
      InsertSlotSplices(s[1..], x, at - 1);
    }
  }

  predicate AllFree(slots: set<Slot>, topology: Topology, claimed: set<Slot>) {
    forall y :: y in slots ==> IsAvailable(y, topology) && y !in claimed
  }

  /** Claims the slots one by one; stops at one that is unavailable or taken. */
  method ClaimAll(slots: seq<Slot>, claimed: set<Slot>, topology: Topology) returns (ok: bool, all: set<Slot>)
    requires StrictlySorted(slots)
    ensures ok <==> AllFree((set y | y in slots), topology, claimed)
    ensures ok ==> all == claimed + set y | y in slots
  {
    all := claimed;
    for j := 0 to |slots|
      invariant all == claimed + set y | y in slots[..j]
      invariant forall y :: y in slots[..j] ==> IsAvailable(y, topology) && y !in claimed
    {
      if slots[j] == OBSERVER || slots[j] in Available(topology) {
        if slots[j] in all {
          assert forall k :: 0 <= k < j ==> slots[k] != slots[j];
          return false, all;
        }
        all := all + {slots[j]};
      } else {
        assert slots[j] in slots && !IsAvailable(slots[j], topology);
        return false, all;
      }
    }
    assert slots[..|slots|] == slots;
    ok := true;
  }

  /** A participant's normalised slots, with the candidate slot if it is meant
      for this participant. */
  method EffectiveAssignments(p: Participant, topology: Topology, participantId: nat, slot: Slot) returns (r: seq<Slot>)
    ensures StrictlySorted(r) && (set y | y in r) == Effective(p, topology, participantId, slot)
  {
    NormalizeIsExact(p, Some(topology));
    var slots := AssignmentsOf(Normalize(p, Some(topology)));
    if p.id == participantId && slot != OBSERVER && slot !in slots {
      slots := slots + [slot];
    }
    r := SortAndDeduplicate(slots);
    SortUniqueSorts(slots);
  }

  /** True exactly when, with every participant normalised under the topology
      and the slot added, all slots are available and none is shared. */
  method CanAssignInputCandidate(ps: seq<Participant>, topology: Topology, participantId: nat, slot: Slot)
    returns (ok: bool)
    ensures ok <==> Fit(EffectiveSets(ps, topology, participantId, slot), topology)
  {
    ghost var sets := EffectiveSets(ps, topology, participantId, slot);
    var claimed: set<Slot> := {};
    for i := 0 to |ps|
      invariant Fit(sets[..i], topology)
      invariant Claims(claimed, sets[..i])
    {
      var slots := EffectiveAssignments(ps[i], topology, participantId, slot);
      ExtendFit(sets, i, topology, claimed);
      ok, claimed := ClaimAll(slots, claimed, topology);
      if !ok {
        assert !Fit(sets[..i + 1], topology);
        return false;
      }
    }
    assert sets[..|ps|] == sets;
    ok := true;
  }

  /** The claimed slots are those of the sets. */
  ghost predicate Claims(claimed: set<Slot>, sets: seq<set<Slot>>) {
    && (forall y :: y in claimed ==> exists k :: 0 <= k < |sets| && y in sets[k])
    && (forall k :: 0 <= k < |sets| ==> sets[k] <= claimed)
  }

  lemma ExtendFit(sets: seq<set<Slot>>, i: nat, topology: Topology, claimed: set<Slot>)
    requires i < |sets| && Fit(sets[..i], topology) && Claims(claimed, sets[..i])
    ensures Fit(sets[..i + 1], topology) <==> AllFree(sets[i], topology, claimed)
    ensures Fit(sets, topology) ==> Fit(sets[..i + 1], topology)
    ensures Claims(claimed + sets[i], sets[..i + 1])
  {
    var front, more := sets[..i], sets[..i + 1];
    assert forall k :: 0 <= k < i ==> front[k] == sets[k] == more[k];
    assert more[i] == sets[i];
    if Fit(more, topology) {
      forall y | y in sets[i] ensures IsAvailable(y, topology) && y !in claimed {
        assert y in more[i];
        forall k | 0 <= k < i ensures y !in sets[k] {
          assert more[k] !! more[i];
        }
      }
    }
    if Fit(sets, topology) {
      assert forall k :: 0 <= k < |more| ==> more[k] == sets[k];
    }
  }
}

/** The input timeline: a list of input entries, oldest first, with an index
    from (frame, participant, slot) to list nodes. It behaves as a bounded FIFO
    in which pushing a known key overwrites its entry in place. */
module InputTimeline {
  import opened Wrappers
  import opened NetplayTypes
  import opened Sequences

  datatype Key = Key(frame: FrameNumber, participantId: nat, playerSlot: nat)

  datatype Entry<Payload> = Entry(frame: FrameNumber, participantId: nat, playerSlot: nat, confirmed: bool,
                                  payload: Payload)
  {
    function KeyOf(): Key { Key(frame, participantId, playerSlot) }
  }

  // ---- The bounded FIFO ----------------------------------------------------------

  datatype Timeline<Payload> = Timeline(capacity: nat, entries: seq<Entry<Payload>>)

  datatype Op<Payload> = Configure(capacity: nat) | Clear | Push(entry: Entry<Payload>) | EraseAfter(frame: FrameNumber)

  /** The first entry with the key, by a scan of the list. */
  function Scan<P>(es: seq<Entry<P>>, key: Key): Option<Entry<P>> {
    if es == [] then None else if es[0].KeyOf() == key then Some(es[0]) else Scan(es[1..], key)
  }

  function Overwrite<P>(es: seq<Entry<P>>, e: Entry<P>): seq<Entry<P>> {
    if es == [] then []
    else if es[0].KeyOf() == e.KeyOf() then [e] + es[1..]
    else [es[0]] + Overwrite(es[1..], e)
  }

  function UpTo<P>(es: seq<Entry<P>>, frame: FrameNumber): seq<Entry<P>> {
    if es == [] then [] else (if es[0].frame <= frame then [es[0]] else []) + UpTo(es[1..], frame)
  }

  function Step<P>(t: Timeline<P>, op: Op<P>): Timeline<P> {
    match op
    case Configure(capacity) => Timeline(capacity, LastN(t.entries, capacity))
    case Clear => t.(entries := [])
    case Push(e) =>
      if t.capacity == 0 then t
      else if Scan(t.entries, e.KeyOf()).Some? then t.(entries := Overwrite(t.entries, e))
      else t.(entries := (if |t.entries| >= t.capacity then t.entries[1..] else t.entries) + [e])
    case EraseAfter(frame) => t.(entries := UpTo(t.entries, frame))
  }

  function Run<P>(ops: seq<Op<P>>): Timeline<P> {
    if ops == [] then Timeline(0, []) else Step(Run(ops[..|ops| - 1]), ops[|ops| - 1])
  }

  ghost predicate UniqueKeys<P>(es: seq<Entry<P>>) {
    forall i, j :: 0 <= i < j < |es| ==> es[i].KeyOf() != es[j].KeyOf()
  }

  ghost predicate Bounded<P>(t: Timeline<P>) {
    UniqueKeys(t.entries) && |t.entries| <= t.capacity
  }

  lemma {:induction false} ScanFinds<P>(es: seq<Entry<P>>, key: Key)
    ensures Scan(es, key).None? <==> forall i :: 0 <= i < |es| ==> es[i].KeyOf() != key
    ensures Scan(es, key).Some? ==> exists i :: 0 <= i < |es| && es[i] == Scan(es, key).value && es[i].KeyOf() == key
  {
    if es != [] {
      ScanFinds(es[1..], key);
      assert forall i :: 1 <= i < |es| ==> es[i] == es[1..][i - 1];
    }
  }

  /** Overwriting changes the one entry with the key, and nothing else. */
  lemma {:induction false} OverwriteAt<P>(es: seq<Entry<P>>, e: Entry<P>, i: nat)
    requires UniqueKeys(es) && i < |es| && es[i].KeyOf() == e.KeyOf()
    ensures Overwrite(es, e) == es[i := e]
  {
    if i > 0 {
      assert es[0].KeyOf() != e.KeyOf();
      OverwriteAt(es[1..], e, i - 1);
    }
  }

  lemma {:induction false} UpToSubset<P>(es: seq<Entry<P>>, frame: FrameNumber)
    requires UniqueKeys(es)
    ensures UniqueKeys(UpTo(es, frame)) && |UpTo(es, frame)| <= |es|
    ensures forall e :: e in UpTo(es, frame) ==> e in es && e.frame <= frame
    ensures forall e :: e in es && e.frame <= frame ==> e in UpTo(es, frame)
  {
    if es != [] {
      UpToSubset(es[1..], frame);
      var r := UpTo(es[1..], frame);
      forall i | 0 <= i < |r| ensures r[i].KeyOf() != es[0].KeyOf() {
        assert r[i] in es[1..];
        var j :| 0 <= j < |es[1..]| && es[1..][j] == r[i];
        assert es[j + 1] == r[i];
      }
      assert es == [es[0]] + es[1..];
    }
  }

  lemma StepKeepsBounded<P>(t: Timeline<P>, op: Op<P>)
    requires Bounded(t)
    ensures Bounded(Step(t, op))
  {
    match op
    case Configure(capacity) =>
    case Clear =>
    case Push(e) =>
      ScanFinds(t.entries, e.KeyOf());
      if t.capacity > 0 && Scan(t.entries, e.KeyOf()).Some? {
        var i :| 0 <= i < |t.entries| && t.entries[i].KeyOf() == e.KeyOf();
        OverwriteAt(t.entries, e, i);
      }
    case EraseAfter(frame) => UpToSubset(t.entries, frame);
  }

  /** Over every run keys are unique and the size never exceeds the capacity. */
  lemma {:induction false} RunIsBounded<P>(ops: seq<Op<P>>)
    ensures Bounded(Run(ops))
  {
    if ops != [] {
      RunIsBounded(ops[..|ops| - 1]);
      StepKeepsBounded(Run(ops[..|ops| - 1]), ops[|ops| - 1]);
    }
  }

  /** A pushed entry is found under its key, until capacity 0 refuses it, and
      other keys keep their entry unless the push evicted the oldest one. */
  lemma PushThenScan<P>(t: Timeline<P>, e: Entry<P>, key: Key)
    requires Bounded(t) && t.capacity > 0
    ensures Scan(Step(t, Push(e)).entries, e.KeyOf()) == Some(e)
    ensures var evicts := Scan(t.entries, e.KeyOf()).None? && |t.entries| == t.capacity;
            key != e.KeyOf() && !(evicts && t.entries[0].KeyOf() == key) ==>
              Scan(Step(t, Push(e)).entries, key) == Scan(t.entries, key)
  {
    StepKeepsBounded(t, Push(e));
    var es, es' := t.entries, Step(t, Push(e)).entries;
    ScanFinds(es, e.KeyOf());
    if Scan(es, e.KeyOf()).Some? {
      var i :| 0 <= i < |es| && es[i].KeyOf() == e.KeyOf();
      OverwriteAt(es, e, i);
      ScanUnique(es', i);
      if key != e.KeyOf() {
        ScanUpdated(es, i, e, key);
      }
    } else {
      ScanUnique(es', |es'| - 1);
      if key != e.KeyOf() {
        ScanSnoc(if |es| == t.capacity then es[1..] else es, e, key);
      }
    }
  }

  /** Erasing keeps exactly the entries up to the frame, in their order. */
  lemma {:induction false} UpToSplits<P>(a: seq<Entry<P>>, b: seq<Entry<P>>, frame: FrameNumber)
    ensures UpTo(a + b, frame) == UpTo(a, frame) + UpTo(b, frame)
  {
    if a == [] {
      assert a + b == b;
    } else {
      assert (a + b)[1..] == a[1..] + b;
      UpToSplits(a[1..], b, frame);
      Regroup(if a[0].frame <= frame then [a[0]] else [], UpTo(a[1..], frame), UpTo(b, frame));
    }
  }

  lemma Regroup<T>(a: seq<T>, b: seq<T>, c: seq<T>)
    ensures (a + b) + c == a + (b + c)
  {}

  /** What is left are exactly the entries up to the frame. */
  lemma EraseKeepsExactly<P>(t: Timeline<P>, frame: FrameNumber, e: Entry<P>)
    requires UniqueKeys(t.entries)
    ensures var t' := Step(t, EraseAfter(frame));
            t'.capacity == t.capacity && (e in t'.entries <==> e in t.entries && e.frame <= frame)
  {
    UpToSubset(t.entries, frame);
  }

  lemma UpToOne<P>(e: Entry<P>, frame: FrameNumber)
    ensures UpTo([e], frame) == if e.frame <= frame then [e] else []
  {
    assert [e][1..] == [];
  }

  function Pushes<P>(es: seq<Entry<P>>): seq<Op<P>> {
    if es == [] then [] else Pushes(es[..|es| - 1]) + [Push(es[|es| - 1])]
  }

  /** The oldest go first: entries pushed under distinct keys since the timeline
      was configured are the newest `capacity` of them, in order of pushing. */
  lemma {:induction false} OldestGoFirst<P>(capacity: nat, es: seq<Entry<P>>)
    requires UniqueKeys(es)
    ensures Run([Configure(capacity)] + Pushes(es)) == Timeline(capacity, LastN(es, capacity))
  {
    var first: seq<Op<P>> := [Configure(capacity)];
    if es == [] {
      RunSnoc<P>([], Configure(capacity));
      assert [] + first == first && first + Pushes(es) == first;
    } else {
      var front, e := es[..|es| - 1], es[|es| - 1];
      OldestGoFirst(capacity, front);
      Regroup(first, Pushes(front), [Push(e)]);
      RunSnoc(first + Pushes(front), Push(e));
      assert es == front + [e];
      PushOnNew(capacity, front, e);
    }
  }

  lemma RunSnoc<P>(ops: seq<Op<P>>, op: Op<P>)
    ensures Run(ops + [op]) == Step(Run(ops), op)
  {
    assert (ops + [op])[..|ops|] == ops;
  }

  lemma PushOnNew<P>(capacity: nat, front: seq<Entry<P>>, e: Entry<P>)
    requires UniqueKeys(front + [e])
    ensures Step(Timeline(capacity, LastN(front, capacity)), Push(e)) ==
            Timeline(capacity, LastN(front + [e], capacity))
  {
    var kept, all := LastN(front, capacity), front + [e];
    assert Scan(kept, e.KeyOf()).None? by {
      forall i | 0 <= i < |kept| ensures kept[i].KeyOf() != e.KeyOf() {
        assert kept[i] == all[|front| - |kept| + i] && all[|front|] == e;
      }
      ScanFinds(kept, e.KeyOf());
    }
    if capacity > 0 {
      assert (if |kept| >= capacity then kept[1..] else kept) + [e] == LastN(all, capacity);
    }
  }

  /** Configuring keeps the newest entries that fit, clearing none. */
  lemma ConfigureKeepsNewest<P>(t: Timeline<P>, capacity: nat)
    ensures Step(t, Configure(capacity)) == Timeline(capacity, LastN(t.entries, capacity))
    ensures Step(t, Op<P>.Clear) == Timeline(t.capacity, [])
  {}

  lemma {:induction false} ScanUnique<P>(es: seq<Entry<P>>, i: nat)
    requires UniqueKeys(es) && i < |es|
    ensures Scan(es, es[i].KeyOf()) == Some(es[i])
  {
    if i > 0 {
      assert es[0].KeyOf() != es[i].KeyOf();
      ScanUnique(es[1..], i - 1);
    }
  }

  lemma {:induction false} ScanUpdated<P>(es: seq<Entry<P>>, i: nat, e: Entry<P>, key: Key)
    requires i < |es| && es[i].KeyOf() == e.KeyOf() != key
    ensures Scan(es[i := e], key) == Scan(es, key)
  {
    if i > 0 {
      assert es[i := e][1..] == es[1..][i - 1 := e];
      ScanUpdated(es[1..], i - 1, e, key);
    }
  }

  lemma {:induction false} ScanSnoc<P>(es: seq<Entry<P>>, e: Entry<P>, key: Key)
    requires e.KeyOf() != key
    ensures Scan(es + [e], key) == Scan(es, key)
  {
    if es != [] {
      assert (es + [e])[1..] == es[1..] + [e];
      ScanSnoc(es[1..], e, key);
    }
  }

  // ---- The list with its index ----------------------------------------------------------

  class Node<Payload> {
    var entry: Entry<Payload>

    constructor (entry: Entry<Payload>)
      ensures this.entry == entry
    {
      this.entry := entry;
    }
  }

  ghost function EntriesOf<P>(nodes: seq<Node<P>>): (es: seq<Entry<P>>)
    reads nodes
    ensures |es| == |nodes| && forall i :: 0 <= i < |nodes| ==> es[i] == nodes[i].entry
  {
    seq(|nodes|, i requires 0 <= i < |nodes| reads nodes => nodes[i].entry)
  }

  function KeysOf<P>(es: seq<Entry<P>>): (keys: seq<Key>)
    ensures |keys| == |es| && forall i :: 0 <= i < |es| ==> keys[i] == es[i].KeyOf()
  {
    seq(|es|, i requires 0 <= i < |es| => es[i].KeyOf())
  }

  /** The index has exactly the keys of the list, and leads each to its node. */
  ghost predicate Indexes<N>(index: map<Key, N>, nodes: seq<N>, keys: seq<Key>) {
    && |keys| == |nodes|
    && (forall i, j :: 0 <= i < j < |nodes| ==> nodes[i] != nodes[j])
    && (forall i :: 0 <= i < |keys| ==> keys[i] in index && index[keys[i]] == nodes[i])
    && (forall k :: k in index ==> k in keys)
  }

  lemma AppendKeepsIndex<N>(index: map<Key, N>, nodes: seq<N>, keys: seq<Key>, node: N, key: Key)
    requires Indexes(index, nodes, keys) && key !in index && node !in nodes
    ensures Indexes(index[key := node], nodes + [node], keys + [key])
  {
    assert forall i :: 0 <= i < |keys| ==> keys[i] in index;
  }

  lemma EraseKeepsIndex<N>(index: map<Key, N>, nodes: seq<N>, keys: seq<Key>, i: nat)
    requires Indexes(index, nodes, keys) && i < |keys|
    ensures Indexes(index - {keys[i]}, Without(nodes, i), Without(keys, i))
  {
    var nodes', keys' := Without(nodes, i), Without(keys, i);
    forall j | 0 <= j < |keys'| ensures keys'[j] in index && keys'[j] != keys[i] && index[keys'[j]] == nodes'[j] {
      var at := if j < i then j else j + 1;
      assert keys'[j] == keys[at] && nodes'[j] == nodes[at];
    }
    forall k | k in index && k != keys[i] ensures k in keys' {
      assert k in keys;
    }
  }

  class IndexedTimeline<Payload> {
    var capacity: nat
    var nodes: seq<Node<Payload>>
    var index: map<Key, Node<Payload>>

    ghost predicate Indexed()
      reads this, nodes
    {
      Indexes(index, nodes, KeysOf(EntriesOf(nodes)))
    }

    ghost predicate Valid()
      reads this, nodes
    {
      Indexed() && |nodes| <= capacity
    }

    ghost function State(): Timeline<Payload>
      reads this, nodes
    {
      Timeline(capacity, EntriesOf(nodes))
    }

    constructor ()
      ensures Valid() && State() == Run([])
    {
      capacity, nodes, index := 0, [], map[];
    }

    /** The index lookup agrees with a scan of the list. */
    method Find(frame: FrameNumber, participantId: nat, playerSlot: nat) returns (r: Option<Entry<Payload>>)
      requires Valid()
      ensures r == Scan(EntriesOf(nodes), Key(frame, participantId, playerSlot))
    {
      var key := Key(frame, participantId, playerSlot);
      IndexDecidesScan(key);
      if key in index {
        r := Some(index[key].entry);
      } else {
        r := None;
      }
    }

    lemma IndexDecidesScan(key: Key)
      requires Indexed()
      ensures Scan(EntriesOf(nodes), key) == if key in index then Some(index[key].entry) else None
    {
      if key in index {
        var i :| 0 <= i < |nodes| && KeysOf(EntriesOf(nodes))[i] == key;
        UniqueIfIndexed();
        ScanUnique(EntriesOf(nodes), i);
      } else {
        ScanFinds(EntriesOf(nodes), key);
      }
    }

    lemma UniqueIfIndexed()
      requires Indexed()
      ensures UniqueKeys(EntriesOf(nodes))
    {
      forall i, j | 0 <= i < j < |nodes| ensures EntriesOf(nodes)[i].KeyOf() != EntriesOf(nodes)[j].KeyOf() {
        assert nodes[i] != nodes[j];
      }
    }

    /** Takes out the i-th node and its index entry. */
    method EraseAt(i: nat)
      requires Indexed() && i < |nodes|
      modifies `nodes, `index
      ensures Indexed() && |nodes| == old(|nodes|) - 1
      ensures EntriesOf(nodes) == Without(old(EntriesOf(nodes)), i)
    {
      ghost var es := EntriesOf(nodes);
      EraseKeepsIndex(index, nodes, KeysOf(es), i);
      index := index - {nodes[i].entry.KeyOf()};
      nodes := Without(nodes, i);
      assert EntriesOf(nodes) == Without(es, i) && KeysOf(Without(es, i)) == Without(KeysOf(es), i);
    }

    method Configure(capacity: nat)
      requires Valid()
      modifies `capacity, `nodes, `index
      ensures Valid() && State() == Step(old(State()), Op.Configure(capacity))
    {
      this.capacity := capacity;
      ghost var es := EntriesOf(nodes);
      while |nodes| > this.capacity
        invariant this.capacity == capacity && Indexed()
        invariant LastN(EntriesOf(nodes), capacity) == LastN(es, capacity)
        decreases |nodes|
      {
        EraseOldest(capacity);
      }
    }

    method EraseOldest(ghost n: nat)
      requires Indexed() && n < |nodes|
      modifies `nodes, `index
      ensures Indexed() && |nodes| == old(|nodes|) - 1
      ensures EntriesOf(nodes) == old(EntriesOf(nodes))[1..]
      ensures LastN(EntriesOf(nodes), n) == LastN(old(EntriesOf(nodes)), n)
    {
      LastNTail(EntriesOf(nodes), n);
      EraseAt(0);
    }

    lemma LastNTail(es: seq<Entry<Payload>>, n: nat)
      requires |es| > n
      ensures Without(es, 0) == es[1..] && LastN(es[1..], n) == LastN(es, n)
    {
      assert |es| - 1 > n ==> es[1..][|es| - 1 - n..] == es[|es| - n..];
    }

    method Clear()
      modifies `capacity, `nodes, `index
      ensures Valid() && State() == Step(old(State()), Op<Payload>.Clear)
    {
      nodes, index := [], map[];
    }

    method OverwriteNode(entry: Entry<Payload>)
      requires Valid() && entry.KeyOf() in index
      modifies nodes
      ensures Valid() && EntriesOf(nodes) == Overwrite(old(EntriesOf(nodes)), entry)
    {
      var node := index[entry.KeyOf()];
      ghost var es := EntriesOf(nodes);
      ghost var i :| 0 <= i < |nodes| && KeysOf(es)[i] == entry.KeyOf();
      UniqueIfIndexed();
      OverwriteAt(es, entry, i);
      assert KeysOf(es[i := entry]) == KeysOf(es);
      SetEntry(node, i, entry);
    }

    method SetEntry(node: Node<Payload>, ghost i: nat, entry: Entry<Payload>)
      requires i < |nodes| && node == nodes[i] && forall j :: 0 <= j < |nodes| && j != i ==> nodes[j] != node
      modifies node
      ensures EntriesOf(nodes) == old(EntriesOf(nodes))[i := entry]
    {
      node.entry := entry;
    }

    method AppendNode(entry: Entry<Payload>)
      requires Valid() && entry.KeyOf() !in index && |nodes| < capacity
      modifies `nodes, `index
      ensures Valid() && capacity == old(capacity) && EntriesOf(nodes) == old(EntriesOf(nodes)) + [entry]
    {
      var node := new Node(entry);
      ghost var es := EntriesOf(nodes);
      AppendKeepsIndex(index, nodes, KeysOf(es), node, entry.KeyOf());
      nodes := nodes + [node];
      assert EntriesOf(nodes) == es + [entry] && KeysOf(es + [entry]) == KeysOf(es) + [entry.KeyOf()];
      index := index[entry.KeyOf() := node];
    }

    method Push(entry: Entry<Payload>)
      requires Valid()
      modifies `nodes, `index, nodes
      ensures Valid() && State() == Step(old(State()), Op.Push(entry))
    {
      if capacity == 0 {
        return;
      }
      IndexDecidesScan(entry.KeyOf());
      if entry.KeyOf() in index {
        OverwriteNode(entry);
        return;
      }
      if |nodes| >= capacity {
        EraseOldest(0);
      }
      ghost var room := EntriesOf(nodes);
      AppendNode(entry);
      assert EntriesOf(nodes) == room + [entry];
    }

    method EraseFramesAfter(frame: FrameNumber)
      requires Valid()
      modifies `nodes, `index
      ensures Valid() && State() == Step(old(State()), Op.EraseAfter(frame))
    {
      ghost var all := EntriesOf(nodes);
      var i := 0;
      assert all[0..] == all;
      while i < |nodes|
        invariant 0 <= i <= |nodes| <= capacity && Indexed()
        invariant ErasedSoFar(EntriesOf(nodes), i, frame, all)
        decreases |nodes| - i
      {
        i := EraseOrPass(i, frame, all);
      }
      assert EntriesOf(nodes)[..i] == EntriesOf(nodes);
    }

    /** Takes out the i-th node if it is later than the frame. */
    method EraseOrPass(i: nat, frame: FrameNumber, ghost all: seq<Entry<Payload>>) returns (next: nat)
      requires Indexed() && i < |nodes| && ErasedSoFar(EntriesOf(nodes), i, frame, all)
      modifies `nodes, `index
      ensures Indexed() && next <= |nodes| <= old(|nodes|) && |nodes| - next < old(|nodes|) - i
      ensures ErasedSoFar(EntriesOf(nodes), next, frame, all)
    {
      ErasedSoFarStep(EntriesOf(nodes), i, frame, all);
      next := i;
      if nodes[i].entry.frame > frame {
        EraseAt(i);
      } else {
        next := i + 1;
      }
    }

    /** The first `i` entries have been dealt with. */
    ghost predicate ErasedSoFar(es: seq<Entry<Payload>>, i: nat, frame: FrameNumber, all: seq<Entry<Payload>>) {
      i <= |es| && es[..i] + UpTo(es[i..], frame) == UpTo(all, frame)
    }

    lemma ErasedSoFarStep(es: seq<Entry<Payload>>, i: nat, frame: FrameNumber, all: seq<Entry<Payload>>)
      requires ErasedSoFar(es, i, frame, all) && i < |es|
      ensures es[i].frame > frame ==> ErasedSoFar(Without(es, i), i, frame, all)
      ensures es[i].frame <= frame ==> ErasedSoFar(es, i + 1, frame, all)
    {
      assert es[i..][1..] == es[i + 1..];
      var r := Without(es, i);
      assert r[..i] == es[..i] && r[i..] == es[i + 1..];
      assert es[..i + 1] == es[..i] + [es[i]];
    }
  }
}

/** The peer registry of a transport session: peers are opened, connect,
    disconnect and are closed; packets are sent to them and their queues are
    flushed. A trace records the events emitted and, for each peer, the packets
    accepted from callers and the packets handed to the data channel. */
module TransportSession {
  import opened Wrappers
  import opened OutboundQueue
  import opened Sequences

  type PeerHandle = nat

  datatype Peer = Peer(
    handle: PeerHandle,
    remoteId: string,
    connected: bool,
    disconnectEmitted: bool,
    closeRequested: bool,
    closeDeadline: Option<int>,
    pending: seq<Packet>)

  datatype EventKind = Connected | Disconnected

  datatype Session = Session(
    hosting: bool,
    localId: string,
    hostRemoteId: string,
    peers: seq<Peer>,
    nextHandle: PeerHandle,
    requestedCloses: seq<PeerHandle>,
    closeAllRequested: bool,
    fatalShutdown: bool)

  datatype Trace = Trace(
    events: seq<(PeerHandle, EventKind)>,
    accepted: seq<(PeerHandle, Packet)>,
    wire: seq<(PeerHandle, Packet)>)

  datatype World = World(s: Session, t: Trace)

  const GRACEFUL_DISCONNECT_DELAY_MS := 350

  function Start(hosting: bool, localId: string): World {
    World(Session(hosting, localId, "", [], 1, [], false, false), Trace([], [], []))
  }

  // ---- Looking up peers ----------------------------------------------------------

  /** The first peer with this handle; the number of peers when there is none. */
  function IndexOf(peers: seq<Peer>, h: PeerHandle): (i: nat)
    ensures i <= |peers|
    ensures i < |peers| ==> peers[i].handle == h
    ensures forall j :: 0 <= j < i ==> peers[j].handle != h
  {
    if peers == [] || peers[0].handle == h then 0 else 1 + IndexOf(peers[1..], h)
  }

  function Find(peers: seq<Peer>, h: PeerHandle): Option<Peer> {
    var i := IndexOf(peers, h);
    if i < |peers| then Some(peers[i]) else None
  }

  predicate KnowsRemote(peers: seq<Peer>, remoteId: string) {
    exists p :: p in peers && p.remoteId == remoteId
  }

  /** The entries of a log that belong to one peer. */
  function Of<T>(log: seq<(PeerHandle, T)>, h: PeerHandle): seq<T> {
    if log == [] then []
    else Of(log[..|log| - 1], h) + (if log[|log| - 1].0 == h then [log[|log| - 1].1] else [])
  }

  function Tagged<T>(h: PeerHandle, ts: seq<T>): seq<(PeerHandle, T)> {
    seq(|ts|, i requires 0 <= i < |ts| => (h, ts[i]))
  }

  // ---- Small changes to the world ---------------------------------------------

  function Replace(w: World, i: nat, p: Peer): World
    requires i < |w.s.peers|
  {
    w.(s := w.s.(peers := w.s.peers[i := p]))
  }

  function Remove(w: World, i: nat): World
    requires i < |w.s.peers|
  {
    w.(s := w.s.(peers := Without(w.s.peers, i)))
  }

  function Emit(w: World, h: PeerHandle, k: EventKind): World {
    w.(t := w.t.(events := w.t.events + [(h, k)]))
  }

  // ---- Operations -----------------------------------------------------------------

  /** Whether a peer id may be opened: clients talk to their host only. */
  predicate MayOpen(s: Session, remoteId: string) {
    && remoteId != "" && remoteId != s.localId
    && (s.hosting || (if s.hostRemoteId != "" then remoteId == s.hostRemoteId else "host-" <= remoteId))
  }

  /** `initializePeerConnection`; `succeeded` says whether the connection could be
      created and opened. A failed attempt still uses up its handle. */
  function OpenPeer(w: World, remoteId: string, succeeded: bool): World {
    if !MayOpen(w.s, remoteId) || KnowsRemote(w.s.peers, remoteId) then w
    else
      var s := w.s.(nextHandle := w.s.nextHandle + 1);
      if !succeeded then w.(s := s)
      else
        var p := Peer(w.s.nextHandle, remoteId, false, false, false, None, []);
        w.(s := s.(peers := s.peers + [p],
                   hostRemoteId := if !s.hosting && s.hostRemoteId == "" then remoteId else s.hostRemoteId))
  }

  function ChannelOpened(w: World, h: PeerHandle): World {
    var i := IndexOf(w.s.peers, h);
    if i == |w.s.peers| || w.s.peers[i].connected then w
    else Emit(Replace(w, i, w.s.peers[i].(connected := true, disconnectEmitted := false)), h, Connected)
  }

  function ScheduleClose(w: World, h: PeerHandle, deadline: int): World {
    var i := IndexOf(w.s.peers, h);
    if i == |w.s.peers| then w
    else Replace(w, i, w.s.peers[i].(closeRequested := true, closeDeadline := Some(deadline)))
  }

  function ChannelClosed(w: World, h: PeerHandle, now: int): World {
    var i := IndexOf(w.s.peers, h);
    if i == |w.s.peers| then w
    else
      var p := w.s.peers[i];
      var w1 := if p.connected && !p.disconnectEmitted
                then Emit(Replace(w, i, p.(connected := false, disconnectEmitted := true)), h, Disconnected)
                else w;
      ScheduleClose(w1, h, now + GRACEFUL_DISCONNECT_DELAY_MS)
  }

  /** A peer to be closed: now, unless it has a deadline already. */
  function Closing(p: Peer, now: int): Peer {
    p.(closeRequested := true, closeDeadline := if p.closeDeadline.Some? then p.closeDeadline else Some(now))
  }

  function RequestClose(w: World, h: PeerHandle, now: int): World {
    if h == 0 then w
    else
      var i := IndexOf(w.s.peers, h);
      var w1 := if i == |w.s.peers| then w else Replace(w, i, Closing(w.s.peers[i], now));
      if h in w1.s.requestedCloses then w1 else w1.(s := w1.s.(requestedCloses := w1.s.requestedCloses + [h]))
  }

  /** A host drops the failing peer; a client gives up the session. */
  function PeerFailed(w: World, h: PeerHandle, now: int): World {
    if w.s.hosting then RequestClose(w, h, now) else w.(s := w.s.(fatalShutdown := true))
  }

  function Disconnect(w: World, h: PeerHandle, now: int): World {
    var p := Find(w.s.peers, h);
    if p.None? then w
    else if p.value.connected then ScheduleClose(w, h, now + GRACEFUL_DISCONNECT_DELAY_MS)
    else RequestClose(w, h, now)
  }

  function ClosePeer(w: World, h: PeerHandle): World {
    var i := IndexOf(w.s.peers, h);
    if i == |w.s.peers| then w
    else Remove(if w.s.peers[i].connected then Emit(w, h, Disconnected) else w, i)
  }

  function CloseEach(w: World, handles: seq<PeerHandle>): World
    decreases handles
  {
    if handles == [] then w else CloseEach(ClosePeer(w, handles[0]), handles[1..])
  }

  function Handles(peers: seq<Peer>): seq<PeerHandle> {
    seq(|peers|, i requires 0 <= i < |peers| => peers[i].handle)
  }

  /** Handles of the peers whose close deadline has passed, in registry order. */
  function Expired(peers: seq<Peer>, now: int): seq<PeerHandle> {
    if peers == [] then []
    else
      var last := peers[|peers| - 1];
      Expired(peers[..|peers| - 1], now) +
        (if last.closeDeadline.Some? && now >= last.closeDeadline.value then [last.handle] else [])
  }

  /** `handles` followed by the requested ones it does not hold yet. */
  function WithRequested(handles: seq<PeerHandle>, requested: seq<PeerHandle>): seq<PeerHandle>
    decreases requested
  {
    if requested == [] then handles
    else WithRequested(if requested[0] in handles then handles else handles + [requested[0]], requested[1..])
  }

  function PendingCloses(s: Session, now: int): seq<PeerHandle> {
    if s.closeAllRequested then Handles(s.peers) else WithRequested(Expired(s.peers, now), s.requestedCloses)
  }

  function ProcessPendingCloses(w: World, now: int): World {
    CloseEach(w.(s := w.s.(closeAllRequested := false, requestedCloses := [])), PendingCloses(w.s, now))
  }

  /** The world after the i-th peer accepted and transmitted packets. */
  function Handed(w: World, i: nat, accepted: seq<Packet>, sent: seq<Packet>, pending: seq<Packet>): World
    requires i < |w.s.peers|
  {
    var w1, h := Replace(w, i, w.s.peers[i].(pending := pending)), w.s.peers[i].handle;
    w1.(t := w1.t.(accepted := w1.t.accepted + Tagged(h, accepted), wire := w1.t.wire + Tagged(h, sent)))
  }

  function SendTo(w: World, h: PeerHandle, packet: Packet, answer: Answer, now: int): World {
    var i := IndexOf(w.s.peers, h);
    if i == |w.s.peers| || w.s.peers[i].closeRequested then w
    else
      var o := Send(w.s.peers[i].pending, packet, answer);
      var w1 := Handed(w, i, if o.accepted then [packet] else [], o.sent, o.pending);
      if o.failed then PeerFailed(w1, h, now) else w1
  }

  /** Flushes the i-th peer; `open` is the answer of its data channel. */
  function FlushPeer(w: World, i: nat, open: bool, answers: nat -> Answer, now: int): World
    requires i < |w.s.peers|
  {
    var p := w.s.peers[i];
    if p.closeRequested || p.pending == [] || !open then w
    else
      var o := Flush(p.pending, answers, 0);
      var w1 := Replace(w, i, p.(pending := o.pending));
      var w2 := w1.(t := w1.t.(wire := w1.t.wire + Tagged(p.handle, o.sent)));
      if o.failed then PeerFailed(w2, p.handle, now) else w2
  }

  function FlushFrom(w: World, i: nat, open: nat -> bool, answers: nat -> nat -> Answer, now: int): (r: World)
    ensures |r.s.peers| == |w.s.peers|
    decreases |w.s.peers| - i
  {
    if i >= |w.s.peers| then w
    else FlushFrom(FlushPeer(w, i, open(i), answers(i), now), i + 1, open, answers, now)
  }

  datatype Op =
    | OpOpen(remoteId: string, succeeded: bool)
    | OpChannelOpened(h: PeerHandle)
    | OpChannelClosed(h: PeerHandle, now: int)
    | OpPeerFailed(h: PeerHandle, now: int)
    | OpPeerLeft(remoteId: string, now: int)
    | OpDisconnect(h: PeerHandle, now: int)
    | OpSignalingLost
    | OpProcessCloses(now: int)
    | OpSend(h: PeerHandle, packet: Packet, answer: Answer, now: int)
    | OpFlush(open: nat -> bool, answers: nat -> nat -> Answer, now: int)

  function IndexOfRemote(peers: seq<Peer>, remoteId: string): (i: nat)
    ensures i <= |peers|
    ensures i < |peers| ==> peers[i].remoteId == remoteId
    ensures forall j :: 0 <= j < i ==> peers[j].remoteId != remoteId
  {
    if peers == [] || peers[0].remoteId == remoteId then 0 else 1 + IndexOfRemote(peers[1..], remoteId)
  }

  function Step(w: World, op: Op): World {
    match op
    case OpOpen(remoteId, succeeded) => OpenPeer(w, remoteId, succeeded)
    case OpChannelOpened(h) => ChannelOpened(w, h)
    case OpChannelClosed(h, now) => ChannelClosed(w, h, now)
    case OpPeerFailed(h, now) => PeerFailed(w, h, now)
    case OpPeerLeft(remoteId, now) =>
      var i := IndexOfRemote(w.s.peers, remoteId);
      if i < |w.s.peers| then RequestClose(w, w.s.peers[i].handle, now) else w
    case OpDisconnect(h, now) => Disconnect(w, h, now)
    case OpSignalingLost => w.(s := w.s.(closeAllRequested := true))
    case OpProcessCloses(now) => ProcessPendingCloses(w, now)
    case OpSend(h, packet, answer, now) => SendTo(w, h, packet, answer, now)
    case OpFlush(open, answers, now) => FlushFrom(w, 0, open, answers, now)
  }

  function Run(w: World, ops: seq<Op>): World
    decreases ops
  {
    if ops == [] then w else Run(Step(w, ops[0]), ops[1..])
  }

  // ---- The invariant ----------------------------------------------------------------

  /** Handles are positive, increasing and below the next one; remote ids are
      distinct and never the local id. */
  ghost predicate Registered(s: Session) {
    && 0 < s.nextHandle
    && (forall i, j :: 0 <= i < j < |s.peers| ==> s.peers[i].handle < s.peers[j].handle)
    && (forall i, j :: 0 <= i < j < |s.peers| ==> s.peers[i].remoteId != s.peers[j].remoteId)
    && (forall i :: 0 <= i < |s.peers| ==> 0 < s.peers[i].handle < s.nextHandle)
    && (forall i :: 0 <= i < |s.peers| ==> s.peers[i].remoteId != "" && s.peers[i].remoteId != s.localId)
  }

  /** Connected, Disconnected, Connected, ... */
  predicate Bracketed(es: seq<EventKind>) {
    forall i :: 0 <= i < |es| ==> es[i] == if i % 2 == 0 then Connected else Disconnected
  }

  /** Nothing transmitted that was not accepted, in the order of acceptance. */
  ghost predicate InAcceptedOrder(accepted: seq<Packet>, wire: seq<Packet>) {
    forall c :: On(wire, c) <= On(accepted, c)
  }

  /** What holds of one handle: its events alternate and end in Connected
      exactly while its peer is connected; its packets are conserved. */
  ghost predicate HandleOk(w: World, h: PeerHandle) {
    var p, es := Find(w.s.peers, h), Of(w.t.events, h);
    var accepted, wire := Of(w.t.accepted, h), Of(w.t.wire, h);
    && Bracketed(es)
    && (|es| % 2 == 1 <==> p.Some? && p.value.connected)
    && (p.Some? && p.value.connected ==> !p.value.disconnectEmitted)
    && (p.Some? ==> Conserved(accepted, wire, p.value.pending))
    && InAcceptedOrder(accepted, wire)
    && (h >= w.s.nextHandle ==> p.None? && es == [] && accepted == [] && wire == [])
  }

  ghost predicate Invariant(w: World) {
    Registered(w.s) && forall h :: HandleOk(w, h)
  }

  // ---- Logs and lookups after a change -----------------------------------------

  lemma {:induction false} OfConcat<T>(a: seq<(PeerHandle, T)>, b: seq<(PeerHandle, T)>, h: PeerHandle)
    ensures Of(a + b, h) == Of(a, h) + Of(b, h)
  {
    if b == [] {
      assert a + b == a;
    } else {
      OfConcat(a, b[..|b| - 1], h);
      assert (a + b)[..|a + b| - 1] == a + b[..|b| - 1];
    }
  }

  lemma {:induction false} OfTagged<T>(h: PeerHandle, ts: seq<T>, other: PeerHandle)
    ensures Of(Tagged(h, ts), other) == if other == h then ts else []
  {
    if ts != [] {
      OfTagged(h, ts[..|ts| - 1], other);
      assert Tagged(h, ts)[..|ts| - 1] == Tagged(h, ts[..|ts| - 1]);
    }
  }

  lemma OfAppended<T>(log: seq<(PeerHandle, T)>, h: PeerHandle, ts: seq<T>, other: PeerHandle)
    ensures Of(log + Tagged(h, ts), other) == Of(log, other) + (if other == h then ts else [])
  {
    OfConcat(log, Tagged(h, ts), other);
    OfTagged(h, ts, other);
  }

  lemma FindReplaced(w: World, i: nat, p: Peer, h: PeerHandle)
    requires Registered(w.s) && i < |w.s.peers| && p.handle == w.s.peers[i].handle &&
             p.remoteId == w.s.peers[i].remoteId
    ensures Registered(Replace(w, i, p).s)
    ensures Find(Replace(w, i, p).s.peers, h) == if h == p.handle then Some(p) else Find(w.s.peers, h)
    ensures Find(w.s.peers, p.handle) == Some(w.s.peers[i])
  {
    ReplaceKeepsRegistered(w, i, p);
    IndexIsUnique(w.s, i);
    SameHandlesSameIndex(w.s.peers, w.s.peers[i := p], h);
  }

  lemma ReplaceKeepsRegistered(w: World, i: nat, p: Peer)
    requires Registered(w.s) && i < |w.s.peers| && p.handle == w.s.peers[i].handle &&
             p.remoteId == w.s.peers[i].remoteId
    ensures Registered(Replace(w, i, p).s)
  {
    var before, after := w.s.peers, w.s.peers[i := p];
    assert forall j :: 0 <= j < |before| ==>
      after[j].handle == before[j].handle && after[j].remoteId == before[j].remoteId;
  }

  lemma {:induction false} SameHandlesSameIndex(a: seq<Peer>, b: seq<Peer>, h: PeerHandle)
    requires |a| == |b| && forall j :: 0 <= j < |a| ==> a[j].handle == b[j].handle
    ensures IndexOf(a, h) == IndexOf(b, h)
  {
    if a != [] {
      SameHandlesSameIndex(a[1..], b[1..], h);
    }
  }

  lemma IndexIsUnique(s: Session, i: nat)
    requires Registered(s) && i < |s.peers|
    ensures IndexOf(s.peers, s.peers[i].handle) == i
  {}

  lemma RemoveKeepsRegistered(w: World, i: nat)
    requires Registered(w.s) && i < |w.s.peers|
    ensures Registered(Remove(w, i).s)
  {}

  lemma FindRemoved(w: World, i: nat, h: PeerHandle)
    requires Registered(w.s) && i < |w.s.peers|
    ensures Registered(Remove(w, i).s)
    ensures Find(Remove(w, i).s.peers, h) == if h == w.s.peers[i].handle then None else Find(w.s.peers, h)
  {
    RemoveKeepsRegistered(w, i);
    IndexIsUnique(w.s, i);
    var before, after := w.s.peers, Without(w.s.peers, i);
    var k := IndexOf(before, h);
    if k == i || k == |before| {
      assert forall j :: 0 <= j < |after| ==> after[j].handle != h;
    } else {
      var at := if k < i then k else k - 1;
      assert after[at] == before[k];
      IndexIsUnique(Remove(w, i).s, at);
    }
  }

  lemma {:induction false} FindPushed(peers: seq<Peer>, p: Peer, h: PeerHandle)
    ensures Find(peers + [p], h) ==
            if Find(peers, h).Some? then Find(peers, h) else if h == p.handle then Some(p) else None
  {
    if peers != [] {
      assert (peers + [p])[1..] == peers[1..] + [p];
      FindPushed(peers[1..], p, h);
    }
  }

  // ---- Every operation keeps the invariant -----------------------------------------

  /** The world looks the same from handle `h`. */
  ghost predicate SameView(w: World, w': World, h: PeerHandle) {
    && Find(w'.s.peers, h) == Find(w.s.peers, h) && w'.s.nextHandle == w.s.nextHandle
    && Of(w'.t.events, h) == Of(w.t.events, h)
    && Of(w'.t.accepted, h) == Of(w.t.accepted, h)
    && Of(w'.t.wire, h) == Of(w.t.wire, h)
  }

  /** One peer's flags change; its connection state and queue do not. */
  lemma FlagsKeepInvariant(w: World, i: nat, p: Peer)
    requires Invariant(w) && i < |w.s.peers|
    requires p == w.s.peers[i].(closeRequested := p.closeRequested, closeDeadline := p.closeDeadline)
    ensures Invariant(Replace(w, i, p))
  {
    var w' := Replace(w, i, p);
    forall h ensures HandleOk(w', h) {
      FindReplaced(w, i, p, h);
      assert HandleOk(w, h);
    }
    FindReplaced(w, i, p, p.handle);
  }

  lemma OpenKeepsInvariant(w: World, remoteId: string, succeeded: bool)
    requires Invariant(w)
    ensures Invariant(OpenPeer(w, remoteId, succeeded))
    ensures w.s.nextHandle <= OpenPeer(w, remoteId, succeeded).s.nextHandle
  {
    var w' := OpenPeer(w, remoteId, succeeded);
    OpenKeepsRegistered(w, remoteId, succeeded);
    assert HandleOk(w, w.s.nextHandle);
    forall h ensures HandleOk(w', h) {
      assert HandleOk(w, h);
      FindPushed(w.s.peers, Peer(w.s.nextHandle, remoteId, false, false, false, None, []), h);
    }
  }

  lemma OpenKeepsRegistered(w: World, remoteId: string, succeeded: bool)
    requires Registered(w.s)
    ensures Registered(OpenPeer(w, remoteId, succeeded).s)
  {
    if MayOpen(w.s, remoteId) && !KnowsRemote(w.s.peers, remoteId) {
      forall i | 0 <= i < |w.s.peers| ensures w.s.peers[i].remoteId != remoteId {
        assert w.s.peers[i] in w.s.peers;
      }
    }
  }

  lemma OpenedKeepsInvariant(w: World, h: PeerHandle)
    requires Invariant(w)
    ensures Invariant(ChannelOpened(w, h))
  {
    var i := IndexOf(w.s.peers, h);
    if i < |w.s.peers| && !w.s.peers[i].connected {
      RaisedKeepsInvariant(w, i, w.s.peers[i].(connected := true, disconnectEmitted := false));
    }
  }

  /** A peer that is not connected is marked connected, with the event. */
  lemma RaisedKeepsInvariant(w: World, i: nat, p: Peer)
    requires Invariant(w) && i < |w.s.peers| && !w.s.peers[i].connected
    requires p == w.s.peers[i].(connected := true, disconnectEmitted := false)
    ensures Invariant(Emit(Replace(w, i, p), p.handle, Connected))
  {
    var w' := Emit(Replace(w, i, p), p.handle, Connected);
    FindReplaced(w, i, p, p.handle);
    forall x ensures HandleOk(w', x) {
      FindReplaced(w, i, p, x);
      EmitBrackets(w, p.handle, Connected, x);
    }
  }

  /** One more event on a handle keeps the alternation if it is the due one. */
  lemma EmitBrackets(w: World, h: PeerHandle, k: EventKind, x: PeerHandle)
    requires HandleOk(w, h) && HandleOk(w, x)
    requires k == Connected <==> |Of(w.t.events, h)| % 2 == 0
    ensures var es := Of(w.t.events + [(h, k)], x);
            Bracketed(es) && es == Of(w.t.events, x) + (if x == h then [k] else [])
  {
    assert Of(w.t.events + [(h, k)], x) == Of(w.t.events, x) + (if x == h then [k] else []) by {
      assert Tagged(h, [k]) == [(h, k)];
      OfAppended(w.t.events, h, [k], x);
    }
    if x == h {
      BracketedExtends(Of(w.t.events, x), k);
    }
  }

  lemma BracketedExtends(es: seq<EventKind>, k: EventKind)
    requires Bracketed(es) && (k == Connected <==> |es| % 2 == 0)
    ensures Bracketed(es + [k])
  {}

  lemma ClosedKeepsInvariant(w: World, h: PeerHandle, now: int)
    requires Invariant(w)
    ensures Invariant(ChannelClosed(w, h, now))
  {
    var i, deadline := IndexOf(w.s.peers, h), now + GRACEFUL_DISCONNECT_DELAY_MS;
    if i < |w.s.peers| {
      var p := w.s.peers[i];
      if p.connected && !p.disconnectEmitted {
        var q := p.(connected := false, disconnectEmitted := true);
        DroppedKeepsInvariant(w, i, q);
        ScheduleKeepsInvariant(Emit(Replace(w, i, q), h, Disconnected), h, deadline);
      } else {
        ScheduleKeepsInvariant(w, h, deadline);
      }
    }
  }

  /** A connected peer is marked disconnected, with the event. */
  lemma DroppedKeepsInvariant(w: World, i: nat, q: Peer)
    requires Invariant(w) && i < |w.s.peers| && w.s.peers[i].connected
    requires q == w.s.peers[i].(connected := false, disconnectEmitted := true)
    ensures Invariant(Emit(Replace(w, i, q), q.handle, Disconnected))
  {
    var w1 := Emit(Replace(w, i, q), q.handle, Disconnected);
    FindReplaced(w, i, q, q.handle);
    forall x ensures HandleOk(w1, x) {
      FindReplaced(w, i, q, x);
      EmitBrackets(w, q.handle, Disconnected, x);
    }
  }

  lemma ScheduleKeepsInvariant(w: World, h: PeerHandle, deadline: int)
    requires Invariant(w)
    ensures Invariant(ScheduleClose(w, h, deadline))
  {
    var i := IndexOf(w.s.peers, h);
    if i < |w.s.peers| {
      FlagsKeepInvariant(w, i, w.s.peers[i].(closeRequested := true, closeDeadline := Some(deadline)));
    }
  }

  lemma RequestCloseKeepsInvariant(w: World, h: PeerHandle, now: int)
    requires Invariant(w)
    ensures Invariant(RequestClose(w, h, now))
    ensures RequestClose(w, h, now).t == w.t
    ensures |RequestClose(w, h, now).s.peers| == |w.s.peers|
  {
    var i := IndexOf(w.s.peers, h);
    var w' := RequestClose(w, h, now);
    if h != 0 {
      if i < |w.s.peers| {
        var p := w.s.peers[i];
        var deadline := if p.closeDeadline.Some? then p.closeDeadline else Some(now);
        var q := p.(closeRequested := true, closeDeadline := deadline);
        FlagsKeepInvariant(w, i, q);
        SettingsKeepInvariant(Replace(w, i, q), w');
      } else {
        SettingsKeepInvariant(w, w');
      }
    }
  }

  /** The registry and the trace carry the invariant; other fields do not matter. */
  lemma SettingsKeepInvariant(w: World, w': World)
    requires Invariant(w) && w'.t == w.t
    requires w'.s.peers == w.s.peers && w'.s.nextHandle == w.s.nextHandle && w'.s.localId == w.s.localId
    ensures Invariant(w')
  {
    forall x ensures HandleOk(w', x) {
      assert HandleOk(w, x);
    }
  }

  lemma FailedKeepsInvariant(w: World, h: PeerHandle, now: int)
    requires Invariant(w)
    ensures Invariant(PeerFailed(w, h, now)) && PeerFailed(w, h, now).t == w.t
  {
    RequestCloseKeepsInvariant(w, h, now);
    SettingsKeepInvariant(w, w.(s := w.s.(fatalShutdown := true)));
  }

  lemma ClosePeerKeepsInvariant(w: World, h: PeerHandle)
    requires Invariant(w)
    ensures Invariant(ClosePeer(w, h))
    ensures Find(ClosePeer(w, h).s.peers, h).None?
    ensures forall x :: x != h ==> Find(ClosePeer(w, h).s.peers, x) == Find(w.s.peers, x)
  {
    var i, w' := IndexOf(w.s.peers, h), ClosePeer(w, h);
    if i < |w.s.peers| {
      RemoveKeepsRegistered(w, i);
      forall x ensures HandleOk(w', x) && Find(w'.s.peers, x) == if x == h then None else Find(w.s.peers, x) {
        FindRemoved(w, i, x);
        RemovedHandleOk(w, h, x);
      }
    }
  }

  lemma RemovedHandleOk(w: World, h: PeerHandle, x: PeerHandle)
    requires Invariant(w) && Find(w.s.peers, h).Some?
    ensures HandleOk(ClosePeer(w, h), x)
  {
    var i := IndexOf(w.s.peers, h);
    FindRemoved(w, i, x);
    assert HandleOk(w, x) && HandleOk(w, h);
    if w.s.peers[i].connected {
      EmitBrackets(w, h, Disconnected, x);
    }
  }

  lemma {:induction false} CloseEachKeepsInvariant(w: World, handles: seq<PeerHandle>)
    requires Invariant(w)
    ensures Invariant(CloseEach(w, handles))
    ensures forall x :: Find(CloseEach(w, handles).s.peers, x) == if x in handles then None else Find(w.s.peers, x)
    decreases handles
  {
    if handles != [] {
      ClosePeerKeepsInvariant(w, handles[0]);
      CloseEachKeepsInvariant(ClosePeer(w, handles[0]), handles[1..]);
    }
  }

  lemma ProcessKeepsInvariant(w: World, now: int)
    requires Invariant(w)
    ensures Invariant(ProcessPendingCloses(w, now))
    ensures forall x :: Find(ProcessPendingCloses(w, now).s.peers, x) ==
                          if x in PendingCloses(w.s, now) then None else Find(w.s.peers, x)
  {
    var w1 := w.(s := w.s.(closeAllRequested := false, requestedCloses := []));
    SettingsKeepInvariant(w, w1);
    CloseEachKeepsInvariant(w1, PendingCloses(w.s, now));
  }

  predicate Overdue(p: Peer, now: int) {
    p.closeDeadline.Some? && now >= p.closeDeadline.value
  }

  lemma {:induction false} ExpiredExactly(peers: seq<Peer>, now: int, h: PeerHandle)
    ensures h in Expired(peers, now) <==> exists i :: 0 <= i < |peers| && peers[i].handle == h && Overdue(peers[i], now)
  {
    if peers != [] {
      var front, last := peers[..|peers| - 1], peers[|peers| - 1];
      ExpiredExactly(front, now, h);
      assert forall i :: 0 <= i < |front| ==> front[i] == peers[i];
      assert h in Expired(peers, now) <==> h in Expired(front, now) || (h == last.handle && Overdue(last, now));
    }
  }

  lemma {:induction false} WithRequestedExactly(handles: seq<PeerHandle>, requested: seq<PeerHandle>, h: PeerHandle)
    ensures h in WithRequested(handles, requested) <==> h in handles || h in requested
    decreases requested
  {
    if requested != [] {
      WithRequestedExactly(if requested[0] in handles then handles else handles + [requested[0]], requested[1..], h);
      assert requested == [requested[0]] + requested[1..];
    }
  }

  /** A round of closing removes exactly the peers that are overdue, whose close
      was requested, or all of them when that was requested. */
  lemma ClosesExactly(w: World, now: int, h: PeerHandle)
    requires Invariant(w) && Find(w.s.peers, h).Some?
    ensures Find(ProcessPendingCloses(w, now).s.peers, h).None? <==>
            w.s.closeAllRequested || Overdue(Find(w.s.peers, h).value, now) || h in w.s.requestedCloses
  {
    ProcessKeepsInvariant(w, now);
    var i := IndexOf(w.s.peers, h);
    assert Handles(w.s.peers)[i] == h;
    ExpiredExactly(w.s.peers, now, h);
    WithRequestedExactly(Expired(w.s.peers, now), w.s.requestedCloses, h);
    forall j | 0 <= j < |w.s.peers| && w.s.peers[j].handle == h ensures j == i {
      IndexIsUnique(w.s, j);
    }
  }

  /** A peer's queue changes while packets are accepted and transmitted. */
  lemma TrafficKeepsInvariant(w: World, i: nat, accepted: seq<Packet>, sent: seq<Packet>, pending: seq<Packet>)
    requires Invariant(w) && i < |w.s.peers|
    requires var h := w.s.peers[i].handle;
             Conserved(Of(w.t.accepted, h) + accepted, Of(w.t.wire, h) + sent, pending)
    ensures var p := w.s.peers[i];
            var w1 := Replace(w, i, p.(pending := pending));
            Invariant(w1.(t := w1.t.(accepted := w1.t.accepted + Tagged(p.handle, accepted),
                                     wire := w1.t.wire + Tagged(p.handle, sent))))
  {
    var p := w.s.peers[i];
    var q := p.(pending := pending);
    var w1 := Replace(w, i, q);
    var w2 := w1.(t := w1.t.(accepted := w1.t.accepted + Tagged(p.handle, accepted),
                             wire := w1.t.wire + Tagged(p.handle, sent)));
    FindReplaced(w, i, q, p.handle);
    forall x ensures HandleOk(w2, x) {
      FindReplaced(w, i, q, x);
      assert HandleOk(w, x);
      OfAppended(w.t.accepted, p.handle, accepted, x);
      OfAppended(w.t.wire, p.handle, sent, x);
      if x == p.handle {
        assert Conserved(Of(w2.t.accepted, x), Of(w2.t.wire, x), pending);
        ConservedInOrder(Of(w2.t.accepted, x), Of(w2.t.wire, x), pending);
      } else {
        assert SameView(w, w2, x);
      }
    }
  }

  lemma ConservedInOrder(accepted: seq<Packet>, wire: seq<Packet>, pending: seq<Packet>)
    requires Conserved(accepted, wire, pending)
    ensures InAcceptedOrder(accepted, wire)
  {
    forall c ensures On(wire, c) <= On(accepted, c) {
      assert ConservedOn(accepted, wire, pending, c);
    }
  }

  lemma SendKeepsInvariant(w: World, h: PeerHandle, packet: Packet, answer: Answer, now: int)
    requires Invariant(w)
    ensures Invariant(SendTo(w, h, packet, answer, now))
  {
    var i := IndexOf(w.s.peers, h);
    if i < |w.s.peers| && !w.s.peers[i].closeRequested {
      assert HandleOk(w, h);
      var o := Send(w.s.peers[i].pending, packet, answer);
      var accepted := if o.accepted then [packet] else [];
      SendConserves(Of(w.t.accepted, h), Of(w.t.wire, h), w.s.peers[i].pending, packet, answer);
      TrafficKeepsInvariant(w, i, accepted, o.sent, o.pending);
      var w1 := Replace(w, i, w.s.peers[i].(pending := o.pending));
      var w2 := w1.(t := w1.t.(accepted := w1.t.accepted + Tagged(h, accepted), wire := w1.t.wire + Tagged(h, o.sent)));
      if o.failed {
        FailedKeepsInvariant(w2, h, now);
      }
    }
  }

  lemma FlushPeerKeepsInvariant(w: World, i: nat, open: bool, answers: nat -> Answer, now: int)
    requires Invariant(w) && i < |w.s.peers|
    ensures Invariant(FlushPeer(w, i, open, answers, now))
  {
    var p := w.s.peers[i];
    if !(p.closeRequested || p.pending == [] || !open) {
      IndexIsUnique(w.s, i);
      assert HandleOk(w, p.handle);
      var o := Flush(p.pending, answers, 0);
      FlushConserves(Of(w.t.accepted, p.handle), Of(w.t.wire, p.handle), p.pending, answers);
      assert Of(w.t.accepted, p.handle) + [] == Of(w.t.accepted, p.handle);
      TrafficKeepsInvariant(w, i, [], o.sent, o.pending);
      var w1 := Replace(w, i, p.(pending := o.pending));
      var w2 := w1.(t := w1.t.(wire := w1.t.wire + Tagged(p.handle, o.sent)));
      assert w1.t.accepted + Tagged(p.handle, []) == w1.t.accepted;
      if o.failed {
        FailedKeepsInvariant(w2, p.handle, now);
      }
    }
  }

  lemma {:induction false} FlushKeepsInvariant(w: World, i: nat, open: nat -> bool, answers: nat -> nat -> Answer,
                                               now: int)
    requires Invariant(w)
    ensures Invariant(FlushFrom(w, i, open, answers, now))
    decreases |w.s.peers| - i
  {
    if i < |w.s.peers| {
      FlushPeerKeepsInvariant(w, i, open(i), answers(i), now);
      FlushKeepsInvariant(FlushPeer(w, i, open(i), answers(i), now), i + 1, open, answers, now);
    }
  }

  lemma PeerLeftKeepsInvariant(w: World, remoteId: string, now: int)
    requires Invariant(w)
    ensures Invariant(Step(w, OpPeerLeft(remoteId, now)))
  {
    var i := IndexOfRemote(w.s.peers, remoteId);
    if i < |w.s.peers| {
      RequestCloseKeepsInvariant(w, w.s.peers[i].handle, now);
    }
  }

  lemma StepKeepsInvariant(w: World, op: Op)
    requires Invariant(w)
    ensures Invariant(Step(w, op))
  {
    match op
    case OpOpen(remoteId, succeeded) => OpenKeepsInvariant(w, remoteId, succeeded);
    case OpChannelOpened(h) => OpenedKeepsInvariant(w, h);
    case OpChannelClosed(h, now) => ClosedKeepsInvariant(w, h, now);
    case OpPeerFailed(h, now) => FailedKeepsInvariant(w, h, now);
    case OpPeerLeft(remoteId, now) => PeerLeftKeepsInvariant(w, remoteId, now);
    case OpDisconnect(h, now) =>
      RequestCloseKeepsInvariant(w, h, now);
      ScheduleKeepsInvariant(w, h, now + GRACEFUL_DISCONNECT_DELAY_MS);
    case OpSignalingLost => SettingsKeepInvariant(w, Step(w, op));
    case OpProcessCloses(now) => ProcessKeepsInvariant(w, now);
    case OpSend(h, packet, answer, now) => SendKeepsInvariant(w, h, packet, answer, now);
    case OpFlush(open, answers, now) => FlushKeepsInvariant(w, 0, open, answers, now);
  }

  // ---- Handles are never reused ------------------------------------------------------

  /** A handle that was given out and whose peer is gone stays gone, and its
      events and packets stay as they are. */
  ghost predicate Frozen(w: World, w': World, h: PeerHandle) {
    && h < w.s.nextHandle <= w'.s.nextHandle
    && Find(w.s.peers, h).None? && Find(w'.s.peers, h).None?
    && Of(w'.t.events, h) == Of(w.t.events, h)
    && Of(w'.t.accepted, h) == Of(w.t.accepted, h)
    && Of(w'.t.wire, h) == Of(w.t.wire, h)
  }

  lemma ReplaceFrozen(w: World, i: nat, p: Peer, h: PeerHandle)
    requires Registered(w.s) && Frozen(w, w, h) && i < |w.s.peers|
    requires p.handle == w.s.peers[i].handle && p.remoteId == w.s.peers[i].remoteId
    ensures Frozen(w, Replace(w, i, p), h) && p.handle != h
  {
    FindReplaced(w, i, p, h);
  }

  lemma EmitFrozen(w: World, x: PeerHandle, k: EventKind, h: PeerHandle)
    requires x != h && Frozen(w, w, h)
    ensures Frozen(w, Emit(w, x, k), h)
  {
    assert Tagged(x, [k]) == [(x, k)];
    OfAppended(w.t.events, x, [k], h);
  }

  lemma TrafficFrozen(w: World, x: PeerHandle, accepted: seq<Packet>, sent: seq<Packet>, h: PeerHandle)
    requires x != h && Frozen(w, w, h)
    ensures var t := w.t.(accepted := w.t.accepted + Tagged(x, accepted), wire := w.t.wire + Tagged(x, sent));
            Frozen(w, w.(t := t), h)
  {
    OfAppended(w.t.accepted, x, accepted, h);
    OfAppended(w.t.wire, x, sent, h);
  }

  lemma RequestCloseFrozen(w: World, x: PeerHandle, now: int, h: PeerHandle)
    requires Registered(w.s) && Frozen(w, w, h)
    ensures Frozen(w, RequestClose(w, x, now), h)
  {
    var i := IndexOf(w.s.peers, x);
    if x != 0 && i < |w.s.peers| {
      var p := w.s.peers[i];
      ReplaceFrozen(w, i, p.(closeRequested := true,
                             closeDeadline := if p.closeDeadline.Some? then p.closeDeadline else Some(now)), h);
    }
  }

  lemma FailedFrozen(w: World, x: PeerHandle, now: int, h: PeerHandle)
    requires Registered(w.s) && Frozen(w, w, h)
    ensures Frozen(w, PeerFailed(w, x, now), h)
  {
    RequestCloseFrozen(w, x, now, h);
  }

  lemma ClosePeerFrozen(w: World, x: PeerHandle, h: PeerHandle)
    requires Invariant(w) && Frozen(w, w, h)
    ensures Frozen(w, ClosePeer(w, x), h)
  {
    var i := IndexOf(w.s.peers, x);
    if i < |w.s.peers| {
      ReplaceFrozen(w, i, w.s.peers[i], h);
      EmitFrozen(w, x, Disconnected, h);
      FindRemoved(w, i, h);
    }
  }

  lemma {:induction false} CloseEachFrozen(w: World, handles: seq<PeerHandle>, h: PeerHandle)
    requires Invariant(w) && Frozen(w, w, h)
    ensures Frozen(w, CloseEach(w, handles), h)
    decreases handles
  {
    if handles != [] {
      ClosePeerFrozen(w, handles[0], h);
      ClosePeerKeepsInvariant(w, handles[0]);
      CloseEachFrozen(ClosePeer(w, handles[0]), handles[1..], h);
    }
  }

  lemma SendFrozen(w: World, x: PeerHandle, packet: Packet, answer: Answer, now: int, h: PeerHandle)
    requires Invariant(w) && Frozen(w, w, h)
    ensures Frozen(w, SendTo(w, x, packet, answer, now), h)
  {
    var i := IndexOf(w.s.peers, x);
    if i < |w.s.peers| && !w.s.peers[i].closeRequested {
      var o := Send(w.s.peers[i].pending, packet, answer);
      var accepted := if o.accepted then [packet] else [];
      var q := w.s.peers[i].(pending := o.pending);
      var w1 := Handed(w, i, accepted, o.sent, o.pending);
      assert Registered(w1.s) && Frozen(w, w1, h) by {
        ReplaceFrozen(w, i, q, h);
        ReplaceKeepsRegistered(w, i, q);
        TrafficFrozen(Replace(w, i, q), x, accepted, o.sent, h);
      }
      FailedFrozen(w1, x, now, h);
      if o.failed {
        FrozenTransitive(w, w1, PeerFailed(w1, x, now), h);
      }
    }
  }

  lemma FlushPeerFrozen(w: World, i: nat, open: bool, answers: nat -> Answer, now: int, h: PeerHandle)
    requires Invariant(w) && Frozen(w, w, h) && i < |w.s.peers|
    ensures Frozen(w, FlushPeer(w, i, open, answers, now), h)
  {
    var p := w.s.peers[i];
    var o := Flush(p.pending, answers, 0);
    var q := p.(pending := o.pending);
    var w1 := Replace(w, i, q);
    ReplaceFrozen(w, i, q, h);
    FindReplaced(w, i, q, p.handle);
    assert w1.t.accepted + Tagged(p.handle, []) == w1.t.accepted;
    TrafficFrozen(w1, p.handle, [], o.sent, h);
    var w2 := w1.(t := w1.t.(wire := w1.t.wire + Tagged(p.handle, o.sent)));
    RequestCloseFrozen(w2, p.handle, now, h);
  }

  lemma {:induction false} FlushFrozen(w: World, i: nat, open: nat -> bool, answers: nat -> nat -> Answer, now: int,
                                       h: PeerHandle)
    requires Invariant(w) && Frozen(w, w, h)
    ensures Frozen(w, FlushFrom(w, i, open, answers, now), h)
    decreases |w.s.peers| - i
  {
    if i < |w.s.peers| {
      var w1 := FlushPeer(w, i, open(i), answers(i), now);
      assert Frozen(w, w1, h) && Invariant(w1) by {
        FlushPeerFrozen(w, i, open(i), answers(i), now, h);
        FlushPeerKeepsInvariant(w, i, open(i), answers(i), now);
      }
      FlushFrozen(w1, i + 1, open, answers, now, h);
      FrozenTransitive(w, w1, FlushFrom(w1, i + 1, open, answers, now), h);
    }
  }

  lemma ScheduleFrozen(w: World, x: PeerHandle, deadline: int, h: PeerHandle)
    requires Registered(w.s) && Frozen(w, w, h)
    ensures Frozen(w, ScheduleClose(w, x, deadline), h)
  {
    var i := IndexOf(w.s.peers, x);
    if i < |w.s.peers| {
      ReplaceFrozen(w, i, w.s.peers[i].(closeRequested := true, closeDeadline := Some(deadline)), h);
    }
  }

  lemma FrozenTransitive(w: World, w': World, w'': World, h: PeerHandle)
    requires Frozen(w, w', h) && Frozen(w', w'', h)
    ensures Frozen(w, w'', h)
  {}

  lemma OpenedFrozen(w: World, x: PeerHandle, h: PeerHandle)
    requires Registered(w.s) && Frozen(w, w, h)
    ensures Frozen(w, ChannelOpened(w, x), h)
  {
    var i := IndexOf(w.s.peers, x);
    if i < |w.s.peers| {
      var up := w.s.peers[i].(connected := true, disconnectEmitted := false);
      ReplaceFrozen(w, i, up, h);
      EmitFrozen(Replace(w, i, up), x, Connected, h);
    }
  }

  lemma DroppedFrozen(w: World, i: nat, down: Peer, h: PeerHandle)
    requires Registered(w.s) && Frozen(w, w, h) && i < |w.s.peers|
    requires down == w.s.peers[i].(connected := false, disconnectEmitted := true)
    ensures var w1 := Emit(Replace(w, i, down), down.handle, Disconnected); Registered(w1.s) && Frozen(w, w1, h)
  {
    ReplaceKeepsRegistered(w, i, down);
    ReplaceFrozen(w, i, down, h);
    EmitFrozen(Replace(w, i, down), down.handle, Disconnected, h);
  }

  lemma ClosedFrozen(w: World, x: PeerHandle, now: int, h: PeerHandle)
    requires Registered(w.s) && Frozen(w, w, h)
    ensures Frozen(w, ChannelClosed(w, x, now), h)
  {
    var i, deadline := IndexOf(w.s.peers, x), now + GRACEFUL_DISCONNECT_DELAY_MS;
    if i < |w.s.peers| {
      var p := w.s.peers[i];
      var down := p.(connected := false, disconnectEmitted := true);
      var w1 := if p.connected && !p.disconnectEmitted then Emit(Replace(w, i, down), x, Disconnected) else w;
      assert ChannelClosed(w, x, now) == ScheduleClose(w1, x, deadline);
      assert Registered(w1.s) && Frozen(w, w1, h) by {
        DroppedFrozen(w, i, down, h);
      }
      ScheduleFrozen(w1, x, deadline, h);
      FrozenTransitive(w, w1, ScheduleClose(w1, x, deadline), h);
    }
  }

  lemma OpenFrozen(w: World, remoteId: string, succeeded: bool, h: PeerHandle)
    requires Frozen(w, w, h)
    ensures Frozen(w, OpenPeer(w, remoteId, succeeded), h)
  {
    FindPushed(w.s.peers, Peer(w.s.nextHandle, remoteId, false, false, false, None, []), h);
  }

  lemma PeerLeftFrozen(w: World, remoteId: string, now: int, h: PeerHandle)
    requires Registered(w.s) && Frozen(w, w, h)
    ensures Frozen(w, Step(w, OpPeerLeft(remoteId, now)), h)
  {
    var i := IndexOfRemote(w.s.peers, remoteId);
    if i < |w.s.peers| {
      RequestCloseFrozen(w, w.s.peers[i].handle, now, h);
    }
  }

  lemma ProcessFrozen(w: World, now: int, h: PeerHandle)
    requires Invariant(w) && Frozen(w, w, h)
    ensures Frozen(w, ProcessPendingCloses(w, now), h)
  {
    var w1 := w.(s := w.s.(closeAllRequested := false, requestedCloses := []));
    SettingsKeepInvariant(w, w1);
    CloseEachFrozen(w1, PendingCloses(w.s, now), h);
  }

  lemma StepFrozen(w: World, op: Op, h: PeerHandle)
    requires Invariant(w) && Frozen(w, w, h)
    ensures Frozen(w, Step(w, op), h)
  {
    match op
    case OpOpen(remoteId, succeeded) => OpenFrozen(w, remoteId, succeeded, h);
    case OpChannelOpened(x) => OpenedFrozen(w, x, h);
    case OpChannelClosed(x, now) => ClosedFrozen(w, x, now, h);
    case OpPeerFailed(x, now) => RequestCloseFrozen(w, x, now, h);
    case OpPeerLeft(remoteId, now) => PeerLeftFrozen(w, remoteId, now, h);
    case OpDisconnect(x, now) =>
      RequestCloseFrozen(w, x, now, h);
      ScheduleFrozen(w, x, now + GRACEFUL_DISCONNECT_DELAY_MS, h);
    case OpSignalingLost =>
    case OpProcessCloses(now) => ProcessFrozen(w, now, h);
    case OpSend(x, packet, answer, now) => SendFrozen(w, x, packet, answer, now, h);
    case OpFlush(open, answers, now) => FlushFrozen(w, 0, open, answers, now, h);
  }

  // ---- Exactly what each operation does ----------------------------------------------------

  /** A remote id may be opened: it names someone else, and a client opens only
      its host, known by now or by its name. */
  predicate Admissible(s: Session, remoteId: string) {
    && remoteId != "" && remoteId != s.localId
    && (s.hosting || (if s.hostRemoteId != "" then remoteId == s.hostRemoteId else "host-" <= remoteId))
  }

  /** Opening adds a peer exactly for an admissible id that has none, when the
      connection comes about: with the next handle, not connected, nothing
      waiting. The handle is used up even when it does not. */
  lemma OpensExactly(w: World, remoteId: string, succeeded: bool)
    ensures var s, s' := w.s, Step(w, OpOpen(remoteId, succeeded)).s;
            var tries := Admissible(s, remoteId) && forall p :: p in s.peers ==> p.remoteId != remoteId;
            && s'.nextHandle == s.nextHandle + (if tries then 1 else 0)
            && s'.peers == s.peers + (if tries && succeeded
                                      then [Peer(s.nextHandle, remoteId, false, false, false, None, [])] else [])
            && s'.hostRemoteId == (if tries && succeeded && !s.hosting && s.hostRemoteId == "" then remoteId
                                   else s.hostRemoteId)
  {}

  /** A channel that opens is reported exactly for a known peer that was not
      connected, which is connected from then on. */
  lemma OpenedExactly(w: World, h: PeerHandle)
    requires Registered(w.s)
    ensures var w', p := Step(w, OpChannelOpened(h)), Find(w.s.peers, h);
            if p.Some? && !p.value.connected
            then w'.t.events == w.t.events + [(h, Connected)] && Find(w'.s.peers, h).Some? &&
                 Find(w'.s.peers, h).value == p.value.(connected := true, disconnectEmitted := false)
            else w' == w
  {
    var i := IndexOf(w.s.peers, h);
    if i < |w.s.peers| {
      FindReplaced(w, i, w.s.peers[i].(connected := true, disconnectEmitted := false), h);
    }
  }

  /** A channel that closes is reported exactly for a peer that was connected;
      every known peer is to be closed 350 ms later. */
  lemma ClosedExactly(w: World, h: PeerHandle, now: int)
    requires Invariant(w)
    ensures var w', p := Step(w, OpChannelClosed(h, now)), Find(w.s.peers, h);
            && w'.t.events == w.t.events + (if p.Some? && p.value.connected then [(h, Disconnected)] else [])
            && (p.Some? ==> Find(w'.s.peers, h).Some?)
            && (p.Some? ==> var q := Find(w'.s.peers, h).value;
                  && !q.connected && q.closeRequested && q.closeDeadline == Some(now + 350)
                  && q.pending == p.value.pending)
            && (p.None? ==> w' == w)
  {
    var i := IndexOf(w.s.peers, h);
    if i < |w.s.peers| {
      var p := w.s.peers[i];
      assert HandleOk(w, h);
      if p.connected {
        var down := p.(connected := false, disconnectEmitted := true);
        FindReplaced(w, i, down, h);
        ScheduledExactly(Emit(Replace(w, i, down), h, Disconnected), h, now + 350);
      } else {
        ScheduledExactly(w, h, now + 350);
      }
    }
  }

  lemma ScheduledExactly(w: World, h: PeerHandle, deadline: int)
    requires Registered(w.s)
    ensures var w', p := ScheduleClose(w, h, deadline), Find(w.s.peers, h);
            && w'.t == w.t && w'.s.requestedCloses == w.s.requestedCloses
            && (p.Some? ==>
                  Find(w'.s.peers, h) == Some(p.value.(closeRequested := true, closeDeadline := Some(deadline))))
            && (p.None? ==> w' == w)
  {
    var i := IndexOf(w.s.peers, h);
    if i < |w.s.peers| {
      FindReplaced(w, i, w.s.peers[i].(closeRequested := true, closeDeadline := Some(deadline)), h);
    }
  }

  /** A close that is asked for is due at once, unless the peer has a deadline
      already, and is noted for handles other than 0. */
  lemma RequestCloseExactly(w: World, h: PeerHandle, now: int)
    requires Registered(w.s)
    ensures var w', p := RequestClose(w, h, now), Find(w.s.peers, h);
            && w'.t == w.t && w'.s.fatalShutdown == w.s.fatalShutdown
            && (forall x :: x in w'.s.requestedCloses <==> x in w.s.requestedCloses || (x == h && h != 0))
            && (p.Some? ==>
                  var deadline := if p.value.closeDeadline.Some? then p.value.closeDeadline else Some(now);
                  Find(w'.s.peers, h) == Some(p.value.(closeRequested := true, closeDeadline := deadline)))
  {
    var i := IndexOf(w.s.peers, h);
    if i < |w.s.peers| {
      FindReplaced(w, i, Closing(w.s.peers[i], now), h);
    }
  }

  /** A host closes a failing peer where a client gives up; disconnecting waits
      350 ms for a connected peer and not for another; without the signaling
      server all are closed. */
  lemma CloseCauses(w: World, h: PeerHandle, now: int)
    ensures Step(w, OpPeerFailed(h, now)) ==
            if w.s.hosting then RequestClose(w, h, now) else w.(s := w.s.(fatalShutdown := true))
    ensures Step(w, OpDisconnect(h, now)) ==
            if Find(w.s.peers, h).None? then w
            else if Find(w.s.peers, h).value.connected then ScheduleClose(w, h, now + 350)
            else RequestClose(w, h, now)
    ensures Step(w, OpSignalingLost).s.closeAllRequested && Step(w, OpSignalingLost).s.peers == w.s.peers
  {}

  /** A peer that left the room is closed; anyone else leaving changes nothing. */
  lemma LeftPeerIsClosed(w: World, remoteId: string, now: int, p: Peer)
    requires Registered(w.s)
    ensures p in w.s.peers && p.remoteId == remoteId ==>
              Step(w, OpPeerLeft(remoteId, now)) == RequestClose(w, p.handle, now)
    ensures !KnowsRemote(w.s.peers, remoteId) ==> Step(w, OpPeerLeft(remoteId, now)) == w
  {
    var j := IndexOfRemote(w.s.peers, remoteId);
    assert j < |w.s.peers| ==> w.s.peers[j] in w.s.peers;
    if p in w.s.peers && p.remoteId == remoteId {
      var i :| 0 <= i < |w.s.peers| && w.s.peers[i] == p;
      assert i == j;
    }
  }

  /** What a caller's packet comes to: it is accepted exactly by a known peer that
      is not to be closed, unless it is tried at once and fails outright; it goes
      out exactly when it is tried at once and sent. */
  lemma SendsExactly(w: World, h: PeerHandle, packet: Packet, answer: Answer, now: int)
    requires Registered(w.s)
    ensures var w', p := Step(w, OpSend(h, packet, answer, now)), Find(w.s.peers, h);
            var takes := p.Some? && !p.value.closeRequested;
            var tried := takes && answer.open && p.value.pending == [] && answer.buffered <= 262144;
            && w'.t.accepted == w.t.accepted +
                                (if takes && !(tried && answer.result == Failed) then [(h, packet)] else [])
            && w'.t.wire == w.t.wire + (if tried && answer.result == Sent then [(h, packet)] else [])
            && w'.t.events == w.t.events
            && (w'.s.fatalShutdown <==> w.s.fatalShutdown || (tried && answer.result == Failed && !w.s.hosting))
  {
    var i := IndexOf(w.s.peers, h);
    if i < |w.s.peers| && !w.s.peers[i].closeRequested {
      var o := Send(w.s.peers[i].pending, packet, answer);
      SendExactly(w.s.peers[i].pending, packet, answer);
      var accepted := if o.accepted then [packet] else [];
      TaggedOne(h, packet);
      FailureTouches(Handed(w, i, accepted, o.sent, o.pending), h, now);
    }
  }

  lemma TaggedOne(h: PeerHandle, p: Packet)
    ensures Tagged(h, [p]) == [(h, p)] && Tagged<Packet>(h, []) == []
  {}

  lemma FailureTouches(w: World, h: PeerHandle, now: int)
    ensures PeerFailed(w, h, now).t == w.t
    ensures PeerFailed(w, h, now).s.fatalShutdown <==> w.s.fatalShutdown || !w.s.hosting
  {}

  /** Sending leaves the peer what sending to its queue leaves and touches no other;
      a host marks the peer for closing exactly if the packet was tried and failed. */
  lemma SendLeavesExactly(w: World, i: nat, packet: Packet, answer: Answer, now: int)
    requires Registered(w.s) && i < |w.s.peers|
    ensures var w', p := Step(w, OpSend(w.s.peers[i].handle, packet, answer, now)), w.s.peers[i];
            var o := Send(p.pending, packet, answer);
            && TouchesOne(w, w', i)
            && w'.s.peers[i].pending == (if p.closeRequested then p.pending else o.pending)
            && (w'.s.peers[i].closeRequested <==> p.closeRequested || (w.s.hosting && o.failed))
  {
    IndexIsUnique(w.s, i);
    var p := w.s.peers[i];
    if !p.closeRequested {
      var o := Send(p.pending, packet, answer);
      var accepted := if o.accepted then [packet] else [];
      HandedTouchesOne(w, i, accepted, o.sent, o.pending);
      FailureTouchesOne(Handed(w, i, accepted, o.sent, o.pending), i, now);
    }
  }

  lemma HandedTouchesOne(w: World, i: nat, accepted: seq<Packet>, sent: seq<Packet>, pending: seq<Packet>)
    requires Registered(w.s) && i < |w.s.peers|
    ensures var w' := Handed(w, i, accepted, sent, pending);
            TouchesOne(w, w', i) && w'.s.peers[i] == w.s.peers[i].(pending := pending) &&
            w'.s.fatalShutdown == w.s.fatalShutdown
  {
    ReplaceKeepsRegistered(w, i, w.s.peers[i].(pending := pending));
  }

  /** What flushing comes to for one peer: nothing if it is to be closed or its
      channel is not open. */
  function OutcomeOf(p: Peer, open: bool, answers: nat -> Answer): FlushOutcome {
    if p.closeRequested || !open then FlushOutcome([], p.pending, false) else Flush(p.pending, answers, 0)
  }

  /** Only the i-th peer changes, and keeps its handle. */
  ghost predicate TouchesOne(w: World, w': World, i: nat) {
    && Registered(w'.s) && w'.s.hosting == w.s.hosting && |w'.s.peers| == |w.s.peers|
    && (i < |w.s.peers| ==> w'.s.peers[i].handle == w.s.peers[i].handle)
    && forall j :: 0 <= j < |w.s.peers| && j != i ==> w'.s.peers[j] == w.s.peers[j]
  }

  /** From one world to the next the i-th peer alone was flushed. */
  ghost predicate FlushedOne(w: World, w': World, i: nat, o: FlushOutcome)
    requires i < |w.s.peers|
  {
    && TouchesOne(w, w', i)
    && var p, q := w.s.peers[i], w'.s.peers[i];
       && q.pending == o.pending
       && w'.t.wire == w.t.wire + Tagged(p.handle, o.sent)
       && (q.closeRequested <==> p.closeRequested || (w.s.hosting && o.failed))
       && (w'.s.fatalShutdown <==> w.s.fatalShutdown || (!w.s.hosting && o.failed))
  }

  lemma FailureTouchesOne(w: World, i: nat, now: int)
    requires Registered(w.s) && i < |w.s.peers|
    ensures var w' := PeerFailed(w, w.s.peers[i].handle, now);
            && TouchesOne(w, w', i) && w'.t == w.t && w'.s.peers[i].pending == w.s.peers[i].pending
            && (w'.s.peers[i].closeRequested <==> w.s.peers[i].closeRequested || w.s.hosting)
            && (w'.s.fatalShutdown <==> w.s.fatalShutdown || !w.s.hosting)
  {
    if w.s.hosting {
      RequestTouchesOne(w, i, now);
    }
  }

  lemma RequestTouchesOne(w: World, i: nat, now: int)
    requires Registered(w.s) && i < |w.s.peers|
    ensures var w' := RequestClose(w, w.s.peers[i].handle, now);
            && TouchesOne(w, w', i) && w'.t == w.t && w'.s.peers[i] == Closing(w.s.peers[i], now)
            && w'.s.fatalShutdown == w.s.fatalShutdown
  {
    IndexIsUnique(w.s, i);
    ReplaceKeepsRegistered(w, i, Closing(w.s.peers[i], now));
  }

  lemma FlushPeerExactly(w: World, i: nat, open: bool, answers: nat -> Answer, now: int)
    requires Registered(w.s) && i < |w.s.peers|
    ensures FlushedOne(w, FlushPeer(w, i, open, answers, now), i, OutcomeOf(w.s.peers[i], open, answers))
  {
    var p, o := w.s.peers[i], OutcomeOf(w.s.peers[i], open, answers);
    var q := p.(pending := o.pending);
    var w1 := Replace(w, i, q);
    ReplaceKeepsRegistered(w, i, q);
    FailureTouchesOne(w1.(t := w1.t.(wire := w1.t.wire + Tagged(p.handle, o.sent))), i, now);
  }

  /** From one world to the next the peers from the i-th on were flushed with the
      given outcomes, as the j-th one sees it. */
  ghost predicate FlushedFrom(w: World, w': World, i: nat, os: seq<FlushOutcome>, j: nat)
    requires j < |w.s.peers| == |os|
  {
    && |w'.s.peers| == |w.s.peers|
    && var p, q := w.s.peers[j], w'.s.peers[j];
       && Of(w'.t.wire, p.handle) == Of(w.t.wire, p.handle) + (if i <= j then os[j].sent else [])
       && q.pending == (if i <= j then os[j].pending else p.pending)
       && (q.closeRequested <==> p.closeRequested || (i <= j && w.s.hosting && os[j].failed))
       && (w'.s.fatalShutdown <==>
             w.s.fatalShutdown || (!w.s.hosting && exists k :: i <= k < |os| && os[k].failed))
  }

  lemma FlushedThenFrom(w: World, w1: World, w': World, i: nat, os: seq<FlushOutcome>, j: nat)
    requires Registered(w.s) && i < |os| && j < |os| && |os| == |w.s.peers| == |w1.s.peers|
    requires FlushedOne(w, w1, i, os[i]) && FlushedFrom(w1, w', i + 1, os, j)
    ensures FlushedFrom(w, w', i, os, j)
  {
    OfAppended(w.t.wire, w.s.peers[i].handle, os[i].sent, w.s.peers[j].handle);
  }

  lemma {:induction false} FlushesFrom(w: World, i: nat, open: nat -> bool, answers: nat -> nat -> Answer, now: int,
                                       os: seq<FlushOutcome>, j: nat)
    requires Registered(w.s) && j < |w.s.peers| == |os|
    requires forall k :: i <= k < |os| ==> os[k] == OutcomeOf(w.s.peers[k], open(k), answers(k))
    ensures FlushedFrom(w, FlushFrom(w, i, open, answers, now), i, os, j)
    decreases |w.s.peers| - i
  {
    if i < |w.s.peers| {
      var w1 := FlushPeer(w, i, open(i), answers(i), now);
      FlushPeerExactly(w, i, open(i), answers(i), now);
      FlushesFrom(w1, i + 1, open, answers, now, os, j);
      FlushedThenFrom(w, w1, FlushFrom(w, i, open, answers, now), i, os, j);
    }
  }

  /** A flush sends, to every peer that is not to be closed and whose channel is
      open, exactly what flushing its queue sends and leaves what that leaves, and
      touches no other queue. On a host it marks exactly the peers whose queue
      failed for closing; a client gives up exactly if one failed. */
  lemma FlushesExactly(w: World, open: nat -> bool, answers: nat -> nat -> Answer, now: int, j: nat)
    requires Registered(w.s) && j < |w.s.peers|
    ensures var w', p := Step(w, OpFlush(open, answers, now)), w.s.peers[j];
            var flushes := !p.closeRequested && open(j);
            var o := Flush(p.pending, answers(j), 0);
            && |w'.s.peers| == |w.s.peers|
            && Of(w'.t.wire, p.handle) == Of(w.t.wire, p.handle) + (if flushes then o.sent else [])
            && w'.s.peers[j].pending == (if flushes then o.pending else p.pending)
            && (w'.s.peers[j].closeRequested <==> p.closeRequested || (w.s.hosting && flushes && o.failed))
            && (w'.s.fatalShutdown <==>
                  w.s.fatalShutdown ||
                  (!w.s.hosting && exists k :: 0 <= k < |w.s.peers| &&
                                     OutcomeOf(w.s.peers[k], open(k), answers(k)).failed))
  {
    var os := seq(|w.s.peers|, k requires 0 <= k < |w.s.peers| => OutcomeOf(w.s.peers[k], open(k), answers(k)));
    FlushesFrom(w, 0, open, answers, now, os, j);
    assert os[j] == OutcomeOf(w.s.peers[j], open(j), answers(j));
  }

  // ---- Whole sessions --------------------------------------------------------------------

  lemma {:induction false} RunKeepsInvariant(w: World, ops: seq<Op>)
    requires Invariant(w)
    ensures Invariant(Run(w, ops))
    decreases ops
  {
    if ops != [] {
      StepKeepsInvariant(w, ops[0]);
      RunKeepsInvariant(Step(w, ops[0]), ops[1..]);
    }
  }

  /** In every session: distinct handles and remote ids; each handle's events
      alternate from Connected, and end in Disconnected (or are none) once its
      peer is gone; and, per channel, the packets accepted for a live peer are
      those transmitted followed by those waiting, in priority order. */
  lemma SessionIsSound(hosting: bool, localId: string, ops: seq<Op>, h: PeerHandle)
    ensures var w := Run(Start(hosting, localId), ops);
            && Registered(w.s)
            && Bracketed(Of(w.t.events, h))
            && (Find(w.s.peers, h).None? ==>
                  Of(w.t.events, h) == [] || Of(w.t.events, h)[|Of(w.t.events, h)| - 1] == Disconnected)
            && (Find(w.s.peers, h).Some? ==>
                  Conserved(Of(w.t.accepted, h), Of(w.t.wire, h), Find(w.s.peers, h).value.pending))
            && InAcceptedOrder(Of(w.t.accepted, h), Of(w.t.wire, h))
  {
    var start := Start(hosting, localId);
    forall x ensures HandleOk(start, x) {}
    RunKeepsInvariant(start, ops);
    assert HandleOk(Run(start, ops), h);
  }

  /** Once a peer is removed its handle is never given out again: whatever
      follows, it stays unknown and its trace does not change. */
  lemma {:induction false} HandlesAreNotReused(w: World, ops: seq<Op>, h: PeerHandle)
    requires Invariant(w) && h < w.s.nextHandle && Find(w.s.peers, h).None?
    ensures Frozen(w, Run(w, ops), h)
    decreases ops
  {
    if ops != [] {
      StepFrozen(w, ops[0], h);
      StepKeepsInvariant(w, ops[0]);
      HandlesAreNotReused(Step(w, ops[0]), ops[1..], h);
    }
  }

  /** In every session closing all was asked for only if the signaling server was
      lost, and only a client gives up. */
  lemma ShutdownsHaveCauses(hosting: bool, localId: string, ops: seq<Op>)
    ensures var s := Run(Start(hosting, localId), ops).s;
            && (s.closeAllRequested ==> exists i :: 0 <= i < |ops| && ops[i].OpSignalingLost?)
            && (s.fatalShutdown ==> !hosting)
  {
    RunKeepsOpen(Start(hosting, localId), ops);
  }

  lemma {:induction false} RunKeepsOpen(w: World, ops: seq<Op>)
    ensures KeepsOpen(w, Run(w, ops), exists i :: 0 <= i < |ops| && ops[i].OpSignalingLost?)
    decreases ops
  {
    if ops != [] {
      StepKeepsOpen(w, ops[0]);
      RunKeepsOpen(Step(w, ops[0]), ops[1..]);
      assert forall i :: 0 <= i < |ops| - 1 ==> ops[1..][i] == ops[i + 1];
    }
  }

  predicate KeepsOpen(w: World, w': World, lost: bool) {
    && w'.s.hosting == w.s.hosting
    && (w'.s.closeAllRequested ==> w.s.closeAllRequested || lost)
    && (w'.s.fatalShutdown ==> w.s.fatalShutdown || !w.s.hosting)
  }

  lemma StepKeepsOpen(w: World, op: Op)
    ensures KeepsOpen(w, Step(w, op), op.OpSignalingLost?)
  {
    if op.OpProcessCloses? {
      CloseEachKeepsOpen(w.(s := w.s.(closeAllRequested := false, requestedCloses := [])), PendingCloses(w.s, op.now));
    } else if op.OpFlush? {
      FlushKeepsOpen(w, 0, op.open, op.answers, op.now);
    } else if op.OpSend? {
      SendKeepsOpen(w, op.h, op.packet, op.answer, op.now);
    } else if op.OpChannelClosed? {
      ChannelClosedKeepsOpen(w, op.h, op.now);
    }
  }

  lemma SendKeepsOpen(w: World, h: PeerHandle, packet: Packet, answer: Answer, now: int)
    ensures KeepsOpen(w, SendTo(w, h, packet, answer, now), false)
  {}

  lemma ChannelClosedKeepsOpen(w: World, h: PeerHandle, now: int)
    ensures KeepsOpen(w, ChannelClosed(w, h, now), false)
  {}

  lemma {:induction false} CloseEachKeepsOpen(w: World, handles: seq<PeerHandle>)
    ensures KeepsOpen(w, CloseEach(w, handles), false)
    decreases handles
  {
    if handles != [] {
      CloseEachKeepsOpen(ClosePeer(w, handles[0]), handles[1..]);
    }
  }

  lemma {:induction false} FlushKeepsOpen(w: World, i: nat, open: nat -> bool, answers: nat -> nat -> Answer, now: int)
    ensures KeepsOpen(w, FlushFrom(w, i, open, answers, now), false)
    decreases |w.s.peers| - i
  {
    if i < |w.s.peers| {
      FlushKeepsOpen(FlushPeer(w, i, open(i), answers(i), now), i + 1, open, answers, now);
    }
  }

  // ---- The transport itself -----------------------------------------------------------------

  class WebRtcTransport {
    const hosting: bool
    const localId: string
    var hostRemoteId: string
    var peers: seq<Peer>
    var nextHandle: PeerHandle
    var requestedCloses: seq<PeerHandle>
    var closeAllRequested: bool
    var fatalShutdown: bool
    ghost var trace: Trace

    ghost function State(): World
      reads this
    {
      World(Session(hosting, localId, hostRemoteId, peers, nextHandle, requestedCloses, closeAllRequested,
                    fatalShutdown), trace)
    }

    ghost predicate Valid()
      reads this
    {
      Invariant(State())
    }

    constructor (hosting: bool, localId: string)
      ensures Valid() && State() == Start(hosting, localId)
    {
      this.hosting, this.localId := hosting, localId;
      hostRemoteId, peers, nextHandle, requestedCloses := "", [], 1, [];
      closeAllRequested, fatalShutdown := false, false;
      trace := Trace([], [], []);
      new;
      forall x ensures HandleOk(State(), x) {}
    }

    method FindPeerByHandle(h: PeerHandle) returns (i: nat)
      ensures i == IndexOf(peers, h)
    {
      i := 0;
      while i < |peers| && peers[i].handle != h
        invariant 0 <= i <= |peers| && i + IndexOf(peers[i..], h) == IndexOf(peers, h)
      {
        assert peers[i..][1..] == peers[i + 1..];
        i := i + 1;
      }
    }

    method InitializePeerConnection(remoteId: string, succeeded: bool)
      requires Valid()
      modifies this
      ensures Valid() && State() == Step(old(State()), OpOpen(remoteId, succeeded))
    {
      StepKeepsInvariant(State(), OpOpen(remoteId, succeeded));
      AddPeer(remoteId, succeeded);
    }

    method AddPeer(remoteId: string, succeeded: bool)
      modifies this
      ensures State() == OpenPeer(old(State()), remoteId, succeeded)
    {
      if remoteId == "" || remoteId == localId {
        return;
      }
      if !hosting {
        if hostRemoteId != "" && remoteId != hostRemoteId {
          return;
        }
        if hostRemoteId == "" && !("host-" <= remoteId) {
          return;
        }
      }
      if exists p :: p in peers && p.remoteId == remoteId {
        return;
      }
      var p := Peer(nextHandle, remoteId, false, false, false, None, []);
      nextHandle := nextHandle + 1;
      if !succeeded {
        return;
      }
      peers := peers + [p];
      if !hosting && hostRemoteId == "" {
        hostRemoteId := remoteId;
      }
    }

    method DataChannelOpen(h: PeerHandle) returns (events: seq<(PeerHandle, EventKind)>)
      requires Valid()
      modifies this
      ensures Valid() && State() == Step(old(State()), OpChannelOpened(h))
      ensures trace.events == old(trace.events) + events
    {
      StepKeepsInvariant(State(), OpChannelOpened(h));
      events := [];
      var i := FindPeerByHandle(h);
      if i < |peers| && !peers[i].connected {
        peers := peers[i := peers[i].(connected := true, disconnectEmitted := false)];
        events := [(h, Connected)];
        trace := trace.(events := trace.events + events);
      }
    }

    method DataChannelClosed(h: PeerHandle, now: int) returns (events: seq<(PeerHandle, EventKind)>)
      requires Valid()
      modifies this
      ensures Valid() && State() == Step(old(State()), OpChannelClosed(h, now))
      ensures trace.events == old(trace.events) + events
    {
      StepKeepsInvariant(State(), OpChannelClosed(h, now));
      events := DropPeer(h, now);
    }

    method DropPeer(h: PeerHandle, now: int) returns (events: seq<(PeerHandle, EventKind)>)
      requires Registered(State().s)
      modifies this
      ensures State() == ChannelClosed(old(State()), h, now)
      ensures trace.events == old(trace.events) + events
    {
      events := [];
      var i := FindPeerByHandle(h);
      if i == |peers| {
        return;
      }
      IndexIsUnique(State().s, i);
      if peers[i].connected && !peers[i].disconnectEmitted {
        FindReplaced(State(), i, peers[i].(connected := false, disconnectEmitted := true), h);
        peers := peers[i := peers[i].(connected := false, disconnectEmitted := true)];
        events := [(h, Disconnected)];
        trace := trace.(events := trace.events + events);
      }
      IndexIsUnique(State().s, i);
      peers := peers[i := peers[i].(closeRequested := true, closeDeadline := Some(now + GRACEFUL_DISCONNECT_DELAY_MS))];
    }

    method RequestPeerClose(h: PeerHandle, now: int)
      modifies this
      ensures State() == RequestClose(old(State()), h, now)
    {
      if h == 0 {
        return;
      }
      var i := FindPeerByHandle(h);
      if i < |peers| {
        var deadline := if peers[i].closeDeadline.Some? then peers[i].closeDeadline else Some(now);
        peers := peers[i := peers[i].(closeRequested := true, closeDeadline := deadline)];
      }
      if h !in requestedCloses {
        requestedCloses := requestedCloses + [h];
      }
    }

    method HandlePeerFailure(h: PeerHandle, now: int)
      modifies this
      ensures State() == PeerFailed(old(State()), h, now)
    {
      if hosting {
        RequestPeerClose(h, now);
      } else {
        fatalShutdown := true;
      }
    }

    method ErasePeer(h: PeerHandle) returns (events: seq<(PeerHandle, EventKind)>)
      modifies this
      ensures State() == ClosePeer(old(State()), h)
      ensures trace.events == old(trace.events) + events
    {
      events := [];
      var i := FindPeerByHandle(h);
      if i == |peers| {
        return;
      }
      if peers[i].connected {
        events := [(h, Disconnected)];
        trace := trace.(events := trace.events + events);
      }
      peers := Without(peers, i);
    }

    method TakePendingPeerCloses(now: int) returns (handles: seq<PeerHandle>)
      modifies this
      ensures handles == old(PendingCloses(State().s, now))
      ensures State() == old(State().(s := State().s.(closeAllRequested := false, requestedCloses := [])))
    {
      var all := closeAllRequested;
      closeAllRequested := false;
      handles := [];
      if all {
        for i := 0 to |peers|
          invariant handles == Handles(peers)[..i]
          invariant State() == old(State().(s := State().s.(closeAllRequested := false)))
        {
          handles := handles + [peers[i].handle];
        }
        requestedCloses := [];
        return;
      }
      for i := 0 to |peers|
        invariant handles == Expired(peers[..i], now)
        invariant State() == old(State())
      {
        assert peers[..i + 1][..i] == peers[..i];
        if peers[i].closeDeadline.Some? && now >= peers[i].closeDeadline.value {
          handles := handles + [peers[i].handle];
        }
      }
      assert peers[..|peers|] == peers;
      for i := 0 to |requestedCloses|
        invariant WithRequested(handles, requestedCloses[i..]) == WithRequested(Expired(peers, now), requestedCloses)
        invariant State() == old(State())
      {
        assert requestedCloses[i..][1..] == requestedCloses[i + 1..];
        if requestedCloses[i] !in handles {
          handles := handles + [requestedCloses[i]];
        }
      }
      requestedCloses := [];
    }

    method ProcessPendingPeerClose(now: int) returns (events: seq<(PeerHandle, EventKind)>)
      requires Valid()
      modifies this
      ensures Valid() && State() == Step(old(State()), OpProcessCloses(now))
      ensures trace.events == old(trace.events) + events
    {
      StepKeepsInvariant(State(), OpProcessCloses(now));
      var handles := TakePendingPeerCloses(now);
      events := ClosePeers(handles);
    }

    method ClosePeers(handles: seq<PeerHandle>) returns (events: seq<(PeerHandle, EventKind)>)
      modifies this
      ensures State() == CloseEach(old(State()), handles)
      ensures trace.events == old(trace.events) + events
    {
      events := [];
      for i := 0 to |handles|
        invariant CloseEach(State(), handles[i..]) == CloseEach(old(State()), handles)
        invariant trace.events == old(trace.events) + events
      {
        assert handles[i..][1..] == handles[i + 1..];
        var more := ErasePeer(handles[i]);
        events := events + more;
      }
    }

    method SendPacket(h: PeerHandle, packet: Packet, answer: Answer, now: int) returns (accepted: bool)
      requires Valid()
      modifies this
      ensures Valid() && State() == Step(old(State()), OpSend(h, packet, answer, now))
      ensures trace.accepted == old(trace.accepted) + if accepted then [(h, packet)] else []
    {
      StepKeepsInvariant(State(), OpSend(h, packet, answer, now));
      ghost var w := Step(State(), OpSend(h, packet, answer, now));
      accepted := SendToPeer(h, packet, answer, now);
      assert State() == w;
    }

    method SendToPeer(h: PeerHandle, packet: Packet, answer: Answer, now: int) returns (accepted: bool)
      modifies this
      ensures State() == SendTo(old(State()), h, packet, answer, now)
      ensures trace.accepted == old(trace.accepted) + if accepted then [(h, packet)] else []
    {
      var i := FindPeerByHandle(h);
      if i == |peers| || peers[i].closeRequested {
        return false;
      }
      var o := EnqueueOrSend(peers[i].pending, packet, answer);
      peers := peers[i := peers[i].(pending := o.pending)];
      trace := trace.(accepted := trace.accepted + Tagged(h, if o.accepted then [packet] else []),
                      wire := trace.wire + Tagged(h, o.sent));
      accepted := o.accepted;
      if o.failed {
        HandlePeerFailure(h, now);
      }
    }

    method FlushPeerQueue(i: nat, open: bool, answers: nat -> Answer, now: int)
      requires i < |peers|
      modifies this
      ensures State() == FlushPeer(old(State()), i, open, answers, now)
    {
      if peers[i].closeRequested || peers[i].pending == [] || !open {
        return;
      }
      var h := peers[i].handle;
      var o := FlushQueue(peers[i].pending, answers);
      peers := peers[i := peers[i].(pending := o.pending)];
      trace := trace.(wire := trace.wire + Tagged(h, o.sent));
      if o.failed {
        HandlePeerFailure(h, now);
      }
    }

    method FlushQueuedPeerPackets(open: nat -> bool, answers: nat -> nat -> Answer, now: int)
      requires Valid()
      modifies this
      ensures Valid() && State() == Step(old(State()), OpFlush(open, answers, now))
    {
      StepKeepsInvariant(State(), OpFlush(open, answers, now));
      var i := 0;
      while i < |peers|
        invariant 0 <= i <= |peers|
        invariant FlushFrom(State(), i, open, answers, now) == FlushFrom(old(State()), 0, open, answers, now)
        decreases |peers| - i
      {
        ghost var count := |peers|;
        FlushPeerQueue(i, open(i), answers(i), now);
        assert |peers| == count;
        i := i + 1;
      }
    }
  }
}

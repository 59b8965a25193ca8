/** The signaling server: connections say hello, create, join and leave rooms,
    send signals to members of the room their client names, and disconnect. A
    client may go on naming a room that its owner has left. */
module SignalingServer {
  import opened Wrappers

  type Connection = nat

  datatype Client = Client(peerId: string, roomId: string)

  datatype Room = Room(password: string, maxParticipants: nat, owner: Connection, ownerPeerId: string,
                       members: set<Connection>)

  datatype Server = Server(clients: map<Connection, Client>, rooms: map<string, Room>)

  datatype Request =
    | Attach
    | Hello(peerId: string)
    | CreateRoom(roomId: string, peerId: string, password: string, maxParticipants: int)
    | JoinRoom(roomId: string, peerId: string, password: string)
    | LeaveRoom
    | Signal(targetPeerId: string, body: string)
    | Disconnect

  datatype Message =
    | Error(text: string)
    | Welcome(roomId: string, peerId: string)
    | RoomJoined(roomId: string, peerId: string)
    | PeerJoined(roomId: string, peerId: string)
    | PeerLeft(roomId: string, peerId: string)
    | Forwarded(roomId: string, peerId: string, targetPeerId: string, body: string)

  datatype Outgoing = Outgoing(to: Connection, message: Message)

  // ---- Text ---------------------------------------------------------------------

  predicate IsBlank(c: char) { c == ' ' || c == '\t' || c == '\r' || c == '\n' }

  function TrimLeft(text: string): string {
    if text != "" && IsBlank(text[0]) then TrimLeft(text[1..]) else text
  }

  function TrimRight(text: string): string {
    if text != "" && IsBlank(text[|text| - 1]) then TrimRight(text[..|text| - 1]) else text
  }

  function Trim(text: string): string { TrimRight(TrimLeft(text)) }

  // ---- What each request does ------------------------------------------------------

  function ClientOf(s: Server, conn: Connection): Client {
    if conn in s.clients then s.clients[conn] else Client("", "")
  }

  function SanitizeMaxParticipants(requested: int): nat { if requested > 2 then requested else 2 }

  /** The rooms after a connection leaves the room its client names: the owner's
      room goes, and so does an emptied one. */
  function RoomsWithout(s: Server, conn: Connection): map<string, Room> {
    var roomId := ClientOf(s, conn).roomId;
    if roomId == "" || roomId !in s.rooms then s.rooms
    else
      var room := s.rooms[roomId];
      var members := room.members - {conn};
      if room.owner == conn || members == {} then s.rooms - {roomId}
      else s.rooms[roomId := room.(members := members)]
  }

  /** Moving to `roomId` first leaves any other room. */
  function RoomsBeforeEntering(s: Server, conn: Connection, roomId: string): map<string, Room> {
    var current := ClientOf(s, conn).roomId;
    if current != "" && current != roomId then RoomsWithout(s, conn) else s.rooms
  }

  predicate Creates(s: Server, roomId: string, peerId: string) {
    roomId != "" && peerId != "" && (roomId in s.rooms ==> s.rooms[roomId].members == {})
  }

  function Create(s: Server, conn: Connection, roomId: string, peerId: string, password: string,
                  maxParticipants: int): Server
  {
    if !Creates(s, roomId, peerId) then s
    else
      var room := Room(password, SanitizeMaxParticipants(maxParticipants), conn, peerId, {conn});
      Server(s.clients[conn := Client(peerId, roomId)], RoomsBeforeEntering(s, conn, roomId)[roomId := room])
  }

  datatype JoinOutcome = MissingIds | NoSuchRoom | OwnerMissing | WrongPassword | Full | Joined

  function JoinCheck(s: Server, roomId: string, peerId: string, password: string): JoinOutcome {
    if roomId == "" || peerId == "" then MissingIds
    else if roomId !in s.rooms || s.rooms[roomId].members == {} then NoSuchRoom
    else
      var room := s.rooms[roomId];
      if room.owner !in room.members then OwnerMissing
      else if room.password != password then WrongPassword
      else if |room.members| >= room.maxParticipants then Full
      else Joined
  }

  function Join(s: Server, conn: Connection, roomId: string, peerId: string, password: string): Server {
    match JoinCheck(s, roomId, peerId, password)
    case OwnerMissing => s.(rooms := s.rooms - {roomId})
    case Joined =>
      var room := s.rooms[roomId];
      Server(s.clients[conn := Client(peerId, roomId)],
             RoomsBeforeEntering(s, conn, roomId)[roomId := room.(members := room.members + {conn})])
    case _ => s
  }

  function Step(s: Server, conn: Connection, request: Request): Server {
    match request
    case Attach => if conn in s.clients then s else s.(clients := s.clients[conn := Client("", "")])
    case Hello(peerId) =>
      if Trim(peerId) == "" then s else s.(clients := s.clients[conn := ClientOf(s, conn).(peerId := Trim(peerId))])
    case CreateRoom(roomId, peerId, password, maxParticipants) =>
      Create(s, conn, Trim(roomId), Trim(peerId), password, maxParticipants)
    case JoinRoom(roomId, peerId, password) => Join(s, conn, Trim(roomId), Trim(peerId), password)
    case LeaveRoom =>
      if conn !in s.clients then s
      else Server(s.clients[conn := ClientOf(s, conn).(roomId := "")], RoomsWithout(s, conn))
    case Signal(_, _) => s
    case Disconnect =>
      if conn !in s.clients then s else Server(s.clients - {conn}, RoomsWithout(s, conn))
  }

  function Run(s: Server, requests: seq<(Connection, Request)>): Server
    decreases requests
  {
    if requests == [] then s else Run(Step(s, requests[0].0, requests[0].1), requests[1..])
  }

  // ---- The invariant ---------------------------------------------------------------

  ghost predicate RoomOk(s: Server, roomId: string)
    requires roomId in s.rooms
  {
    var room := s.rooms[roomId];
    && roomId != ""
    && room.owner in room.members
    && 2 <= room.maxParticipants && |room.members| <= room.maxParticipants
    && forall m :: m in room.members ==> m in s.clients && s.clients[m].peerId != "" && s.clients[m].roomId == roomId
  }

  ghost predicate Invariant(s: Server) {
    forall roomId :: roomId in s.rooms ==> RoomOk(s, roomId)
  }

  /** No connection is a member of two rooms. */
  lemma OneRoomPerConnection(s: Server, a: string, b: string, conn: Connection)
    requires Invariant(s) && a in s.rooms && b in s.rooms
    requires conn in s.rooms[a].members && conn in s.rooms[b].members
    ensures a == b
  {
    assert RoomOk(s, a) && RoomOk(s, b);
  }

  /** The room with the connection taken out; it was not the owner. */
  predicate Departed(before: Room, after: Room, conn: Connection) {
    before.owner != conn && after == before.(members := before.members - {conn})
  }

  /** A connection is in no room but the one its client names. */
  lemma NotInOtherRooms(s: Server, conn: Connection, r: string)
    requires Invariant(s) && r in s.rooms && ClientOf(s, conn).roomId != r
    ensures Departed(s.rooms[r], s.rooms[r], conn)
  {
    assert RoomOk(s, r);
    assert s.rooms[r].members - {conn} == s.rooms[r].members;
  }

  lemma RoomsWithoutDeparted(s: Server, conn: Connection, r: string)
    requires Invariant(s) && r in RoomsWithout(s, conn)
    ensures r in s.rooms && Departed(s.rooms[r], RoomsWithout(s, conn)[r], conn)
  {
    if r != ClientOf(s, conn).roomId {
      NotInOtherRooms(s, conn, r);
    } else {
      assert RoomOk(s, r);
    }
  }

  lemma BeforeEnteringDeparted(s: Server, conn: Connection, target: string, r: string)
    requires Invariant(s) && r in RoomsBeforeEntering(s, conn, target) && r != target
    ensures r in s.rooms && Departed(s.rooms[r], RoomsBeforeEntering(s, conn, target)[r], conn)
  {
    var current := ClientOf(s, conn).roomId;
    if current != "" && current != target {
      RoomsWithoutDeparted(s, conn, r);
    } else {
      assert RoomOk(s, r);
      NotInOtherRooms(s, conn, r);
    }
  }

  lemma {:induction false} SubsetSize(a: set<Connection>, b: set<Connection>)
    requires a <= b
    ensures |a| <= |b|
  {
    if a != {} {
      var x :| x in a;
      SubsetSize(a - {x}, b - {x});
    }
  }

  /** A room the connection is out of stays fine whatever becomes of the
      connection's own client record. */
  lemma DepartedRoomOk(s: Server, s': Server, conn: Connection, r: string)
    requires r in s.rooms && RoomOk(s, r) && r in s'.rooms && Departed(s.rooms[r], s'.rooms[r], conn)
    requires forall m :: m in s.clients && m != conn ==> m in s'.clients && s'.clients[m] == s.clients[m]
    ensures RoomOk(s', r)
  {
    SubsetSize(s'.rooms[r].members, s.rooms[r].members);
  }

  lemma LeaveKeepsInvariant(s: Server, conn: Connection, clients: map<Connection, Client>)
    requires Invariant(s)
    requires forall m :: m in s.clients && m != conn ==> m in clients && clients[m] == s.clients[m]
    ensures Invariant(Server(clients, RoomsWithout(s, conn)))
  {
    var s' := Server(clients, RoomsWithout(s, conn));
    forall r | r in s'.rooms ensures RoomOk(s', r) {
      RoomsWithoutDeparted(s, conn, r);
      assert RoomOk(s, r);
      DepartedRoomOk(s, s', conn, r);
    }
  }

  /** Entering a room keeps the invariant when the entered room is fine. */
  lemma EnterKeepsInvariant(s: Server, conn: Connection, target: string, peerId: string, room: Room)
    requires Invariant(s) && target != "" && peerId != ""
    requires room.owner in room.members && 2 <= room.maxParticipants && |room.members| <= room.maxParticipants
    requires forall m :: m in room.members && m != conn ==>
               m in s.clients && s.clients[m].peerId != "" && s.clients[m].roomId == target
    ensures Invariant(Server(s.clients[conn := Client(peerId, target)],
              RoomsBeforeEntering(s, conn, target)[target := room]))
  {
    var rooms := RoomsBeforeEntering(s, conn, target);
    var s' := Server(s.clients[conn := Client(peerId, target)], rooms[target := room]);
    forall r | r in s'.rooms ensures RoomOk(s', r) {
      if r != target {
        BeforeEnteringDeparted(s, conn, target, r);
        assert RoomOk(s, r);
        DepartedRoomOk(s, s', conn, r);
      }
    }
  }

  lemma StepKeepsInvariant(s: Server, conn: Connection, request: Request)
    requires Invariant(s)
    ensures Invariant(Step(s, conn, request))
  {
    var s' := Step(s, conn, request);
    match request
    case CreateRoom(roomId, peerId, password, maxParticipants) =>
      if Creates(s, Trim(roomId), Trim(peerId)) {
        EnterKeepsInvariant(s, conn, Trim(roomId), Trim(peerId),
                            Room(password, SanitizeMaxParticipants(maxParticipants), conn, Trim(peerId), {conn}));
      }
    case JoinRoom(roomId, peerId, password) => JoinKeepsInvariant(s, conn, Trim(roomId), Trim(peerId), password);
    case LeaveRoom =>
      if conn in s.clients {
        LeaveKeepsInvariant(s, conn, s'.clients);
      }
    case Disconnect =>
      if conn in s.clients {
        LeaveKeepsInvariant(s, conn, s'.clients);
      }
    case _ =>
      forall r | r in s'.rooms ensures RoomOk(s', r) {
        assert RoomOk(s, r);
      }
  }

  lemma JoinKeepsInvariant(s: Server, conn: Connection, roomId: string, peerId: string, password: string)
    requires Invariant(s)
    ensures Invariant(Join(s, conn, roomId, peerId, password))
    ensures JoinCheck(s, roomId, peerId, password) != OwnerMissing
  {
    if roomId in s.rooms {
      assert RoomOk(s, roomId);
      var room := s.rooms[roomId];
      if JoinCheck(s, roomId, peerId, password) == Joined {
        assert |room.members + {conn}| <= |room.members| + 1;
        EnterKeepsInvariant(s, conn, roomId, peerId, room.(members := room.members + {conn}));
      }
    }
  }

  const EMPTY: Server := Server(map[], map[])

  lemma {:induction false} RunKeepsInvariant(s: Server, requests: seq<(Connection, Request)>)
    requires Invariant(s)
    ensures Invariant(Run(s, requests))
    decreases requests
  {
    if requests != [] {
      StepKeepsInvariant(s, requests[0].0, requests[0].1);
      RunKeepsInvariant(Step(s, requests[0].0, requests[0].1), requests[1..]);
    }
  }

  /** In every state a server can reach, every room has its owner and at most
      its maximum of known, identified members, and the branch of a join for a
      room without its owner is never taken. */
  lemma ReachableStates(requests: seq<(Connection, Request)>, roomId: string, peerId: string, password: string)
    ensures var s := Run(EMPTY, requests);
            && (forall r :: r in s.rooms ==> RoomOk(s, r))
            && JoinCheck(s, roomId, peerId, password) != OwnerMissing
            && (roomId in s.rooms ==> s.rooms[roomId].members != {})
  {
    RunKeepsInvariant(EMPTY, requests);
    var s := Run(EMPTY, requests);
    JoinKeepsInvariant(s, 0, roomId, peerId, password);
    if roomId in s.rooms {
      assert RoomOk(s, roomId);
    }
  }

  // ---- Room names left behind ------------------------------------------------------

  /** Whether the request makes the connection leave the room it is in. */
  predicate LeavesRoom(s: Server, conn: Connection, request: Request) {
    var current := ClientOf(s, conn).roomId;
    current != "" &&
    match request
    case LeaveRoom => true
    case Disconnect => true
    case CreateRoom(roomId, peerId, _, _) => Creates(s, Trim(roomId), Trim(peerId)) && current != Trim(roomId)
    case JoinRoom(roomId, peerId, password) =>
      JoinCheck(s, Trim(roomId), Trim(peerId), password) == Joined && current != Trim(roomId)
    case _ => false
  }

  /** An owner leaves a room in which others remain. */
  predicate AbandonsMembers(s: Server, conn: Connection, request: Request) {
    var current := ClientOf(s, conn).roomId;
    LeavesRoom(s, conn, request) && current in s.rooms &&
    s.rooms[current].owner == conn && s.rooms[current].members != {conn}
  }

  /** The client names a room it is not a member of. */
  predicate Stale(s: Server, c: Connection) {
    c in s.clients && s.clients[c].roomId != "" && !IsMember(s.rooms, s.clients[c].roomId, c)
  }

  /** The request sets or clears the connection's own room. */
  predicate ChangesRoom(s: Server, conn: Connection, request: Request) {
    match request
    case LeaveRoom => true
    case Disconnect => true
    case CreateRoom(roomId, peerId, _, _) => Creates(s, Trim(roomId), Trim(peerId))
    case JoinRoom(roomId, peerId, password) => JoinCheck(s, Trim(roomId), Trim(peerId), password) == Joined
    case _ => false
  }

  /** The owner of the room that `c` is in leaves it. */
  predicate Abandons(s: Server, conn: Connection, request: Request, c: Connection) {
    c != conn && AbandonsMembers(s, conn, request) && c in s.rooms[ClientOf(s, conn).roomId].members
  }

  /** A client becomes stale exactly when it is abandoned, and stops being so
      exactly when it changes room itself. */
  lemma StaleStep(s: Server, conn: Connection, request: Request, c: Connection)
    requires Invariant(s)
    ensures Stale(Step(s, conn, request), c) <==>
            (Stale(s, c) && !(c == conn && ChangesRoom(s, conn, request))) || Abandons(s, conn, request, c)
  {
    if c == conn {
      OwnRoomStep(s, conn, request);
    } else if c in s.clients && s.clients[c].roomId != "" {
      OthersRoomStep(s, conn, request, c);
    }
  }

  lemma OwnRoomStep(s: Server, conn: Connection, request: Request)
    requires Invariant(s)
    ensures Stale(Step(s, conn, request), conn) <==> Stale(s, conn) && !ChangesRoom(s, conn, request)
  {
    if request.JoinRoom? {
      JoinKeepsInvariant(s, conn, Trim(request.roomId), Trim(request.peerId), request.password);
    }
  }

  lemma OthersRoomStep(s: Server, conn: Connection, request: Request, c: Connection)
    requires Invariant(s) && c != conn && c in s.clients && s.clients[c].roomId != ""
    ensures Stale(Step(s, conn, request), c) <==> Stale(s, c) || Abandons(s, conn, request, c)
  {
    var s', room, current := Step(s, conn, request), s.clients[c].roomId, ClientOf(s, conn).roomId;
    assert c in s'.clients && s'.clients[c] == s.clients[c] by {
      if request.JoinRoom? {
        JoinKeepsInvariant(s, conn, Trim(request.roomId), Trim(request.peerId), request.password);
      }
    }
    assert room in s.rooms ==> RoomOk(s, room);
    assert current in s.rooms ==> RoomOk(s, current);
    RoomStep(s, conn, request, c, room);
  }

  predicate IsMember(rooms: map<string, Room>, roomId: string, c: Connection) {
    roomId in rooms && c in rooms[roomId].members
  }

  lemma MembersAfterLeaving(s: Server, conn: Connection, c: Connection, room: string)
    requires c != conn && room != ""
    ensures IsMember(RoomsWithout(s, conn), room, c) <==>
            IsMember(s.rooms, room, c) && !(ClientOf(s, conn).roomId == room && s.rooms[room].owner == conn)
  {
    assert IsMember(s.rooms, room, c) ==> c in s.rooms[room].members - {conn};
  }

  lemma MembersBeforeEntering(s: Server, conn: Connection, target: string, c: Connection, room: string)
    requires c != conn && room != ""
    ensures IsMember(RoomsBeforeEntering(s, conn, target), room, c) <==>
            IsMember(s.rooms, room, c) &&
            !(ClientOf(s, conn).roomId == room != target && s.rooms[room].owner == conn)
  {
    MembersAfterLeaving(s, conn, c, room);
  }

  /** A room keeps a member other than the requester unless its owner leaves it. */
  lemma RoomStep(s: Server, conn: Connection, request: Request, c: Connection, room: string)
    requires Invariant(s) && c != conn && room != ""
    ensures IsMember(Step(s, conn, request).rooms, room, c) <==>
            IsMember(s.rooms, room, c) && !(ClientOf(s, conn).roomId == room && AbandonsMembers(s, conn, request))
  {
    assert room in s.rooms ==> RoomOk(s, room);
    MembersAfterLeaving(s, conn, c, room);
    match request
    case CreateRoom(roomId, _, _, _) => MembersBeforeEntering(s, conn, Trim(roomId), c, room);
    case JoinRoom(roomId, peerId, password) =>
      MembersBeforeEntering(s, conn, Trim(roomId), c, room);
      JoinKeepsInvariant(s, conn, Trim(roomId), Trim(peerId), password);
    case _ =>
  }

  /** That clients name only rooms they are in is not an invariant: it is lost
      exactly when an owner leaves other members behind. */
  lemma StaleExactlyWhenAbandoned(s: Server, conn: Connection, request: Request)
    requires Invariant(s) && forall c :: !Stale(s, c)
    ensures (forall c :: !Stale(Step(s, conn, request), c)) <==> !AbandonsMembers(s, conn, request)
  {
    forall c ensures Stale(Step(s, conn, request), c) <==> Abandons(s, conn, request, c) {
      StaleStep(s, conn, request, c);
    }
    if AbandonsMembers(s, conn, request) {
      var members := s.rooms[ClientOf(s, conn).roomId].members;
      assert RoomOk(s, ClientOf(s, conn).roomId);
      assert members - {conn} != {} by {
        assert members - {conn} + {conn} == members;
      }
      var m :| m in members - {conn};
      assert Abandons(s, conn, request, m);
    }
  }

  type Requests = seq<(Connection, Request)>

  function StateAt(requests: Requests, i: nat): Server
    requires i <= |requests|
  {
    Run(EMPTY, requests[..i])
  }

  lemma {:induction false} RunSnoc(s: Server, requests: Requests, last: (Connection, Request))
    ensures Run(s, requests + [last]) == Step(Run(s, requests), last.0, last.1)
    decreases requests
  {
    if requests == [] {
      assert requests + [last] == [last];
    } else {
      assert (requests + [last])[1..] == requests[1..] + [last];
      RunSnoc(Step(s, requests[0].0, requests[0].1), requests[1..], last);
    }
  }

  /** Request i abandoned the client, which has not changed room since. */
  predicate AbandonedAt(requests: Requests, c: Connection, i: nat) {
    && i < |requests| && Abandons(StateAt(requests, i), requests[i].0, requests[i].1, c)
    && forall j :: i < j < |requests| && requests[j].0 == c ==> !ChangesRoom(StateAt(requests, j), c, requests[j].1)
  }

  predicate Abandoned(requests: Requests, c: Connection) {
    exists i :: 0 <= i < |requests| && AbandonedAt(requests, c, i)
  }

  /** In every run, a client names a room it is not in if and only if an owner
      left it behind and it has not changed room since. */
  lemma {:induction false} StaleExactlyWhenAbandonedSince(requests: Requests, c: Connection)
    ensures Stale(Run(EMPTY, requests), c) <==> Abandoned(requests, c)
  {
    if requests != [] {
      var front, last := requests[..|requests| - 1], requests[|requests| - 1];
      assert requests == front + [last];
      StaleExactlyWhenAbandonedSince(front, c);
      RunKeepsInvariant(EMPTY, front);
      RunSnoc(EMPTY, front, last);
      StaleStep(Run(EMPTY, front), last.0, last.1, c);
      AbandonedSnoc(front, last, c);
    }
  }

  lemma AbandonedSnoc(front: Requests, last: (Connection, Request), c: Connection)
    ensures var s := Run(EMPTY, front);
            Abandoned(front + [last], c) <==>
            (Abandoned(front, c) && !(c == last.0 && ChangesRoom(s, last.0, last.1))) || Abandons(s, last.0, last.1, c)
  {
    var requests, n := front + [last], |front|;
    assert requests[..n] == front;
    assert StateAt(requests, n) == Run(EMPTY, front);
    forall i: nat | i < n
      ensures StateAt(requests, i) == StateAt(front, i) && requests[i] == front[i]
      ensures AbandonedAt(requests, c, i) <==>
              AbandonedAt(front, c, i) && !(c == last.0 && ChangesRoom(StateAt(requests, n), last.0, last.1))
    {
      AbandonedAtSnoc(front, last, c, i);
    }
    assert AbandonedAt(requests, c, n) <==> Abandons(StateAt(requests, n), last.0, last.1, c);
  }

  lemma AbandonedAtSnoc(front: Requests, last: (Connection, Request), c: Connection, i: nat)
    requires i < |front|
    ensures var requests := front + [last];
            && StateAt(requests, i) == StateAt(front, i)
            && (AbandonedAt(requests, c, i) <==>
                AbandonedAt(front, c, i) && !(c == last.0 && ChangesRoom(StateAt(requests, |front|), last.0, last.1)))
  {
    var requests := front + [last];
    assert requests[|front|] == last;
    forall j: nat | j < |front| ensures requests[..j] == front[..j] && requests[j] == front[j] {}
  }

  // ---- Exactly what each request does ----------------------------------------------

  predicate AllBlank(text: string) {
    forall i :: 0 <= i < |text| ==> text[i] == ' ' || text[i] == '\t' || text[i] == '\r' || text[i] == '\n'
  }

  /** Trimming cuts off exactly the blanks at both ends. */
  lemma TrimExactly(text: string) returns (left: string, right: string)
    ensures text == left + Trim(text) + right && AllBlank(left) && AllBlank(right)
    ensures var t := Trim(text); t != "" ==> !AllBlank([t[0]]) && !AllBlank([t[|t| - 1]])
  {
    left := TrimLeftExactly(text);
    right := TrimRightExactly(TrimLeft(text));
    assert text == left + (Trim(text) + right);
    var t, u := Trim(text), TrimLeft(text);
    assert t != "" ==> t[0] == u[0];
  }

  lemma {:induction false} TrimLeftExactly(text: string) returns (left: string)
    ensures text == left + TrimLeft(text) && AllBlank(left)
    ensures TrimLeft(text) != "" ==> !AllBlank([TrimLeft(text)[0]])
  {
    if text != "" && IsBlank(text[0]) {
      var rest := TrimLeftExactly(text[1..]);
      left := [text[0]] + rest;
      assert text == [text[0]] + text[1..];
    } else {
      left := "";
      assert text != "" ==> [text[0]][0] == text[0];
    }
  }

  lemma {:induction false} TrimRightExactly(text: string) returns (right: string)
    ensures text == TrimRight(text) + right && AllBlank(right)
    ensures TrimRight(text) != "" ==> !AllBlank([TrimRight(text)[|TrimRight(text)| - 1]])
  {
    if text != "" && IsBlank(text[|text| - 1]) {
      var front, last := text[..|text| - 1], text[|text| - 1];
      var rest := TrimRightExactly(front);
      right := rest + [last];
      assert text == front + [last];
    } else {
      right := "";
      assert text != "" ==> [text[|text| - 1]][0] == text[|text| - 1];
    }
  }

  /** A join is admitted exactly when both ids are there, the room exists, the
      password is the room's, and it holds fewer members than its limit. Then the
      connection is a member under its new id; otherwise nothing changes. */
  lemma JoinAdmitsExactly(s: Server, conn: Connection, roomId: string, peerId: string, password: string)
    requires Invariant(s)
    ensures var r, p, s' := Trim(roomId), Trim(peerId), Step(s, conn, JoinRoom(roomId, peerId, password));
            if r != "" && p != "" && r in s.rooms && s.rooms[r].password == password &&
               |s.rooms[r].members| < s.rooms[r].maxParticipants
            then r in s'.rooms && s'.rooms[r] == s.rooms[r].(members := s.rooms[r].members + {conn}) &&
                 ClientOf(s', conn) == Client(p, r)
            else s' == s
  {
    var r := Trim(roomId);
    assert r in s.rooms ==> RoomOk(s, r);
  }

  /** A connection outside the room becomes a member of it under just these
      conditions. */
  lemma JoinMakesMemberExactly(s: Server, conn: Connection, roomId: string, peerId: string, password: string)
    requires Invariant(s) && !IsMember(s.rooms, Trim(roomId), conn)
    ensures IsMember(Step(s, conn, JoinRoom(roomId, peerId, password)).rooms, Trim(roomId), conn) <==>
            && Trim(roomId) != "" && Trim(peerId) != "" && Trim(roomId) in s.rooms
            && s.rooms[Trim(roomId)].password == password
            && |s.rooms[Trim(roomId)].members| < s.rooms[Trim(roomId)].maxParticipants
  {
    JoinAdmitsExactly(s, conn, roomId, peerId, password);
  }

  /** A create makes the room exactly when both ids are there and no such room
      exists: with the given password, a limit of at least 2, and its creator as
      owner and only member. Otherwise nothing changes. */
  lemma CreateMakesExactly(s: Server, conn: Connection, roomId: string, peerId: string, password: string,
                           maxParticipants: int)
    requires Invariant(s)
    ensures var r, p := Trim(roomId), Trim(peerId);
            var s' := Step(s, conn, CreateRoom(roomId, peerId, password, maxParticipants));
            if r != "" && p != "" && r !in s.rooms
            then r in s'.rooms && ClientOf(s', conn) == Client(p, r) && s'.rooms[r].password == password &&
                 s'.rooms[r].maxParticipants == (if maxParticipants < 2 then 2 else maxParticipants) &&
                 s'.rooms[r].owner == conn && s'.rooms[r].ownerPeerId == p && s'.rooms[r].members == {conn}
            else s' == s
  {
    assert Trim(roomId) in s.rooms ==> RoomOk(s, Trim(roomId));
  }

  /** Whoever leaves or disconnects is in no room any more; a room is gone
      exactly when its owner or its last member left it. */
  lemma LeaveExactly(s: Server, conn: Connection, request: Request, room: string)
    requires Invariant(s) && (request.LeaveRoom? || request.Disconnect?)
    ensures var s' := Step(s, conn, request);
            if conn !in s.clients then s' == s else
            && (conn in s'.clients <==> request.LeaveRoom?)
            && (request.LeaveRoom? ==> s'.clients[conn] == Client(s.clients[conn].peerId, ""))
            && !IsMember(s'.rooms, room, conn)
            && (room in s'.rooms <==>
                room in s.rooms &&
                !(s.clients[conn].roomId == room && (s.rooms[room].owner == conn || s.rooms[room].members <= {conn})))
  {
    if conn in s.clients && room in s.rooms {
      assert RoomOk(s, room);
      assert s.rooms[room].members <= {conn} <==> s.rooms[room].members - {conn} == {};
    }
  }

  /** Saying hello sets the id of the client and leaves its room alone. */
  lemma HelloExactly(s: Server, conn: Connection, peerId: string)
    ensures var s' := Step(s, conn, Hello(peerId));
            && s'.rooms == s.rooms
            && (if Trim(peerId) == "" then s' == s
                else conn in s'.clients && s'.clients[conn] == Client(Trim(peerId), ClientOf(s, conn).roomId))
  {}

  /** A new connection is a client without id and room; a known one stays as it is. */
  lemma AttachExactly(s: Server, conn: Connection)
    ensures var s' := Step(s, conn, Attach);
            && s'.rooms == s.rooms && conn in s'.clients
            && s'.clients[conn] == (if conn in s.clients then s.clients[conn] else Client("", ""))
  {}

  /** No request touches the client of another connection, nor the settings of a
      room that is there before and after, unless it creates the room anew. */
  lemma OthersUntouched(s: Server, conn: Connection, request: Request, c: Connection, room: string)
    requires Invariant(s)
    ensures var s' := Step(s, conn, request);
            && (c != conn ==> (c in s.clients <==> c in s'.clients) && ClientOf(s', c) == ClientOf(s, c))
            && (room in s.rooms && room in s'.rooms ==>
                  s'.rooms[room] == s.rooms[room].(members := s'.rooms[room].members))
            && (room !in s.rooms && room in s'.rooms ==> request.CreateRoom? && Trim(request.roomId) == room)
  {
    if request.JoinRoom? {
      JoinAdmitsExactly(s, conn, request.roomId, request.peerId, request.password);
    } else if request.CreateRoom? {
      CreateMakesExactly(s, conn, request.roomId, request.peerId, request.password, request.maxParticipants);
    }
  }

  /** Request i made the room, which was not there before, with these settings. */
  predicate MadeBy(requests: Requests, i: nat, room: string, made: Room) {
    && i < |requests| && requests[i].1.CreateRoom? && Trim(requests[i].1.roomId) == room
    && requests[i].1.password == made.password && requests[i].0 == made.owner
    && made.maxParticipants == (if requests[i].1.maxParticipants < 2 then 2 else requests[i].1.maxParticipants)
    && room !in StateAt(requests, i).rooms
  }

  /** In every run, every room has the password, the limit and the owner of the
      create request that made it. */
  lemma {:induction false} RoomsAreAsCreated(requests: Requests, room: string) returns (i: nat)
    requires room in Run(EMPTY, requests).rooms
    ensures MadeBy(requests, i, room, Run(EMPTY, requests).rooms[room])
  {
    if requests == [] {
      assert false;
    } else {
      var front, last := requests[..|requests| - 1], requests[|requests| - 1];
      assert requests == front + [last];
      RunSnoc(EMPTY, front, last);
      RunKeepsInvariant(EMPTY, front);
      var s := Run(EMPTY, front);
      OthersUntouched(s, last.0, last.1, last.0, room);
      if room in s.rooms {
        i := RoomsAreAsCreated(front, room);
        assert requests[..i] == front[..i];
      } else {
        i := |front|;
        assert requests[..i] == front;
        CreateMakesExactly(s, last.0, last.1.roomId, last.1.peerId, last.1.password, last.1.maxParticipants);
      }
    }
  }

  /** In every run, a connection is admitted by a join only with the password of
      the create request that made the room. */
  lemma JoinNeedsThePassword(requests: Requests, conn: Connection, roomId: string, peerId: string, password: string)
    returns (i: nat)
    requires !IsMember(Run(EMPTY, requests).rooms, Trim(roomId), conn)
    requires IsMember(Step(Run(EMPTY, requests), conn, JoinRoom(roomId, peerId, password)).rooms, Trim(roomId), conn)
    ensures i < |requests| && requests[i].1.CreateRoom? && Trim(requests[i].1.roomId) == Trim(roomId)
    ensures requests[i].1.password == password
  {
    RunKeepsInvariant(EMPTY, requests);
    JoinMakesMemberExactly(Run(EMPTY, requests), conn, roomId, peerId, password);
    i := RoomsAreAsCreated(requests, Trim(roomId));
  }

  // ---- Signals and notices ---------------------------------------------------------

  /** A signal of `conn` for a peer id may be forwarded to `to`. */
  predicate Reaches(s: Server, conn: Connection, to: Connection, targetPeerId: string) {
    var roomId := ClientOf(s, conn).roomId;
    targetPeerId != "" && roomId != "" && roomId in s.rooms &&
    to in s.rooms[roomId].members && to in s.clients && s.clients[to].peerId == targetPeerId
  }

  /** Who is told that `conn` left when it leaves or disconnects. */
  function Notified(s: Server, conn: Connection): set<Connection> {
    var c, rooms := ClientOf(s, conn), RoomsWithout(s, conn);
    if c.roomId == "" || c.peerId == "" || c.roomId !in rooms then {} else rooms[c.roomId].members - {conn}
  }

  /** Whose connections are closed because the owner of their room left. */
  function Orphans(s: Server, conn: Connection): set<Connection> {
    var roomId := ClientOf(s, conn).roomId;
    if roomId == "" || roomId !in s.rooms || s.rooms[roomId].owner != conn then {} else s.rooms[roomId].members - {conn}
  }

  /** Exactly whom a departure concerns: an owner's fellow members are closed,
      anyone else's are told, if the room exists and the client has an id. */
  lemma DepartureExactly(s: Server, conn: Connection, m: Connection)
    ensures m in Notified(s, conn) <==>
            && conn in s.clients && s.clients[conn].peerId != "" && s.clients[conn].roomId != ""
            && s.clients[conn].roomId in s.rooms && s.rooms[s.clients[conn].roomId].owner != conn
            && m in s.rooms[s.clients[conn].roomId].members && m != conn
    ensures m in Orphans(s, conn) <==>
            && conn in s.clients && s.clients[conn].roomId != "" && s.clients[conn].roomId in s.rooms
            && s.rooms[s.clients[conn].roomId].owner == conn
            && m in s.rooms[s.clients[conn].roomId].members && m != conn
  {
    var roomId := ClientOf(s, conn).roomId;
    if roomId != "" && roomId in s.rooms && s.rooms[roomId].owner != conn {
      assert m != conn && m in s.rooms[roomId].members ==> m in s.rooms[roomId].members - {conn};
    }
  }

  predicate IsName(text: string) { text != "" && Trim(text) == text }

  /** A room of two that 0 created as `a` and 1 joined as `b`. */
  function Pair(r: string, a: string, b: string): Server {
    Server(map[0 := Client(a, r), 1 := Client(b, r)], map[r := Room("", 2, 0, a, {0, 1})])
  }

  lemma PairReached(r: string, a: string, b: string)
    requires IsName(r) && IsName(a) && IsName(b)
    ensures Run(EMPTY, [(0, CreateRoom(r, a, "", 2)), (1, JoinRoom(r, b, ""))]) == Pair(r, a, b)
  {
    var r0: (Connection, Request), r1: (Connection, Request) := (0, CreateRoom(r, a, "", 2)), (1, JoinRoom(r, b, ""));
    RunSnoc(EMPTY, [], r0);
    RunSnoc(EMPTY, [r0], r1);
    assert [] + [r0] == [r0] && [r0] + [r1] == [r0, r1];
    var s1 := Run(EMPTY, [r0]);
    assert s1 == Server(map[0 := Client(a, r)], map[r := Room("", 2, 0, a, {0})]);
    assert JoinCheck(s1, r, b, "") == Joined && s1.rooms[r].members + {1} == {0, 1};
  }

  /** The owner of the pair leaves by creating q, and 2 creates r again. */
  lemma PairIsAbandoned(s: Server, r: string, q: string, a: string, b: string, c: string)
    requires IsName(r) && IsName(q) && IsName(a) && IsName(b) && IsName(c) && r != q && s == Pair(r, a, b)
    ensures Step(Step(s, 0, CreateRoom(q, a, "", 2)), 2, CreateRoom(r, c, "", 2)) ==
            Server(map[0 := Client(a, q), 1 := Client(b, r), 2 := Client(c, r)],
                   map[q := Room("", 2, 0, a, {0}), r := Room("", 2, 2, c, {2})])
  {
    var s1 := Step(s, 0, CreateRoom(q, a, "", 2));
    assert RoomsWithout(s, 0) == map[];
    assert s1 == Server(map[0 := Client(a, q), 1 := Client(b, r)], map[q := Room("", 2, 0, a, {0})]);
  }

  /** Runs in which outsiders are heard: 0 creates r, 1 joins it, 0 leaves it by
      creating q, and 2 creates r again. Signals of 1, which is not in r, reach 2,
      and 2 is told when 1 leaves. */
  lemma OutsidersAreHeard(r: string, q: string, a: string, b: string, c: string)
    requires IsName(r) && IsName(q) && IsName(a) && IsName(b) && IsName(c) && r != q
    ensures var s := Run(EMPTY, [(0, CreateRoom(r, a, "", 2)), (1, JoinRoom(r, b, "")),
                                 (0, CreateRoom(q, a, "", 2)), (2, CreateRoom(r, c, "", 2))]);
            Stale(s, 1) && ClientOf(s, 1).roomId == r && Reaches(s, 1, 2, c) && Notified(s, 1) == {2}
  {
    var r0: (Connection, Request), r1: (Connection, Request) := (0, CreateRoom(r, a, "", 2)), (1, JoinRoom(r, b, ""));
    var r2: (Connection, Request), r3: (Connection, Request) :=
      (0, CreateRoom(q, a, "", 2)), (2, CreateRoom(r, c, "", 2));
    PairReached(r, a, b);
    PairIsAbandoned(Pair(r, a, b), r, q, a, b, c);
    RunSnoc(EMPTY, [r0, r1], r2);
    RunSnoc(EMPTY, [r0, r1] + [r2], r3);
    assert [r0, r1] + [r2] + [r3] == [r0, r1, r2, r3];
  }

  /** In every run, whoever gets a signal through, and whoever is announced as
      having left, is a member of the room exactly when it is not abandoned. */
  lemma HeardExactlyFromMembers(requests: Requests, conn: Connection, to: Connection, targetPeerId: string)
    ensures var s := Run(EMPTY, requests);
            var roomId := ClientOf(s, conn).roomId;
            Reaches(s, conn, to, targetPeerId) || Notified(s, conn) != {} ==>
              roomId in s.rooms && (conn in s.rooms[roomId].members <==> !Abandoned(requests, conn))
  {
    StaleExactlyWhenAbandonedSince(requests, conn);
  }

  /** If no owner ever leaves members behind, only members are heard. */
  lemma OnlyMembersAreHeard(requests: Requests, conn: Connection, to: Connection, targetPeerId: string)
    requires forall i :: 0 <= i < |requests| ==> !AbandonsMembers(StateAt(requests, i), requests[i].0, requests[i].1)
    ensures var s := Run(EMPTY, requests);
            var roomId := ClientOf(s, conn).roomId;
            Reaches(s, conn, to, targetPeerId) || Notified(s, conn) != {} ==>
              roomId in s.rooms && conn in s.rooms[roomId].members
  {
    HeardExactlyFromMembers(requests, conn, to, targetPeerId);
  }

  // ---- What a join announces -----------------------------------------------------------

  /** The set listed once each, in some order. */
  ghost predicate Lists(order: seq<Connection>, members: set<Connection>) {
    && (forall m :: m in members ==> m in order)
    && (forall m :: m in order ==> m in members)
    && (forall i, j :: 0 <= i < j < |order| ==> order[i] != order[j])
  }

  function ToldTo(conn: Connection, clients: map<Connection, Client>, roomId: string,
                  order: seq<Connection>): seq<Outgoing>
  {
    if order == [] then []
    else (if order[0] in clients && clients[order[0]].peerId != ""
          then [Outgoing(conn, PeerJoined(roomId, clients[order[0]].peerId))] else [])
         + ToldTo(conn, clients, roomId, order[1..])
  }

  function Announced(roomId: string, peerId: string, order: seq<Connection>): seq<Outgoing> {
    if order == [] then [] else [Outgoing(order[0], PeerJoined(roomId, peerId))] + Announced(roomId, peerId, order[1..])
  }

  function JoinReplies(clients: map<Connection, Client>, conn: Connection, roomId: string, peerId: string,
                       order: seq<Connection>): seq<Outgoing>
  {
    [Outgoing(conn, RoomJoined(roomId, peerId))] + ToldTo(conn, clients, roomId, order) +
      Announced(roomId, peerId, order)
  }

  /** The other members that go by a peer id. */
  function Named(clients: map<Connection, Client>, others: set<Connection>, peerId: string): set<Connection> {
    set m | m in others && m in clients && clients[m].peerId == peerId
  }

  function Elements(order: seq<Connection>): set<Connection> { set m | m in order }

  lemma {:induction false} ToldCounts(conn: Connection, clients: map<Connection, Client>, roomId: string,
                                      order: seq<Connection>, p: string)
    requires forall m :: m in order ==> m in clients && clients[m].peerId != ""
    requires forall i, j :: 0 <= i < j < |order| ==> order[i] != order[j]
    ensures |ToldTo(conn, clients, roomId, order)| == |order|
    ensures multiset(ToldTo(conn, clients, roomId, order))[Outgoing(conn, PeerJoined(roomId, p))] ==
              |Named(clients, Elements(order), p)|
    ensures forall o :: o in ToldTo(conn, clients, roomId, order) ==> o.to == conn && o.message.PeerJoined?
  {
    if order == [] {
      assert Named(clients, Elements(order), p) == {};
    } else {
      assert order[0] in order;
      ToldCounts(conn, clients, roomId, order[1..], p);
      NamedStep(clients, order, p);
    }
  }

  lemma NamedStep(clients: map<Connection, Client>, order: seq<Connection>, p: string)
    requires order != [] && order[0] in clients
    requires forall i, j :: 0 <= i < j < |order| ==> order[i] != order[j]
    ensures |Named(clients, Elements(order), p)| ==
            |Named(clients, Elements(order[1..]), p)| + (if clients[order[0]].peerId == p then 1 else 0)
  {
    var rest := Named(clients, Elements(order[1..]), p);
    assert order[0] !in order[1..];
    assert order == [order[0]] + order[1..];
    assert Named(clients, Elements(order), p) == if clients[order[0]].peerId == p then rest + {order[0]} else rest;
  }

  lemma {:induction false} AnnouncedCounts(roomId: string, peerId: string, order: seq<Connection>, m: Connection)
    requires forall i, j :: 0 <= i < j < |order| ==> order[i] != order[j]
    ensures |Announced(roomId, peerId, order)| == |order|
    ensures multiset(Announced(roomId, peerId, order))[Outgoing(m, PeerJoined(roomId, peerId))] ==
            if m in order then 1 else 0
    ensures forall o :: o in Announced(roomId, peerId, order) ==>
              o.to in order && o.message == PeerJoined(roomId, peerId)
  {
    if order != [] {
      AnnouncedCounts(roomId, peerId, order[1..], m);
      assert order[0] !in order[1..];
    }
  }

  /** After a successful join, the joiner has been told of each other current
      member once, by its current peer id, each of them has been told of the
      joiner once, and nobody else has been told anything. */
  lemma JoinTellsExactlyTheMembers(s: Server, conn: Connection, roomId: string, peerId: string, password: string,
                                   order: seq<Connection>, m: Connection, p: string)
    requires Invariant(s) && JoinCheck(s, roomId, peerId, password) == Joined
    requires Lists(order, s.rooms[roomId].members - {conn})
    ensures var s' := Join(s, conn, roomId, peerId, password);
            var out := JoinReplies(s'.clients, conn, roomId, peerId, order);
            && roomId in s'.rooms && conn in s'.rooms[roomId].members
            && var others := s'.rooms[roomId].members - {conn};
            && (m in others ==> multiset(out)[Outgoing(m, PeerJoined(roomId, peerId))] == 1)
            && multiset(out)[Outgoing(conn, PeerJoined(roomId, p))] == |Named(s'.clients, others, p)|
            && (forall o :: o in out ==> o.to == conn || o.to in others)
            && |out| == 1 + 2 * |order| && out[0] == Outgoing(conn, RoomJoined(roomId, peerId))
  {
    JoinKeepsInvariant(s, conn, roomId, peerId, password);
    var s' := Join(s, conn, roomId, peerId, password);
    var others := s'.rooms[roomId].members - {conn};
    assert RoomOk(s', roomId);
    assert others == s.rooms[roomId].members - {conn} == Elements(order);
    RepliesTellExactly(s'.clients, conn, roomId, peerId, order, m, p);
  }

  lemma RepliesTellExactly(clients: map<Connection, Client>, conn: Connection, roomId: string, peerId: string,
                           order: seq<Connection>, m: Connection, p: string)
    requires conn !in order && forall c :: c in order ==> c in clients && clients[c].peerId != ""
    requires forall i, j :: 0 <= i < j < |order| ==> order[i] != order[j]
    ensures var out := JoinReplies(clients, conn, roomId, peerId, order);
            && (m in order ==> multiset(out)[Outgoing(m, PeerJoined(roomId, peerId))] == 1)
            && multiset(out)[Outgoing(conn, PeerJoined(roomId, p))] == |Named(clients, Elements(order), p)|
            && (forall o :: o in out ==> o.to == conn || o.to in order)
            && |out| == 1 + 2 * |order| && out[0] == Outgoing(conn, RoomJoined(roomId, peerId))
  {
    var told, announced := ToldTo(conn, clients, roomId, order), Announced(roomId, peerId, order);
    ToldCounts(conn, clients, roomId, order, p);
    AnnouncedCounts(roomId, peerId, order, m);
    var out := JoinReplies(clients, conn, roomId, peerId, order);
    var first := Outgoing(conn, RoomJoined(roomId, peerId));
    assert multiset(out) == multiset{first} + multiset(told) + multiset(announced);
    if m in order {
      assert Outgoing(m, PeerJoined(roomId, peerId)) !in told;
    }
    assert Outgoing(conn, PeerJoined(roomId, p)) !in announced;
  }

  lemma {:induction false} ToldSnoc(conn: Connection, clients: map<Connection, Client>, roomId: string,
                                    order: seq<Connection>, m: Connection)
    ensures ToldTo(conn, clients, roomId, order + [m]) ==
            ToldTo(conn, clients, roomId, order) +
              (if m in clients && clients[m].peerId != "" then [Outgoing(conn, PeerJoined(roomId, clients[m].peerId))]
                else [])
  {
    if order != [] {
      assert (order + [m])[1..] == order[1..] + [m];
      ToldSnoc(conn, clients, roomId, order[1..], m);
    }
  }

  // ---- The server itself ---------------------------------------------------------------

  datatype Departure = Departure(roomId: string, peerLeft: Option<Message>, ownerLeft: bool, orphans: set<Connection>)

  class DesktopSignalingServer {
    var clients: map<Connection, Client>
    var rooms: map<string, Room>

    ghost function State(): Server
      reads this
    {
      Server(clients, rooms)
    }

    ghost predicate Valid()
      reads this
    {
      Invariant(State())
    }

    constructor ()
      ensures Valid() && State() == EMPTY
    {
      clients, rooms := map[], map[];
    }

    method AttachClient(conn: Connection)
      modifies this
      ensures State() == Step(old(State()), conn, Attach)
      ensures old(Valid()) ==> Valid()
    {
      if Invariant(State()) {
        StepKeepsInvariant(State(), conn, Attach);
      }
      if conn !in clients {
        clients := clients[conn := Client("", "")];
      }
    }

    method HandleHello(conn: Connection, roomId: string, peerId: string) returns (out: seq<Outgoing>)
      modifies this
      ensures State() == Step(old(State()), conn, Hello(peerId))
      ensures old(Valid()) ==> Valid()
      ensures var reply := if Trim(peerId) == "" then Error("Missing peer id") else Welcome(roomId, Trim(peerId));
              out == [Outgoing(conn, reply)]
    {
      if Invariant(State()) {
        StepKeepsInvariant(State(), conn, Hello(peerId));
      }
      var id := Trim(peerId);
      if id == "" {
        return [Outgoing(conn, Error("Missing peer id"))];
      }
      var client := if conn in clients then clients[conn] else Client("", "");
      clients := clients[conn := client.(peerId := id)];
      out := [Outgoing(conn, Welcome(roomId, id))];
    }

    /** Takes the connection out of the room its client names. */
    method DetachFromCurrentRoom(conn: Connection)
      requires conn in clients
      modifies this`rooms
      ensures rooms == RoomsWithout(old(State()), conn)
    {
      var roomId := clients[conn].roomId;
      if roomId == "" || roomId !in rooms {
        return;
      }
      var room := rooms[roomId];
      var members := room.members - {conn};
      rooms := rooms[roomId := room.(members := members)];
      if room.owner == conn || members == {} {
        rooms := rooms - {roomId};
      }
    }

    method HandleCreateRoom(conn: Connection, roomId: string, peerId: string, password: string, maxParticipants: int)
      returns (out: seq<Outgoing>)
      modifies this
      ensures State() == Step(old(State()), conn, CreateRoom(roomId, peerId, password, maxParticipants))
      ensures old(Valid()) ==> Valid()
      ensures var room, peer := Trim(roomId), Trim(peerId);
              var taken := room in old(rooms) && old(rooms)[room].members != {};
              var reply := if room == "" || peer == "" then Error("Missing room id or peer id")
                           else if taken then Error("Room already exists")
                           else RoomJoined(room, peer);
              out == [Outgoing(conn, reply)]
    {
      if Invariant(State()) {
        StepKeepsInvariant(State(), conn, CreateRoom(roomId, peerId, password, maxParticipants));
      }
      var room, peer := Trim(roomId), Trim(peerId);
      if room == "" || peer == "" {
        return [Outgoing(conn, Error("Missing room id or peer id"))];
      }
      if room in rooms && rooms[room].members != {} {
        return [Outgoing(conn, Error("Room already exists"))];
      }
      EnterRoom(conn, room, peer);
      rooms := rooms[room := Room(password, SanitizeMaxParticipants(maxParticipants), conn, peer, {conn})];
      out := [Outgoing(conn, RoomJoined(room, peer))];
    }

    /** Moves the client record to the room, leaving any other room first. */
    method EnterRoom(conn: Connection, roomId: string, peerId: string)
      modifies this
      ensures clients == old(clients)[conn := Client(peerId, roomId)]
      ensures rooms == RoomsBeforeEntering(old(State()), conn, roomId)
    {
      if conn in clients && clients[conn].roomId != "" && clients[conn].roomId != roomId {
        DetachFromCurrentRoom(conn);
      }
      clients := clients[conn := Client(peerId, roomId)];
    }

    method HandleJoinRoom(conn: Connection, roomId: string, peerId: string, password: string)
      returns (out: seq<Outgoing>, ghost order: seq<Connection>)
      modifies this
      ensures State() == Step(old(State()), conn, JoinRoom(roomId, peerId, password))
      ensures old(Valid()) ==> Valid()
      ensures var room, peer := Trim(roomId), Trim(peerId);
              var missing := room !in old(rooms) || old(rooms)[room].owner !in old(rooms)[room].members;
              if room == "" || peer == "" then out == [Outgoing(conn, Error("Missing room id or peer id"))]
              else if missing then out == [Outgoing(conn, Error("Room does not exist"))]
              else if old(rooms)[room].password != password then out == [Outgoing(conn, Error("Invalid room password"))]
              else if |old(rooms)[room].members| >= old(rooms)[room].maxParticipants
              then out == [Outgoing(conn, Error("Room is full"))]
              else
                Lists(order, old(rooms)[room].members - {conn}) && out == JoinReplies(clients, conn, room, peer, order)
    {
      if Invariant(State()) {
        StepKeepsInvariant(State(), conn, JoinRoom(roomId, peerId, password));
      }
      var target, peer := Trim(roomId), Trim(peerId);
      order := [];
      if target == "" || peer == "" {
        out := [Outgoing(conn, Error("Missing room id or peer id"))];
        return;
      }
      if target !in rooms || rooms[target].members == {} {
        out := [Outgoing(conn, Error("Room does not exist"))];
        return;
      }
      var room := rooms[target];
      if room.owner !in room.members {
        rooms := rooms - {target};
        out := [Outgoing(conn, Error("Room does not exist"))];
        return;
      }
      if room.password != password {
        out := [Outgoing(conn, Error("Invalid room password"))];
        return;
      }
      if |room.members| >= room.maxParticipants {
        out := [Outgoing(conn, Error("Room is full"))];
        return;
      }
      EnterRoom(conn, target, peer);
      out, order := AnnounceJoin(conn, target, peer, room.members);
      rooms := rooms[target := room.(members := room.members + {conn})];
    }

    method AnnounceJoin(conn: Connection, roomId: string, peerId: string, members: set<Connection>)
      returns (out: seq<Outgoing>, ghost order: seq<Connection>)
      ensures Lists(order, members - {conn})
      ensures out == JoinReplies(clients, conn, roomId, peerId, order)
    {
      var told, recipients := [], [];
      var left := members;
      while left != {}
        invariant left <= members
        invariant Lists(recipients, members - left - {conn})
        invariant told == ToldTo(conn, clients, roomId, recipients)
        decreases |left|
      {
        var m :| m in left;
        assert m !in recipients;
        left := left - {m};
        if m == conn {
          continue;
        }
        ToldSnoc(conn, clients, roomId, recipients, m);
        recipients := recipients + [m];
        if m in clients && clients[m].peerId != "" {
          told := told + [Outgoing(conn, PeerJoined(roomId, clients[m].peerId))];
        }
      }
      assert members - left - {conn} == members - {conn};
      order := recipients;
      out := [Outgoing(conn, RoomJoined(roomId, peerId))] + told;
      for i := 0 to |recipients|
        invariant out + Announced(roomId, peerId, recipients[i..]) ==
                    JoinReplies(clients, conn, roomId, peerId, recipients)
      {
        assert recipients[i..][1..] == recipients[i + 1..];
        out := out + [Outgoing(recipients[i], PeerJoined(roomId, peerId))];
      }
    }

    /** The locked part of leaving and of disconnecting. */
    method DetachClient(conn: Connection, removeClient: bool) returns (d: Departure)
      modifies this
      ensures State() == Step(old(State()), conn, if removeClient then Disconnect else LeaveRoom)
      ensures old(Valid()) ==> Valid()
      ensures var c := old(ClientOf(State(), conn));
              && d.roomId == c.roomId
              && d.ownerLeft == (c.roomId != "" && c.roomId in old(rooms) && old(rooms)[c.roomId].owner == conn)
              && d.orphans == (if d.ownerLeft then old(rooms)[c.roomId].members - {conn} else {})
              && d.peerLeft == (if c.roomId != "" && c.peerId != "" then Some(PeerLeft(c.roomId, c.peerId)) else None)
    {
      if Invariant(State()) {
        StepKeepsInvariant(State(), conn, if removeClient then Disconnect else LeaveRoom);
      }
      if conn !in clients {
        return Departure("", None, false, {});
      }
      var client := clients[conn];
      d := Departure(client.roomId, None, false, {});
      if client.roomId != "" {
        if client.roomId in rooms && rooms[client.roomId].owner == conn {
          d := d.(ownerLeft := true, orphans := rooms[client.roomId].members - {conn});
        }
        DetachFromCurrentRoom(conn);
        if client.peerId != "" {
          d := d.(peerLeft := Some(PeerLeft(client.roomId, client.peerId)));
        }
      }
      clients := clients[conn := client.(roomId := "")];
      if removeClient {
        clients := clients - {conn};
      }
    }

    /** Tells the members that stay; an owner's members are closed instead. */
    method AnnounceDeparture(d: Departure, departed: Connection)
      returns (out: seq<Outgoing>, closed: set<Connection>, ghost order: seq<Connection>)
      ensures d.ownerLeft ==> closed == d.orphans
      ensures !d.ownerLeft ==> closed == {}
      ensures d.ownerLeft || d.peerLeft.None? || d.roomId !in rooms ==> out == [] && order == []
      ensures !d.ownerLeft && d.peerLeft.Some? && d.roomId in rooms ==>
                Lists(order, rooms[d.roomId].members - {departed}) && |out| == |order| &&
                forall i :: 0 <= i < |order| ==> out[i] == Outgoing(order[i], d.peerLeft.value)
    {
      out, closed, order := [], {}, [];
      if d.ownerLeft {
        closed := d.orphans;
        return;
      }
      if d.peerLeft.None? || d.roomId !in rooms {
        return;
      }
      var left := rooms[d.roomId].members;
      while left != {}
        invariant left <= rooms[d.roomId].members
        invariant Lists(order, rooms[d.roomId].members - left - {departed})
        invariant |out| == |order| && forall i :: 0 <= i < |order| ==> out[i] == Outgoing(order[i], d.peerLeft.value)
        decreases |left|
      {
        var m :| m in left;
        assert m !in order;
        left := left - {m};
        if m == departed {
          continue;
        }
        out := out + [Outgoing(m, d.peerLeft.value)];
        order := order + [m];
      }
      assert rooms[d.roomId].members - left - {departed} == rooms[d.roomId].members - {departed};
    }

    /** Leaving, or disconnecting when the client is removed too. */
    method HandleDeparture(conn: Connection, removeClient: bool)
      returns (out: seq<Outgoing>, closed: set<Connection>, ghost order: seq<Connection>)
      modifies this
      ensures State() == Step(old(State()), conn, if removeClient then Disconnect else LeaveRoom)
      ensures old(Valid()) ==> Valid()
      ensures closed == Orphans(old(State()), conn)
      ensures var c := old(ClientOf(State(), conn));
              Lists(order, Notified(old(State()), conn)) && |out| == |order| &&
              forall i :: 0 <= i < |order| ==> out[i] == Outgoing(order[i], PeerLeft(c.roomId, c.peerId))
    {
      var d := DetachClient(conn, removeClient);
      out, closed, order := AnnounceDeparture(d, conn);
    }

    /** Forwards a signal to a member, by peer id, of the room the sender names. */
    method HandleDirectSignal(conn: Connection, targetPeerId: string, body: string) returns (out: seq<Outgoing>)
      ensures |out| == 1
      ensures var target := Trim(targetPeerId);
              var c := ClientOf(State(), conn);
              if out[0].message.Forwarded? then
                && Reaches(State(), conn, out[0].to, target)
                && out[0].message == Forwarded(c.roomId, c.peerId, target, body)
                && (conn in rooms[c.roomId].members <==> !Stale(State(), conn))
              else
                && out[0].to == conn
                && out[0].message == Error(if target == "" then "Missing target peer id"
                                           else if c.roomId == "" then "Join a room before sending signaling data"
                                           else "Target peer is not connected")
                && forall m :: !Reaches(State(), conn, m, target)
    {
      var target := Trim(targetPeerId);
      if target == "" {
        return [Outgoing(conn, Error("Missing target peer id"))];
      }
      if conn !in clients || clients[conn].roomId == "" {
        return [Outgoing(conn, Error("Join a room before sending signaling data"))];
      }
      var client := clients[conn];
      if client.roomId in rooms {
        var left := rooms[client.roomId].members;
        while left != {}
          invariant left <= rooms[client.roomId].members
          invariant forall m :: m in rooms[client.roomId].members - left ==>
                      m !in clients || clients[m].peerId != target
          decreases |left|
        {
          var m :| m in left;
          if m in clients && clients[m].peerId == target {
            return [Outgoing(m, Forwarded(client.roomId, client.peerId, target, body))];
          }
          left := left - {m};
        }
      }
      out := [Outgoing(conn, Error("Target peer is not connected"))];
    }
  }
}

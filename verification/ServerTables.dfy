/**
 The tables of the Socket.IO server: rooms and clients, both nested maps
 (socketio/src/server/server.rs).
 */
module ServerTables {
  import opened Wrappers
  import opened SessionIds

  type Namespace = string
  type Room = string
  type RoomMap = map<Room, set<Sid>>
  type Rooms = map<Namespace, RoomMap>

  /** A server-side socket: its namespace, its own id, and the id of the engine's socket below it. */
  datatype Client = Client(nsp: Namespace, sid: Sid, esid: Sid)

  type NspMap = map<Namespace, Client>
  type SidMap = map<Sid, NspMap>
  type Clients = map<Sid, SidMap>

  // Rooms.

  function JoinOne(rooms: Rooms, nsp: Namespace, room: Room, sid: Sid): Rooms {
    if nsp !in rooms then rooms[nsp := map[room := {sid}]]
    else if room in rooms[nsp] then rooms[nsp := rooms[nsp][room := rooms[nsp][room] + {sid}]]
    else rooms[nsp := rooms[nsp][room := {sid}]]
  }

  function JoinAll(rooms: Rooms, nsp: Namespace, names: seq<Room>, sid: Sid): Rooms {
    if names == [] then rooms else JoinOne(JoinAll(rooms, nsp, names[..|names| - 1], sid), nsp, names[|names| - 1], sid)
  }

  function LeaveOne(rooms: Rooms, nsp: Namespace, room: Room, sid: Sid): Rooms {
    if nsp in rooms && room in rooms[nsp] then rooms[nsp := rooms[nsp][room := rooms[nsp][room] - {sid}]] else rooms
  }

  function LeaveAll(rooms: Rooms, nsp: Namespace, names: seq<Room>, sid: Sid): Rooms {
    if names == [] then rooms else LeaveOne(LeaveAll(rooms, nsp, names[..|names| - 1], sid), nsp, names[|names| - 1], sid)
  }

  function Retained(sids: set<Sid>, esid: Sid): set<Sid> {
    set sid | sid in sids && DecodeSid(sid) != Some(esid)
  }

  function DropIn(rs: RoomMap, esid: Sid): RoomMap {
    map room | room in rs :: Retained(rs[room], esid)
  }

  function DropRooms(rooms: Rooms, esid: Sid): Rooms {
    map nsp | nsp in rooms :: DropIn(rooms[nsp], esid)
  }

  /** The ids an emit to some rooms goes to; a name that is no room is taken as an id. */
  function Recipients(rooms: Rooms, nsp: Namespace, names: seq<Room>): set<Sid> {
    if nsp !in rooms || names == [] then {}
    else
      var name := names[|names| - 1];
      Recipients(rooms, nsp, names[..|names| - 1]) + if name in rooms[nsp] then rooms[nsp][name] else {name}
  }

  // Clients.

  function Insert(clients: Clients, client: Client): Clients {
    var sidMap: SidMap := if client.esid in clients then clients[client.esid] else map[];
    var nspMap: NspMap := if client.sid in sidMap then sidMap[client.sid] else map[];
    clients[client.esid := sidMap[client.sid := nspMap[client.nsp := client]]]
  }

  /** `client`: from the id to the engine's id inside it, and through the three maps. */
  function Lookup(clients: Clients, sid: Sid, nsp: Namespace): Option<Client> {
    var esid :- DecodeSid(sid);
    if esid in clients && sid in clients[esid] && nsp in clients[esid][sid] then Some(clients[esid][sid][nsp]) else None
  }

  predicate HasClient(clients: Clients, esid: Sid, sid: Sid, nsp: Namespace) {
    esid in clients && sid in clients[esid] && nsp in clients[esid][sid]
  }

  /** Every entry is filed under the engine's id that its own id decodes to, with itself as value. */
  ghost predicate Indexed(clients: Clients) {
    && (forall esid, sid | esid in clients && sid in clients[esid] :: DecodeSid(sid) == Some(esid))
    && (forall esid, sid, nsp | HasClient(clients, esid, sid, nsp) :: clients[esid][sid][nsp] == Client(nsp, sid, esid))
  }

  lemma InsertKeepsIndexed(clients: Clients, client: Client)
    requires Indexed(clients) && DecodeSid(client.sid) == Some(client.esid)
    ensures Indexed(Insert(clients, client))
  {
    hide DecodeSid;
  }

  /** The lookup finds exactly what a search through all engine ids, ids and namespaces would. */
  lemma LookupIsScan(clients: Clients, sid: Sid, nsp: Namespace)
    requires Indexed(clients)
    ensures Lookup(clients, sid, nsp).Some? <==> exists esid :: HasClient(clients, esid, sid, nsp)
    ensures forall esid | HasClient(clients, esid, sid, nsp) :: Lookup(clients, sid, nsp) == Some(clients[esid][sid][nsp])
  {
    hide DecodeSid;
    assert Lookup(clients, sid, nsp).Some? ==> HasClient(clients, DecodeSid(sid).value, sid, nsp);
  }

  /** No map inside the table is empty. */
  ghost predicate Filled(clients: Clients) {
    forall esid | esid in clients ::
      clients[esid] != map[] && forall sid | sid in clients[esid] :: clients[esid][sid] != map[]
  }

  /** Whether an emit to some rooms of a namespace goes to a client. */
  predicate Gets(rooms: Rooms, clients: Clients, nsp: Namespace, names: seq<Room>, c: Client) {
    c.sid in Recipients(rooms, nsp, names) && Lookup(clients, c.sid, nsp) == Some(c)
  }

  // The server's methods.

  /** What the server starts for a client besides filing it. */
  datatype Effect = ConnectCallback(client: Client) | Poll(client: Client) | Handshake(client: Client)

  class Server {
    const handlers: set<Namespace>
    var rooms: Rooms
    var clients: Clients
    var engineSockets: set<Sid>
    var disconnected: seq<Sid>
    var effects: seq<Effect>

    constructor (handlers: set<Namespace>)
      ensures this.handlers == handlers && rooms == map[] && clients == map[] && engineSockets == {}
      ensures disconnected == [] && effects == []
    {
      this.handlers := handlers;
      rooms, clients := map[], map[];
      engineSockets, disconnected, effects := {}, [], [];
    }

    /** The engine's server forgets a socket and disconnects it. */
    method CloseSocket(esid: Sid)
      modifies this`engineSockets, this`disconnected
      ensures engineSockets == old(engineSockets) - {esid}
      ensures disconnected == old(disconnected) + if esid in old(engineSockets) then [esid] else []
    {
      if esid in engineSockets {
        engineSockets := engineSockets - {esid};
        disconnected := disconnected + [esid];
      }
    }

    method Join(nsp: Namespace, names: seq<Room>, sid: Sid)
      modifies this`rooms
      ensures rooms == JoinAll(old(rooms), nsp, names, sid)
    {
      for i := 0 to |names|
        invariant rooms == JoinAll(old(rooms), nsp, names[..i], sid)
      {
        var roomName := names[i];
        assert names[..i + 1][..i] == names[..i];
        if nsp !in rooms {
          var newRooms: RoomMap := map[];
          newRooms := newRooms[roomName := {sid}];
          rooms := rooms[nsp := newRooms];
        } else {
          var nspRooms := rooms[nsp];
          if roomName in nspRooms {
            nspRooms := nspRooms[roomName := nspRooms[roomName] + {sid}];
          } else {
            nspRooms := nspRooms[roomName := {sid}];
          }
          rooms := rooms[nsp := nspRooms];
        }
      }
      assert names[..|names|] == names;
    }

    method Leave(nsp: Namespace, names: seq<Room>, sid: Sid)
      modifies this`rooms
      ensures rooms == LeaveAll(old(rooms), nsp, names, sid)
    {
      for i := 0 to |names|
        invariant rooms == LeaveAll(old(rooms), nsp, names[..i], sid)
      {
        assert names[..i + 1][..i] == names[..i];
        if nsp in rooms && names[i] in rooms[nsp] {
          rooms := rooms[nsp := rooms[nsp][names[i] := rooms[nsp][names[i]] - {sid}]];
        }
      }
      assert names[..|names|] == names;
    }

    /** Closes an engine socket, forgets its clients, and takes their ids out of all rooms of all namespaces. */
    method DropClient(esid: Sid)
      modifies this`rooms, this`clients, this`engineSockets, this`disconnected
      ensures engineSockets == old(engineSockets) - {esid}
      ensures disconnected == old(disconnected) + if esid in old(engineSockets) then [esid] else []
      ensures clients == old(clients) - {esid}
      ensures rooms == DropRooms(old(rooms), esid)
    {
      CloseSocket(esid);
      clients := clients - {esid};
      var todo := rooms.Keys;
      while todo != {}
        invariant todo <= rooms.Keys == old(rooms).Keys
        invariant clients == old(clients) - {esid} && engineSockets == old(engineSockets) - {esid}
        invariant disconnected == old(disconnected) + if esid in old(engineSockets) then [esid] else []
        invariant forall n | n in todo :: rooms[n] == old(rooms)[n]
        invariant forall n | n in rooms && n !in todo :: rooms[n] == DropIn(old(rooms)[n], esid)
        decreases todo
      {
        var nsp :| nsp in todo;
        var retained := RetainAll(rooms[nsp], esid);
        rooms := rooms[nsp := retained];
        todo := todo - {nsp};
      }
    }

    method RetainAll(nspClients: RoomMap, esid: Sid) returns (r: RoomMap)
      ensures r == DropIn(nspClients, esid)
    {
      r := nspClients;
      var todo := r.Keys;
      while todo != {}
        invariant todo <= r.Keys == nspClients.Keys
        invariant forall room | room in todo :: r[room] == nspClients[room]
        invariant forall room | room in r && room !in todo :: r[room] == Retained(nspClients[room], esid)
        decreases todo
      {
        var room :| room in todo;
        r := r[room := Retained(r[room], esid)];
        todo := todo - {room};
      }
    }

    method SidsToEmit(nsp: Namespace, names: seq<Room>) returns (sids: set<Sid>)
      ensures sids == Recipients(rooms, nsp, names)
    {
      sids := {};
      if nsp in rooms {
        var roomClients := rooms[nsp];
        for i := 0 to |names|
          invariant sids == Recipients(rooms, nsp, names[..i])
        {
          assert names[..i + 1][..i] == names[..i];
          if names[i] in roomClients {
            sids := sids + roomClients[names[i]];
          } else {
            sids := sids + {names[i]};
          }
        }
        assert names[..|names|] == names;
      }
    }

    /** Starts one emit for every recipient that is a client of the namespace. */
    method EmitTo(nsp: Namespace, names: seq<Room>) returns (started: seq<Client>)
      requires Indexed(clients)
      ensures forall i, j | 0 <= i < j < |started| :: started[i].sid != started[j].sid
      ensures forall c :: c in started <==> Gets(rooms, clients, nsp, names, c)
    {
      hide DecodeSid, Recipients;
      var todo := SidsToEmit(nsp, names);
      started := [];
      while todo != {}
        invariant todo <= Recipients(rooms, nsp, names)
        invariant forall i | 0 <= i < |started| :: started[i].sid !in todo
        invariant forall i, j | 0 <= i < j < |started| :: started[i].sid != started[j].sid
        invariant forall c :: c in started <==>
                    c.sid in Recipients(rooms, nsp, names) && c.sid !in todo && Lookup(clients, c.sid, nsp) == Some(c)
        decreases todo
      {
        var sid :| sid in todo;
        var client := GetClient(sid, nsp);
        LookupIsScan(clients, sid, nsp);
        ghost var before := started;
        if client.Some? {
          started := started + [client.value];
        }
        todo := todo - {sid};
      }
    }

    method GetClient(sid: Sid, nsp: Namespace) returns (client: Option<Client>)
      ensures client == Lookup(clients, sid, nsp)
    {
      var esid := DecodeSid(sid);
      if esid.None? || esid.value !in clients || sid !in clients[esid.value] || nsp !in clients[esid.value][sid] {
        return None;
      }
      return Some(clients[esid.value][sid][nsp]);
    }

    /** The id and namespace of some client of an engine socket, whichever comes first. */
    method ClientInfo(esid: Sid) returns (info: Option<(Sid, Namespace)>)
      ensures info.Some? ==> HasClient(clients, esid, info.value.0, info.value.1)
      ensures Filled(clients) ==> (info.None? <==> esid !in clients)
    {
      if esid !in clients || clients[esid] == map[] {
        return None;
      }
      var sid :| sid in clients[esid];
      var nspMap := clients[esid][sid];
      if nspMap == map[] {
        return None;
      }
      var nsp :| nsp in nspMap;
      return Some((sid, nsp));
    }

    /**
     A client of a namespace with handlers gets its connect callback, its polling task
     and, if it is new, its handshake, in this order, and is filed; others are ignored.
     */
    method InsertClients(nsp: Namespace, esid: Sid, sid: Sid, handshake: bool)
      modifies this`clients, this`effects
      ensures clients == if nsp in handlers then Insert(old(clients), Client(nsp, sid, esid)) else old(clients)
      ensures var client := Client(nsp, sid, esid);
              effects == old(effects) +
                         if nsp !in handlers then []
                         else if handshake then [ConnectCallback(client), Poll(client), Handshake(client)]
                         else [ConnectCallback(client), Poll(client)]
    {
      if nsp in handlers {
        var client := Client(nsp, sid, esid);
        effects := effects + [ConnectCallback(client)];
        effects := effects + [Poll(client)];
        if handshake {
          effects := effects + [Handshake(client)];
        }
        var sidMap: SidMap := map[];
        if esid in clients {
          sidMap := clients[esid];
        }
        var nspMap: NspMap := map[];
        if sid in sidMap {
          nspMap := sidMap[sid];
        }
        nspMap := nspMap[nsp := client];
        clients := clients[esid := sidMap[sid := nspMap]];
      }
    }
  }

  // Whole runs: every event of the server as one step.

  datatype State = State(
    rooms: Rooms,
    clients: Clients,
    connecting: set<(Sid, Sid)>, // engine ids and the ids generated for them, before their connect packet
    asked: seq<Sid>              // the engine ids that ids were generated for
  )

  datatype Action =
    | Join(nsp: Namespace, names: seq<Room>, sid: Sid)
    | Leave(nsp: Namespace, names: seq<Room>, sid: Sid)
    | Open(engineNo: nat)
    | Connected(esid: Sid, sid: Sid, nsp: Namespace)
    | Reopen(esid: Sid, sid: Sid, nsp: Namespace)
    | Drop(esid: Sid)

  /** One step of a server with handlers for some namespaces; engine ids come from the engine's generator. */
  function Step(handlers: set<Namespace>, s: State, a: Action): Option<State> {
    match a
    case Join(nsp, names, sid) => Some(s.(rooms := JoinAll(s.rooms, nsp, names, sid)))
    case Leave(nsp, names, sid) => Some(s.(rooms := LeaveAll(s.rooms, nsp, names, sid)))
    case Open(engineNo) =>
      var esid := EngineSid(engineNo % COUNTS);
      var sid := SocketSid(esid, |s.asked| % COUNTS);
      Some(s.(connecting := s.connecting + {(esid, sid)}, asked := s.asked + [esid]))
    case Connected(esid, sid, nsp) =>
      if (esid, sid) !in s.connecting then None
      else Some(s.(connecting := s.connecting - {(esid, sid)},
                   clients := if nsp in handlers then Insert(s.clients, Client(nsp, sid, esid)) else s.clients))
    case Reopen(esid, sid, nsp) =>
      if !HasClient(s.clients, esid, sid, nsp) then None
      else Some(s.(clients := if nsp in handlers then Insert(s.clients, Client(nsp, sid, esid)) else s.clients))
    case Drop(esid) => Some(s.(clients := s.clients - {esid}, rooms := DropRooms(s.rooms, esid)))
  }

  function Execute(handlers: set<Namespace>, s: State, actions: seq<Action>): Option<State>
    decreases |actions|
  {
    if actions == [] then
      Some(s)
    else
      var before :- Execute(handlers, s, actions[..|actions| - 1]);
      Step(handlers, before, actions[|actions| - 1])
  }

  const INITIAL := State(map[], map[], {}, [])

  ghost predicate ClientsInv(s: State) {
    && Indexed(s.clients) && Filled(s.clients)
    && forall c | c in s.connecting :: DecodeSid(c.1) == Some(c.0)
  }

  lemma StepKeepsClients(handlers: set<Namespace>, s: State, a: Action)
    requires ClientsInv(s) && Step(handlers, s, a).Some?
    ensures ClientsInv(Step(handlers, s, a).value)
  {
    hide DecodeSid, EngineSid, SocketSid, JoinAll, LeaveAll, DropRooms, Insert, Indexed, Filled;
    match a
    case Join(nsp, names, sid) =>
    case Leave(nsp, names, sid) =>
    case Open(engineNo) => EngineSidDecoded(engineNo % COUNTS, |s.asked| % COUNTS);
    case Connected(esid, sid, nsp) =>
      assert DecodeSid((esid, sid).1) == Some((esid, sid).0);
      InsertKeepsIndexed(s.clients, Client(nsp, sid, esid));
      InsertKeepsFilled(s.clients, Client(nsp, sid, esid));
    case Reopen(esid, sid, nsp) =>
      EntryIndexed(s.clients, esid, sid, nsp);
      InsertKeepsIndexed(s.clients, Client(nsp, sid, esid));
      InsertKeepsFilled(s.clients, Client(nsp, sid, esid));
    case Drop(esid) => DropKeepsClients(s.clients, esid);
  }

  lemma EntryIndexed(clients: Clients, esid: Sid, sid: Sid, nsp: Namespace)
    requires Indexed(clients) && HasClient(clients, esid, sid, nsp)
    ensures DecodeSid(sid) == Some(esid)
  {
    hide DecodeSid;
  }

  lemma DropKeepsClients(clients: Clients, esid: Sid)
    requires Indexed(clients) && Filled(clients)
    ensures Indexed(clients - {esid}) && Filled(clients - {esid})
  {
    hide DecodeSid;
  }

  lemma InsertKeepsFilled(clients: Clients, client: Client)
    requires Filled(clients)
    ensures Filled(Insert(clients, client))
  {
    var after := Insert(clients, client);
    assert client.sid in after[client.esid] && client.nsp in after[client.esid][client.sid];
  }

  lemma {:induction false} RunKeepsClients(handlers: set<Namespace>, actions: seq<Action>)
    requires Execute(handlers, INITIAL, actions).Some?
    ensures ClientsInv(Execute(handlers, INITIAL, actions).value)
    decreases |actions|
  {
    hide ClientsInv, Step;
    if actions != [] {
      RunKeepsClients(handlers, actions[..|actions| - 1]);
      StepKeepsClients(handlers, Execute(handlers, INITIAL, actions[..|actions| - 1]).value, actions[|actions| - 1]);
    } else {
      NothingIndexed();
    }
  }

  lemma NothingIndexed()
    ensures ClientsInv(INITIAL)
  {
  }

  /** After any run, the lookup of a client agrees with a search through the whole table. */
  lemma ReachableLookup(handlers: set<Namespace>, actions: seq<Action>, sid: Sid, nsp: Namespace)
    requires Execute(handlers, INITIAL, actions).Some?
    ensures var clients := Execute(handlers, INITIAL, actions).value.clients;
            && (Lookup(clients, sid, nsp).Some? <==> exists esid :: HasClient(clients, esid, sid, nsp))
            && (forall c :: Lookup(clients, sid, nsp) == Some(c) ==> c.sid == sid && c.nsp == nsp && DecodeSid(sid) == Some(c.esid))
  {
    hide DecodeSid, Step;
    RunKeepsClients(handlers, actions);
    var clients := Execute(handlers, INITIAL, actions).value.clients;
    LookupIsScan(clients, sid, nsp);
    assert Lookup(clients, sid, nsp).Some? ==> HasClient(clients, DecodeSid(sid).value, sid, nsp);
  }

  // What the room tables stand for.

  predicate Known(rooms: Rooms, nsp: Namespace, room: Room) {
    nsp in rooms && room in rooms[nsp]
  }

  predicate Member(rooms: Rooms, nsp: Namespace, room: Room, sid: Sid) {
    Known(rooms, nsp, room) && sid in rooms[nsp][room]
  }

  lemma JoinOneMeans(rooms: Rooms, nsp: Namespace, name: Room, joining: Sid, n: Namespace, r: Room, t: Sid)
    ensures var after := JoinOne(rooms, nsp, name, joining);
            && (Known(after, n, r) <==> Known(rooms, n, r) || (n == nsp && r == name))
            && (Member(after, n, r, t) <==> Member(rooms, n, r, t) || (n == nsp && r == name && t == joining))
            && (n in after <==> n in rooms || n == nsp)
  {
  }

  /** Joining several rooms makes exactly those known, and adds exactly this id to them. */
  lemma {:induction false} JoinMeans(rooms: Rooms, nsp: Namespace, names: seq<Room>, joining: Sid, n: Namespace, r: Room, t: Sid)
    ensures var after := JoinAll(rooms, nsp, names, joining);
            && (Known(after, n, r) <==> Known(rooms, n, r) || (n == nsp && r in names))
            && (Member(after, n, r, t) <==> Member(rooms, n, r, t) || (n == nsp && r in names && t == joining))
            && (n in after <==> n in rooms || (n == nsp && names != []))
  {
    hide JoinOne, Known, Member;
    if names != [] {
      var before, last := names[..|names| - 1], names[|names| - 1];
      JoinMeans(rooms, nsp, before, joining, n, r, t);
      JoinOneMeans(JoinAll(rooms, nsp, before, joining), nsp, last, joining, n, r, t);
      assert names == before + [last];
    }
  }

  lemma LeaveOneMeans(rooms: Rooms, nsp: Namespace, name: Room, leaving: Sid, n: Namespace, r: Room, t: Sid)
    ensures var after := LeaveOne(rooms, nsp, name, leaving);
            && (Known(after, n, r) <==> Known(rooms, n, r))
            && (Member(after, n, r, t) <==> Member(rooms, n, r, t) && !(n == nsp && r == name && t == leaving))
            && (n in after <==> n in rooms)
  {
  }

  /** Leaving rooms takes exactly this id out of exactly those, and every room stays known. */
  lemma {:induction false} LeaveMeans(rooms: Rooms, nsp: Namespace, names: seq<Room>, leaving: Sid, n: Namespace, r: Room, t: Sid)
    ensures var after := LeaveAll(rooms, nsp, names, leaving);
            && (Known(after, n, r) <==> Known(rooms, n, r))
            && (Member(after, n, r, t) <==> Member(rooms, n, r, t) && !(n == nsp && r in names && t == leaving))
            && (n in after <==> n in rooms)
  {
    hide LeaveOne, Known, Member;
    if names != [] {
      var before, last := names[..|names| - 1], names[|names| - 1];
      LeaveMeans(rooms, nsp, before, leaving, n, r, t);
      LeaveOneMeans(LeaveAll(rooms, nsp, before, leaving), nsp, last, leaving, n, r, t);
      assert names == before + [last];
    }
  }

  /** Dropping removes exactly the memberships of ids that decode to the dropped one, and every room stays known. */
  lemma DropMeans(rooms: Rooms, esid: Sid, n: Namespace, r: Room, t: Sid)
    ensures var after := DropRooms(rooms, esid);
            && (Known(after, n, r) <==> Known(rooms, n, r))
            && (Member(after, n, r, t) <==> Member(rooms, n, r, t) && DecodeSid(t) != Some(esid))
            && (n in after <==> n in rooms)
  {
    hide DecodeSid;
  }

  lemma DropIdempotent(rooms: Rooms, esid: Sid)
    ensures DropRooms(DropRooms(rooms, esid), esid) == DropRooms(rooms, esid)
  {
    hide DecodeSid;
    var after := DropRooms(rooms, esid);
    forall n | n in after
      ensures DropIn(after[n], esid) == after[n]
    {
      forall r | r in after[n]
        ensures Retained(after[n][r], esid) == after[n][r]
      {
      }
    }
  }

  predicate Joins(a: Action, nsp: Namespace, room: Room, sid: Sid) {
    a.Join? && a.nsp == nsp && room in a.names && a.sid == sid
  }

  predicate Removes(a: Action, nsp: Namespace, room: Room, sid: Sid) {
    || (a.Leave? && a.nsp == nsp && room in a.names && a.sid == sid)
    || (a.Drop? && DecodeSid(sid) == Some(a.esid))
  }

  predicate Creates(a: Action, nsp: Namespace, room: Room) {
    a.Join? && a.nsp == nsp && room in a.names
  }

  /** The action joined, and nothing since has removed. */
  ghost predicate JoinedSince(actions: seq<Action>, nsp: Namespace, room: Room, sid: Sid) {
    exists i | 0 <= i < |actions| ::
      Joins(actions[i], nsp, room, sid) && forall j | i < j < |actions| :: !Removes(actions[j], nsp, room, sid)
  }

  ghost predicate Created(actions: seq<Action>, nsp: Namespace, room: Room) {
    exists i | 0 <= i < |actions| :: Creates(actions[i], nsp, room)
  }

  lemma StepRooms(handlers: set<Namespace>, s: State, a: Action, n: Namespace, r: Room, t: Sid)
    requires Step(handlers, s, a).Some?
    ensures var after := Step(handlers, s, a).value.rooms;
            && (Member(after, n, r, t) <==> Joins(a, n, r, t) || (Member(s.rooms, n, r, t) && !Removes(a, n, r, t)))
            && (Known(after, n, r) <==> Creates(a, n, r) || Known(s.rooms, n, r))
            && (n in after <==> n in s.rooms || (a.Join? && a.nsp == n && a.names != []))
  {
    hide DecodeSid, EngineSid, SocketSid, JoinAll, LeaveAll, DropRooms, Insert, Known, Member;
    match a
    case Join(nsp, names, sid) => JoinMeans(s.rooms, nsp, names, sid, n, r, t);
    case Leave(nsp, names, sid) => LeaveMeans(s.rooms, nsp, names, sid, n, r, t);
    case Open(_) =>
    case Connected(_, _, _) =>
    case Reopen(_, _, _) =>
    case Drop(esid) => DropMeans(s.rooms, esid, n, r, t);
  }

  lemma JoinedSinceStep(actions: seq<Action>, a: Action, nsp: Namespace, room: Room, sid: Sid)
    ensures JoinedSince(actions + [a], nsp, room, sid) <==>
            Joins(a, nsp, room, sid) || (JoinedSince(actions, nsp, room, sid) && !Removes(a, nsp, room, sid))
  {
    hide Joins, Removes;
    var longer := actions + [a];
    assert longer[|actions|] == a;
    if JoinedSince(longer, nsp, room, sid) {
      var i :| 0 <= i < |longer| && Joins(longer[i], nsp, room, sid) &&
               forall j | i < j < |longer| :: !Removes(longer[j], nsp, room, sid);
      if i < |actions| {
        assert forall j | i < j < |actions| :: longer[j] == actions[j];
        assert Joins(actions[i], nsp, room, sid) && !Removes(longer[|actions|], nsp, room, sid);
      }
    }
    if JoinedSince(actions, nsp, room, sid) && !Removes(a, nsp, room, sid) {
      var i :| 0 <= i < |actions| && Joins(actions[i], nsp, room, sid) &&
               forall j | i < j < |actions| :: !Removes(actions[j], nsp, room, sid);
      assert Joins(longer[i], nsp, room, sid) && forall j | i < j < |longer| :: !Removes(longer[j], nsp, room, sid);
    }
  }

  lemma CreatedStep(actions: seq<Action>, a: Action, nsp: Namespace, room: Room)
    ensures Created(actions + [a], nsp, room) <==> Creates(a, nsp, room) || Created(actions, nsp, room)
  {
    var longer := actions + [a];
    assert longer[|actions|] == a;
    if Created(actions, nsp, room) {
      var i :| 0 <= i < |actions| && Creates(actions[i], nsp, room);
      assert Creates(longer[i], nsp, room);
    }
  }

  /**
   The room tables after any run: an id is in a room exactly if it joined and has
   not left or been dropped since; a room is known exactly if someone ever joined it.
   */
  lemma {:induction false} RoomHistory(handlers: set<Namespace>, actions: seq<Action>, nsp: Namespace, room: Room, sid: Sid)
    requires Execute(handlers, INITIAL, actions).Some?
    ensures var rooms := Execute(handlers, INITIAL, actions).value.rooms;
            && (Member(rooms, nsp, room, sid) <==> JoinedSince(actions, nsp, room, sid))
            && (Known(rooms, nsp, room) <==> Created(actions, nsp, room))
    decreases |actions|
  {
    hide Step, JoinedSince, Created, Joins, Removes, Creates, Member, Known;
    if actions == [] {
      NoHistory(nsp, room, sid);
    } else {
      var before, a := actions[..|actions| - 1], actions[|actions| - 1];
      assert actions == before + [a];
      RoomHistory(handlers, before, nsp, room, sid);
      StepRooms(handlers, Execute(handlers, INITIAL, before).value, a, nsp, room, sid);
      JoinedSinceStep(before, a, nsp, room, sid);
      CreatedStep(before, a, nsp, room);
    }
  }

  lemma NoHistory(nsp: Namespace, room: Room, sid: Sid)
    ensures !Member(INITIAL.rooms, nsp, room, sid) && !JoinedSince([], nsp, room, sid)
    ensures !Known(INITIAL.rooms, nsp, room) && !Created([], nsp, room)
  {
  }

  // Broadcasts.

  /** Emitting to `name` reaches `sid`: as a member of that room, or by its own name if there is no such room. */
  predicate Reaches(rooms: Rooms, nsp: Namespace, name: Room, sid: Sid) {
    Member(rooms, nsp, name, sid) || (!Known(rooms, nsp, name) && sid == name)
  }

  lemma {:induction false} RecipientsAre(rooms: Rooms, nsp: Namespace, names: seq<Room>, sid: Sid)
    ensures sid in Recipients(rooms, nsp, names) <==> nsp in rooms && exists name <- names :: Reaches(rooms, nsp, name, sid)
  {
    if nsp in rooms && names != [] {
      var before, last := names[..|names| - 1], names[|names| - 1];
      RecipientsAre(rooms, nsp, before, sid);
      assert names == before + [last];
      assert sid in (if last in rooms[nsp] then rooms[nsp][last] else {last}) <==> Reaches(rooms, nsp, last, sid);
      assert last in names && forall name <- before :: name in names;
    }
  }

  /** Neither the order nor the repetition of the names matters. */
  lemma RecipientsUnordered(rooms: Rooms, nsp: Namespace, names: seq<Room>, others: seq<Room>)
    requires forall name :: name in names <==> name in others
    ensures Recipients(rooms, nsp, names) == Recipients(rooms, nsp, others)
  {
    hide Recipients, Reaches;
    forall sid
      ensures sid in Recipients(rooms, nsp, names) <==> sid in Recipients(rooms, nsp, others)
    {
      RecipientsAre(rooms, nsp, names, sid);
      RecipientsAre(rooms, nsp, others, sid);
    }
  }

  /** A namespace is known once someone has joined a room of it. */
  lemma {:induction false} NamespaceHistory(handlers: set<Namespace>, actions: seq<Action>, nsp: Namespace)
    requires Execute(handlers, INITIAL, actions).Some?
    ensures nsp in Execute(handlers, INITIAL, actions).value.rooms <==>
            exists a <- actions :: a.Join? && a.nsp == nsp && a.names != []
    decreases |actions|
  {
    hide Step;
    if actions != [] {
      var before, a := actions[..|actions| - 1], actions[|actions| - 1];
      NamespaceHistory(handlers, before, nsp);
      StepRooms(handlers, Execute(handlers, INITIAL, before).value, a, nsp, "", "");
      assert actions == before + [a];
    }
  }

  /**
   Who gets a broadcast after any run, in terms of what happened: in a namespace
   where somebody has joined, every id that joined one of the rooms and has not
   left or been dropped since, and every name that nobody ever joined, as an id.
   */
  lemma BroadcastRecipients(handlers: set<Namespace>, actions: seq<Action>, nsp: Namespace, names: seq<Room>, sid: Sid)
    requires Execute(handlers, INITIAL, actions).Some?
    ensures (sid in Recipients(Execute(handlers, INITIAL, actions).value.rooms, nsp, names)) <==>
            && (exists a <- actions :: a.Join? && a.nsp == nsp && a.names != [])
            && (exists name <- names :: JoinedSince(actions, nsp, name, sid) || (!Created(actions, nsp, name) && sid == name))
  {
    hide Execute, JoinedSince, Created, Member, Known, Recipients;
    NamespaceHistory(handlers, actions, nsp);
    RecipientsAre(Execute(handlers, INITIAL, actions).value.rooms, nsp, names, sid);
    forall name
      ensures var rooms := Execute(handlers, INITIAL, actions).value.rooms;
              && (Member(rooms, nsp, name, sid) <==> JoinedSince(actions, nsp, name, sid))
              && (Known(rooms, nsp, name) <==> Created(actions, nsp, name))
    {
      RoomHistory(handlers, actions, nsp, name, sid);
    }
  }

  /** Right after a drop nothing of the dropped socket is left in either table, the rest is as before, and dropping again changes nothing. */
  lemma Dropped(handlers: set<Namespace>, s: State, esid: Sid, nsp: Namespace, room: Room, sid: Sid)
    ensures var after := Step(handlers, s, Drop(esid)).value;
            && Step(handlers, after, Drop(esid)) == Some(after)
            && Lookup(after.clients, sid, nsp) == (if DecodeSid(sid) == Some(esid) then None else Lookup(s.clients, sid, nsp))
            && (Member(after.rooms, nsp, room, sid) <==> DecodeSid(sid) != Some(esid) && Member(s.rooms, nsp, room, sid))
  {
    hide DecodeSid, DropRooms, Member;
    DropMeans(s.rooms, esid, nsp, room, sid);
    DropIdempotent(s.rooms, esid);
    assert s.clients - {esid} - {esid} == s.clients - {esid};
  }

  predicate Connects(handlers: set<Namespace>, a: Action, c: Client) {
    a == Connected(c.esid, c.sid, c.nsp) && c.nsp in handlers
  }

  /** The client connected to a namespace with handlers, and its engine socket has not been dropped since. */
  ghost predicate ConnectedSince(handlers: set<Namespace>, actions: seq<Action>, c: Client) {
    exists i | 0 <= i < |actions| ::
      Connects(handlers, actions[i], c) && forall j | i < j < |actions| :: actions[j] != Drop(c.esid)
  }

  lemma ConnectedSinceStep(handlers: set<Namespace>, actions: seq<Action>, a: Action, c: Client)
    ensures ConnectedSince(handlers, actions + [a], c) <==>
            Connects(handlers, a, c) || (ConnectedSince(handlers, actions, c) && a != Drop(c.esid))
  {
    hide Connects;
    var longer := actions + [a];
    assert longer[|actions|] == a;
    if ConnectedSince(handlers, longer, c) {
      var i :| 0 <= i < |longer| && Connects(handlers, longer[i], c) && forall j | i < j < |longer| :: longer[j] != Drop(c.esid);
      if i < |actions| {
        assert forall j | i < j < |actions| :: longer[j] == actions[j];
        assert Connects(handlers, actions[i], c) && longer[|actions|] != Drop(c.esid);
      }
    }
    if ConnectedSince(handlers, actions, c) && a != Drop(c.esid) {
      var i :| 0 <= i < |actions| && Connects(handlers, actions[i], c) && forall j | i < j < |actions| :: actions[j] != Drop(c.esid);
      assert Connects(handlers, longer[i], c) && forall j | i < j < |longer| :: longer[j] != Drop(c.esid);
    }
  }

  lemma StepClients(handlers: set<Namespace>, s: State, a: Action, c: Client)
    requires Step(handlers, s, a).Some?
    ensures HasClient(Step(handlers, s, a).value.clients, c.esid, c.sid, c.nsp) <==>
            Connects(handlers, a, c) || (HasClient(s.clients, c.esid, c.sid, c.nsp) && a != Drop(c.esid))
  {
    hide DecodeSid, EngineSid, SocketSid, JoinAll, LeaveAll, DropRooms;
  }

  /** The table of clients after any run: exactly those that connected and were not dropped since. */
  lemma {:induction false} ClientHistory(handlers: set<Namespace>, actions: seq<Action>, c: Client)
    requires Execute(handlers, INITIAL, actions).Some?
    ensures HasClient(Execute(handlers, INITIAL, actions).value.clients, c.esid, c.sid, c.nsp) <==>
            ConnectedSince(handlers, actions, c)
    decreases |actions|
  {
    hide Step, ConnectedSince, Connects;
    if actions == [] {
      assert !ConnectedSince(handlers, [], c) by {
        NothingConnected(handlers, c);
      }
    } else {
      var before, a := actions[..|actions| - 1], actions[|actions| - 1];
      assert actions == before + [a];
      ClientHistory(handlers, before, c);
      StepClients(handlers, Execute(handlers, INITIAL, before).value, a, c);
      ConnectedSinceStep(handlers, before, a, c);
    }
  }

  lemma NothingConnected(handlers: set<Namespace>, c: Client)
    ensures !ConnectedSince(handlers, [], c)
  {
  }

  /**
   Which clients an emit to rooms goes to after any run, in terms of what happened
   before: those of the namespace that connected and were not dropped since, and
   that are recipients by joining or by name.
   */
  lemma BroadcastReaches(handlers: set<Namespace>, actions: seq<Action>, nsp: Namespace, names: seq<Room>, c: Client)
    requires Execute(handlers, INITIAL, actions).Some?
    ensures var s := Execute(handlers, INITIAL, actions).value;
            Gets(s.rooms, s.clients, nsp, names, c) <==>
            && c.nsp == nsp && ConnectedSince(handlers, actions, c)
            && (exists a <- actions :: a.Join? && a.nsp == nsp && a.names != [])
            && (exists name <- names :: JoinedSince(actions, nsp, name, c.sid) || (!Created(actions, nsp, name) && c.sid == name))
  {
    hide Execute, JoinedSince, Created, ConnectedSince, Recipients, DecodeSid;
    var s := Execute(handlers, INITIAL, actions).value;
    BroadcastRecipients(handlers, actions, nsp, names, c.sid);
    RunKeepsClients(handlers, actions);
    LookupIsScan(s.clients, c.sid, nsp);
    ClientHistory(handlers, actions, c);
    var found := Lookup(s.clients, c.sid, nsp);
    assert found.Some? ==> HasClient(s.clients, DecodeSid(c.sid).value, c.sid, nsp);
  }

  /** A connection of an engine socket leads to a client of the namespace it asks for, if that has handlers, from any state. */
  lemma ConnectRuns(handlers: set<Namespace>, s: State, engineNo: nat, nsp: Namespace)
    ensures var esid := EngineSid(engineNo % COUNTS);
            var sid := SocketSid(esid, |s.asked| % COUNTS);
            var waiting := Step(handlers, s, Open(engineNo));
            && waiting.Some? && waiting.value.clients == s.clients && waiting.value.rooms == s.rooms
            && var r := Step(handlers, waiting.value, Connected(esid, sid, nsp));
               r.Some? && r.value.rooms == s.rooms
               && (nsp in handlers ==>
                     HasClient(r.value.clients, esid, sid, nsp) && r.value.clients[esid][sid][nsp] == Client(nsp, sid, esid))
               && (nsp !in handlers ==> r.value.clients == s.clients)
  {
    hide EngineSid, SocketSid;
  }

  /** When the engine opens a socket again that has a client already, that client is filed again, and nothing changes. */
  lemma ReopenRuns(handlers: set<Namespace>, s: State, esid: Sid, sid: Sid, nsp: Namespace)
    requires Indexed(s.clients) && HasClient(s.clients, esid, sid, nsp)
    ensures Step(handlers, s, Reopen(esid, sid, nsp)) == Some(s)
  {
    hide DecodeSid;
    var same := Insert(s.clients, Client(nsp, sid, esid));
    assert same[esid][sid] == s.clients[esid][sid];
    assert same[esid] == s.clients[esid];
    assert same == s.clients;
  }
}

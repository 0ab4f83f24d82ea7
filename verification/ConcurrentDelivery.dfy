/**
 Many tasks emitting at once, from the first step to the last: lock, wire,
 bytes, reassembly and dispatch together, on every kind of transport.
 */
module ConcurrentDelivery {
  import opened Wrappers
  import opened Bytes
  import opened EndToEnd
  import opened TransportLock
  import E = EnginePacket
  import Events
  import Json
  import M = Messages
  import Polling
  import PollingQueue
  import R = Reassembly
  import S = SocketPacket
  import Server = ServerEnd
  import T = Transports
  import Utf8

  /** Everything a socket sends: events, acknowledgements, and packets of the protocol such as opening, handshake and disconnect. */
  datatype Message =
    | Emit(nsp: string, event: Events.Event, payload: M.Payload, id: Option<nat>)
    | Ack(nsp: string, payload: M.Payload, ackId: nat)
    | Plain(packet: S.Packet)

  /** How a transport carries packets: each on its own, or several in the body of a long poll. */
  datatype Route = Direct(channel: T.Channel) | LongPoll

  function PacketFor(m: Message): S.Packet {
    match m
    case Emit(nsp, event, payload, id) => M.BuildPacket(payload, Some(event), nsp, id, false)
    case Ack(nsp, payload, ackId) => M.BuildPacket(payload, None, nsp, Some(ackId), true)
    case Plain(packet) => packet
  }

  /** What a message should lead to at a socket of namespace `nsp` that handles packets. */
  function Expected(nsp: string, m: Message): M.Delivery {
    match m
    case Plain(packet) => M.Dispatch(nsp, packet)
    case Emit(own, event, payload, id) =>
      if own != nsp then M.Nothing else Intended(Some(event), M.Parts(payload), id)
    case Ack(own, payload, ackId) =>
      if own != nsp then M.Nothing else Intended(None, M.Parts(payload), Some(ackId))
  }

  function ExpectedAll(nsp: string, ms: seq<Message>): (r: seq<M.Delivery>)
    ensures |r| == |ms|
  {
    seq(|ms|, i requires 0 <= i < |ms| => Expected(nsp, ms[i]))
  }

  /** Expected are the event and the payload sent themselves, a list of one part as that part; and only in their own namespace. */
  lemma ExpectedPayload(nsp: string, m: Message)
    requires !m.Plain?
    ensures m.nsp != nsp ==> Expected(nsp, m) == M.Nothing
    ensures m.nsp == nsp && !(m.payload.Multi? && |m.payload.parts| == 1) ==>
              Expected(nsp, m) == if m.Emit? then M.Call(m.event, Some(m.payload), m.id) else M.AckReply(m.ackId, Some(m.payload))
    ensures m.nsp == nsp && m.payload.Multi? && |m.payload.parts| == 1 && m.payload.parts[0].BinaryPart? ==>
              var got := M.BinaryPayload(m.payload.parts[0].data);
              Expected(nsp, m) == if m.Emit? then M.Call(m.event, Some(got), m.id) else M.AckReply(m.ackId, Some(got))
    ensures m.nsp == nsp && m.payload.Multi? && |m.payload.parts| == 1 && m.payload.parts[0].JsonPart? ==>
              var got := M.JsonPayload(m.payload.parts[0].value);
              Expected(nsp, m) == if m.Emit? then M.Call(m.event, Some(got), m.id) else M.AckReply(m.ackId, Some(got))
  {
    hide M.Collapse, M.Parts;
    M.SamePayload(m.payload);
  }

  predicate Opens(m: Message) {
    m.Plain? && m.packet.ptype.Connect?
  }

  /** What messages should lead to at a server: nothing before the opening packet, then the connect handler and the rest. */
  function ExpectedAtServer(handlers: set<string>, ms: seq<Message>): seq<M.Delivery> {
    if ms == [] then []
    else if !Opens(ms[0]) then ExpectedAtServer(handlers, ms[1..])
    else if ms[0].packet.nsp in handlers then [Server.CONNECT_CALL] + ExpectedAll(ms[0].packet.nsp, ms[1..])
    else []
  }

  /** The domain of the end-to-end theorems: the transport carries the packet, and what was meant is read from it. */
  predicate Carries(route: Route, m: Message) {
    match m
    case Plain(p) =>
      p.attachments.None? && p.count == 0 && S.Representable(p) && S.Encodable(p) && E.SEPARATOR as int as char !in p.nsp
    case Emit(nsp, event, payload, id) =>
      && Sendable(nsp, id, M.Parts(payload)) && CarriesParts(route, M.Parts(payload))
      && Events.EventOf(Events.NameOf(event)) == event
    case Ack(nsp, payload, ackId) =>
      Sendable(nsp, Some(ackId), M.Parts(payload)) && CarriesParts(route, M.Parts(payload))
  }

  predicate CarriesParts(route: Route, parts: seq<M.Part>) {
    && M.Deliverable(parts)
    && match route
       case Direct(channel) => AttachmentsCarriable(channel, parts)
       case LongPoll => M.Binaries(parts) == []
  }

  /** The packets a transport of this kind carries unharmed. */
  predicate CarriesPackets(route: Route, ps: seq<E.Packet>) {
    match route
    case Direct(channel) => AllCarriable(channel, ps)
    case LongPoll => Polling.AllPollable(ps)
  }

  /** What tasks send: a packet that is no message, such as a ping, or the group of a message that is carried. */
  ghost predicate Fine(route: Route, group: seq<E.Packet>) {
    || (IsControl(group) && CarriesPackets(route, group))
    || exists m :: Carries(route, m) && group == GroupOf(PacketFor(m))
  }

  ghost predicate AllFine(route: Route, groups: seq<seq<E.Packet>>) {
    forall i | 0 <= i < |groups| :: Fine(route, groups[i])
  }

  /** The message of a group, if it is not a control packet. */
  ghost function MessageIn(route: Route, group: seq<E.Packet>): seq<Message>
    requires Fine(route, group)
  {
    if IsControl(group) then []
    else var m :| Carries(route, m) && group == GroupOf(PacketFor(m)); [m]
  }

  ghost function MessagesIn(route: Route, groups: seq<seq<E.Packet>>): seq<Message>
    requires AllFine(route, groups)
  {
    if groups == [] then [] else MessageIn(route, groups[0]) + MessagesIn(route, groups[1..])
  }

  /** A packet read from a message, in the form in which it is dispatched. */
  predicate ReadFrom(p: S.Packet, m: Message) {
    && (p.ptype.Connect? <==> Opens(m)) && (Opens(m) ==> p.nsp == m.packet.nsp)
    && p == ReceivedAs(PacketFor(m))
  }

  /** A message that is carried makes a proper packet, and all its Engine.IO packets are carried. */
  lemma MessageProper(route: Route, m: Message)
    requires Carries(route, m)
    ensures var p := PacketFor(m);
            ProperPacket(p) && CarriesPackets(route, GroupOf(p)) && ReadFrom(ReceivedAs(p), m)
    ensures route.LongPoll? ==> |GroupOf(PacketFor(m))| == 1
  {
    hide S.PacketBytes, S.Encodable, S.Representable, M.Elements, M.Binaries, M.PlaceholderFree, T.Carriable, Polling.Pollable;
    var p := PacketFor(m);
    if m.Plain? {
      PlainCarried(route, p);
    } else {
      var event, id := if m.Emit? then Some(m.event) else None, if m.Emit? then m.id else Some(m.ackId);
      BuiltEncodable(m.payload, event, m.nsp, id, m.Ack?);
      BuiltCarried(route, p);
    }
  }

  lemma PlainCarried(route: Route, p: S.Packet)
    requires p.attachments.None? && E.SEPARATOR as int as char !in p.nsp
    ensures CarriesPackets(route, GroupOf(p)) && |GroupOf(p)| == 1
  {
    hide S.PacketBytes, T.Carriable, Polling.Pollable;
    HeaderCarriable(if route.Direct? then route.channel else T.ClientPolling, p);
  }

  lemma BuiltCarried(route: Route, p: S.Packet)
    requires E.SEPARATOR as int as char !in p.nsp && p.attachments.Some?
    requires route == Direct(T.Websocket) ==> forall data | data in p.attachments.value :: data != [] && E.SEPARATOR !in data
    requires route.LongPoll? ==> p.attachments.value == []
    ensures CarriesPackets(route, GroupOf(p)) && (route.LongPoll? ==> |GroupOf(p)| == 1)
  {
    hide S.PacketBytes, T.Carriable, Polling.Pollable;
    match route
    case Direct(channel) => GroupCarriable(channel, p);
    case LongPoll => HeaderCarriable(T.ClientPolling, p);
  }

  /** The packets that begin and end a connection are carried by every transport. */
  lemma ConnectionCarried(route: Route, nsp: string, data: Json.Value)
    requires S.ValidNamespace(nsp) && E.SEPARATOR as int as char !in nsp
    requires data.Object? && Json.WellFormed(data) && Json.Depth(data) < Json.RECURSION_LIMIT
    ensures Carries(route, Plain(OpenPacket(nsp))) && Opens(Plain(OpenPacket(nsp)))
    ensures Carries(route, Plain(HandshakePacket(nsp, data))) && Carries(route, Plain(DisconnectPacket(nsp)))
  {
    hide S.ValidNamespace, Json.Depth, Json.WellFormed;
  }

  /** A packet read from a message is dispatched as expected. */
  lemma MessageDispatched(route: Route, nsp: string, m: Message)
    requires Carries(route, m)
    ensures M.Dispatch(nsp, ReceivedAs(PacketFor(m))) == Expected(nsp, m)
  {
    hide M.Elements, M.Binaries, M.Collapse, M.PlaceholderFree, Intended;
    var p := PacketFor(m);
    if !m.Plain? {
      var event, id := if m.Emit? then Some(m.event) else None, if m.Emit? then m.id else Some(m.ackId);
      ReceivedDispatched(event, m.payload, m.nsp, id);
      CountFits(m.payload, event, m.nsp, id);
      OtherNamespace(nsp, ReceivedAs(p));
    }
  }

  lemma CountFits(payload: M.Payload, event: Option<Events.Event>, nsp: string, id: Option<nat>)
    requires M.Deliverable(M.Parts(payload))
    ensures var p := M.BuildPacket(payload, event, nsp, id, event.None?);
            p.count == |p.attachments.value| && ReceivedAs(p) == M.Received(p)
  {
    hide M.Elements, M.Binaries, M.PlaceholderFree;
    var p := M.BuildPacket(payload, event, nsp, id, event.None?);
    assert p.attachments.value[..|p.attachments.value|] == p.attachments.value;
  }

  lemma OtherNamespace(nsp: string, p: S.Packet)
    ensures p.nsp != nsp ==> M.Dispatch(nsp, p) == M.Nothing
  {
  }

  /** A group determines the packet received from it. */
  lemma SameGroup(p: S.Packet, q: S.Packet)
    requires ProperPacket(p) && ProperPacket(q) && GroupOf(p) == GroupOf(q)
    ensures ReceivedAs(p) == ReceivedAs(q)
  {
    hide S.PacketBytes, S.PacketOf, S.Encodable, S.Representable;
    S.CodecRoundTrip(p);
    S.CodecRoundTrip(q);
    assert GroupOf(p)[0] == GroupOf(q)[0];
    assert |GroupOf(p)| == 1 + p.count && |GroupOf(q)| == 1 + q.count;
    forall i | 0 <= i < p.count
      ensures Attachments(p)[i] == Attachments(q)[i]
    {
      assert GroupOf(p)[i + 1] == GroupOf(q)[i + 1];
    }
    assert Attachments(p) == Attachments(q);
    assert ReceivedAs(p) == S.Strip(p).(attachments := if p.count > 0 then Some(Attachments(p)) else None);
    assert ReceivedAs(q) == S.Strip(q).(attachments := if q.count > 0 then Some(Attachments(q)) else None);
  }

  /** A fine group is proper, is carried, and the packet in it is read from its message. */
  lemma FineGroup(route: Route, group: seq<E.Packet>)
    requires Fine(route, group)
    ensures Proper(group) && CarriesPackets(route, group)
    ensures |PacketIn(group)| == |MessageIn(route, group)| <= 1
    ensures PacketIn(group) != [] ==>
              && Carries(route, MessageIn(route, group)[0])
              && ReadFrom(PacketIn(group)[0], MessageIn(route, group)[0])
    ensures route.LongPoll? ==> |group| == 1
  {
    hide PacketFor, Carries, ReadFrom, ProperPacket, CarriesPackets, ReceivedAs, S.PacketBytes;
    if IsControl(group) {
      assert PacketIn(group) == [] && MessageIn(route, group) == [];
    } else {
      var m :| Carries(route, m) && group == GroupOf(PacketFor(m)) && MessageIn(route, group) == [m];
      MessageProper(route, m);
      var p :| ProperPacket(p) && group == GroupOf(p) && PacketIn(group) == [ReceivedAs(p)];
      SameGroup(p, PacketFor(m));
    }
  }

  /** Packet by packet, what is received is read from the messages sent. */
  ghost predicate AllReadFrom(route: Route, ps: seq<S.Packet>, ms: seq<Message>) {
    |ps| == |ms| && forall i | 0 <= i < |ps| :: Carries(route, ms[i]) && ReadFrom(ps[i], ms[i])
  }

  lemma CarriesConcat(route: Route, a: seq<E.Packet>, b: seq<E.Packet>)
    requires CarriesPackets(route, a) && CarriesPackets(route, b)
    ensures CarriesPackets(route, a + b)
  {
    hide T.Carriable, Polling.Pollable;
  }

  lemma ReadFromConcat(route: Route, a: seq<S.Packet>, b: seq<Message>, c: seq<S.Packet>, d: seq<Message>)
    requires AllReadFrom(route, a, b) && AllReadFrom(route, c, d)
    ensures AllReadFrom(route, a + c, b + d)
  {
    hide Carries, ReadFrom;
  }

  lemma {:induction false} FineGroups(route: Route, groups: seq<seq<E.Packet>>)
    requires AllFine(route, groups)
    ensures AllProper(groups) && CarriesPackets(route, Flatten(groups))
    ensures AllReadFrom(route, PacketsIn(groups), MessagesIn(route, groups))
  {
    hide Fine, Proper, PacketIn, MessageIn, Carries, ReadFrom, CarriesPackets;
    forall i | 0 <= i < |groups|
      ensures Proper(groups[i])
    {
      FineGroup(route, groups[i]);
    }
    if groups == [] {
      NothingCarried(route);
    } else {
      FineGroup(route, groups[0]);
      FineGroups(route, groups[1..]);
      CarriesConcat(route, groups[0], Flatten(groups[1..]));
      var p, m := PacketIn(groups[0]), MessageIn(route, groups[0]);
      assert AllReadFrom(route, p, m);
      ReadFromConcat(route, p, m, PacketsIn(groups[1..]), MessagesIn(route, groups[1..]));
    }
  }

  lemma NothingCarried(route: Route)
    ensures CarriesPackets(route, [])
  {
  }

  lemma AllDispatched(route: Route, nsp: string, ps: seq<S.Packet>, ms: seq<Message>)
    requires AllReadFrom(route, ps, ms)
    ensures M.DispatchAll(nsp, ps) == ExpectedAll(nsp, ms)
  {
    hide M.Dispatch, Expected, Carries, ReceivedAs;
    forall i | 0 <= i < |ps|
      ensures M.Dispatch(nsp, ps[i]) == Expected(nsp, ms[i])
    {
      MessageDispatched(route, nsp, ms[i]);
    }
  }

  lemma {:induction false} AllHandledByServer(route: Route, handlers: set<string>, ps: seq<S.Packet>, ms: seq<Message>)
    requires AllReadFrom(route, ps, ms)
    ensures Server.ServerHandled(handlers, ps) == ExpectedAtServer(handlers, ms)
  {
    hide Carries, M.DispatchAll, ExpectedAll, ReceivedAs;
    if ps != [] {
      if Opens(ms[0]) {
        AllDispatched(route, ps[0].nsp, ps[1..], ms[1..]);
      } else {
        AllHandledByServer(route, handlers, ps[1..], ms[1..]);
      }
    }
  }

  /** The messages whose groups are complete on a transport. */
  ghost function Delivered(route: Route, actions: seq<Action>, t: TransportId): seq<Message>
    requires Execute(INITIAL, actions).Some? && AllFine(route, GroupsOn(Whole(Execute(INITIAL, actions).value), t))
  {
    MessagesIn(route, GroupsOn(Whole(Execute(INITIAL, actions).value), t))
  }

  lemma WholeFine(route: Route, actions: seq<Action>, t: TransportId)
    requires Execute(INITIAL, actions).Some? && AllFine(route, GroupsOn(Jobs(actions, INITIAL.current), t))
    ensures AllFine(route, GroupsOn(Whole(Execute(INITIAL, actions).value), t))
  {
    hide Execute, Jobs, Whole, GroupsOn, Fine, Partial;
    WholeGroups(actions, t);
    var whole, all := GroupsOn(Whole(Execute(INITIAL, actions).value), t), GroupsOn(Jobs(actions, INITIAL.current), t);
    assert forall i | 0 <= i < |whole| :: whole[i] == all[i];
  }

  /** What is begun of a group is carried as well. */
  lemma WireCarried(route: Route, actions: seq<Action>, t: TransportId)
    requires Execute(INITIAL, actions).Some? && AllFine(route, GroupsOn(Jobs(actions, INITIAL.current), t))
    ensures CarriesPackets(route, WireAt(Execute(INITIAL, actions).value, t))
  {
    hide Execute, Jobs, Whole, Partial, GroupsOn, Fine, CarriesPackets, WireAt, Flatten, AllReadFrom, PacketsIn, MessagesIn, Proper;
    var s := Execute(INITIAL, actions).value;
    var whole, part := Flatten(GroupsOn(Whole(s), t)), Partial(s, t);
    WholeFine(route, actions, t);
    FineGroups(route, GroupsOn(Whole(s), t));
    GroupAtomicity(actions, t);
    if part == [] {
      NothingCarried(route);
    } else {
      WholeGroups(actions, t);
      var g :| g in GroupsOn(Jobs(actions, INITIAL.current), t) && part < g;
      FineGroup(route, g);
      CarriesPrefix(route, part, g);
    }
    CarriesConcat(route, whole, part);
  }

  lemma CarriesPrefix(route: Route, part: seq<E.Packet>, whole: seq<E.Packet>)
    requires part <= whole && CarriesPackets(route, whole)
    ensures CarriesPackets(route, part)
  {
    hide T.Carriable, Polling.Pollable;
    assert forall i | 0 <= i < |part| :: part[i] == whole[i];
  }

  /**
   The end-to-end theorem for any number of concurrent senders over POST requests or
   a WebSocket: in every interleaving of tasks that open, emit, acknowledge, ping,
   disconnect and upgrade, everything sent over a transport can be read at its other
   end, and is handled there as the messages sent, in the order in which the run took
   the lock: at a client's socket of any namespace, and at a server, where nothing is
   handled before the opening packet.
   */
  lemma EverythingDelivered(channel: T.Channel, actions: seq<Action>, t: TransportId)
    requires Execute(INITIAL, actions).Some?
    requires AllFine(Direct(channel), GroupsOn(Jobs(actions, INITIAL.current), t))
    ensures AllFine(Direct(channel), GroupsOn(Whole(Execute(INITIAL, actions).value), t))
    ensures var arrived, ms := Arrivals(channel, WireAt(Execute(INITIAL, actions).value, t)), Delivered(Direct(channel), actions, t);
            && arrived.Some?
            && (forall nsp :: HandledPackets(nsp, arrived) == ExpectedAll(nsp, ms))
            && (forall handlers :: HandledByServer(handlers, arrived) == ExpectedAtServer(handlers, ms))
  {
    hide Fine, Proper, PacketsIn, MessagesIn, M.DispatchAll, ExpectedAll, ExpectedAtServer, R.Run, Arrivals, Execute, Jobs;
    hide GroupsOn, Whole, T.Carriable, AllReadFrom, WireAt, Server.ServerHandled, AllArrived;
    var route, s := Direct(channel), Execute(INITIAL, actions).value;
    var groups := GroupsOn(Whole(s), t);
    WholeFine(route, actions, t);
    FineGroups(route, groups);
    WireCarried(route, actions, t);
    AllCarried(channel, WireAt(s, t));
    FineGroups(route, GroupsOn(Jobs(actions, INITIAL.current), t));
    WireIsReceived(channel, actions, t);
    var ps, ms := PacketsIn(groups), MessagesIn(route, groups);
    forall nsp
      ensures M.DispatchAll(nsp, ps) == ExpectedAll(nsp, ms)
    {
      AllDispatched(route, nsp, ps, ms);
    }
    forall handlers
      ensures Server.ServerHandled(handlers, ps) == ExpectedAtServer(handlers, ms)
    {
      AllHandledByServer(route, handlers, ps, ms);
    }
  }

  // Long polls: the packets of a transport wait in a queue that requests drain.

  lemma {:induction false} SinglePackets(groups: seq<seq<E.Packet>>, n: nat)
    requires forall i | 0 <= i < |groups| :: |groups[i]| == 1
    requires n <= |groups|
    ensures |Flatten(groups)| == |groups| && Flatten(groups)[..n] == Flatten(groups[..n])
  {
    if groups != [] {
      if n > 0 {
        SinglePackets(groups[1..], n - 1);
        assert groups[..n][1..] == groups[1..][..n - 1];
        assert Flatten(groups) == groups[0] + Flatten(groups[1..]);
      } else {
        SinglePackets(groups[1..], 0);
      }
    }
  }

  /** A transport that only sends single packets has nothing but complete groups. */
  lemma SinglesComplete(actions: seq<Action>, t: TransportId)
    requires Execute(INITIAL, actions).Some? && AllFine(LongPoll, GroupsOn(Jobs(actions, INITIAL.current), t))
    ensures var s := Execute(INITIAL, actions).value;
            && WireAt(s, t) == Flatten(GroupsOn(Whole(s), t))
            && forall i | 0 <= i < |GroupsOn(Whole(s), t)| :: |GroupsOn(Whole(s), t)[i]| == 1
  {
    hide Execute, Jobs, Whole, Partial, GroupsOn, Fine, WireAt, Flatten;
    var s := Execute(INITIAL, actions).value;
    WholeGroups(actions, t);
    GroupAtomicity(actions, t);
    WholeFine(LongPoll, actions, t);
    var groups := GroupsOn(Whole(s), t);
    forall i | 0 <= i < |groups|
      ensures |groups[i]| == 1
    {
      FineGroup(LongPoll, groups[i]);
    }
    if Partial(s, t) != [] {
      var g :| g in GroupsOn(Jobs(actions, INITIAL.current), t) && Partial(s, t) < g;
      FineGroup(LongPoll, g);
    } else {
      assert Flatten(groups) + [] == Flatten(groups);
    }
  }

  /** The groups on a transport that poll requests have handed out so far: as many as there are packets in the bodies. */
  function HandedOut(polled: PollingQueue.State, groups: seq<seq<E.Packet>>): (r: seq<seq<E.Packet>>)
    ensures r <= groups
  {
    var n := |Flatten(polled.served)|;
    if n <= |groups| then groups[..n] else groups
  }

  /**
   The end-to-end theorem for long polls: with any interleaving of senders, and any
   interleaving of their sending with poll requests, the client handles exactly the
   messages whose packets were handed out so far, once and in the order in which the
   run took the lock.
   */
  lemma EverythingPolled(nsp: string, actions: seq<Action>, t: TransportId, capacity: nat, polls: seq<PollingQueue.Action>)
    requires Execute(INITIAL, actions).Some? && AllFine(LongPoll, GroupsOn(Jobs(actions, INITIAL.current), t))
    requires PollingQueue.Execute(PollingQueue.Initial(capacity), polls).Some?
    requires PollingQueue.Execute(PollingQueue.Initial(capacity), polls).value.emitted == WireAt(Execute(INITIAL, actions).value, t)
    ensures var polled := PollingQueue.Execute(PollingQueue.Initial(capacity), polls).value;
            var groups := HandedOut(polled, GroupsOn(Whole(Execute(INITIAL, actions).value), t));
            && AllFine(LongPoll, groups) && |groups| == |Flatten(polled.served)|
            && HandledPackets(nsp, PollingQueue.ReadAll(polled.served)) == ExpectedAll(nsp, MessagesIn(LongPoll, groups))
  {
    hide Execute, Jobs, Whole, GroupsOn, Fine, WireAt, PollingQueue.Execute, PollingQueue.ReadAll, R.Run, Polling.Pollable;
    hide PacketsIn, MessagesIn, M.DispatchAll, ExpectedAll, AllReadFrom, Proper;
    var polled := PollingQueue.Execute(PollingQueue.Initial(capacity), polls).value;
    var all := GroupsOn(Whole(Execute(INITIAL, actions).value), t);
    SinglesComplete(actions, t);
    WholeFine(LongPoll, actions, t);
    PollingQueue.PollingConservation(capacity, polls);
    var n := |Flatten(polled.served)|;
    SinglePackets(all, |all|);
    SinglePackets(all, n);
    var groups := all[..n];
    FineGroups(LongPoll, groups);
    var sent := Flatten(groups);
    GroupsRead(T.ClientPolling, groups);
    assert AllArrived(T.ClientPolling, sent) == sent;
    AllDispatched(LongPoll, nsp, PacketsIn(groups), MessagesIn(LongPoll, groups));
  }

  // A server's whole run: long polls first, a WebSocket after the upgrade.

  predicate UpgradesTo(a: Action, t: TransportId) {
    a.Acquire? && a.job.Upgrade? ==> a.job.target == t
  }

  predicate OneAfterOther(entries: seq<Entry>, from: TransportId) {
    && (forall i | 0 <= i < |entries| :: from <= entries[i].transport <= 1)
    && (forall i, j | 0 <= i < j < |entries| :: entries[i].transport <= entries[j].transport)
  }

  /** Before the upgrade everything goes to the first transport, after it everything to the second. */
  lemma {:induction false} JobsSplit(actions: seq<Action>, current: TransportId)
    requires current <= 1 && forall i | 0 <= i < |actions| :: UpgradesTo(actions[i], 1)
    ensures OneAfterOther(Jobs(actions, current), current)
    decreases |actions|
  {
    if actions != [] {
      var a := actions[0];
      if a.Acquire? && a.job.Upgrade? {
        JobsSplit(actions[1..], a.job.target);
        assert Jobs(actions, current) == Jobs(actions[1..], a.job.target);
      } else {
        JobsSplit(actions[1..], current);
        if !a.Acquire? {
          assert Jobs(actions, current) == Jobs(actions[1..], current);
        } else {
          assert Jobs(actions, current) == [Entry(current, a.job.group)] + Jobs(actions[1..], current);
        }
      }
    }
  }

  /** With two transports used one after the other, all groups are those of the first and then those of the second. */
  lemma {:induction false} GroupsSplit(entries: seq<Entry>)
    requires OneAfterOther(entries, 0)
    ensures AllGroups(entries) == GroupsOn(entries, 0) + GroupsOn(entries, 1)
  {
    if entries != [] {
      var n := |entries| - 1;
      GroupsSplit(entries[..n]);
      assert AllGroups(entries) == AllGroups(entries[..n]) + [entries[n].group];
      if entries[n].transport == 0 {
        NoneOn(entries[..n], 1);
        assert GroupsOn(entries, 1) == [];
      }
    }
  }

  lemma {:induction false} NoneOn(entries: seq<Entry>, t: TransportId)
    requires forall i | 0 <= i < |entries| :: entries[i].transport != t
    ensures GroupsOn(entries, t) == []
  {
    if entries != [] {
      NoneOn(entries[..|entries| - 1], t);
    }
  }

  function AllGroups(entries: seq<Entry>): (r: seq<seq<E.Packet>>)
    ensures |r| == |entries|
  {
    seq(|entries|, i requires 0 <= i < |entries| => entries[i].group)
  }

  /**
   The client of a server that starts with long polls and upgrades to a WebSocket
   while any number of tasks are sending: what it handles from both transports
   together are messages of the groups that the run took the lock for, in that order,
   each once; and if everything queued for long polls was handed out, they are the
   messages of all complete groups.
   */
  lemma UpgradedRun(nsp: string, actions: seq<Action>, capacity: nat, polls: seq<PollingQueue.Action>)
    requires Execute(INITIAL, actions).Some? && forall i | 0 <= i < |actions| :: UpgradesTo(actions[i], 1)
    requires AllFine(LongPoll, GroupsOn(Jobs(actions, INITIAL.current), 0))
    requires AllFine(Direct(T.Websocket), GroupsOn(Jobs(actions, INITIAL.current), 1))
    requires PollingQueue.Execute(PollingQueue.Initial(capacity), polls).Some?
    requires PollingQueue.Execute(PollingQueue.Initial(capacity), polls).value.emitted == WireAt(Execute(INITIAL, actions).value, 0)
    ensures var s, polled := Execute(INITIAL, actions).value, PollingQueue.Execute(PollingQueue.Initial(capacity), polls).value;
            var first, second := GroupsOn(Whole(s), 0), GroupsOn(Whole(s), 1);
            var out := HandedOut(polled, first);
            && AllGroups(Whole(s)) == first + second
            && AllFine(LongPoll, out) && AllFine(Direct(T.Websocket), second)
            && HandledPackets(nsp, PollingQueue.ReadAll(polled.served)) + HandledPackets(nsp, Arrivals(T.Websocket, WireAt(s, 1))) ==
               ExpectedAll(nsp, MessagesIn(LongPoll, out)) + ExpectedAll(nsp, MessagesIn(Direct(T.Websocket), second))
            && (|Flatten(polled.served)| == |WireAt(s, 0)| ==> out == first)
  {
    hide Execute, Jobs, Whole, GroupsOn, Fine, WireAt, PollingQueue.Execute, PollingQueue.ReadAll, MessagesIn, ExpectedAll;
    hide HandledPackets, Arrivals, Partial;
    var s := Execute(INITIAL, actions).value;
    var polled := PollingQueue.Execute(PollingQueue.Initial(capacity), polls).value;
    EverythingPolled(nsp, actions, 0, capacity, polls);
    EverythingDelivered(T.Websocket, actions, 1);
    JobsSplit(actions, INITIAL.current);
    GroupAtomicity(actions, 0);
    var whole, jobs := Whole(s), Jobs(actions, INITIAL.current);
    assert forall i | 0 <= i < |whole| :: whole[i] == jobs[i];
    GroupsSplit(whole);
    SinglesComplete(actions, 0);
    SinglePackets(GroupsOn(whole, 0), |GroupsOn(whole, 0)|);
  }
}

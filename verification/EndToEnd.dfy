/**
 From the emit on one side to the call of the handler on the other: packet
 building, both codecs, framing, the separator split, reassembly and dispatch.
 */
module EndToEnd {
  import opened Wrappers
  import opened Bytes
  import opened Messages
  import opened Reassembly
  import Decimal
  import E = EnginePacket
  import Events
  import Json
  import Polling
  import S = SocketPacket
  import Server = ServerEnd
  import T = Transports
  import Utf8

  function AttachmentPackets(attachments: seq<bytes>): (ps: seq<E.Packet>)
    ensures |ps| == |attachments|
  {
    seq(|attachments|, i requires 0 <= i < |attachments| => E.Packet(E.MessageBinary, attachments[i]))
  }

  /** The Engine.IO packets that `RawSocket::send` makes of a packet: the header, then its attachments. */
  function GroupOf(p: S.Packet): (g: seq<E.Packet>)
    ensures g != []
  {
    [E.Packet(E.Message, S.PacketBytes(p))] + AttachmentPackets(if p.attachments.Some? then p.attachments.value else [])
  }

  /** What the other side reads from the requests or frames that carry a list of packets. */
  function Arrivals(channel: T.Channel, ps: seq<E.Packet>): Option<seq<E.Packet>> {
    if ps == [] then
      Some([])
    else
      var first :- T.Carried(channel, ps[0]);
      var rest :- Arrivals(channel, ps[1..]);
      Some(first + rest)
  }

  function AllArrived(channel: T.Channel, ps: seq<E.Packet>): (r: seq<E.Packet>)
    ensures |r| == |ps|
  {
    seq(|ps|, i requires 0 <= i < |ps| => T.Arrived(channel, ps[i]))
  }

  /** Everything a socket of namespace `nsp` does on receiving these Engine.IO packets. */
  function HandledPackets(nsp: string, ps: Option<seq<E.Packet>>): seq<Delivery> {
    if ps.None? then [] else DispatchAll(nsp, Run(Idle, ps.value).1)
  }

  /** Everything a server with handlers for some namespaces does on receiving these Engine.IO packets. */
  function HandledByServer(handlers: set<string>, ps: Option<seq<E.Packet>>): seq<Delivery> {
    if ps.None? then [] else Server.ServerHandled(handlers, Run(Idle, ps.value).1)
  }

  /** Everything the other side does when `p` is sent on its own over a POST request per packet or a WebSocket. */
  function Handled(channel: T.Channel, nsp: string, p: S.Packet): seq<Delivery> {
    HandledPackets(nsp, Arrivals(channel, GroupOf(p)))
  }

  /** Everything the client does when the server queues `p` for its next long poll. */
  function HandledByPoll(nsp: string, p: S.Packet): seq<Delivery> {
    HandledPackets(nsp, Polling.ReadBody(Polling.PollingPayload(E.EncodeAll(GroupOf(p)))))
  }

  /** What the channel and the parser need of a message, whatever its payload means. */
  predicate Sendable(nsp: string, id: Option<nat>, parts: seq<Part>) {
    && S.ValidNamespace(nsp) && E.SEPARATOR as int as char !in nsp
    && (id.Some? ==> id.value <= Decimal.USIZE_MAX)
    && |parts| <= Decimal.USIZE_MAX
    && forall i | 0 <= i < |parts| :: parts[i].JsonPart? ==> Fits(parts[i].value)
  }

  /** A JSON value that the parser accepts as an element of an array. */
  predicate Fits(v: Json.Value) {
    Json.WellFormed(v) && Json.Depth(v) + 1 < Json.RECURSION_LIMIT
  }

  /** WebSocket frames carry only attachments that are not empty and contain no separator. */
  predicate AttachmentsCarriable(channel: T.Channel, parts: seq<Part>) {
    channel.Websocket? ==> forall data | data in Binaries(parts) :: data != [] && E.SEPARATOR !in data
  }

  predicate AllCarriable(channel: T.Channel, ps: seq<E.Packet>) {
    forall i | 0 <= i < |ps| :: T.Carriable(channel, ps[i])
  }

  lemma {:induction false} AllCarried(channel: T.Channel, ps: seq<E.Packet>)
    requires AllCarriable(channel, ps)
    ensures Arrivals(channel, ps) == Some(AllArrived(channel, ps))
  {
    hide T.Carried, T.Carriable, T.Arrived;
    if ps != [] {
      T.CarriedExactly(channel, ps[0]);
      AllCarried(channel, ps[1..]);
      assert AllArrived(channel, ps) == [T.Arrived(channel, ps[0])] + AllArrived(channel, ps[1..]);
    }
  }

  lemma {:induction false} ElementsFit(parts: seq<Part>, k: nat)
    requires k + |parts| <= Decimal.USIZE_MAX
    requires forall i | 0 <= i < |parts| :: parts[i].JsonPart? ==> Fits(parts[i].value)
    ensures forall i | 0 <= i < |parts| :: Fits(Elements(parts, k)[i])
  {
    hide PlaceHolder, Fits;
    if parts != [] {
      ElementsFit(parts[1..], if parts[0].BinaryPart? then k + 1 else k);
      PlaceHolderFits(k);
    }
  }

  lemma PlaceHolderFits(k: nat)
    requires k <= Decimal.USIZE_MAX
    ensures Fits(PlaceHolder(k))
  {
    PlaceHolderFields(k);
  }

  lemma {:induction false} ItemsDepthBound(items: seq<Json.Value>, d: nat)
    requires forall i | 0 <= i < |items| :: Json.Depth(items[i]) <= d
    ensures Json.ItemsDepth(items) <= d
  {
    if items != [] {
      ItemsDepthBound(items[1..], d);
    }
  }

  /** The packets built for events and non-empty acknowledgements are in the domain of the codec. */
  lemma BuiltEncodable(payload: Payload, event: Option<Events.Event>, nsp: string, id: Option<nat>, isAck: bool)
    requires Sendable(nsp, id, Parts(payload)) && (event.Some? || Parts(payload) != [])
    ensures var p := BuildPacket(payload, event, nsp, id, isAck);
            S.Representable(p) && S.Encodable(p) && p.count <= |p.attachments.value|
  {
    hide Elements, Binaries, Json.Depth, Json.WellFormed;
    var parts := Parts(payload);
    ElementsFit(parts, 0);
    ArrayFits(event, Elements(parts, 0));
    assert EventElement(event) + Elements(parts, 0) != [];
    var n := |Binaries(parts)|;
    assert n % 256 <= n;
  }

  lemma ArrayFits(event: Option<Events.Event>, elements: seq<Json.Value>)
    requires forall i | 0 <= i < |elements| :: Fits(elements[i])
    ensures var v := Json.Array(EventElement(event) + elements);
            Json.WellFormed(v) && Json.Depth(v) < Json.RECURSION_LIMIT
  {
    var items := EventElement(event) + elements;
    forall i | 0 <= i < |items|
      ensures Fits(items[i])
    {
      assert i >= |EventElement(event)| ==> items[i] == elements[i - |EventElement(event)|];
    }
    ItemsDepthBound(items, Json.RECURSION_LIMIT - 2);
  }

  /** The header packet goes through every transport, whatever its data. */
  lemma HeaderCarriable(channel: T.Channel, p: S.Packet)
    requires E.SEPARATOR as int as char !in p.nsp
    ensures T.Carriable(channel, E.Packet(E.Message, S.PacketBytes(p)))
    ensures Polling.Pollable(E.Packet(E.Message, S.PacketBytes(p)))
  {
    hide S.PacketText;
    S.TextSeparatorFree(p);
    Utf8.DecodeEncoded(S.PacketText(p));
  }

  lemma GroupCarriable(channel: T.Channel, p: S.Packet)
    requires E.SEPARATOR as int as char !in p.nsp && p.attachments.Some?
    requires channel.Websocket? ==> forall data | data in p.attachments.value :: data != [] && E.SEPARATOR !in data
    ensures AllCarriable(channel, GroupOf(p))
  {
    hide S.PacketBytes, Utf8.Decode;
    HeaderCarriable(channel, p);
    var g := GroupOf(p);
    forall i | 0 <= i < |g|
      ensures T.Carriable(channel, g[i])
    {
      if i > 0 {
        var data := p.attachments.value[i - 1];
        assert g[i] == E.Packet(E.MessageBinary, data) && data in p.attachments.value;
      }
    }
  }

  lemma GroupArrives(channel: T.Channel, p: S.Packet)
    requires E.SEPARATOR as int as char !in p.nsp && p.attachments.Some?
    requires channel.Websocket? ==> forall data | data in p.attachments.value :: data != [] && E.SEPARATOR !in data
    ensures Arrivals(channel, GroupOf(p)) == Some(AllArrived(channel, GroupOf(p)))
  {
    GroupCarriable(channel, p);
    AllCarried(channel, GroupOf(p));
  }

  /** What the codec makes of the header, with the attachments that are read after it. */
  predicate HeaderRead(p: S.Packet, q: S.Packet) {
    && p.attachments.Some? && p.count <= |p.attachments.value|
    && S.PacketOf(S.PacketBytes(p)) == Ok(S.Strip(q))
    && q.count == p.count
    && q.attachments == if p.count > 0 then Some(p.attachments.value[..p.count]) else None
  }

  /** What arrives of a packet's group. */
  lemma GroupItems(channel: T.Channel, p: S.Packet)
    requires p.attachments.Some?
    ensures var g := AllArrived(channel, GroupOf(p));
            && |g| == 1 + |p.attachments.value| && IsMessage(g[0]) && g[0].data == S.PacketBytes(p)
            && forall i | 0 < i < |g| :: IsMessage(g[i]) && g[i].data == p.attachments.value[i - 1]
  {
    hide S.PacketBytes;
    assert forall i | 0 <= i < |p.attachments.value| ::
        GroupOf(p)[i + 1] == E.Packet(E.MessageBinary, p.attachments.value[i]);
  }

  /** The group of a packet is received as that packet; attachments beyond its count are left over. */
  lemma GroupReassembled(channel: T.Channel, p: S.Packet, q: S.Packet)
    requires HeaderRead(p, q)
    ensures var out := Run(Idle, AllArrived(channel, GroupOf(p))).1;
            out != [] && out[0] == q && (p.count == |p.attachments.value| ==> out == [q])
  {
    hide S.PacketBytes, S.PacketOf, AllArrived, GroupOf, Run, IsMessage;
    var g := AllArrived(channel, GroupOf(p));
    GroupItems(channel, p);
    var whole, left := g[..1 + p.count], g[1 + p.count..];
    assert IsGroupOf(whole, q);
    GroupReceived(whole, q, |whole|);
    assert whole[..|whole|] == whole;
    RunConcat(Idle, whole, left);
    assert whole + left == g;
    if p.count == |p.attachments.value| {
      assert left == [];
      RunNothing(Idle);
    }
  }

  /** Sending a packet over POST requests or a WebSocket: the first thing the other side does is to handle it as it was read. */
  lemma SentAndHandled(channel: T.Channel, p: S.Packet, q: S.Packet)
    requires HeaderRead(p, q) && E.SEPARATOR as int as char !in p.nsp
    requires channel.Websocket? ==> forall data | data in p.attachments.value :: data != [] && E.SEPARATOR !in data
    ensures var handled := Handled(channel, p.nsp, p);
            handled != [] && handled[0] == Dispatch(p.nsp, q) && (p.count == |p.attachments.value| ==> |handled| == 1)
  {
    hide Run, Dispatch;
    GroupArrives(channel, p);
    GroupReassembled(channel, p, q);
  }

  // Attachments that a WebSocket does not carry: what arrives is never taken for the message.

  /** What sending a payload, with an event or as an acknowledgement, should lead to. */
  function Intended(event: Option<Events.Event>, parts: seq<Part>, id: Option<nat>): Delivery
    requires event.None? ==> id.Some?
  {
    if event.Some? then Call(event.value, Some(Collapse(parts)), id) else AckReply(id.value, Some(Collapse(parts)))
  }

  function Datas(ps: seq<E.Packet>): (r: seq<bytes>)
    ensures |r| == |ps|
  {
    seq(|ps|, i requires 0 <= i < |ps| => ps[i].data)
  }

  /** If a header that waits for attachments is ever completed, then with the data of the next packets. */
  lemma {:induction false} FirstCompleted(header: S.Packet, left: nat, attachments: seq<bytes>, ps: seq<E.Packet>)
    requires left > 0
    ensures var out := Run(Collecting(header, left, attachments), ps).1;
            out != [] ==> left <= |ps| && out[0] == header.(attachments := Some(attachments + Datas(ps[..left])))
    decreases |ps|
  {
    hide Step, Run, Datas;
    if ps == [] {
      RunNothing(Collecting(header, left, attachments));
    } else {
      var p, rest := ps[0], ps[1..];
      assert ps == [p] + rest;
      RunCons(Collecting(header, left, attachments), p, rest);
      CollectStep(header, left, attachments, p);
      if !IsMessage(p) {
        RunFailed(InvalidAttachmentPacketType(E.TypeNumber(p.ptype)), rest);
      } else {
        DatasStep(ps, left);
        if left > 1 {
          FirstCompleted(header, left - 1, attachments + [p.data], rest);
          assert left <= |ps| ==> attachments + [p.data] + Datas(rest[..left - 1]) == attachments + Datas(ps[..left]);
        } else {
          DatasStep(ps, 1);
        }
      }
    }
  }

  lemma DatasStep(ps: seq<E.Packet>, n: nat)
    requires ps != [] && n > 0
    ensures n <= |ps| ==> Datas(ps[..n]) == [ps[0].data] + Datas(ps[1..][..n - 1])
    ensures Datas(ps[..1]) == [ps[0].data]
  {
  }

  lemma CollectStep(header: S.Packet, left: nat, attachments: seq<bytes>, p: E.Packet)
    requires left > 0
    ensures var (r, out) := Step(Collecting(header, left, attachments), p);
            if !IsMessage(p) then r == Failed(InvalidAttachmentPacketType(E.TypeNumber(p.ptype))) && out == []
            else if left > 1 then r == Collecting(header, left - 1, attachments + [p.data]) && out == []
            else out == [header.(attachments := Some(attachments + [p.data]))]
  {
  }

  /** What arrives up to the first packet that is not carried as it is. */
  lemma {:induction false} ArrivalsPrefix(channel: T.Channel, ps: seq<E.Packet>, j: nat)
    requires Arrivals(channel, ps).Some? && j < |ps|
    requires forall i | 0 <= i < j :: T.Carriable(channel, ps[i])
    requires var read := T.Carried(channel, ps[j]); read.Some? ==> read.value != []
    ensures var read, all := T.Carried(channel, ps[j]), Arrivals(channel, ps).value;
            && read.Some? && j < |all| && all[j] == read.value[0]
            && forall i | 0 <= i < j :: all[i] == T.Arrived(channel, ps[i])
  {
    hide T.Carried, T.Carriable, T.Arrived;
    if j > 0 {
      T.CarriedExactly(channel, ps[0]);
      ArrivalsPrefix(channel, ps[1..], j - 1);
      var all, rest := Arrivals(channel, ps).value, Arrivals(channel, ps[1..]).value;
      assert all == [T.Arrived(channel, ps[0])] + rest;
      forall i | 0 <= i < j
        ensures all[i] == T.Arrived(channel, ps[i])
      {
        assert i > 0 ==> all[i] == rest[i - 1] && ps[i] == ps[1..][i - 1];
      }
    }
  }

  lemma {:induction false} FirstLossy(datas: seq<bytes>) returns (j: nat)
    requires exists data | data in datas :: data == [] || E.SEPARATOR in data
    ensures j < |datas| && (datas[j] == [] || E.SEPARATOR in datas[j])
    ensures forall i | 0 <= i < j :: datas[i] != [] && E.SEPARATOR !in datas[i]
  {
    if datas[0] == [] || E.SEPARATOR in datas[0] {
      j := 0;
    } else {
      assert datas == [datas[0]] + datas[1..];
      var k := FirstLossy(datas[1..]);
      j := k + 1;
      assert forall i | 0 < i < j :: datas[i] == datas[1..][i - 1];
    }
  }

  /** What arrives of a group whose `j`-th attachment is the first lossy one. */
  lemma LossyArrivals(p: S.Packet, j: nat)
    requires p.attachments.Some? && j < |p.attachments.value| && E.SEPARATOR as int as char !in p.nsp
    requires var datas := p.attachments.value;
             && (datas[j] == [] || E.SEPARATOR in datas[j])
             && forall i | 0 <= i < j :: datas[i] != [] && E.SEPARATOR !in datas[i]
    ensures var arrived, datas := Arrivals(T.Websocket, GroupOf(p)), p.attachments.value;
            arrived.Some? ==>
              && j + 1 < |arrived.value| && arrived.value[0] == E.Packet(E.Message, S.PacketBytes(p))
              && (forall i | 0 <= i < j :: arrived.value[i + 1].data == datas[i])
              && arrived.value[j + 1].data != datas[j]
  {
    hide S.PacketBytes, T.Carried, Utf8.Decode, Arrivals;
    var g, datas := GroupOf(p), p.attachments.value;
    if Arrivals(T.Websocket, g).Some? {
      HeaderCarriable(T.Websocket, p);
      assert forall i | 0 <= i < |datas| :: g[i + 1] == E.Packet(E.MessageBinary, datas[i]);
      T.LossyBinary(datas[j]);
      forall i | 0 <= i < j + 1
        ensures T.Carriable(T.Websocket, g[i])
      {
        assert i > 0 ==> g[i] == E.Packet(E.MessageBinary, datas[i - 1]);
      }
      ArrivalsPrefix(T.Websocket, g, j + 1);
    }
  }

  /** A header that is read starts collecting, or is a packet by itself. */
  lemma HeaderRun(p: S.Packet, rest: seq<E.Packet>)
    requires S.PacketOf(S.PacketBytes(p)) == Ok(S.Strip(p))
    ensures Run(Idle, [E.Packet(E.Message, S.PacketBytes(p))] + rest).1 ==
            if p.count > 0 then Run(Collecting(S.Strip(p), p.count, []), rest).1 else [S.Strip(p)] + Run(Idle, rest).1
  {
    hide S.PacketBytes, S.PacketOf, Run;
    RunCons(Idle, E.Packet(E.Message, S.PacketBytes(p)), rest);
  }

  /** The first packet reassembled from such a group, if any: the one sent, if its count is too small, or one with a wrong attachment. */
  lemma LossyReassembled(p: S.Packet, ps: seq<E.Packet>, j: nat)
    requires p.attachments.Some? && p.count <= |p.attachments.value| && j < |p.attachments.value|
    requires S.PacketOf(S.PacketBytes(p)) == Ok(S.Strip(p))
    requires j + 1 < |ps| && ps[0] == E.Packet(E.Message, S.PacketBytes(p))
    requires forall i | 0 <= i < j :: ps[i + 1].data == p.attachments.value[i]
    requires ps[j + 1].data != p.attachments.value[j]
    ensures var out := Run(Idle, ps).1;
            out != [] ==>
              || (p.count <= j && out[0] == Received(p))
              || exists wrong: seq<bytes> :: j < |wrong| && wrong[j] != p.attachments.value[j] && out[0] == p.(attachments := Some(wrong))
  {
    hide S.PacketBytes, S.PacketOf, Run, Step, Datas;
    var rest := ps[1..];
    assert ps == [ps[0]] + rest;
    HeaderRun(p, rest);
    if p.count > 0 {
      FirstCompleted(S.Strip(p), p.count, [], rest);
      if Run(Idle, ps).1 != [] {
        var read := Datas(rest[..p.count]);
        assert [] + read == read;
        assert Run(Idle, ps).1[0] == p.(attachments := Some(read));
        ReadData(p.attachments.value, rest, p.count, j);
      }
    }
  }

  /** With the first wrong data at `j`, what is read is right if it ends before, and wrong there if not. */
  lemma ReadData(datas: seq<bytes>, rest: seq<E.Packet>, count: nat, j: nat)
    requires count <= |datas| && count <= |rest| && j < |datas| && j < |rest|
    requires forall i | 0 <= i < j :: rest[i].data == datas[i]
    requires rest[j].data != datas[j]
    ensures var read := Datas(rest[..count]);
            if count <= j then read == datas[..count] else j < |read| && read[j] != datas[j]
  {
  }

  /** A packet with a wrong attachment, or one whose count is too small, is not dispatched as intended. */
  lemma LossyDispatched(event: Option<Events.Event>, payload: Payload, nsp: string, id: Option<nat>, wrong: seq<bytes>, j: nat)
    requires event.None? ==> id.Some?
    requires j < |wrong| && j < |Binaries(Parts(payload))| && wrong[j] != Binaries(Parts(payload))[j]
    ensures var p := BuildPacket(payload, event, nsp, id, event.None?);
            Dispatch(nsp, p.(attachments := Some(wrong))) != Intended(event, Parts(payload), id)
  {
    hide Elements, Binaries, Collapse, DecodeParts;
    WrongAttachment(event, Parts(payload), wrong, j);
  }

  /** A message is only dispatched as intended, if received as it was sent, when its payload is deliverable. */
  lemma ReceivedDispatched(event: Option<Events.Event>, payload: Payload, nsp: string, id: Option<nat>)
    requires event.None? ==> id.Some?
    ensures var p := BuildPacket(payload, event, nsp, id, event.None?);
            Dispatch(nsp, Received(p)) == Intended(event, Parts(payload), id) <==>
            Deliverable(Parts(payload)) && (event.Some? ==> Events.EventOf(Events.NameOf(event.value)) == event.value)
  {
    hide Dispatch, Elements, Binaries, Collapse, Deliverable;
    if event.Some? {
      EventDelivered(event.value, payload, nsp, id);
    } else {
      AckDelivered(payload, nsp, id.value);
    }
  }

  lemma LossyHandled(event: Option<Events.Event>, payload: Payload, nsp: string, id: Option<nat>)
    requires Sendable(nsp, id, Parts(payload)) && !AttachmentsCarriable(T.Websocket, Parts(payload))
    requires event.None? ==> id.Some?
    ensures Handled(T.Websocket, nsp, BuildPacket(payload, event, nsp, id, event.None?)) != [Intended(event, Parts(payload), id)]
  {
    hide Elements, Binaries, Collapse, Dispatch, S.PacketBytes, S.PacketOf, Arrivals, GroupOf, Run, Intended, S.Encodable, S.Representable;
    var parts := Parts(payload);
    var p := BuildPacket(payload, event, nsp, id, event.None?);
    assert parts != [] by { NoPartsNoBinaries(parts); }
    BuiltEncodable(payload, event, nsp, id, event.None?);
    S.CodecRoundTrip(p);
    var j := FirstLossy(p.attachments.value);
    LossyArrivals(p, j);
    var arrived := Arrivals(T.Websocket, GroupOf(p));
    if arrived.Some? {
      LossyReassembled(p, arrived.value, j);
      var out := Run(Idle, arrived.value).1;
      if out != [] {
        if p.count <= j && out[0] == Received(p) {
          ReceivedDispatched(event, payload, nsp, id);
        } else {
          var wrong: seq<bytes> :| j < |wrong| && wrong[j] != p.attachments.value[j] && out[0] == p.(attachments := Some(wrong));
          LossyDispatched(event, payload, nsp, id, wrong, j);
        }
        assert Handled(T.Websocket, nsp, p)[0] == Dispatch(nsp, out[0]);
      }
    }
  }

  /** Sending over a channel that carries the attachments: exactly deliverable payloads arrive. */
  lemma CarriedHandled(channel: T.Channel, event: Option<Events.Event>, payload: Payload, nsp: string, id: Option<nat>)
    requires Sendable(nsp, id, Parts(payload)) && AttachmentsCarriable(channel, Parts(payload))
    requires (event.None? ==> id.Some?) && (event.Some? || Parts(payload) != [])
    ensures (Handled(channel, nsp, BuildPacket(payload, event, nsp, id, event.None?)) == [Intended(event, Parts(payload), id)]) <==>
            Deliverable(Parts(payload)) && (event.Some? ==> Events.EventOf(Events.NameOf(event.value)) == event.value)
  {
    hide Handled, S.PacketBytes, S.PacketOf, Dispatch, Collapse, Elements, Binaries, PlaceholderFree, Intended;
    var p := BuildPacket(payload, event, nsp, id, event.None?);
    BuiltEncodable(payload, event, nsp, id, event.None?);
    S.CodecRoundTrip(p);
    SentAndHandled(channel, p, Received(p));
    ReceivedDispatched(event, payload, nsp, id);
    assert Deliverable(Parts(payload)) ==> p.count == |p.attachments.value|;
  }

  /**
   The end-to-end theorem for events. Over POST requests or a WebSocket, a
   sendable event leads to exactly one call, with the same event, id and payload,
   if and only if the channel carries the attachments, the payload is deliverable
   and the event survives its own name.
   */
  lemma EmitEndToEnd(channel: T.Channel, nsp: string, event: Events.Event, payload: Payload, id: Option<nat>)
    requires Sendable(nsp, id, Parts(payload))
    ensures (Handled(channel, nsp, BuildPacket(payload, Some(event), nsp, id, false)) ==
             [Call(event, Some(Collapse(Parts(payload))), id)]) <==>
            && AttachmentsCarriable(channel, Parts(payload)) && Deliverable(Parts(payload))
            && Events.EventOf(Events.NameOf(event)) == event
  {
    hide Handled, Collapse, Deliverable;
    if AttachmentsCarriable(channel, Parts(payload)) {
      CarriedHandled(channel, Some(event), payload, nsp, id);
    } else {
      LossyHandled(Some(event), payload, nsp, id);
    }
  }

  /** The same for acknowledgements: the waiting callback gets the payload if and only if it is carried and deliverable. */
  lemma AckEndToEnd(channel: T.Channel, nsp: string, payload: Payload, id: nat)
    requires Sendable(nsp, Some(id), Parts(payload))
    ensures (Handled(channel, nsp, BuildPacket(payload, None, nsp, Some(id), true)) ==
             [AckReply(id, Some(Collapse(Parts(payload))))]) <==>
            AttachmentsCarriable(channel, Parts(payload)) && Deliverable(Parts(payload))
  {
    hide Handled, Collapse;
    var parts := Parts(payload);
    var p := BuildPacket(payload, None, nsp, Some(id), true);
    if parts == [] {
      assert EventElement(None) + Elements(parts, 0) == [] && Binaries(parts) == [];
      EmptyAckRead(p);
      var q := p.(data := None, attachments := None);
      SentAndHandled(channel, p, q);
      EmptyAckHandled(q);
    } else if AttachmentsCarriable(channel, parts) {
      CarriedHandled(channel, None, payload, nsp, Some(id));
    } else {
      LossyHandled(None, payload, nsp, Some(id));
    }
  }

  /** What that means for the payload itself: the handler gets exactly the payload sent, a list of one part as that part. */
  lemma EmittedPayload(channel: T.Channel, nsp: string, event: Events.Event, payload: Payload, id: Option<nat>)
    requires Sendable(nsp, id, Parts(payload)) && AttachmentsCarriable(channel, Parts(payload))
    requires Deliverable(Parts(payload)) && Events.EventOf(Events.NameOf(event)) == event
    ensures var handled := Handled(channel, nsp, BuildPacket(payload, Some(event), nsp, id, false));
            if payload.Multi? && |payload.parts| == 1 then
              && (payload.parts[0].BinaryPart? ==> handled == [Call(event, Some(BinaryPayload(payload.parts[0].data)), id)])
              && (payload.parts[0].JsonPart? ==> handled == [Call(event, Some(JsonPayload(payload.parts[0].value)), id)])
            else
              handled == [Call(event, Some(payload), id)]
  {
    hide Handled, Collapse, Deliverable, AttachmentsCarriable;
    EmitEndToEnd(channel, nsp, event, payload, id);
    SamePayload(payload);
  }

  lemma AcknowledgedPayload(channel: T.Channel, nsp: string, payload: Payload, id: nat)
    requires Sendable(nsp, Some(id), Parts(payload)) && AttachmentsCarriable(channel, Parts(payload))
    requires Deliverable(Parts(payload))
    ensures var handled := Handled(channel, nsp, BuildPacket(payload, None, nsp, Some(id), true));
            if payload.Multi? && |payload.parts| == 1 then
              && (payload.parts[0].BinaryPart? ==> handled == [AckReply(id, Some(BinaryPayload(payload.parts[0].data)))])
              && (payload.parts[0].JsonPart? ==> handled == [AckReply(id, Some(JsonPayload(payload.parts[0].value)))])
            else
              handled == [AckReply(id, Some(payload))]
  {
    hide Handled, Collapse, Deliverable, AttachmentsCarriable;
    AckEndToEnd(channel, nsp, payload, id);
    SamePayload(payload);
  }

  lemma EmptyAckRead(p: S.Packet)
    requires p.ptype.Ack? && S.ValidNamespace(p.nsp) && p.id.Some? && p.id.value <= Decimal.USIZE_MAX
    requires p.data == Some(Json.Array([])) && p.count == 0 && p.attachments == Some([])
    ensures HeaderRead(p, p.(data := None, attachments := None))
  {
    assert Json.WellFormed(Json.Array([]));
    assert Json.Depth(Json.Null) == 0 && Json.ItemsDepth([Json.Null]) == 0;
    S.EmptyDataDropped(p);
  }

  /** An acknowledgement without data calls its callback without a payload. */
  lemma EmptyAckHandled(q: S.Packet)
    requires q.ptype.Ack? && q.id.Some? && q.data.None?
    ensures Dispatch(q.nsp, q) == AckReply(q.id.value, None)
  {
  }

  // Packets without a payload of the user's.

  function OpenPacket(nsp: string): S.Packet {
    S.Packet(S.Connect, nsp, None, None, 0, None)
  }

  function HandshakePacket(nsp: string, data: Json.Value): S.Packet {
    S.Packet(S.Connect, nsp, Some(data), None, 0, None)
  }

  function DisconnectPacket(nsp: string): S.Packet {
    S.Packet(S.Disconnect, nsp, None, None, 0, None)
  }

  /** A packet without attachments in the domain of the codec is received exactly as it was sent. */
  lemma PlainReceived(channel: T.Channel, p: S.Packet)
    requires p.attachments.None? && p.count == 0 && S.Representable(p) && S.Encodable(p)
    requires E.SEPARATOR as int as char !in p.nsp
    ensures var arrived := Arrivals(channel, GroupOf(p)); arrived.Some? && Run(Idle, arrived.value).1 == [p]
  {
    hide Run, S.Representable, S.Encodable, S.PacketOf, S.PacketBytes, Arrivals;
    var q := p.(attachments := Some([]));
    S.CodecRoundTrip(p);
    SameBytes(p, q);
    assert GroupOf(p) == GroupOf(q);
    GroupArrives(channel, q);
    GroupReassembled(channel, q, p);
  }

  lemma SameBytes(p: S.Packet, q: S.Packet)
    requires q == p.(attachments := q.attachments)
    ensures S.PacketBytes(p) == S.PacketBytes(q)
  {
    assert S.PacketText(p) == S.PacketText(q);
  }

  /**
   How a connection begins and ends. At the server the opening packet is taken off
   the connection, and the connect handler is called without a payload if the
   namespace has handlers; the server's answer with an object calls the client's
   connect handler with that object; a disconnect calls the close handler.
   */
  lemma ConnectionEndToEnd(channel: T.Channel, handlers: set<string>, nsp: string, data: Json.Value)
    requires S.ValidNamespace(nsp) && E.SEPARATOR as int as char !in nsp
    requires data.Object? && Json.WellFormed(data)
    ensures HandledByServer(handlers, Arrivals(channel, GroupOf(OpenPacket(nsp)))) ==
            if nsp in handlers then [Call(Events.Connect, None, None)] else []
    ensures Json.Depth(data) < Json.RECURSION_LIMIT ==>
              Handled(channel, nsp, HandshakePacket(nsp, data)) == [Call(Events.Connect, Some(JsonPayload(data)), None)]
    ensures Handled(channel, nsp, DisconnectPacket(nsp)) == [Call(Events.Close, None, None)]
  {
    hide Arrivals, GroupOf, Run, Json.Depth, Json.WellFormed, S.ValidNamespace;
    PlainReceived(channel, OpenPacket(nsp));
    PlainReceived(channel, DisconnectPacket(nsp));
    if Json.Depth(data) < Json.RECURSION_LIMIT {
      PlainReceived(channel, HandshakePacket(nsp, data));
    }
    assert [OpenPacket(nsp)][1..] == [];
  }

  /**
   Over a long poll an event, or an acknowledgement with a payload, arrives if and
   only if its payload is deliverable without any binary part.
   */
  lemma PollEndToEnd(event: Option<Events.Event>, payload: Payload, nsp: string, id: Option<nat>)
    requires Sendable(nsp, id, Parts(payload))
    requires (event.None? ==> id.Some?) && (event.Some? || Parts(payload) != [])
    ensures (HandledByPoll(nsp, BuildPacket(payload, event, nsp, id, event.None?)) == [Intended(event, Parts(payload), id)]) <==>
            && Deliverable(Parts(payload)) && Binaries(Parts(payload)) == []
            && (event.Some? ==> Events.EventOf(Events.NameOf(event.value)) == event.value)
  {
    hide S.PacketBytes, S.PacketOf, Dispatch, Collapse, Elements, Binaries, PlaceholderFree, Run, Intended;
    hide Polling.PollingPayload, Polling.ReadBody, E.EncodeAll;
    var p := BuildPacket(payload, event, nsp, id, event.None?);
    var g := GroupOf(p);
    Polling.LongPollRoundTrip(g);
    HeaderCarriable(T.ClientPolling, p);
    if p.attachments.value == [] {
      assert Polling.AllPollable(g);
      BuiltEncodable(payload, event, nsp, id, event.None?);
      S.CodecRoundTrip(p);
      assert AllArrived(T.ClientPolling, g) == g;
      GroupReassembled(T.ClientPolling, p, Received(p));
      assert HandledByPoll(nsp, p) == [Dispatch(nsp, Received(p))];
      ReceivedDispatched(event, payload, nsp, id);
    } else {
      assert g[1].ptype.MessageBinary?;
      Polling.BinaryEntryUnreadable(g, 1);
    }
  }
}

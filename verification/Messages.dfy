/**
 From an event and its payload to a Socket.IO packet, and from a packet to the
 call of a handler: socketio/src/socket.rs and socketio/src/payload.rs.
 */
module Messages {
  import opened Wrappers
  import opened Bytes
  import opened SocketPacket
  import Events
  import Json

  datatype Part = BinaryPart(data: bytes) | JsonPart(value: Json.Value)

  datatype Payload = BinaryPayload(data: bytes) | JsonPayload(value: Json.Value) | Multi(parts: seq<Part>)

  function Parts(payload: Payload): seq<Part> {
    match payload
    case BinaryPayload(data) => [BinaryPart(data)]
    case JsonPayload(value) => [JsonPart(value)]
    case Multi(parts) => parts
  }

  /** A list of one part is delivered as that part alone. */
  function Collapse(parts: seq<Part>): Payload {
    if |parts| != 1 then Multi(parts)
    else match parts[0]
      case BinaryPart(data) => BinaryPayload(data)
      case JsonPart(value) => JsonPayload(value)
  }

  /** Any other payload is delivered as it is; a list of one part as that part. */
  lemma SamePayload(payload: Payload)
    ensures !(payload.Multi? && |payload.parts| == 1) ==> Collapse(Parts(payload)) == payload
    ensures payload.Multi? && |payload.parts| == 1 && payload.parts[0].BinaryPart? ==>
              Collapse(Parts(payload)) == BinaryPayload(payload.parts[0].data)
    ensures payload.Multi? && |payload.parts| == 1 && payload.parts[0].JsonPart? ==>
              Collapse(Parts(payload)) == JsonPayload(payload.parts[0].value)
  {
  }

  // Sending: binary parts are replaced by numbered placeholders.

  const PLACEHOLDER := "_placeholder"
  const NUM := "num"

  function PlaceHolder(num: nat): Json.Value {
    Json.Object([Json.Field(PLACEHOLDER, Json.Bool(true)), Json.Field(NUM, Json.Number(num))])
  }

  /** The JSON elements of a list of parts, the placeholders numbered from `k`. */
  function Elements(parts: seq<Part>, k: nat): (r: seq<Json.Value>)
    ensures |r| == |parts|
  {
    if parts == [] then []
    else match parts[0]
      case BinaryPart(_) => [PlaceHolder(k)] + Elements(parts[1..], k + 1)
      case JsonPart(value) => [value] + Elements(parts[1..], k)
  }

  /** The binary parts, in order. */
  function Binaries(parts: seq<Part>): seq<bytes> {
    if parts == [] then []
    else match parts[0]
      case BinaryPart(data) => [data] + Binaries(parts[1..])
      case JsonPart(_) => Binaries(parts[1..])
  }

  /** The first part of a list, handled, in front of the rest. */
  lemma PartsStep(part: Part, rest: seq<Part>, k: nat)
    ensures Binaries([part] + rest) == (if part.BinaryPart? then [part.data] else []) + Binaries(rest)
    ensures Elements([part] + rest, k) ==
            (if part.BinaryPart? then [PlaceHolder(k)] + Elements(rest, k + 1) else [part.value] + Elements(rest, k))
  {
    hide PlaceHolder;
    assert ([part] + rest)[1..] == rest;
  }

  lemma {:induction false} PartsConcat(a: seq<Part>, b: seq<Part>, k: nat)
    ensures Binaries(a + b) == Binaries(a) + Binaries(b)
    ensures Elements(a + b, k) == Elements(a, k) + Elements(b, k + |Binaries(a)|)
  {
    hide PlaceHolder, Binaries, Elements;
    if a == [] {
      NoParts(k);
      assert a + b == b;
    } else {
      var rest := a[1..];
      assert a == [a[0]] + rest;
      assert a + b == [a[0]] + (rest + b);
      PartsStep(a[0], rest, k);
      PartsStep(a[0], rest + b, k);
      PartsConcat(rest, b, if a[0].BinaryPart? then k + 1 else k);
    }
  }

  lemma NoParts(k: nat)
    ensures Binaries([]) == [] && Elements([], k) == []
  {
  }

  lemma OnePart(part: Part, k: nat)
    ensures Binaries([part]) == if part.BinaryPart? then [part.data] else []
    ensures Elements([part], k) == [if part.BinaryPart? then PlaceHolder(k) else part.value]
  {
    PartsStep(part, [], k);
    NoParts(k);
    assert [part] + [] == [part];
  }

  /** The two vectors that the parts of a payload are pushed onto. */
  class PayloadEncoder {
    var data: seq<Json.Value>
    var attachments: seq<bytes>

    constructor ()
      ensures data == [] && attachments == []
    {
      data, attachments := [], [];
    }

    method ProcessBinary(binData: bytes)
      modifies this
      ensures data == old(data) + [PlaceHolder(|old(attachments)|)]
      ensures attachments == old(attachments) + [binData]
    {
      data := data + [PlaceHolder(|attachments|)];
      attachments := attachments + [binData];
    }

    method ProcessPayload(payload: Payload)
      modifies this
      ensures data == old(data) + Elements(Parts(payload), |old(attachments)|)
      ensures attachments == old(attachments) + Binaries(Parts(payload))
    {
      hide PlaceHolder, Binaries, Elements;
      match payload
      case BinaryPayload(binData) =>
        OnePart(BinaryPart(binData), |attachments|);
        ProcessBinary(binData);
      case JsonPayload(value) =>
        OnePart(JsonPart(value), |attachments|);
        data := data + [value];
      case Multi(parts) =>
        NoParts(|attachments|);
        for i := 0 to |parts|
          invariant data == old(data) + Elements(parts[..i], |old(attachments)|)
          invariant attachments == old(attachments) + Binaries(parts[..i])
        {
          PartsConcat(parts[..i], [parts[i]], |old(attachments)|);
          assert parts[..i + 1] == parts[..i] + [parts[i]];
          OnePart(parts[i], |attachments|);
          match parts[i]
          case BinaryPart(bin) => ProcessBinary(bin);
          case JsonPart(value) => data := data + [value];
        }
        assert parts[..|parts|] == parts;
    }
  }

  function EventElement(event: Option<Events.Event>): seq<Json.Value> {
    if event.Some? then [Json.String(Events.NameOf(event.value))] else []
  }

  /** The packet for an event or for an acknowledgement. The number of attachments is cast to a byte. */
  function BuildPacket(payload: Payload, event: Option<Events.Event>, nsp: string, id: Option<nat>, isAck: bool): Packet {
    var parts := Parts(payload);
    var attachments := Binaries(parts);
    var ptype := if attachments == [] then (if isAck then Ack else Event) else (if isAck then BinaryAck else BinaryEvent);
    Packet(ptype, nsp, Some(Json.Array(EventElement(event) + Elements(parts, 0))), id, |attachments| % 256, Some(attachments))
  }

  method BuildPacketForPayload(payload: Payload, event: Option<Events.Event>, nsp: string, id: Option<nat>, isAck: bool)
    returns (packet: Packet)
    ensures packet == BuildPacket(payload, event, nsp, id, isAck)
  {
    var encoder := new PayloadEncoder();
    if event.Some? {
      encoder.data := encoder.data + [Json.String(Events.NameOf(event.value))];
    }
    encoder.ProcessPayload(payload);
    assert [] + Binaries(Parts(payload)) == Binaries(Parts(payload));
    assert encoder.data == EventElement(event) + Elements(Parts(payload), 0);
    var ptype;
    if encoder.attachments == [] {
      ptype := if isAck then Ack else Event;
    } else {
      ptype := if isAck then BinaryAck else BinaryEvent;
    }
    packet := Packet(ptype, nsp, Some(Json.Array(encoder.data)), id, |encoder.attachments| % 256, Some(encoder.attachments));
  }

  // Receiving

  /** One element of a binary message: a placeholder stands for the attachment with its number. */
  function DecodePart(value: Json.Value, attachments: Option<seq<bytes>>): Option<Part> {
    if Json.Get(value, PLACEHOLDER).None? then
      Some(JsonPart(value))
    else
      var num :- Json.Get(value, NUM);
      var atts :- attachments;
      if num.Number? && 0 <= num.n < |atts| then Some(BinaryPart(atts[num.n])) else None
  }

  function DecodeParts(values: seq<Json.Value>, attachments: Option<seq<bytes>>): Option<seq<Part>> {
    if values == [] then
      Some([])
    else
      var part :- DecodePart(values[0], attachments);
      var parts :- DecodeParts(values[1..], attachments);
      Some([part] + parts)
  }

  function SkipEvent(values: seq<Json.Value>, skipEvent: bool): seq<Json.Value> {
    if skipEvent && values != [] then values[1..] else values
  }

  /** The payload of a binary message. */
  function BinaryMessage(values: seq<Json.Value>, attachments: Option<seq<bytes>>, skipEvent: bool): Option<Payload> {
    var parts :- DecodeParts(SkipEvent(values, skipEvent), attachments);
    Some(Collapse(parts))
  }

  /** `decode_binary`: goes over the elements, collecting parts, and fails at the first bad placeholder. */
  method DecodeBinary(values: seq<Json.Value>, attachments: Option<seq<bytes>>, skipEvent: bool) returns (r: Option<Payload>)
    ensures r == BinaryMessage(values, attachments, skipEvent)
  {
    hide DecodePart, Json.Get;
    var vecPayload: seq<Part> := [];
    ghost var tail := SkipEvent(values, skipEvent);
    AfterNothing(DecodeParts(tail, attachments));
    for index := 0 to |values|
      invariant DecodeParts(tail, attachments) ==
                After(vecPayload, DecodeParts(if skipEvent && index == 0 then tail else values[index..], attachments))
    {
      if skipEvent && index == 0 {
        continue;
      }
      AfterStep(vecPayload, values[index..], attachments);
      assert values[index..][1..] == values[index + 1..];
      var part := DecodePart(values[index], attachments);
      if part.None? {
        return None;
      }
      vecPayload := vecPayload + [part.value];
    }
    assert DecodeParts(tail, attachments) == Some(vecPayload) by {
      assert vecPayload + [] == vecPayload;
    }
    if |vecPayload| == 1 {
      match vecPayload[0]
      case BinaryPart(data) => return Some(BinaryPayload(data));
      case JsonPart(value) => return Some(JsonPayload(value));
    }
    return Some(Multi(vecPayload));
  }

  /** The parts already collected in front of the parts still to come. */
  ghost function After(vec: seq<Part>, rest: Option<seq<Part>>): Option<seq<Part>> {
    match rest
    case Some(parts) => Some(vec + parts)
    case None => None
  }

  lemma AfterNothing(rest: Option<seq<Part>>)
    ensures After([], rest) == rest
  {
    if rest.Some? {
      assert [] + rest.value == rest.value;
    }
  }

  lemma AfterStep(vec: seq<Part>, values: seq<Json.Value>, attachments: Option<seq<bytes>>)
    requires values != []
    ensures After(vec, DecodeParts(values, attachments)) ==
            if DecodePart(values[0], attachments).None? then None
            else After(vec + [DecodePart(values[0], attachments).value], DecodeParts(values[1..], attachments))
  {
    hide DecodePart;
    if DecodePart(values[0], attachments).Some? && DecodeParts(values[1..], attachments).Some? {
      var part, parts := DecodePart(values[0], attachments).value, DecodeParts(values[1..], attachments).value;
      assert vec + ([part] + parts) == vec + [part] + parts;
    }
  }

  function JsonParts(values: seq<Json.Value>): (r: seq<Part>)
    ensures |r| == |values|
  {
    seq(|values|, i requires 0 <= i < |values| => JsonPart(values[i]))
  }

  /** The payload of a message without binary parts. */
  function EventMessage(data: Option<Json.Value>, skipEvent: bool): Option<Payload> {
    if data.None? || !data.value.Array? then None
    else
      var contents := data.value.items;
      if contents == [] then None
      else if |contents| == 1 then Some(JsonPayload(contents[0]))
      else if |contents| == 2 && skipEvent then Some(JsonPayload(contents[1]))
      else if |contents| == 2 then Some(Multi(JsonParts(contents)))
      else if skipEvent then Some(Multi(JsonParts(contents[1..])))
      else Some(Multi(JsonParts(contents)))
  }

  /** What handling a packet leads to. */
  datatype Delivery =
    | Call(event: Events.Event, payload: Option<Payload>, id: Option<nat>)
    | AckReply(ackId: nat, payload: Option<Payload>)
    | ConnectFailed
    | Nothing

  function FirstName(values: seq<Json.Value>): Events.Event {
    if values != [] && values[0].String? then Events.EventOf(values[0].s) else Events.Message
  }

  function HandleEvent(p: Packet): Delivery {
    if p.data.Some? && p.data.value.Array? then
      var contents := p.data.value.items;
      var event := if |contents| > 1 then FirstName(contents) else Events.Message;
      Call(event, EventMessage(p.data, true), p.id)
    else
      Nothing
  }

  function BinaryPayloadOf(p: Packet, skipEvent: bool): Option<Payload> {
    if p.data.Some? && p.data.value.Array? then BinaryMessage(p.data.value.items, p.attachments, skipEvent) else None
  }

  function HandleBinaryEvent(p: Packet): Delivery {
    var event :=
      if p.data.Some? && p.data.value.String? then Events.EventOf(p.data.value.s)
      else if p.data.Some? && p.data.value.Array? then FirstName(p.data.value.items)
      else Events.Message;
    Call(event, BinaryPayloadOf(p, true), p.id)
  }

  function HandleAck(p: Packet, isBinary: bool): Delivery {
    if p.id.None? then Nothing
    else AckReply(p.id.value, if isBinary then BinaryPayloadOf(p, false) else EventMessage(p.data, false))
  }

  /** What a socket of namespace `nsp` does with a packet. */
  function Dispatch(nsp: string, p: Packet): Delivery {
    if p.nsp != nsp then
      Nothing
    else
      match p.ptype
      case Ack => HandleAck(p, false)
      case BinaryAck => HandleAck(p, true)
      case Event => HandleEvent(p)
      case BinaryEvent => HandleBinaryEvent(p)
      case Connect => Call(Events.Connect, Some(JsonPayload(if p.data.Some? then p.data.value else Json.Null)), None)
      case Disconnect => Call(Events.Close, None, None)
      case ConnectError => ConnectFailed
  }

  function DispatchAll(nsp: string, ps: seq<Packet>): (r: seq<Delivery>)
    ensures |r| == |ps|
  {
    seq(|ps|, i requires 0 <= i < |ps| => Dispatch(nsp, ps[i]))
  }

  // What survives.

  /** No JSON part can be mistaken for a placeholder. */
  predicate PlaceholderFree(parts: seq<Part>) {
    forall i | 0 <= i < |parts| :: parts[i].JsonPart? ==> Json.Get(parts[i].value, PLACEHOLDER).None?
  }

  /** The numbers of the placeholders: each binary part gets the next one, and it is that part's index among the attachments. */
  lemma {:induction false} PlaceholdersInOrder(parts: seq<Part>, k: nat, i: nat)
    requires i < |parts|
    ensures var n := |Binaries(parts[..i])|;
            match parts[i]
            case BinaryPart(data) => n < |Binaries(parts)| && Elements(parts, k)[i] == PlaceHolder(k + n) && Binaries(parts)[n] == data
            case JsonPart(value) => Elements(parts, k)[i] == value
  {
    assert parts == parts[..i] + parts[i..];
    PartsConcat(parts[..i], parts[i..], k);
    assert Elements(parts, k)[i] == Elements(parts[i..], k + |Binaries(parts[..i])|)[0];
  }

  lemma PlaceHolderFields(num: nat)
    ensures Json.Get(PlaceHolder(num), PLACEHOLDER) == Some(Json.Bool(true))
    ensures Json.Get(PlaceHolder(num), NUM) == Some(Json.Number(num))
    ensures Json.Depth(PlaceHolder(num)) == 1
    ensures Json.IsInteger(num) ==> Json.WellFormed(PlaceHolder(num))
  {
    var fields := PlaceHolder(num).fields;
    assert fields[1..] == [Json.Field(NUM, Json.Number(num))];
    assert fields[1..][1..] == [];
    assert PLACEHOLDER[0] == '_' && NUM[0] == 'n';
    assert Json.Lookup(fields[1..], NUM) == Some(Json.Number(num));
    assert Json.Less(PLACEHOLDER, NUM);
    assert Json.FieldsDepth(fields[1..][1..]) == 0;
    assert Json.Depth(fields[1..][0].value) == 0;
    assert Json.FieldsDepth(fields) == 0;
    assert Json.SortedKeys(fields);
  }

  /** Decoding the elements against the attachments gives the parts back exactly when none of them looks like a placeholder. */
  lemma {:induction false} PartsRoundTrip(parts: seq<Part>, before: seq<bytes>)
    ensures DecodeParts(Elements(parts, |before|), Some(before + Binaries(parts))) == Some(parts) <==> PlaceholderFree(parts)
  {
    hide DecodePart;
    if parts != [] {
      var k := |before|;
      var atts := before + Binaries(parts);
      var elements := Elements(parts, k);
      if parts[0].BinaryPart? {
        assert atts == before + [parts[0].data] + Binaries(parts[1..]);
        PartsRoundTrip(parts[1..], before + [parts[0].data]);
        assert atts[k] == parts[0].data;
        DecodePlaceHolder(k, Some(atts));
      } else {
        PartsRoundTrip(parts[1..], before);
        DecodeJson(parts[0].value, Some(atts));
      }
      if DecodePart(elements[0], Some(atts)).Some? && DecodeParts(elements[1..], Some(atts)).Some? {
        ConsParts(DecodePart(elements[0], Some(atts)).value, DecodeParts(elements[1..], Some(atts)).value, parts);
      }
      PlaceholderFreeStep(parts);
    }
  }

  lemma ConsParts(part: Part, rest: seq<Part>, parts: seq<Part>)
    requires parts != []
    ensures [part] + rest == parts <==> part == parts[0] && rest == parts[1..]
  {
    assert ([part] + rest)[1..] == rest;
    assert parts == [parts[0]] + parts[1..];
  }

  lemma PlaceholderFreeStep(parts: seq<Part>)
    requires parts != []
    ensures PlaceholderFree(parts) <==>
            (parts[0].JsonPart? ==> Json.Get(parts[0].value, PLACEHOLDER).None?) && PlaceholderFree(parts[1..])
  {
    assert forall i | 1 <= i < |parts| :: parts[i] == parts[1..][i - 1];
    assert forall i | 0 <= i < |parts[1..]| :: parts[1..][i] == parts[i + 1];
  }

  lemma DecodePlaceHolder(num: nat, attachments: Option<seq<bytes>>)
    ensures DecodePart(PlaceHolder(num), attachments) ==
            if attachments.Some? && num < |attachments.value| then Some(BinaryPart(attachments.value[num])) else None
  {
    PlaceHolderFields(num);
  }

  lemma DecodeJson(value: Json.Value, attachments: Option<seq<bytes>>)
    ensures DecodePart(value, attachments) == Some(JsonPart(value)) <==> Json.Get(value, PLACEHOLDER).None?
  {
  }

  /** With attachments missing at the end, some placeholder has no attachment, and the whole payload is lost. */
  lemma {:induction false} MissingAttachments(parts: seq<Part>, k: nat, attachments: Option<seq<bytes>>)
    requires Binaries(parts) != []
    requires attachments.Some? ==> |attachments.value| < k + |Binaries(parts)|
    ensures DecodeParts(Elements(parts, k), attachments).None?
  {
    hide DecodePart;
    if parts[0].BinaryPart? {
      DecodePlaceHolder(k, attachments);
      if Binaries(parts[1..]) != [] {
        MissingAttachments(parts[1..], k + 1, attachments);
      }
    } else {
      MissingAttachments(parts[1..], k, attachments);
    }
  }

  lemma {:induction false} WithoutBinaries(parts: seq<Part>, k: nat)
    requires Binaries(parts) == []
    ensures JsonParts(Elements(parts, k)) == parts
  {
    if parts != [] {
      WithoutBinaries(parts[1..], k);
      assert JsonParts(Elements(parts, k)) == [parts[0]] + JsonParts(Elements(parts[1..], k));
    }
  }

  /** The list of attachments a receiver holds after reading `count` of them: none at all if the count is zero. */
  function Received(p: Packet): Packet
    requires p.attachments.Some? && p.count <= |p.attachments.value|
  {
    p.(attachments := if p.count > 0 then Some(p.attachments.value[..p.count]) else None)
  }

  /** What the parts of a payload must fulfil to be delivered as they were. */
  predicate Deliverable(parts: seq<Part>) {
    parts != [] && (Binaries(parts) != [] ==> |Binaries(parts)| <= 255 && PlaceholderFree(parts))
  }

  lemma NoPartsNoBinaries(parts: seq<Part>)
    requires Binaries(parts) != []
    ensures parts != []
  {
  }

  lemma BinaryDelivered(event: Option<Events.Event>, parts: seq<Part>)
    requires Binaries(parts) != []
    ensures var n := |Binaries(parts)| % 256;
            var attachments := if n > 0 then Some(Binaries(parts)[..n]) else None;
            BinaryMessage(EventElement(event) + Elements(parts, 0), attachments, event.Some?) == Some(Collapse(parts)) <==>
            Deliverable(parts)
  {
    hide Binaries, Elements, DecodeParts, Collapse, PlaceholderFree;
    var all := Binaries(parts);
    var n := |all| % 256;
    var values := EventElement(event) + Elements(parts, 0);
    assert SkipEvent(values, event.Some?) == Elements(parts, 0);
    assert parts != [] by { NoPartsNoBinaries(parts); }
    if |all| > 255 {
      MissingAttachments(parts, 0, if n > 0 then Some(all[..n]) else None);
    } else {
      assert all[..n] == all && [] + all == all;
      PartsRoundTrip(parts, []);
      var decoded := DecodeParts(Elements(parts, 0), Some(all));
      if decoded.Some? {
        CollapseInjective(decoded.value, parts);
      }
    }
  }

  lemma CollapseInjective(a: seq<Part>, b: seq<Part>)
    ensures Collapse(a) == Collapse(b) <==> a == b
  {
    if |a| == 1 && |b| == 1 {
      assert a == [a[0]] && b == [b[0]];
    }
  }

  lemma JsonDelivered(event: Option<Events.Event>, parts: seq<Part>)
    requires Binaries(parts) == []
    ensures EventMessage(Some(Json.Array(EventElement(event) + Elements(parts, 0))), event.Some?) == Some(Collapse(parts)) <==>
            Deliverable(parts)
  {
    var values := EventElement(event) + Elements(parts, 0);
    WithoutBinaries(parts, 0);
    assert event.Some? ==> values[1..] == Elements(parts, 0);
    assert event.None? ==> values == Elements(parts, 0);
    if |parts| == 1 {
      PlaceholdersInOrder(parts, 0, 0);
      assert parts[..0] == [];
      assert JsonParts(Elements(parts, 0))[0] == parts[0];
    }
  }

  /**
   An emitted event reaches the handler of the same event with the same payload
   and id exactly when the event is recognised by its name and the payload is
   deliverable: not empty, at most 255 binary parts, and, if there are any, no
   JSON part that looks like a placeholder.
   */
  lemma EventDelivered(event: Events.Event, payload: Payload, nsp: string, id: Option<nat>)
    ensures var p := BuildPacket(payload, Some(event), nsp, id, false);
            Dispatch(nsp, Received(p)) == Call(event, Some(Collapse(Parts(payload))), id) <==>
            Deliverable(Parts(payload)) && Events.EventOf(Events.NameOf(event)) == event
  {
    var parts := Parts(payload);
    var p := BuildPacket(payload, Some(event), nsp, id, false);
    var values := p.data.value.items;
    assert values[0] == Json.String(Events.NameOf(event)) && |values| == 1 + |parts|;
    if Binaries(parts) == [] {
      JsonDelivered(Some(event), parts);
    } else {
      BinaryDelivered(Some(event), parts);
    }
  }

  /** An acknowledgement reaches the waiting callback with the same payload exactly when the payload is deliverable. */
  lemma AckDelivered(payload: Payload, nsp: string, id: nat)
    ensures var p := BuildPacket(payload, None, nsp, Some(id), true);
            Dispatch(nsp, Received(p)) == AckReply(id, Some(Collapse(Parts(payload)))) <==> Deliverable(Parts(payload))
  {
    var parts := Parts(payload);
    if Binaries(parts) == [] {
      JsonDelivered(None, parts);
    } else {
      BinaryDelivered(None, parts);
    }
  }

  /** On elements that are not placeholders, both payload decoders agree exactly when there is something besides the event. */
  lemma DecodersAgree(values: seq<Json.Value>, attachments: Option<seq<bytes>>, skipEvent: bool)
    requires forall i | 0 <= i < |values| :: Json.Get(values[i], PLACEHOLDER).None?
    ensures EventMessage(Some(Json.Array(values)), skipEvent) == BinaryMessage(values, attachments, skipEvent) <==>
            |values| >= if skipEvent then 2 else 1
  {
    var tail := SkipEvent(values, skipEvent);
    PlainParts(tail, attachments);
    if |tail| == 1 {
      assert JsonParts(tail) == [JsonPart(tail[0])];
    }
  }

  lemma {:induction false} PlainParts(values: seq<Json.Value>, attachments: Option<seq<bytes>>)
    requires forall i | 0 <= i < |values| :: Json.Get(values[i], PLACEHOLDER).None?
    ensures DecodeParts(values, attachments) == Some(JsonParts(values))
  {
    hide Json.Get;
    if values != [] {
      PlainParts(values[1..], attachments);
      assert JsonParts(values) == [JsonPart(values[0])] + JsonParts(values[1..]);
    }
  }

  /** Only the right attachments give the parts back. */
  lemma {:induction false} AttachmentsNeeded(parts: seq<Part>, k: nat, attachments: seq<bytes>)
    requires DecodeParts(Elements(parts, k), Some(attachments)) == Some(parts)
    ensures k + |Binaries(parts)| <= |attachments| || Binaries(parts) == []
    ensures forall i | 0 <= i < |Binaries(parts)| :: k + i < |attachments| && attachments[k + i] == Binaries(parts)[i]
  {
    hide DecodePart;
    if parts != [] {
      var elements := Elements(parts, k);
      ConsParts(DecodePart(elements[0], Some(attachments)).value, DecodeParts(elements[1..], Some(attachments)).value, parts);
      if parts[0].BinaryPart? {
        DecodePlaceHolder(k, Some(attachments));
        AttachmentsNeeded(parts[1..], k + 1, attachments);
        forall i | 0 <= i < |Binaries(parts)|
          ensures k + i < |attachments| && attachments[k + i] == Binaries(parts)[i]
        {
          assert i > 0 ==> Binaries(parts)[i] == Binaries(parts[1..])[i - 1] == attachments[k + 1 + (i - 1)];
        }
      } else {
        AttachmentsNeeded(parts[1..], k, attachments);
      }
    }
  }

  /** A wrong attachment never goes unnoticed: the payload delivered, if any, is another one. */
  lemma WrongAttachment(event: Option<Events.Event>, parts: seq<Part>, attachments: seq<bytes>, j: nat)
    requires j < |Binaries(parts)| && j < |attachments| && attachments[j] != Binaries(parts)[j]
    ensures BinaryMessage(EventElement(event) + Elements(parts, 0), Some(attachments), event.Some?) != Some(Collapse(parts))
  {
    hide DecodeParts, Elements, Binaries, Collapse;
    var values := EventElement(event) + Elements(parts, 0);
    assert SkipEvent(values, event.Some?) == Elements(parts, 0);
    var decoded := DecodeParts(Elements(parts, 0), Some(attachments));
    if decoded.Some? {
      CollapseInjective(decoded.value, parts);
      if decoded.value == parts {
        AttachmentsNeeded(parts, 0, attachments);
      }
    }
  }

  // What the handlers are called with, for packets of any peer.

  /**
   The call for an event packet, by the length of its array: a single element is the
   payload of a message event; otherwise the first one names the event, or is passed
   over as a message event if it is no string, and the rest is the payload.
   */
  lemma EventCall(p: Packet, values: seq<Json.Value>)
    requires p.ptype.Event? && p.data == Some(Json.Array(values))
    ensures |values| == 0 ==> Dispatch(p.nsp, p) == Call(Events.Message, None, p.id)
    ensures |values| == 1 ==> Dispatch(p.nsp, p) == Call(Events.Message, Some(JsonPayload(values[0])), p.id)
    ensures |values| == 2 && values[0].String? ==>
              Dispatch(p.nsp, p) == Call(Events.EventOf(values[0].s), Some(JsonPayload(values[1])), p.id)
    ensures |values| == 2 && !values[0].String? ==> Dispatch(p.nsp, p) == Call(Events.Message, Some(JsonPayload(values[1])), p.id)
    ensures |values| > 2 ==>
              exists parts: seq<Part> ::
                && |parts| == |values| - 1 && (forall i | 0 <= i < |parts| :: parts[i] == JsonPart(values[i + 1]))
                && Dispatch(p.nsp, p) == Call(if values[0].String? then Events.EventOf(values[0].s) else Events.Message, Some(Multi(parts)), p.id)
  {
    hide Events.EventOf;
    if |values| > 2 {
      var parts := JsonParts(values[1..]);
      assert forall i | 0 <= i < |parts| :: parts[i] == JsonPart(values[i + 1]);
      assert Dispatch(p.nsp, p) == Call(if values[0].String? then Events.EventOf(values[0].s) else Events.Message, Some(Multi(parts)), p.id);
    }
  }

  /** The reply for an acknowledgement packet, by the length of its array. */
  lemma AckCall(p: Packet, values: seq<Json.Value>)
    requires p.ptype.Ack? && p.id.Some? && p.data == Some(Json.Array(values))
    ensures |values| == 0 ==> Dispatch(p.nsp, p) == AckReply(p.id.value, None)
    ensures |values| == 1 ==> Dispatch(p.nsp, p) == AckReply(p.id.value, Some(JsonPayload(values[0])))
    ensures |values| > 1 ==>
              exists parts: seq<Part> ::
                && |parts| == |values| && (forall i | 0 <= i < |parts| :: parts[i] == JsonPart(values[i]))
                && Dispatch(p.nsp, p) == AckReply(p.id.value, Some(Multi(parts)))
  {
    if |values| > 1 {
      var parts := JsonParts(values);
      assert forall i | 0 <= i < |parts| :: parts[i] == JsonPart(values[i]);
      assert Dispatch(p.nsp, p) == AckReply(p.id.value, Some(Multi(parts)));
    }
  }

  /** The calls for the other packets, and that packets of another namespace and acknowledgements without an id lead to none. */
  lemma OtherCalls(nsp: string, p: Packet)
    ensures p.nsp != nsp ==> Dispatch(nsp, p) == Nothing
    ensures p.nsp == nsp && p.ptype.Connect? ==>
              Dispatch(nsp, p) == Call(Events.Connect, Some(JsonPayload(if p.data.Some? then p.data.value else Json.Null)), None)
    ensures p.nsp == nsp && p.ptype.Disconnect? ==> Dispatch(nsp, p) == Call(Events.Close, None, None)
    ensures p.nsp == nsp && p.ptype.ConnectError? ==> Dispatch(nsp, p) == ConnectFailed
    ensures (p.ptype.Ack? || p.ptype.BinaryAck?) && p.id.None? ==> Dispatch(nsp, p) == Nothing
    ensures p.ptype.Event? && (p.data.None? || !p.data.value.Array?) ==> Dispatch(nsp, p) == Nothing
  {
  }

  /**
   One element of a binary message: without a placeholder field it is itself; with one,
   it is the attachment whose number is in the field `num`, and anything else is rejected.
   */
  lemma ElementDecoded(value: Json.Value, attachments: seq<bytes>)
    ensures Json.Get(value, "_placeholder").None? ==>
              DecodePart(value, Some(attachments)) == Some(JsonPart(value)) && DecodePart(value, None) == Some(JsonPart(value))
    ensures Json.Get(value, "_placeholder").Some? ==> DecodePart(value, None) == None
    ensures Json.Get(value, "_placeholder").Some? && Json.Get(value, "num").Some? &&
            Json.Get(value, "num").value.Number? && 0 <= Json.Get(value, "num").value.n < |attachments| ==>
              DecodePart(value, Some(attachments)) == Some(BinaryPart(attachments[Json.Get(value, "num").value.n]))
    ensures Json.Get(value, "_placeholder").Some? && (Json.Get(value, "num").None? || !Json.Get(value, "num").value.Number? ||
            Json.Get(value, "num").value.n < 0 || Json.Get(value, "num").value.n >= |attachments|) ==>
              DecodePart(value, Some(attachments)) == None
  {
    hide Json.Get;
  }

  /** The packet for a single binary part: the data is its only attachment, and the element is the placeholder number 0. */
  lemma BinaryPacket(event: Events.Event, data: bytes, nsp: string, id: Option<nat>)
    ensures BuildPacket(BinaryPayload(data), Some(event), nsp, id, false) ==
            Packet(BinaryEvent, nsp,
                   Some(Json.Array([Json.String(Events.NameOf(event)),
                                    Json.Object([Json.Field("_placeholder", Json.Bool(true)), Json.Field("num", Json.Number(0))])])),
                   id, 1, Some([data]))
  {
    OnePart(BinaryPart(data), 0);
    assert Binaries([BinaryPart(data)]) == [data] && Elements([BinaryPart(data)], 0) == [PlaceHolder(0)];
    assert EventElement(Some(event)) + [PlaceHolder(0)] == [Json.String(Events.NameOf(event)), PlaceHolder(0)];
  }

  /** The packet for a JSON value: no attachments, and the value after the name of the event. */
  lemma JsonPacket(event: Events.Event, value: Json.Value, nsp: string, id: Option<nat>)
    ensures BuildPacket(JsonPayload(value), Some(event), nsp, id, false) ==
            Packet(Event, nsp, Some(Json.Array([Json.String(Events.NameOf(event)), value])), id, 0, Some([]))
  {
    OnePart(JsonPart(value), 0);
    assert Binaries([JsonPart(value)]) == [] && Elements([JsonPart(value)], 0) == [value];
    assert EventElement(Some(event)) + [value] == [Json.String(Events.NameOf(event)), value];
  }

  /** The call for a binary event: named by a string, by the first element if that is a string, or else a message; its payload is that of its array. */
  lemma BinaryEventCall(p: Packet)
    requires p.ptype.BinaryEvent?
    ensures p.data.None? ==> Dispatch(p.nsp, p) == Call(Events.Message, None, p.id)
    ensures p.data.Some? && p.data.value.String? ==> Dispatch(p.nsp, p) == Call(Events.EventOf(p.data.value.s), None, p.id)
    ensures p.data.Some? && !p.data.value.String? && !p.data.value.Array? ==> Dispatch(p.nsp, p) == Call(Events.Message, None, p.id)
    ensures p.data.Some? && p.data.value.Array? ==>
              var values := p.data.value.items;
              Dispatch(p.nsp, p) ==
              Call(if values != [] && values[0].String? then Events.EventOf(values[0].s) else Events.Message,
                   BinaryMessage(values, p.attachments, true), p.id)
  {
    hide Events.EventOf, BinaryMessage;
  }

  lemma BinaryAckCall(p: Packet)
    requires p.ptype.BinaryAck? && p.id.Some?
    ensures p.data.None? || !p.data.value.Array? ==> Dispatch(p.nsp, p) == AckReply(p.id.value, None)
    ensures p.data.Some? && p.data.value.Array? ==>
              Dispatch(p.nsp, p) == AckReply(p.id.value, BinaryMessage(p.data.value.items, p.attachments, false))
  {
    hide BinaryMessage;
  }

  /** One bad placeholder anywhere loses the whole payload. */
  lemma {:induction false} BadElement(values: seq<Json.Value>, attachments: Option<seq<bytes>>, i: nat)
    requires i < |values| && DecodePart(values[i], attachments).None?
    ensures DecodeParts(values, attachments).None?
    ensures BinaryMessage(values, attachments, false) == None
    ensures i > 0 ==> BinaryMessage(values, attachments, true) == None
  {
    hide DecodePart;
    if i > 0 {
      BadElement(values[1..], attachments, i - 1);
    }
  }
}

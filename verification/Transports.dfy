/**
 How each transport carries an Engine.IO packet: engineio/src/transports, and the
 conversion to `Data` in engineio/src/socket/socket.rs.
 */
module Transports {
  import opened Wrappers
  import opened Bytes
  import opened EnginePacket
  import Base64
  import Utf8

  datatype Data = Text(data: bytes) | Binary(data: bytes)

  /** What a WebSocket connection yields: frames, of which control frames carry nothing for Engine.IO, and errors. */
  datatype Frame = TextFrame(text: string) | BinaryFrame(data: bytes) | ControlFrame | BrokenFrame

  /** The transports that send every packet on its own: HTTP POST requests, and WebSocket frames. */
  datatype Channel = ClientPolling | Websocket

  /** What `emit` and `emit_multi` hand to the transport. */
  function DataOf(p: Packet): Data {
    if p.ptype.MessageBinary? then Binary(p.data) else Text(PacketBytes(p))
  }

  function PollingBody(d: Data): bytes {
    match d
    case Text(data) => data
    case Binary(data) => [BINARY_PREFIX] + Base64.Encode(data)
  }

  /** The body of a POST request, and the entry of the server's queue, for a piece of data. */
  method FillPollingBody(payload: Data) returns (body: bytes)
    ensures body == PollingBody(payload)
  {
    match payload
    case Text(data) =>
      body := data;
    case Binary(data) =>
      var buf: bytes := [];
      buf := buf + [BINARY_PREFIX];
      buf := buf + Base64.Encode(data);
      body := buf;
  }

  /** `Data` as a WebSocket frame; text must be UTF-8. */
  function FrameOf(d: Data): Option<Frame> {
    match d
    case Text(data) =>
      var text :- Utf8.Decode(data);
      Some(TextFrame(text))
    case Binary(data) => Some(BinaryFrame(data))
  }

  /** The bytes the receiving side makes of a frame that carries data. */
  function FrameBytes(f: Frame): bytes
    requires f.TextFrame? || f.BinaryFrame?
  {
    match f
    case TextFrame(text) => Utf8.Encode(text)
    case BinaryFrame(data) => [TypeNumber(Message)] + data
  }

  /** What comes out of a connection: byte strings, and errors of the connection. */
  datatype Item = Bytes(data: bytes) | Failure

  /** What the packet stream yields: packets, and the error that ends it. */
  datatype Outcome = Ended | Broken | Unreadable(error: Error)

  /** The packets of a connection up to its end or its first error. */
  function PacketStream(frames: seq<Frame>): (seq<Packet>, Outcome) {
    if frames == [] then ([], Ended)
    else match frames[0]
      case ControlFrame => PacketStream(frames[1..])
      case BrokenFrame => ([], Broken)
      case TextFrame(text) => After(PayloadOf(Utf8.Encode(text)), PacketStream(frames[1..]))
      case BinaryFrame(data) => After(PayloadOf(FrameBytes(frames[0])), PacketStream(frames[1..]))
  }

  function After(first: Result<seq<Packet>, Error>, rest: (seq<Packet>, Outcome)): (seq<Packet>, Outcome) {
    match first
    case Ok(ps) => (ps + rest.0, rest.1)
    case Err(e) => ([], Unreadable(e))
  }

  /** `item` is that of the first frame that is no control frame, and `after` what follows it. */
  predicate IsNext(before: seq<Frame>, item: Item, after: seq<Frame>)
    requires |after| < |before|
  {
    var k := |before| - |after| - 1;
    && after == before[k + 1..]
    && (forall j | 0 <= j < k :: before[j].ControlFrame?)
    && match before[k]
       case TextFrame(text) => item == Bytes(Utf8.Encode(text))
       case BinaryFrame(data) => item == Bytes([4] + data)
       case BrokenFrame => item == Failure
       case ControlFrame => false
  }

  class WebsocketReceiver {
    var frames: seq<Frame>

    constructor (incoming: seq<Frame>)
      ensures frames == incoming
    {
      frames := incoming;
    }

    /**
     The next byte string or error: that of the first frame that is no control frame,
     with the byte 4 in front of binary data; `None` when the connection has ended.
     */
    method PollNext() returns (item: Option<Item>)
      modifies this
      ensures item.None? ==> frames == [] && forall f <- old(frames) :: f.ControlFrame?
      ensures item.Some? ==> |frames| < |old(frames)| && IsNext(old(frames), item.value, frames)
      ensures item.None? ==> PacketStream(old(frames)) == ([], Ended)
      ensures item.Some? && item.value.Failure? ==> PacketStream(old(frames)) == ([], Broken)
      ensures item.Some? && item.value.Bytes? ==>
                PacketStream(old(frames)) == After(PayloadOf(item.value.data), PacketStream(frames))
    {
      hide PayloadOf;
      ghost var all := frames;
      while frames != []
        invariant |frames| <= |all| && frames == all[|all| - |frames|..]
        invariant forall j | 0 <= j < |all| - |frames| :: all[j].ControlFrame?
        invariant PacketStream(frames) == PacketStream(all)
        decreases |frames|
      {
        var next := frames[0];
        frames := frames[1..];
        match next
        case TextFrame(text) =>
          return Some(Bytes(Utf8.Encode(text)));
        case BinaryFrame(data) =>
          var msg: bytes := [];
          msg := msg + [TypeNumber(Message)];
          msg := msg + data;
          assert msg == [TypeNumber(Message)] + data;
          return Some(Bytes(msg));
        case ControlFrame =>
        case BrokenFrame =>
          return Some(Failure);
      }
      return None;
    }

    /** The socket's stream over this transport: reads each byte string as a payload, up to the first error. */
    method Packets() returns (packets: seq<Packet>, outcome: Outcome)
      modifies this
      ensures (packets, outcome) == PacketStream(old(frames))
    {
      hide PayloadOf, PacketStream, IsNext;
      packets := [];
      ghost var all := frames;
      assert [] + PacketStream(all).0 == PacketStream(all).0;
      while true
        invariant PacketStream(all) == (packets + PacketStream(frames).0, PacketStream(frames).1)
        decreases |frames|
      {
        var item := PollNext();
        if item.None? {
          assert packets + [] == packets;
          return packets, Ended;
        }
        if item.value.Failure? {
          assert packets + [] == packets;
          return packets, Broken;
        }
        var payload := PayloadOf(item.value.data);
        if payload.Err? {
          assert packets + [] == packets;
          return packets, Unreadable(payload.error);
        }
        assert packets + (payload.value + PacketStream(frames).0) == packets + payload.value + PacketStream(frames).0;
        packets := packets + payload.value;
      }
    }
  }

  /** What goes over a WebSocket connection: packets, control frames, and an error that breaks it. */
  datatype Sent = SentPacket(packet: Packet) | SentControl | SentError

  predicate AllSendable(sent: seq<Sent>) {
    forall s <- sent :: s.SentPacket? ==> Carriable(Websocket, s.packet)
  }

  /** The packets sent before the connection breaks, if it does. */
  function BeforeError(sent: seq<Sent>): seq<Packet> {
    if sent == [] || sent[0].SentError? then []
    else (if sent[0].SentPacket? then [sent[0].packet] else []) + BeforeError(sent[1..])
  }

  /** The frames of what is sent: text packets as text frames, attachments as binary frames. */
  function FramesOf(sent: seq<Sent>): (frames: seq<Frame>)
    requires AllSendable(sent)
    ensures |frames| == |sent|
  {
    seq(|sent|, i requires 0 <= i < |sent| =>
      match sent[i]
      case SentPacket(p) => SendableFrame(p); FrameOf(DataOf(p)).value
      case SentControl => ControlFrame
      case SentError => BrokenFrame)
  }

  lemma SendableFrame(p: Packet)
    requires Carriable(Websocket, p)
    ensures FrameOf(DataOf(p)).Some?
  {
    hide PacketBytes, Utf8.Decode;
    if !p.ptype.MessageBinary? {
      TextPacketUtf8(p);
    }
  }

  lemma FramesStep(sent: seq<Sent>)
    requires sent != [] && AllSendable(sent)
    ensures AllSendable(sent[1..]) && FramesOf(sent)[1..] == FramesOf(sent[1..])
    ensures sent[0].SentControl? ==> FramesOf(sent)[0] == ControlFrame
    ensures sent[0].SentError? ==> FramesOf(sent)[0] == BrokenFrame
    ensures sent[0].SentPacket? ==>
              && Carriable(Websocket, sent[0].packet) && FrameOf(DataOf(sent[0].packet)) == Some(FramesOf(sent)[0])
  {
    hide FrameOf, DataOf, Carriable;
    if sent[0].SentPacket? {
      assert sent[0] in sent;
      SendableFrame(sent[0].packet);
    }
  }

  function AllArrived(ps: seq<Packet>): (r: seq<Packet>)
    ensures |r| == |ps|
  {
    seq(|ps|, i requires 0 <= i < |ps| => Arrived(Websocket, ps[i]))
  }

  predicate Breaks(sent: seq<Sent>) {
    exists s <- sent :: s.SentError?
  }

  lemma BreaksStep(sent: seq<Sent>)
    requires sent != []
    ensures Breaks(sent) <==> sent[0].SentError? || Breaks(sent[1..])
  {
    assert sent == [sent[0]] + sent[1..];
    assert forall s <- sent[1..] :: s in sent;
  }

  lemma NeverBreaks()
    ensures !Breaks([])
  {
  }

  lemma {:induction false} StreamOfSent(sent: seq<Sent>)
    requires AllSendable(sent)
    ensures PacketStream(FramesOf(sent)) ==
            (AllArrived(BeforeError(sent)), if Breaks(sent) then Broken else Ended)
  {
    hide FrameOf, FrameBytes, DataOf, PayloadOf, Carriable, Utf8.Encode, FramesOf, Arrived, Breaks;
    if sent == [] {
      NeverBreaks();
    } else {
      var rest := sent[1..];
      FramesStep(sent);
      BreaksStep(sent);
      assert sent == [sent[0]] + rest;
      StreamOfSent(rest);
      assert [] + BeforeError(rest) == BeforeError(rest);
      if sent[0].SentPacket? {
        FrameRead(sent[0].packet);
        assert AllArrived(BeforeError(sent)) == [Arrived(Websocket, sent[0].packet)] + AllArrived(BeforeError(rest));
      }
    }
  }

  /**
   From the frames to the packets: whatever packets that are carriable are sent over a
   WebSocket, with any control frames in between, exactly they come out, one each and in
   order, attachments as messages with the same data; an error comes out at its place.
   */
  lemma PacketsComeOut(sent: seq<Sent>)
    requires AllSendable(sent)
    ensures var (packets, outcome) := PacketStream(FramesOf(sent));
            var ps := BeforeError(sent);
            && |packets| == |ps|
            && (forall i | 0 <= i < |ps| ::
                  packets[i] == if ps[i].ptype.MessageBinary? then Packet(Message, ps[i].data) else ps[i])
            && outcome == if exists s <- sent :: s.SentError? then Broken else Ended
  {
    hide PacketStream, FramesOf, BeforeError;
    StreamOfSent(sent);
  }

  lemma FrameRead(p: Packet)
    requires Carriable(Websocket, p) && FrameOf(DataOf(p)).Some?
    ensures var f := FrameOf(DataOf(p)).value;
            && (f.TextFrame? || f.BinaryFrame?)
            && (f.TextFrame? ==> FrameBytes(f) == Utf8.Encode(f.text))
            && PayloadOf(FrameBytes(f)) == Ok([Arrived(Websocket, p)])
  {
    hide PayloadOf, Carriable, Utf8.Encode, Utf8.Decode, PacketBytes;
    CarriedExactly(Websocket, p);
  }

  /** The packets the other side reads from the one request or frame that carries `p`; `None` if it cannot be sent or read. */
  function Carried(channel: Channel, p: Packet): Option<seq<Packet>> {
    match channel
    case ClientPolling => Read(PollingBody(DataOf(p)))
    case Websocket =>
      var frame :- FrameOf(DataOf(p));
      Read(FrameBytes(frame))
  }

  function Read(b: bytes): Option<seq<Packet>> {
    match PayloadOf(b)
    case Ok(ps) => Some(ps)
    case Err(_) => None
  }

  /** What a packet looks like on arrival: a WebSocket drops the difference between binary and text messages. */
  function Arrived(channel: Channel, p: Packet): Packet {
    if channel.Websocket? && p.ptype.MessageBinary? then Packet(Message, p.data) else p
  }

  /** The packets a transport carries unharmed. */
  predicate Carriable(channel: Channel, p: Packet) {
    match channel
    case ClientPolling => Framable(p)
    case Websocket => Framable(Arrived(channel, p)) && (p.ptype.MessageBinary? || Utf8.Decode(p.data).Some?)
  }

  lemma PollingBodyIsPacket(p: Packet)
    ensures PollingBody(DataOf(p)) == PacketBytes(p)
  {
  }

  lemma SinglePacket(p: Packet)
    ensures Read(PacketBytes(p)) == Some([p]) <==> Framable(p)
  {
    hide PacketBytes, PayloadOf;
    PayloadRoundTrip([p]);
    assert EncodeAll([p]) == [PacketBytes(p)];
  }

  lemma WebsocketBinary(data: bytes)
    ensures Read([TypeNumber(Message)] + data) == Some([Packet(Message, data)]) <==> data != [] && SEPARATOR !in data
  {
    var b := [TypeNumber(Message)] + data;
    assert b[1..] == data;
    DecodeJoined([b], [Packet(Message, data)]);
    assert Join([b]) == b;
    assert PacketOf(b) == Ok(Packet(Message, data)) <==> data != [];
  }

  /** Text packets are UTF-8 exactly when their data is. */
  lemma TextPacketUtf8(p: Packet)
    requires !p.ptype.MessageBinary?
    ensures Utf8.Decode(PacketBytes(p)).Some? <==> Utf8.Decode(p.data).Some?
    ensures Utf8.Decode(PacketBytes(p)).Some? ==> Utf8.Encode(Utf8.Decode(PacketBytes(p)).value) == PacketBytes(p)
  {
    TypeRoundTrip(p.ptype);
    var first := 0x30 + TypeNumber(p.ptype);
    assert PacketBytes(p) == [first] + p.data;
    AsciiFirst(first, p.data);
    if Utf8.Decode(PacketBytes(p)).Some? {
      Utf8.EncodeDecoded(PacketBytes(p));
    }
  }

  lemma AsciiFirst(first: byte, rest: bytes)
    requires first < 0x80
    ensures Utf8.Decode([first] + rest).Some? <==> Utf8.Decode(rest).Some?
  {
    assert ([first] + rest)[1..] == rest;
    assert Utf8.DecodeFirst([first] + rest) == Some(first as int as char);
  }

  /** A transport delivers a packet, in the form in which it arrives, exactly when the packet is carriable. */
  lemma CarriedExactly(channel: Channel, p: Packet)
    ensures Carried(channel, p) == Some([Arrived(channel, p)]) <==> Carriable(channel, p)
  {
    hide PacketBytes, Utf8.Decode, Utf8.Encode, PayloadOf;
    if channel.ClientPolling? {
      PollingBodyIsPacket(p);
      SinglePacket(p);
    } else if p.ptype.MessageBinary? {
      WebsocketBinary(p.data);
    } else {
      TextPacketUtf8(p);
      SinglePacket(p);
    }
  }

  /** A binary frame that is not carriable is not read at all, or its first packet holds other data. */
  lemma LossyBinary(data: bytes)
    requires data == [] || SEPARATOR in data
    ensures var read := Carried(Websocket, Packet(MessageBinary, data));
            read.Some? ==> read.value != [] && read.value[0].data != data
  {
    hide Split, PacketOf, Read;
    var b := [TypeNumber(Message)] + data;
    FirstDecoded(b);
    FirstPartShort(data);
  }

  /** What the first part of such a frame decodes to: nothing for an empty one, otherwise only the data before the separator. */
  lemma FirstPartShort(data: bytes)
    requires data == [] || SEPARATOR in data
    ensures var first := PacketOf(Split([TypeNumber(Message)] + data)[0]);
            first.Ok? ==> |first.value.data| < |data|
  {
    hide Split;
    var b := [TypeNumber(Message)] + data;
    if data == [] {
      SplitPart(b, []);
    } else {
      var i := FirstSeparator(data);
      var first, rest := data[..i], data[i + 1..];
      assert b == ([TypeNumber(Message)] + first) + [SEPARATOR] + rest;
      SplitPart([TypeNumber(Message)] + first, rest);
      assert Split(b)[0][1..] == first && |first| < |data|;
    }
  }

  /** The first packet of a payload is that of its first part. */
  lemma FirstDecoded(b: bytes)
    ensures var read := Read(b);
            read.Some? ==> PacketOf(Split(b)[0]).Ok? && read.value != [] && read.value[0] == PacketOf(Split(b)[0]).value
  {
    hide Split, PacketOf;
  }

  lemma {:induction false} FirstSeparator(data: bytes) returns (i: nat)
    requires SEPARATOR in data
    ensures i < |data| && data[i] == SEPARATOR && SEPARATOR !in data[..i]
  {
    if data[0] == SEPARATOR {
      i := 0;
    } else {
      assert data == [data[0]] + data[1..];
      var k := FirstSeparator(data[1..]);
      i := k + 1;
      assert data[..i] == [data[0]] + data[1..][..k];
    }
  }
}

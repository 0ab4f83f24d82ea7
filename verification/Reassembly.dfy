/**
 Putting Socket.IO packets together again from Engine.IO packets:
 `stream` and `handle_engineio_packet` in socketio/src/socket.rs.
 */
module Reassembly {
  import opened Wrappers
  import opened Bytes
  import E = EnginePacket
  import S = SocketPacket

  datatype Error = BadPacket(error: S.Error) | InvalidAttachmentPacketType(number: byte)

  /** The receiver between two Engine.IO packets. */
  datatype Receiver =
    | Idle
    | Collecting(header: S.Packet, left: nat, attachments: seq<bytes>)
    | Failed(error: Error)

  predicate IsMessage(p: E.Packet) {
    p.ptype.Message? || p.ptype.MessageBinary?
  }

  /** One incoming Engine.IO packet: the receiver after it, and the Socket.IO packet it completes, if any. */
  function Step(r: Receiver, p: E.Packet): (Receiver, seq<S.Packet>) {
    match r
    case Idle =>
      if !IsMessage(p) then (Idle, [])
      else (match S.PacketOf(p.data)
            case Err(e) => (Failed(BadPacket(e)), [])
            case Ok(q) => if q.count > 0 then (Collecting(q, q.count, []), []) else (Idle, [q]))
    case Collecting(header, left, attachments) =>
      if !IsMessage(p) then (Failed(InvalidAttachmentPacketType(E.TypeNumber(p.ptype))), [])
      else if left <= 1 then (Idle, [header.(attachments := Some(attachments + [p.data]))])
      else (Collecting(header, left - 1, attachments + [p.data]), [])
    case Failed(_) => (r, [])
  }

  /** A run of incoming packets: the receiver at the end, and all packets completed on the way. */
  function Run(r: Receiver, ps: seq<E.Packet>): (Receiver, seq<S.Packet>)
    decreases |ps|
  {
    if ps == [] then (r, [])
    else
      var (r', out) := Step(r, ps[0]);
      var (r'', rest) := Run(r', ps[1..]);
      (r'', out + rest)
  }

  lemma {:induction false} RunConcat(r: Receiver, a: seq<E.Packet>, b: seq<E.Packet>)
    ensures var (r', out) := Run(r, a);
            var (r'', rest) := Run(r', b);
            Run(r, a + b) == (r'', out + rest)
    decreases |a|
  {
    hide Step;
    if a == [] {
      assert a + b == b;
      assert [] + Run(r, b).1 == Run(r, b).1;
    } else {
      var (r', out) := Step(r, a[0]);
      assert (a + b)[1..] == a[1..] + b;
      RunConcat(r', a[1..], b);
      var tail, rest := Run(r', a[1..]).1, Run(Run(r', a[1..]).0, b).1;
      assert out + (tail + rest) == out + tail + rest;
    }
  }

  lemma {:induction false} RunFailed(e: Error, ps: seq<E.Packet>)
    ensures Run(Failed(e), ps) == (Failed(e), [])
    decreases |ps|
  {
    if ps != [] {
      RunFailed(e, ps[1..]);
      var none: seq<S.Packet> := [];
      assert Step(Failed(e), ps[0]) == (Failed(e), none);
      assert none + none == none;
    }
  }

  /** The Engine.IO socket as the packets still to be received from it, and whether the stream ends after them. */
  class EngineClient {
    var incoming: seq<E.Packet>
    const ended: bool

    constructor (incoming: seq<E.Packet>, ended: bool)
      ensures this.incoming == incoming && this.ended == ended
    {
      this.incoming := incoming;
      this.ended := ended;
    }

    method Next() returns (p: Option<E.Packet>)
      modifies this
      ensures old(incoming) == [] ==> p == None && incoming == []
      ensures old(incoming) != [] ==> p == Some(old(incoming)[0]) && incoming == old(incoming)[1..]
    {
      if incoming == [] {
        return None;
      }
      p := Some(incoming[0]);
      incoming := incoming[1..];
    }
  }

  /** A complete packet, an error, not enough packets yet, or the panic over a stream that has ended inside a group. */
  datatype Outcome = Complete(packet: S.Packet) | Error(error: Error) | Pending(waiting: Receiver) | Panic(waiting: Receiver)

  /**
   Reads a header from a message and then as many attachments as it announces;
   the number of attachments left goes down with every packet.
   */
  method HandleEnginePacket(first: E.Packet, client: EngineClient) returns (outcome: Outcome)
    requires IsMessage(first)
    modifies client
    ensures |client.incoming| <= |old(client.incoming)|
    ensures var whole := Run(Idle, [first] + old(client.incoming));
            match outcome
            case Complete(q) => whole == (Run(Idle, client.incoming).0, [q] + Run(Idle, client.incoming).1)
            case Error(e) => whole == (Failed(e), [])
            case Pending(waiting) => whole == (waiting, []) && waiting.Collecting? && client.incoming == [] && !client.ended
            case Panic(waiting) => whole == (waiting, []) && waiting.Collecting? && client.incoming == [] && client.ended
  {
    hide S.PacketOf;
    ghost var all := old(client.incoming);
    RunCons(Idle, first, all);
    var decoded := S.PacketOf(first.data);
    if decoded.Err? {
      RunFailed(BadPacket(decoded.error), all);
      return Error(BadPacket(decoded.error));
    }
    var packet := decoded.value;
    if packet.count > 0 {
      var attachmentsLeft := packet.count;
      var attachments: seq<bytes> := [];
      while attachmentsLeft > 0
        invariant |client.incoming| <= |all|
        invariant Run(Idle, [first] + all) ==
                  if attachmentsLeft > 0 then Run(Collecting(packet, attachmentsLeft, attachments), client.incoming)
                  else (Run(Idle, client.incoming).0,
                        [packet.(attachments := Some(attachments))] + Run(Idle, client.incoming).1)
        decreases attachmentsLeft
      {
        ghost var left := client.incoming;
        var next := client.Next();
        if next.None? {
          var waiting := Collecting(packet, attachmentsLeft, attachments);
          return if client.ended then Panic(waiting) else Pending(waiting);
        }
        assert left == [next.value] + client.incoming;
        RunCons(Collecting(packet, attachmentsLeft, attachments), next.value, client.incoming);
        if !IsMessage(next.value) {
          var e := InvalidAttachmentPacketType(E.TypeNumber(next.value.ptype));
          RunFailed(e, client.incoming);
          return Error(e);
        }
        attachments := attachments + [next.value.data];
        attachmentsLeft := attachmentsLeft - 1;
      }
      packet := packet.(attachments := Some(attachments));
    }
    return Complete(packet);
  }

  lemma RunCons(r: Receiver, p: E.Packet, ps: seq<E.Packet>)
    ensures Run(r, [p] + ps) == (Run(Step(r, p).0, ps).0, Step(r, p).1 + Run(Step(r, p).0, ps).1)
    ensures Step(r, p).1 == [] ==> Run(r, [p] + ps) == Run(Step(r, p).0, ps)
  {
    hide Step;
    assert ([p] + ps)[1..] == ps;
    assert [] + Run(Step(r, p).0, ps).1 == Run(Step(r, p).0, ps).1;
  }

  /** The whole stream: packets that are not messages are passed over; it panics exactly if it ends inside a group. */
  method ReceiveAll(client: EngineClient) returns (receiver: Receiver, packets: seq<S.Packet>, panicked: bool)
    modifies client
    ensures (receiver, packets) == Run(Idle, old(client.incoming))
    ensures panicked <==> client.ended && receiver.Collecting?
  {
    hide Step;
    packets := [];
    ghost var all := client.incoming;
    assert [] + Run(Idle, all).1 == Run(Idle, all).1;
    while true
      invariant Run(Idle, all) == (Run(Idle, client.incoming).0, packets + Run(Idle, client.incoming).1)
      decreases |client.incoming|
    {
      ghost var left := client.incoming;
      var next := client.Next();
      if next.None? {
        assert packets + [] == packets;
        return Idle, packets, false;
      }
      assert left == [next.value] + client.incoming;
      if IsMessage(next.value) {
        var outcome := HandleEnginePacket(next.value, client);
        match outcome
        case Complete(q) =>
          assert packets + ([q] + Run(Idle, client.incoming).1) == packets + [q] + Run(Idle, client.incoming).1;
          packets := packets + [q];
        case Error(e) =>
          assert packets + [] == packets;
          return Failed(e), packets, false;
        case Pending(waiting) =>
          assert packets + [] == packets;
          return waiting, packets, false;
        case Panic(waiting) =>
          assert packets + [] == packets;
          return waiting, packets, true;
      } else {
        RunCons(Idle, next.value, client.incoming);
        StepControl(next.value);
      }
    }
  }

  lemma StepControl(p: E.Packet)
    requires !IsMessage(p)
    ensures Step(Idle, p) == (Idle, [])
  {
  }

  // What senders put on the wire: packets with their attachments, and packets that are no messages.

  datatype Segment = Control(control: E.Packet) | Group(group: seq<E.Packet>, packet: S.Packet)

  /** A header followed by exactly the attachments it announces, all of them messages. */
  predicate IsGroupOf(g: seq<E.Packet>, p: S.Packet) {
    && p.attachments == (if p.count > 0 then p.attachments else None)
    && (p.count > 0 ==> p.attachments.Some? && |p.attachments.value| == p.count)
    && |g| == 1 + p.count
    && (forall i | 0 <= i < |g| :: IsMessage(g[i]))
    && S.PacketOf(g[0].data) == Ok(S.Strip(p))
    && (forall i | 0 <= i < p.count :: g[i + 1].data == p.attachments.value[i])
  }

  predicate Sound(s: Segment) {
    match s
    case Control(p) => !IsMessage(p)
    case Group(g, p) => IsGroupOf(g, p)
  }

  function Wire(s: Segment): seq<E.Packet> {
    match s
    case Control(p) => [p]
    case Group(g, _) => g
  }

  function WireOf(segments: seq<Segment>): seq<E.Packet> {
    if segments == [] then [] else Wire(segments[0]) + WireOf(segments[1..])
  }

  function PacketsOf(segments: seq<Segment>): seq<S.Packet> {
    if segments == [] then []
    else (if segments[0].Group? then [segments[0].packet] else []) + PacketsOf(segments[1..])
  }

  /** Reading `n` of the attachments of a header. */
  lemma {:induction false} CollectPrefix(header: S.Packet, datas: seq<bytes>, ps: seq<E.Packet>, done: nat, n: nat)
    requires done <= n <= |datas| && |ps| == n - done && done < |datas|
    requires forall i | 0 <= i < |ps| :: IsMessage(ps[i]) && ps[i].data == datas[done + i]
    ensures Run(Collecting(header, |datas| - done, datas[..done]), ps) ==
            if n < |datas| then (Collecting(header, |datas| - n, datas[..n]), [])
            else (Idle, [header.(attachments := Some(datas))])
    decreases |ps|
  {
    if ps != [] {
      assert datas[..done] + [ps[0].data] == datas[..done + 1];
      assert ps == [ps[0]] + ps[1..];
      RunCons(Collecting(header, |datas| - done, datas[..done]), ps[0], ps[1..]);
      if done + 1 < |datas| {
        CollectPrefix(header, datas, ps[1..], done + 1, n);
      } else {
        assert datas[..done + 1] == datas && ps[1..] == [];
        assert [header.(attachments := Some(datas))] + [] == [header.(attachments := Some(datas))];
      }
    }
  }

  /** A whole group gives its packet; a proper part of one leaves the receiver waiting, without an error. */
  lemma GroupReceived(g: seq<E.Packet>, p: S.Packet, n: nat)
    requires IsGroupOf(g, p) && n <= |g|
    ensures n == |g| ==> Run(Idle, g[..n]) == (Idle, [p])
    ensures n < |g| ==> Run(Idle, g[..n]).1 == [] && !Run(Idle, g[..n]).0.Failed?
  {
    hide S.PacketOf;
    if n > 0 {
      var ps := g[1..n];
      assert g[..n] == [g[0]] + ps;
      RunCons(Idle, g[0], ps);
      if p.count > 0 {
        CollectPrefix(S.Strip(p), p.attachments.value, ps, 0, n - 1);
        assert p.attachments.value[..0] == [];
        assert S.Strip(p).(attachments := p.attachments) == p;
      } else {
        assert ps == [] && [p] + [] == [p];
      }
    }
  }

  lemma SegmentReceived(s: Segment)
    requires Sound(s)
    ensures Run(Idle, Wire(s)) == (Idle, if s.Group? then [s.packet] else [])
  {
    match s
    case Control(p) =>
      assert Wire(s) == [p] + [];
      RunCons(Idle, p, []);
    case Group(g, p) =>
      GroupReceived(g, p, |g|);
      assert g[..|g|] == g;
  }

  lemma PrefixReceived(s: Segment, n: nat)
    requires Sound(s) && n < |Wire(s)|
    ensures Run(Idle, Wire(s)[..n]).1 == [] && !Run(Idle, Wire(s)[..n]).0.Failed?
  {
    if s.Group? {
      GroupReceived(s.group, s.packet, n);
    }
  }

  lemma RunNothing(r: Receiver)
    ensures Run(r, []) == (r, [])
  {
  }

  /**
   Whole segments on the wire, in any number and with any packets that are no
   messages between the groups, are received as exactly the packets sent, in
   order and with their attachments; a part of one more segment changes nothing.
   */
  lemma {:induction false} SegmentsReceived(segments: seq<Segment>, last: Segment, n: nat)
    requires forall i | 0 <= i < |segments| :: Sound(segments[i])
    requires Sound(last) && n < |Wire(last)|
    ensures Run(Idle, WireOf(segments)) == (Idle, PacketsOf(segments))
    ensures Run(Idle, WireOf(segments) + Wire(last)[..n]).1 == PacketsOf(segments)
    ensures !Run(Idle, WireOf(segments) + Wire(last)[..n]).0.Failed?
  {
    hide Step, Run, Sound;
    if segments == [] {
      RunNothing(Idle);
      assert WireOf(segments) + Wire(last)[..n] == Wire(last)[..n];
      PrefixReceived(last, n);
    } else {
      var s := segments[0];
      SegmentsReceived(segments[1..], last, n);
      SegmentReceived(s);
      var rest := WireOf(segments[1..]);
      RunConcat(Idle, Wire(s), rest);
      RunConcat(Idle, Wire(s), rest + Wire(last)[..n]);
      assert WireOf(segments) + Wire(last)[..n] == Wire(s) + (rest + Wire(last)[..n]);
    }
  }

  /** A packet that is no message, in the middle of a group, is an error that names its type, and nothing is read after it. */
  lemma ControlInGroup(header: S.Packet, left: nat, attachments: seq<bytes>, p: E.Packet, rest: seq<E.Packet>)
    requires left > 0 && !IsMessage(p)
    ensures var t := p.ptype;
            var number := if t.Open? then 0 else if t.Close? then 1 else if t.Ping? then 2 else if t.Pong? then 3 else if t.Upgrade? then 5 else 6;
            Run(Collecting(header, left, attachments), [p] + rest) == (Failed(InvalidAttachmentPacketType(number)), [])
  {
    RunCons(Collecting(header, left, attachments), p, rest);
    RunFailed(InvalidAttachmentPacketType(E.TypeNumber(p.ptype)), rest);
  }

  /** A message that is no Socket.IO packet is an error, and nothing is read after it. */
  lemma BadHeader(p: E.Packet, rest: seq<E.Packet>)
    requires IsMessage(p) && S.PacketOf(p.data).Err?
    ensures Run(Idle, [p] + rest) == (Failed(BadPacket(S.PacketOf(p.data).error)), [])
  {
    hide S.PacketOf;
    RunCons(Idle, p, rest);
    RunFailed(BadPacket(S.PacketOf(p.data).error), rest);
  }
}

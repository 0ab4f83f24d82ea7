/** The Engine.IO socket: engineio/src/socket/socket.rs, and `RawSocket::send` of socketio/src/socket.rs on top of it. */
module EngineSocket {
  import opened Wrappers
  import opened Bytes
  import opened EnginePacket
  import EndToEnd
  import Heartbeat
  import Lock = TransportLock
  import S = SocketPacket
  import T = Transports

  datatype Event = OnOpen | OnClose | OnData(data: bytes) | OnPacket(packet: Packet) | OnError

  /** A transport as the data handed to it so far, and how much more it takes before it fails. */
  class Transport {
    var wire: seq<T.Data>
    var patience: nat

    constructor (patience: nat)
      ensures wire == [] && this.patience == patience
    {
      wire := [];
      this.patience := patience;
    }

    method Emit(data: T.Data) returns (ok: bool)
      modifies this
      ensures ok == (old(patience) > 0)
      ensures wire == old(wire) + if ok then [data] else []
      ensures patience == old(patience) - if ok then 1 else 0
    {
      if patience == 0 {
        return false;
      }
      wire := wire + [data];
      patience := patience - 1;
      return true;
    }
  }

  function DataAll(ps: seq<Packet>): (r: seq<T.Data>)
    ensures |r| == |ps|
  {
    seq(|ps|, i requires 0 <= i < |ps| => T.DataOf(ps[i]))
  }

  function Min(a: nat, b: nat): nat {
    if a < b then a else b
  }

  /** The events a handled packet reports, and whether the socket is still connected afterwards. */
  function EventsOf(p: Packet, connected: bool): seq<Event> {
    [OnPacket(p)] +
    match p.ptype
    case MessageBinary => [OnData(p.data)]
    case Message => [OnData(p.data)]
    case Close => if connected then [OnClose] else []
    case _ => []
  }

  predicate IsData(p: Packet) {
    p.ptype.Message? || p.ptype.MessageBinary?
  }

  /** What a socket reports about one packet, the error of an unanswered ping included. */
  function StepEvents(p: Packet, connected: bool, shouldPong: bool, patience: nat): seq<Event> {
    EventsOf(p, connected) + if p.ptype.Ping? && shouldPong && !(connected && patience > 0) then [OnError] else []
  }

  /** What a socket reports while it handles packets, if its transport takes `patience` pongs. */
  function RunEvents(ps: seq<Packet>, connected: bool, shouldPong: bool, patience: nat): seq<Event> {
    if ps == [] then []
    else
      var answered := ps[0].ptype.Ping? && shouldPong && connected && patience > 0;
      StepEvents(ps[0], connected, shouldPong, patience) +
      RunEvents(ps[1..], connected && !ps[0].ptype.Close?, shouldPong, if answered then patience - 1 else patience)
  }

  function PacketsReported(es: seq<Event>): seq<Packet> {
    if es == [] then [] else (if es[0].OnPacket? then [es[0].packet] else []) + PacketsReported(es[1..])
  }

  function DataReported(es: seq<Event>): seq<bytes> {
    if es == [] then [] else (if es[0].OnData? then [es[0].data] else []) + DataReported(es[1..])
  }

  function ClosesReported(es: seq<Event>): nat {
    if es == [] then 0 else (if es[0].OnClose? then 1 else 0) + ClosesReported(es[1..])
  }

  /** The data of the packets that are messages, in order. */
  function MessageData(ps: seq<Packet>): seq<bytes> {
    if ps == [] then [] else (if IsData(ps[0]) then [ps[0].data] else []) + MessageData(ps[1..])
  }

  lemma ReportedConcat(a: seq<Event>, b: seq<Event>)
    ensures PacketsReported(a + b) == PacketsReported(a) + PacketsReported(b)
    ensures DataReported(a + b) == DataReported(a) + DataReported(b)
    ensures ClosesReported(a + b) == ClosesReported(a) + ClosesReported(b)
  {
    PacketsConcat(a, b);
    DatasConcat(a, b);
    ClosesConcat(a, b);
  }

  lemma {:induction false} PacketsConcat(a: seq<Event>, b: seq<Event>)
    ensures PacketsReported(a + b) == PacketsReported(a) + PacketsReported(b)
  {
    if a == [] {
      assert a + b == b;
    } else {
      assert (a + b)[1..] == a[1..] + b;
      PacketsConcat(a[1..], b);
      var first := if a[0].OnPacket? then [a[0].packet] else [];
      assert first + (PacketsReported(a[1..]) + PacketsReported(b)) == first + PacketsReported(a[1..]) + PacketsReported(b);
    }
  }

  lemma {:induction false} DatasConcat(a: seq<Event>, b: seq<Event>)
    ensures DataReported(a + b) == DataReported(a) + DataReported(b)
  {
    if a == [] {
      assert a + b == b;
    } else {
      assert (a + b)[1..] == a[1..] + b;
      DatasConcat(a[1..], b);
      var first := if a[0].OnData? then [a[0].data] else [];
      assert first + (DataReported(a[1..]) + DataReported(b)) == first + DataReported(a[1..]) + DataReported(b);
    }
  }

  lemma {:induction false} ClosesConcat(a: seq<Event>, b: seq<Event>)
    ensures ClosesReported(a + b) == ClosesReported(a) + ClosesReported(b)
  {
    if a == [] {
      assert a + b == b;
    } else {
      assert (a + b)[1..] == a[1..] + b;
      ClosesConcat(a[1..], b);
    }
  }

  lemma OneReported(e: Event)
    ensures PacketsReported([e]) == (if e.OnPacket? then [e.packet] else [])
    ensures DataReported([e]) == (if e.OnData? then [e.data] else [])
    ensures ClosesReported([e]) == if e.OnClose? then 1 else 0
  {
    assert [e][1..] == [];
  }

  /** Data is reported right after its packet, and only so. */
  ghost predicate DataFollows(es: seq<Event>) {
    && (forall k | 0 <= k < |es| && es[k].OnData? ::
          k > 0 && es[k - 1].OnPacket? && IsData(es[k - 1].packet) && es[k - 1].packet.data == es[k].data)
    && (forall k | 0 <= k < |es| && es[k].OnPacket? && IsData(es[k].packet) ::
          k + 1 < |es| && es[k + 1] == OnData(es[k].packet.data))
  }

  /** The closing is reported right after a close packet. */
  ghost predicate CloseFollows(es: seq<Event>) {
    forall k | 0 <= k < |es| && es[k].OnClose? :: k > 0 && es[k - 1].OnPacket? && es[k - 1].packet.ptype.Close?
  }

  lemma FollowsConcat(a: seq<Event>, b: seq<Event>)
    requires DataFollows(a) && DataFollows(b) && CloseFollows(a) && CloseFollows(b)
    ensures DataFollows(a + b) && CloseFollows(a + b)
  {
    var es := a + b;
    forall k | 0 <= k < |es| && es[k].OnPacket? && IsData(es[k].packet)
      ensures k + 1 < |es| && es[k + 1] == OnData(es[k].packet.data)
    {
      if k < |a| {
        assert a[k + 1] == OnData(a[k].packet.data);
      } else {
        assert b[k - |a| + 1] == OnData(b[k - |a|].packet.data);
      }
    }
    forall k | 0 <= k < |es| && es[k].OnData?
      ensures k > 0 && es[k - 1].OnPacket? && IsData(es[k - 1].packet) && es[k - 1].packet.data == es[k].data
    {
      if k < |a| {
        assert a[k - 1].OnPacket?;
      } else {
        assert b[k - |a| - 1].OnPacket?;
      }
    }
    forall k | 0 <= k < |es| && es[k].OnClose?
      ensures k > 0 && es[k - 1].OnPacket? && es[k - 1].packet.ptype.Close?
    {
      if k < |a| {
        assert a[k - 1].OnPacket?;
      } else {
        assert b[k - |a| - 1].OnPacket?;
      }
    }
  }

  lemma StepReports(p: Packet, connected: bool, shouldPong: bool, patience: nat)
    ensures var es := StepEvents(p, connected, shouldPong, patience);
            && PacketsReported(es) == [p] && DataReported(es) == (if IsData(p) then [p.data] else [])
            && ClosesReported(es) == (if connected && p.ptype.Close? then 1 else 0)
            && DataFollows(es) && CloseFollows(es)
  {
    var es := StepEvents(p, connected, shouldPong, patience);
    OneReported(OnPacket(p));
    if |es| > 1 {
      assert es == [OnPacket(p)] + [es[1]];
      OneReported(es[1]);
      ReportedConcat([OnPacket(p)], [es[1]]);
    } else {
      assert es == [OnPacket(p)];
    }
  }

  /**
   What a socket with an event channel reports of the packets it handles: each packet,
   in order; right after each message, and only there, its data; and the closing, once,
   right after the close packet that finds it connected, which is the first one.
   */
  lemma {:induction false} RunReports(ps: seq<Packet>, connected: bool, shouldPong: bool, patience: nat)
    ensures var es := RunEvents(ps, connected, shouldPong, patience);
            && PacketsReported(es) == ps && DataReported(es) == MessageData(ps)
            && ClosesReported(es) == (if connected && exists p <- ps :: p.ptype.Close? then 1 else 0)
            && DataFollows(es) && CloseFollows(es)
  {
    hide StepEvents, DataFollows, CloseFollows;
    if ps == [] {
      NothingReported();
    } else {
      var answered := ps[0].ptype.Ping? && shouldPong && connected && patience > 0;
      var still, left := connected && !ps[0].ptype.Close?, if answered then patience - 1 else patience;
      var first, rest := StepEvents(ps[0], connected, shouldPong, patience), RunEvents(ps[1..], still, shouldPong, left);
      StepReports(ps[0], connected, shouldPong, patience);
      RunReports(ps[1..], still, shouldPong, left);
      ReportedConcat(first, rest);
      FollowsConcat(first, rest);
      assert ps == [ps[0]] + ps[1..];
      assert forall p <- ps :: p == ps[0] || p in ps[1..];
      assert forall p <- ps[1..] :: p in ps;
    }
  }

  lemma RunStep(p: Packet, rest: seq<Packet>, connected: bool, shouldPong: bool, patience: nat)
    ensures var answered := p.ptype.Ping? && shouldPong && connected && patience > 0;
            RunEvents([p] + rest, connected, shouldPong, patience) ==
            StepEvents(p, connected, shouldPong, patience) +
            RunEvents(rest, connected && !p.ptype.Close?, shouldPong, if answered then patience - 1 else patience)
  {
    assert ([p] + rest)[1..] == rest;
  }

  lemma RunNothing(connected: bool, shouldPong: bool, patience: nat)
    ensures RunEvents([], connected, shouldPong, patience) == []
  {
  }

  lemma NothingReported()
    ensures PacketsReported([]) == [] && DataReported([]) == [] && ClosesReported([]) == 0
    ensures DataFollows([]) && CloseFollows([])
  {
  }

  /** A socket closes at the first close packet: up to there it is connected, and no close is reported before. */
  lemma ClosesAtFirst(ps: seq<Packet>, i: nat, shouldPong: bool, patience: nat)
    requires i < |ps| && ps[i].ptype.Close? && forall j | 0 <= j < i :: !ps[j].ptype.Close?
    ensures ClosesReported(RunEvents(ps[..i], true, shouldPong, patience)) == 0
    ensures ClosesReported(RunEvents(ps[..i + 1], true, shouldPong, patience)) == 1
  {
    RunReports(ps[..i], true, shouldPong, patience);
    RunReports(ps[..i + 1], true, shouldPong, patience);
    assert ps[..i + 1][i].ptype.Close?;
  }

  /**
   Sending a group in one go, `before` and `after` being what the transport holds, is
   the lock section of one sender: every free state that holds `before` gets to hold
   `after` by that section, and logs the group.
   */
  ghost predicate IsSection(before: seq<T.Data>, group: seq<Packet>, after: seq<T.Data>) {
    forall s: Lock.State, task: Lock.Task | s.lock.Free? && DataAll(Lock.WireAt(s, s.current)) == before ::
      var r := Lock.Execute(s, Lock.Section(task, group));
      && r.Some? && r.value.lock.Free? && r.value.current == s.current
      && r.value.log == s.log + [Lock.Entry(s.current, group)]
      && DataAll(Lock.WireAt(r.value, s.current)) == after
  }

  lemma DataConcat(a: seq<Packet>, b: seq<Packet>)
    ensures DataAll(a + b) == DataAll(a) + DataAll(b)
  {
    hide T.DataOf;
  }

  lemma SendingIsSection(before: seq<T.Data>, group: seq<Packet>)
    ensures IsSection(before, group, before + DataAll(group))
  {
    hide Lock.Execute, Lock.Section, Lock.WireAt, DataAll;
    forall s: Lock.State, task: Lock.Task | s.lock.Free? && DataAll(Lock.WireAt(s, s.current)) == before
      ensures var r := Lock.Execute(s, Lock.Section(task, group));
              && r.Some? && r.value.lock.Free? && r.value.current == s.current
              && r.value.log == s.log + [Lock.Entry(s.current, group)]
              && DataAll(Lock.WireAt(r.value, s.current)) == before + DataAll(group)
    {
      Lock.SectionSends(s, task, group);
      DataConcat(Lock.WireAt(s, s.current), group);
    }
  }

  class Socket {
    var transport: Transport
    var connected: bool
    var lastPing: nat
    var lastPong: nat
    var events: seq<Event>
    const hasEventTx: bool
    const shouldPong: bool
    const serverEnd: bool
    ghost var arrivals: seq<nat>

    /** The last pong is the last of the times at which the peer gave a sign of life. */
    ghost predicate Valid()
      reads this
    {
      Heartbeat.Times(arrivals) && lastPong == arrivals[|arrivals| - 1]
    }

    constructor (transport: Transport, hasEventTx: bool, shouldPong: bool, serverEnd: bool, now: nat)
      ensures Valid() && arrivals == [now] && lastPing == now
      ensures this.transport == transport && !connected && events == []
      ensures this.hasEventTx == hasEventTx && this.shouldPong == shouldPong && this.serverEnd == serverEnd
    {
      this.transport := transport;
      this.hasEventTx := hasEventTx;
      this.shouldPong := shouldPong;
      this.serverEnd := serverEnd;
      connected := false;
      lastPing, lastPong := now, now;
      events := [];
      arrivals := [now];
    }

    /** Only a socket with an event channel, that is a server's, reports events. */
    function Reported(es: seq<Event>): seq<Event> {
      if hasEventTx then es else []
    }

    method Report(e: Event)
      modifies this`events
      ensures events == old(events) + if hasEventTx then [e] else []
    {
      if hasEventTx {
        events := events + [e];
      }
    }

    /** Opens the connection; a client sends a first pong. */
    method Connect(now: nat) returns (ok: bool)
      requires Valid()
      modifies this`connected, this`lastPing, this`events, transport
      ensures Valid() && connected && lastPing == now
      ensures ok == (serverEnd || old(transport.patience) > 0)
      ensures events == old(events) + Reported([OnOpen]) + if ok then [] else Reported([OnError])
      ensures transport.wire == old(transport.wire) + if ok && !serverEnd then [T.DataOf(Packet(Pong, []))] else []
    {
      connected := true;
      Report(OnOpen);
      lastPing := now;
      ok := true;
      if !serverEnd {
        ok := Emit(Packet(Pong, []));
      }
    }

    /** Sends one packet under the transport lock. */
    method Emit(packet: Packet) returns (ok: bool)
      modifies this`events, transport
      ensures ok == (connected && old(transport.patience) > 0)
      ensures transport.wire == old(transport.wire) + if ok then [T.DataOf(packet)] else []
      ensures transport.patience == old(transport.patience) - if ok then 1 else 0
      ensures events == old(events) + if ok then [] else Reported([OnError])
      ensures ok ==> IsSection(old(transport.wire), [packet], transport.wire)
    {
      if !connected {
        Report(OnError);
        return false;
      }
      ok := transport.Emit(T.DataOf(packet));
      if !ok {
        Report(OnError);
      }
      SendingIsSection(old(transport.wire), [packet]);
      assert DataAll([packet]) == [T.DataOf(packet)];
    }

    /**
     Sends packets one after the other, holding the transport lock all the time, up to
     the first that the transport does not take.
     */
    method EmitMulti(packets: seq<Packet>) returns (ok: bool)
      modifies this`events, transport
      ensures ok == (connected && |packets| <= old(transport.patience))
      ensures var sent := if connected then Min(|packets|, old(transport.patience)) else 0;
              && transport.wire == old(transport.wire) + DataAll(packets[..sent])
              && transport.patience == old(transport.patience) - sent
      ensures events == old(events) + if ok then [] else Reported([OnError])
      ensures ok ==> IsSection(old(transport.wire), packets, transport.wire)
    {
      if !connected {
        Report(OnError);
        return false;
      }
      for i := 0 to |packets|
        invariant i <= old(transport.patience) && transport.patience == old(transport.patience) - i
        invariant transport.wire == old(transport.wire) + DataAll(packets[..i])
        invariant events == old(events)
      {
        ok := transport.Emit(T.DataOf(packets[i]));
        if !ok {
          Report(OnError);
          return false;
        }
        assert packets[..i + 1] == packets[..i] + [packets[i]];
        DataConcat(packets[..i], [packets[i]]);
        assert DataAll([packets[i]]) == [T.DataOf(packets[i])];
      }
      assert packets[..|packets|] == packets;
      SendingIsSection(old(transport.wire), packets);
      return true;
    }

    /**
     Sends a Socket.IO packet: alone if it has no attachments, otherwise with all of
     them in one go. A socket that is not connected refuses without an event.
     */
    method Send(packet: S.Packet) returns (ok: bool)
      modifies this`events, transport
      ensures var group := EndToEnd.GroupOf(packet);
              var sent := if connected then Min(|group|, old(transport.patience)) else 0;
              && ok == (connected && sent == |group|)
              && transport.wire == old(transport.wire) + DataAll(group[..sent])
              && (ok ==> IsSection(old(transport.wire), group, transport.wire))
      ensures events == old(events) + if ok || !connected then [] else Reported([OnError])
    {
      hide IsSection;
      if !connected {
        return false;
      }
      var enginePacket := Packet(Message, S.PacketBytes(packet));
      if packet.attachments.None? || packet.attachments.value == [] {
        ok := Emit(enginePacket);
        assert EndToEnd.GroupOf(packet) == [enginePacket];
        assert DataAll([enginePacket]) == [T.DataOf(enginePacket)];
      } else {
        var packets := [enginePacket];
        var attachments := packet.attachments.value;
        for i := 0 to |attachments|
          invariant packets == [enginePacket] + EndToEnd.AttachmentPackets(attachments[..i])
        {
          packets := packets + [Packet(MessageBinary, attachments[i])];
          assert EndToEnd.AttachmentPackets(attachments[..i + 1]) ==
                 EndToEnd.AttachmentPackets(attachments[..i]) + [Packet(MessageBinary, attachments[i])];
        }
        assert attachments[..|attachments|] == attachments;
        ok := EmitMulti(packets);
      }
    }

    /** Replaces the transport under its lock. */
    method Upgrade(newTransport: Transport)
      modifies this`transport
      ensures transport == newTransport
    {
      transport := newTransport;
    }

    /** What the ping loop asks for: at any time from then on, the last sign of life. */
    method GetLastPong(now: nat) returns (instant: nat)
      requires Valid() && lastPong <= now
      ensures instant == Heartbeat.LastPong(arrivals, now)
    {
      instant := lastPong;
      Heartbeat.LastPongIs(arrivals, now, |arrivals| - 1);
    }

    method HandleClose()
      modifies this`connected, this`events
      ensures !connected && events == old(events) + if old(connected) then Reported([OnClose]) else []
    {
      if connected {
        Report(OnClose);
        connected := false;
      }
    }

    /**
     Every incoming packet counts as a sign of life; a ping is answered with a
     pong that carries the same data, and a close ends the connection.
     */
    method HandleIncomingPacket(packet: Packet, now: nat)
      requires Valid() && lastPong <= now
      modifies this`connected, this`lastPing, this`lastPong, this`events, this`arrivals, transport
      ensures Valid() && arrivals == old(arrivals) + [now] && lastPong == now
      ensures lastPing == if packet.ptype.Ping? then now else old(lastPing)
      ensures connected == (old(connected) && !packet.ptype.Close?)
      ensures var answers := packet.ptype.Ping? && shouldPong;
              var answered := answers && old(connected) && old(transport.patience) > 0;
              && transport.wire == old(transport.wire) + (if answered then [T.DataOf(Packet(Pong, packet.data))] else [])
              && transport.patience == old(transport.patience) - (if answered then 1 else 0)
              && events == old(events) + Reported(StepEvents(packet, old(connected), shouldPong, old(transport.patience)))
    {
      hide IsSection, DataAll, T.DataOf, Heartbeat.Times;
      Heartbeat.OneMore(arrivals, now);
      lastPong := now;
      arrivals := arrivals + [now];
      Report(OnPacket(packet));
      match packet.ptype
      case MessageBinary => Report(OnData(packet.data));
      case Message => Report(OnData(packet.data));
      case Close => HandleClose();
      case Ping =>
        lastPing := now;
        if shouldPong {
          var _ := Emit(Packet(Pong, packet.data));
        }
      case _ =>
    }

    /** The socket's stream: every packet is handled, at the time at which it comes. */
    method HandleStream(packets: seq<Packet>, times: seq<nat>)
      requires Valid() && |times| == |packets|
      requires forall i, j | 0 <= i < j < |times| :: times[i] <= times[j]
      requires forall t <- times :: lastPong <= t
      modifies this`connected, this`lastPing, this`lastPong, this`events, this`arrivals, transport
      ensures Valid() && arrivals == old(arrivals) + times
      ensures events == old(events) + Reported(RunEvents(packets, old(connected), shouldPong, old(transport.patience)))
      ensures connected == (old(connected) && forall p <- packets :: !p.ptype.Close?)
    {
      hide StepEvents, RunEvents, Heartbeat.Times;
      RunNothing(connected, shouldPong, transport.patience);
      ghost var all := RunEvents(packets, connected, shouldPong, transport.patience);
      assert Reported([]) + Reported(all) == Reported(all);
      for i := 0 to |packets|
        invariant Valid() && arrivals == old(arrivals) + times[..i]
        invariant i > 0 ==> lastPong == times[i - 1]
        invariant i == 0 ==> lastPong == old(lastPong)
        invariant events + Reported(RunEvents(packets[i..], connected, shouldPong, transport.patience)) ==
                  old(events) + Reported(all)
        invariant connected == (old(connected) && forall p <- packets[..i] :: !p.ptype.Close?)
      {
        assert packets[i..] == [packets[i]] + packets[i + 1..];
        assert times[i] in times;
        RunStep(packets[i], packets[i + 1..], connected, shouldPong, transport.patience);
        HandleIncomingPacket(packets[i], times[i]);
        assert packets[..i + 1] == packets[..i] + [packets[i]];
        assert times[..i + 1] == times[..i] + [times[i]];
      }
      assert packets[|packets|..] == [] && packets[..|packets|] == packets && times[..|times|] == times;
      RunNothing(connected, shouldPong, transport.patience);
    }

    /**
     Says goodbye and disconnects; a socket that is not connected does nothing, and
     one whose transport fails stays connected.
     */
    method Disconnect() returns (ok: bool)
      modifies this`connected, this`events, transport
      ensures ok == (!old(connected) || old(transport.patience) > 0)
      ensures connected == (old(connected) && !ok)
      ensures transport.wire == old(transport.wire) + if old(connected) && ok then [T.DataOf(Packet(Close, []))] else []
      ensures events == old(events) + (if old(connected) then Reported([OnClose]) else []) +
                        if ok then [] else Reported([OnError])
    {
      if !connected {
        return true;
      }
      Report(OnClose);
      ok := Emit(Packet(Close, []));
      if ok {
        connected := false;
      }
    }
  }
}

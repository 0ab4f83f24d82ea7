/**
 The server's end of a connection: the packets up to the opening one are taken
 off the connection before any socket handles packets
 (`do_handle_connect` and `insert_clients` in socketio/src/server/server.rs).
 */
module ServerEnd {
  import opened Wrappers
  import Events
  import M = Messages
  import S = SocketPacket

  /** The call of the connect handler, for which there is no packet any more. */
  const CONNECT_CALL: M.Delivery := M.Call(Events.Connect, None, None)

  /**
   Everything a server with handlers for some namespaces does on receiving these
   packets: nothing before the first opening packet, and nothing at all if it asks
   for a namespace without handlers.
   */
  function ServerHandled(handlers: set<string>, ps: seq<S.Packet>): seq<M.Delivery> {
    if ps == [] then []
    else if !ps[0].ptype.Connect? then ServerHandled(handlers, ps[1..])
    else if ps[0].nsp in handlers then [CONNECT_CALL] + M.DispatchAll(ps[0].nsp, ps[1..])
    else []
  }

  /** A connection as the packets still to be received from it. */
  class RawSocket {
    var incoming: seq<S.Packet>

    constructor (incoming: seq<S.Packet>)
      ensures this.incoming == incoming
    {
      this.incoming := incoming;
    }

    method PollPacket() returns (p: Option<S.Packet>)
      modifies this
      ensures old(incoming) == [] ==> p == None && incoming == []
      ensures old(incoming) != [] ==> p == Some(old(incoming)[0]) && incoming == old(incoming)[1..]
    {
      if incoming == [] {
        return None;
      }
      p := Some(incoming[0]);
      incoming := incoming[1..];
    }
  }

  class Server {
    const handlers: set<string>
    var calls: seq<M.Delivery>

    constructor (handlers: set<string>)
      ensures this.handlers == handlers && calls == []
    {
      this.handlers := handlers;
      calls := [];
    }

    /** Waits for the opening packet; then the connect handler is called and the client polls the connection. */
    method DoHandleConnect(socket: RawSocket)
      modifies this, socket
      ensures calls == old(calls) + ServerHandled(handlers, old(socket.incoming))
    {
      var next := socket.PollPacket();
      while next.Some?
        invariant ServerHandled(handlers, old(socket.incoming)) ==
                  if next.Some? then ServerHandled(handlers, [next.value] + socket.incoming) else []
        invariant calls == old(calls)
        decreases |socket.incoming|, next.Some?
      {
        var packet := next.value;
        assert ([packet] + socket.incoming)[1..] == socket.incoming;
        if packet.ptype.Connect? {
          InsertClients(socket, packet.nsp);
          return;
        }
        ghost var left := socket.incoming;
        next := socket.PollPacket();
        assert next.Some? ==> [next.value] + socket.incoming == left;
      }
    }

    method InsertClients(socket: RawSocket, nsp: string)
      modifies this, socket
      ensures calls == old(calls) + if nsp in handlers then [CONNECT_CALL] + M.DispatchAll(nsp, old(socket.incoming)) else []
    {
      if nsp in handlers {
        calls := calls + [CONNECT_CALL];
        Poll(socket, nsp);
      }
    }

    /** The client's polling loop. */
    method Poll(socket: RawSocket, nsp: string)
      modifies this, socket
      ensures calls == old(calls) + M.DispatchAll(nsp, old(socket.incoming)) && socket.incoming == []
    {
      var next := socket.PollPacket();
      ghost var handled: seq<S.Packet> := [];
      while next.Some?
        invariant old(socket.incoming) == handled + (if next.Some? then [next.value] else []) + socket.incoming
        invariant next.None? ==> socket.incoming == []
        invariant calls == old(calls) + M.DispatchAll(nsp, handled)
        decreases |socket.incoming|, next.Some?
      {
        calls := calls + [M.Dispatch(nsp, next.value)];
        assert M.DispatchAll(nsp, handled + [next.value]) == M.DispatchAll(nsp, handled) + [M.Dispatch(nsp, next.value)];
        handled := handled + [next.value];
        next := socket.PollPacket();
      }
    }
  }

  /** Nothing happens before the opening packet, whatever comes; then the connect handler is called without a payload, and every packet after it is dispatched. */
  lemma {:induction false} OpeningTaken(handlers: set<string>, before: seq<S.Packet>, opening: S.Packet, after: seq<S.Packet>)
    requires forall i | 0 <= i < |before| :: !before[i].ptype.Connect?
    requires opening.ptype.Connect?
    ensures ServerHandled(handlers, before) == []
    ensures ServerHandled(handlers, before + [opening] + after) ==
            if opening.nsp !in handlers then []
            else [M.Call(Events.Connect, None, None)] + seq(|after|, i requires 0 <= i < |after| => M.Dispatch(opening.nsp, after[i]))
  {
    hide M.Dispatch;
    var all := before + [opening] + after;
    if before == [] {
      assert all == [opening] + after && all[1..] == after;
    } else {
      assert all[1..] == before[1..] + [opening] + after;
      OpeningTaken(handlers, before[1..], opening, after);
    }
  }
}

/**
 Server emits and poll requests of one client, interleaved: a bounded queue of
 entries (engineio/src/transports/polling.rs) that one request at a time drains
 entry by entry (`polling_get` in engineio/src/server/http.rs).
 */
module PollingQueue {
  import opened Wrappers
  import opened Bytes
  import opened EnginePacket
  import Polling
  import T = Transports

  datatype State = State(
    capacity: nat,
    queue: seq<bytes>,
    draining: Option<seq<bytes>>, // what the running request has taken so far
    served: seq<seq<bytes>>,      // what each finished request took
    emitted: seq<Packet>
  )

  datatype Action = Emit(packet: Packet) | StartGet | Take | FinishGet

  /** One step; `None` if it would have to wait. */
  function Step(s: State, a: Action): Option<State> {
    match a
    case Emit(p) =>
      if |s.queue| >= s.capacity then None
      else Some(s.(queue := s.queue + [T.PollingBody(T.DataOf(p))], emitted := s.emitted + [p]))
    case StartGet =>
      if s.draining.Some? || s.queue == [] then None
      else Some(s.(draining := Some([s.queue[0]]), queue := s.queue[1..]))
    case Take =>
      if s.draining.None? || s.queue == [] then None
      else Some(s.(draining := Some(s.draining.value + [s.queue[0]]), queue := s.queue[1..]))
    case FinishGet =>
      if s.draining.None? || s.queue != [] then None
      else Some(s.(draining := None, served := s.served + [s.draining.value]))
  }

  function Execute(s: State, actions: seq<Action>): Option<State>
    decreases |actions|
  {
    if actions == [] then
      Some(s)
    else
      var next :- Step(s, actions[0]);
      Execute(next, actions[1..])
  }

  function Initial(capacity: nat): State {
    State(capacity, [], None, [], [])
  }

  function InFlight(s: State): seq<bytes> {
    if s.draining.Some? then s.draining.value else []
  }

  /** Nothing is lost, doubled or reordered among the bodies, the running request and the queue. */
  ghost predicate Conserved(s: State) {
    && Flatten(s.served) + InFlight(s) + s.queue == EncodeAll(s.emitted)
    && (forall i | 0 <= i < |s.served| :: s.served[i] != [])
    && (s.draining.Some? ==> s.draining.value != [])
    && |s.queue| <= s.capacity
  }

  lemma StepConserves(s: State, a: Action)
    requires Conserved(s) && Step(s, a).Some?
    ensures Conserved(Step(s, a).value)
  {
    hide Conserved, Step;
    match a
    case Emit(p) => EmitConserves(s, p);
    case StartGet => StartConserves(s);
    case Take => TakeConserves(s);
    case FinishGet => FinishConserves(s);
  }

  lemma EmitConserves(s: State, p: Packet)
    requires Conserved(s) && Step(s, Emit(p)).Some?
    ensures Conserved(Step(s, Emit(p)).value)
  {
    hide PacketBytes, Flatten;
    var s' := Step(s, Emit(p)).value;
    T.PollingBodyIsPacket(p);
    var before := Flatten(s.served) + InFlight(s);
    assert before + (s.queue + [PacketBytes(p)]) == before + s.queue + [PacketBytes(p)];
    assert EncodeAll(s'.emitted) == EncodeAll(s.emitted) + [PacketBytes(p)];
  }

  lemma StartConserves(s: State)
    requires Conserved(s) && Step(s, StartGet).Some?
    ensures Conserved(Step(s, StartGet).value)
  {
    hide EncodeAll, Flatten;
    assert Flatten(s.served) + [s.queue[0]] + s.queue[1..] == Flatten(s.served) + [] + s.queue;
  }

  lemma TakeConserves(s: State)
    requires Conserved(s) && Step(s, Take).Some?
    ensures Conserved(Step(s, Take).value)
  {
    hide EncodeAll, Flatten;
    assert Flatten(s.served) + (InFlight(s) + [s.queue[0]]) + s.queue[1..] == Flatten(s.served) + InFlight(s) + s.queue;
  }

  lemma FinishConserves(s: State)
    requires Conserved(s) && Step(s, FinishGet).Some?
    ensures Conserved(Step(s, FinishGet).value)
  {
    hide EncodeAll;
    var one := [s.draining.value];
    FlattenConcat(s.served, one);
    assert one[1..] == [] && Flatten(one) == s.draining.value;
    assert Flatten(s.served) + s.draining.value + [] + [] == Flatten(s.served) + s.draining.value + [];
  }

  lemma {:induction false} RunConserves(s: State, actions: seq<Action>)
    requires Conserved(s) && Execute(s, actions).Some?
    ensures Conserved(Execute(s, actions).value)
    decreases |actions|
  {
    if actions != [] {
      StepConserves(s, actions[0]);
      RunConserves(Step(s, actions[0]).value, actions[1..]);
    }
  }

  /** What a client reads from the bodies it got, in order; `None` if it cannot read one of them. */
  function ReadAll(served: seq<seq<bytes>>): Option<seq<Packet>> {
    if served == [] then
      Some([])
    else
      var first :- Polling.ReadBody(Polling.PollingPayload(served[0]));
      var rest :- ReadAll(served[1..]);
      Some(first + rest)
  }

  /** A body never holds fewer packets than were queued for it. */
  lemma BodyCount(ps: seq<Packet>)
    requires ps != []
    ensures var read := Polling.ReadBody(Polling.PollingPayload(EncodeAll(ps)));
            read.Some? ==> |read.value| >= |ps|
  {
    hide PacketBytes, Polling.Piece;
    var entries := EncodeAll(ps);
    forall i | 0 <= i < |ps|
      ensures entries[i] != []
    {
      Polling.PiecePollable(ps[i]);
    }
    Polling.PollingTextBytes(entries);
    JoinedSeparators(Polling.Pieces(entries));
    var b := Join(Polling.Pieces(entries));
    if T.Read(b).Some? {
      NormalForm(b);
    }
  }

  lemma {:induction false} ReadServed(served: seq<seq<bytes>>, ps: seq<Packet>)
    requires Flatten(served) == EncodeAll(ps) && forall i | 0 <= i < |served| :: served[i] != []
    ensures ReadAll(served) == Some(ps) <==> Polling.AllPollable(ps)
    ensures ReadAll(served).Some? ==> |ReadAll(served).value| >= |ps|
    decreases |served|
  {
    hide PacketBytes, Polling.ReadBody, Polling.PollingPayload, Polling.Pollable;
    if served != [] {
      var k := |served[0]|;
      assert |EncodeAll(ps)| == |ps| == k + |Flatten(served[1..])|;
      var first, rest := ps[..k], ps[k..];
      assert served[0] == EncodeAll(ps)[..k] == EncodeAll(first);
      assert Flatten(served[1..]) == EncodeAll(ps)[k..] == EncodeAll(rest);
      ReadServed(served[1..], rest);
      Polling.LongPollRoundTrip(first);
      BodyCount(first);
      PollableSplit(ps, k);
      ReadStep(served, first, rest);
      assert first + rest == ps;
    } else {
      assert ps == [] by {
        assert |EncodeAll(ps)| == 0;
      }
    }
  }

  lemma PollableSplit(ps: seq<Packet>, k: nat)
    requires k <= |ps|
    ensures Polling.AllPollable(ps) <==> Polling.AllPollable(ps[..k]) && Polling.AllPollable(ps[k..])
  {
    hide Polling.Pollable;
    if Polling.AllPollable(ps[..k]) && Polling.AllPollable(ps[k..]) {
      forall i | 0 <= i < |ps|
        ensures Polling.Pollable(ps[i])
      {
        assert ps[i] == if i < k then ps[..k][i] else ps[k..][i - k];
      }
    }
  }

  /** With enough packets on both sides, the concatenations agree exactly when the parts do. */
  lemma ReadStep(served: seq<seq<bytes>>, first: seq<Packet>, rest: seq<Packet>)
    requires served != []
    requires var a := Polling.ReadBody(Polling.PollingPayload(served[0])); a.Some? ==> |a.value| >= |first|
    requires var b := ReadAll(served[1..]); b.Some? ==> |b.value| >= |rest|
    ensures ReadAll(served) == Some(first + rest) <==>
            Polling.ReadBody(Polling.PollingPayload(served[0])) == Some(first) && ReadAll(served[1..]) == Some(rest)
    ensures ReadAll(served).Some? ==> |ReadAll(served).value| >= |first| + |rest|
  {
    hide Polling.ReadBody, Polling.PollingPayload;
    var a, b := Polling.ReadBody(Polling.PollingPayload(served[0])), ReadAll(served[1..]);
    if a.Some? && b.Some? && a.value + b.value == first + rest {
      assert |a.value| == |first|;
      assert a.value == (a.value + b.value)[..|first|] && first == (first + rest)[..|first|];
      assert b.value == (a.value + b.value)[|first|..] && rest == (first + rest)[|first|..];
    }
  }

  /**
   Conservation, for every interleaving of emits and poll requests: with `n`
   packets handed out so far, the client has read exactly the first `n` packets
   emitted, each once and in order, if and only if those can be polled; the
   others are, in order, with the running request or in the queue, which never
   exceeds its capacity.
   */
  lemma PollingConservation(capacity: nat, actions: seq<Action>)
    requires Execute(Initial(capacity), actions).Some?
    ensures var s := Execute(Initial(capacity), actions).value;
            var n := |Flatten(s.served)|;
            && n <= |s.emitted|
            && ((ReadAll(s.served) == Some(s.emitted[..n])) <==> Polling.AllPollable(s.emitted[..n]))
            && InFlight(s) + s.queue == EncodeAll(s.emitted[n..])
            && |s.queue| <= s.capacity
  {
    hide PacketBytes, Polling.Pollable;
    var s := Execute(Initial(capacity), actions).value;
    assert EncodeAll([]) == [];
    RunConserves(Initial(capacity), actions);
    var n := |Flatten(s.served)|;
    assert |EncodeAll(s.emitted)| == |s.emitted|;
    var all := Flatten(s.served) + InFlight(s) + s.queue;
    assert all == Flatten(s.served) + (InFlight(s) + s.queue);
    assert Flatten(s.served) == all[..n] == EncodeAll(s.emitted[..n]);
    assert InFlight(s) + s.queue == all[n..] == EncodeAll(s.emitted[n..]);
    ReadServed(s.served, s.emitted[..n]);
  }

  /** The steps of one poll request that is not interrupted. */
  function Takes(n: nat): seq<Action> {
    if n == 0 then [] else [Take] + Takes(n - 1)
  }

  function Get(n: nat): seq<Action>
    requires n > 0
  {
    [StartGet] + Takes(n - 1) + [FinishGet]
  }

  /** On its own a poll request takes all that is queued: what `Polling.Queue.PollingGet` does. */
  lemma GetAlone(s: State)
    requires s.draining.None? && s.queue != []
    ensures Execute(s, Get(|s.queue|)) == Some(s.(queue := [], served := s.served + [s.queue]))
  {
    var next := s.(draining := Some([s.queue[0]]), queue := s.queue[1..]);
    assert Get(|s.queue|) == [StartGet] + (Takes(|s.queue| - 1) + [FinishGet]);
    assert Get(|s.queue|)[1..] == Takes(|s.queue| - 1) + [FinishGet];
    TakesAll(next);
    assert [s.queue[0]] + s.queue[1..] == s.queue;
  }

  lemma {:induction false} TakesAll(s: State)
    requires s.draining.Some?
    ensures Execute(s, Takes(|s.queue|) + [FinishGet]) ==
            Some(s.(draining := None, queue := [], served := s.served + [s.draining.value + s.queue]))
    decreases |s.queue|
  {
    if s.queue == [] {
      assert Takes(0) + [FinishGet] == [FinishGet];
      assert [FinishGet][1..] == [];
      assert s.draining.value + [] == s.draining.value;
    } else {
      var actions := Takes(|s.queue|) + [FinishGet];
      assert actions[1..] == Takes(|s.queue| - 1) + [FinishGet];
      TakesAll(Step(s, Take).value);
      assert s.draining.value + [s.queue[0]] + s.queue[1..] == s.draining.value + s.queue;
    }
  }

  /** An emit waits exactly when the queue is full; otherwise the packet's bytes are queued last. */
  lemma EmitQueues(s: State, p: Packet)
    ensures Step(s, Emit(p)) ==
            if |s.queue| >= s.capacity then None
            else Some(s.(queue := s.queue + [PacketBytes(p)], emitted := s.emitted + [p]))
  {
    hide PacketBytes;
    T.PollingBodyIsPacket(p);
  }
}

/**
 An acknowledgement from end to end: a callback is registered, the event goes to
 the peer, the peer's reply comes back, and the callback runs with its payload.
 */
module AckRoundTrip {
  import opened Wrappers
  import opened AckTable
  import E = EndToEnd
  import Events
  import M = Messages
  import T = Transports

  /** The action by which a task handles what a reply was dispatched to. */
  function Handling(task: Task, d: M.Delivery): Action
    requires d.AckReply?
  {
    Scan(task, d.ackId, d.payload)
  }

  predicate Pending(s: State, poller: Task) {
    poller in s.pending && s.pending[poller] != []
  }

  /** The entry is in the table and not about to be removed. */
  ghost predicate Waits(s: State, poller: Task, e: Entry) {
    e in s.table && !BeingRemoved(s, poller, e.id)
  }

  lemma WaitsStep(s: State, a: Action, poller: Task, e: Entry)
    requires Inv(s, poller) && Waits(s, poller, e) && Step(s, a).Some?
    requires ByPoller(a, poller) && (a.Scan? ==> a.id != e.id)
    ensures Waits(Step(s, a).value, poller, e)
  {
    hide Calls, CallsOnce, Registered, Matches;
    var s' := Step(s, a).value;
    var i :| 0 <= i < |s.table| && s.table[i] == e;
    match a
    case Generate(t) =>
    case Push(t, callback, started, timeout) =>
      assert s'.table[i] == e;
      assert Pending(s, poller) ==> s'.table[s.pending[poller][0]] == s.table[s.pending[poller][0]];
    case Send(t) =>
    case Tick =>
    case Scan(t, id, payload) =>
      FirstMatch(s.table, id);
    case Remove(t) => RemoveLeaves(s, t, poller, i);
  }

  lemma RemoveLeaves(s: State, t: Task, poller: Task, i: nat)
    requires Inv(s, poller) && Step(s, Remove(t)).Some?
    requires i < |s.table| && !BeingRemoved(s, poller, s.table[i].id)
    ensures Waits(Step(s, Remove(t)).value, poller, s.table[i])
  {
    hide Calls, CallsOnce, Registered, IdsAccounted;
    var s', q := Step(s, Remove(t)).value, s.pending[t][0];
    assert t == poller && q < |s.table|;
    if q < i {
      assert s'.table[i - 1] == s.table[i];
    } else {
      assert s'.table[i] == s.table[i];
    }
  }

  lemma {:induction false} WaitsRun(s: State, actions: seq<Action>, poller: Task, e: Entry)
    requires Inv(s, poller) && Waits(s, poller, e)
    requires Execute(s, actions).Some? && Execute(s, actions).value.issued <= IDS
    requires forall i | 0 <= i < |actions| :: ByPoller(actions[i], poller) && (actions[i].Scan? ==> actions[i].id != e.id)
    ensures Waits(Execute(s, actions).value, poller, e) && Inv(Execute(s, actions).value, poller)
    decreases |actions|
  {
    hide Inv, Waits, Step;
    if actions != [] {
      IssuedGrows(Step(s, actions[0]).value, actions[1..]);
      WaitsStep(s, actions[0], poller, e);
      StepKeepsInv(s, actions[0], poller);
      WaitsRun(Step(s, actions[0]).value, actions[1..], poller, e);
    }
  }

  /** A callback that is pushed waits at once, under an id that no other entry has. */
  lemma PushedWaits(s: State, task: Task, callback: Callback, started: nat, timeout: nat, poller: Task)
    requires Inv(s, poller) && Step(s, Push(task, callback, started, timeout)).Some?
    ensures Waits(Step(s, Push(task, callback, started, timeout)).value, poller, Entry(s.reserved[task], callback, started, timeout))
    ensures s.reserved[task] < s.issued
  {
    hide Calls, CallsOnce, Registered, Matches;
    var e := Entry(s.reserved[task], callback, started, timeout);
    var s' := Step(s, Push(task, callback, started, timeout)).value;
    assert s'.table[|s.table|] == e;
    if Pending(s, poller) {
      Found(s.table, s.pending[poller][0]);
    }
  }

  /** Handling a reply to an entry that waits: its callback, if in time, and its removal, and nothing else. */
  lemma ReplyHandled(s: State, poller: Task, e: Entry, payload: Option<M.Payload>)
    requires Inv(s, poller) && Waits(s, poller, e) && !Pending(s, poller)
    ensures var r := Execute(s, [Scan(poller, e.id, payload), Remove(poller)]);
            && r.Some? && !r.value.panicked && r.value.issued == s.issued
            && r.value.calls == s.calls + (if s.now < e.started + e.timeout then [Call(e, payload, s.now)] else [])
            && r.value.table == Without(s.table, e.id) && r.value.removed == s.removed + [e]
  {
    hide CallsOnce, Registered, Matches, Calls, IdsAccounted;
    var i :| 0 <= i < |s.table| && s.table[i] == e;
    IdsDistinct(s);
    OnlyMatch(s.table, e.id, i);
    ReplyRunsCallback(s.table, i, payload, s.now);
    var actions := [Scan(poller, e.id, payload), Remove(poller)];
    var scanned := Step(s, actions[0]).value;
    OneStep(s, actions);
    OneStep(scanned, actions[1..]);
    assert actions[1..][1..] == [];
  }

  /**
   The round trip of `emit_with_ack`. In any run with one task that handles replies,
   until the ids wrap around: a callback is registered under an id, and whatever other
   tasks do in between, as long as no other reply to that id was handled,
   - the event sent with that id, if it is carried and deliverable, calls the peer's
     handler with the same payload and that id;
   - the peer's reply to that id, if it is carried and deliverable, is dispatched to
     that id with the same payload;
   - handling it runs exactly this callback with exactly that payload, if it is in
     time, removes its entry and no other, and no callback has ever run twice.
   */
  lemma AckRoundTrip(
    before: seq<Action>, task: Task, callback: Callback, started: nat, timeout: nat, between: seq<Action>, poller: Task,
    out: T.Channel, back: T.Channel, nsp: string, event: Events.Event, payload: M.Payload, reply: M.Payload
  )
    requires Execute(INITIAL, before).Some? && task in Execute(INITIAL, before).value.reserved
    requires Step(Execute(INITIAL, before).value, Push(task, callback, started, timeout)).Some?
    requires forall i | 0 <= i < |before| :: ByPoller(before[i], poller)
    requires var s := Execute(INITIAL, before).value;
             var run := Execute(Step(s, Push(task, callback, started, timeout)).value, between);
             && (forall i | 0 <= i < |between| ::
                   ByPoller(between[i], poller) && (between[i].Scan? ==> between[i].id != s.reserved[task]))
             && run.Some? && run.value.issued <= IDS && !Pending(run.value, poller)
    requires E.Sendable(nsp, None, M.Parts(payload)) && E.Sendable(nsp, None, M.Parts(reply))
    requires M.Deliverable(M.Parts(payload)) && E.AttachmentsCarriable(out, M.Parts(payload))
    requires M.Deliverable(M.Parts(reply)) && E.AttachmentsCarriable(back, M.Parts(reply))
    requires Events.EventOf(Events.NameOf(event)) == event
    ensures var s := Execute(INITIAL, before).value;
            var id := s.reserved[task];
            var e := Entry(id, callback, started, timeout);
            var s' := Execute(Step(s, Push(task, callback, started, timeout)).value, between).value;
            var answer := M.AckReply(id, Some(M.Collapse(M.Parts(reply))));
            var r := Execute(s', [Handling(poller, answer), Remove(poller)]);
            && E.Handled(out, nsp, M.BuildPacket(payload, Some(event), nsp, Some(id), false)) ==
               [M.Call(event, Some(M.Collapse(M.Parts(payload))), Some(id))]
            && E.Handled(back, nsp, M.BuildPacket(reply, None, nsp, Some(id), true)) == [answer]
            && (!(payload.Multi? && |payload.parts| == 1) ==> M.Collapse(M.Parts(payload)) == payload)
            && (!(reply.Multi? && |reply.parts| == 1) ==> answer.payload == Some(reply))
            && r.Some? && !r.value.panicked
            && r.value.calls == s'.calls + (if s'.now < started + timeout then [Call(e, answer.payload, s'.now)] else [])
            && r.value.table == Without(s'.table, id) && r.value.removed == s'.removed + [e]
            && (forall k, l | 0 <= k < l < |r.value.calls| :: r.value.calls[k].entry.id != r.value.calls[l].entry.id)
  {
    hide Inv, Waits, Step, Execute, E.Handled, M.Deliverable, E.Fits, M.BuildPacket, M.Collapse, E.AttachmentsCarriable;
    var s := Execute(INITIAL, before).value;
    var id := s.reserved[task];
    var e := Entry(id, callback, started, timeout);
    var pushed := Step(s, Push(task, callback, started, timeout)).value;
    var s' := Execute(pushed, between).value;
    PushIssues(s, task, callback, started, timeout);
    IssuedGrows(pushed, between);
    InitialInv(poller);
    RunKeepsInv(INITIAL, before, poller);
    PushedWaits(s, task, callback, started, timeout, poller);
    StepKeepsInv(s, Push(task, callback, started, timeout), poller);
    WaitsRun(pushed, between, poller, e);
    var answer := M.AckReply(id, Some(M.Collapse(M.Parts(reply))));
    M.SamePayload(payload);
    M.SamePayload(reply);
    E.EmitEndToEnd(out, nsp, event, payload, Some(id));
    E.AckEndToEnd(back, nsp, reply, id);
    ReplyHandled(s', poller, e, answer.payload);
    NoCallTwice(s', poller, e, answer.payload);
  }

  lemma PushIssues(s: State, task: Task, callback: Callback, started: nat, timeout: nat)
    requires Step(s, Push(task, callback, started, timeout)).Some?
    ensures Step(s, Push(task, callback, started, timeout)).value.issued == s.issued
  {
  }

  lemma InitialInv(poller: Task)
    ensures Inv(INITIAL, poller)
  {
  }

  lemma NoCallTwice(s: State, poller: Task, e: Entry, payload: Option<M.Payload>)
    requires Inv(s, poller) && s.issued <= IDS
    requires Execute(s, [Scan(poller, e.id, payload), Remove(poller)]).Some?
    requires Execute(s, [Scan(poller, e.id, payload), Remove(poller)]).value.issued <= IDS
    ensures var r := Execute(s, [Scan(poller, e.id, payload), Remove(poller)]).value;
            forall k, l | 0 <= k < l < |r.calls| :: r.calls[k].entry.id != r.calls[l].entry.id
  {
    hide Step, Execute, IdsAccounted, Registered;
    RunKeepsInv(s, [Scan(poller, e.id, payload), Remove(poller)], poller);
  }
}

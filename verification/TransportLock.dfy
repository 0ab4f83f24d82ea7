/**
 Any number of tasks sharing one Engine.IO socket: `emit`, `emit_multi` and
 `upgrade` of engineio/src/socket/socket.rs as interleaved steps under the
 transport lock. Each step is acquiring the lock, sending one packet, replacing
 the transport, or releasing the lock.
 */
module TransportLock {
  import opened Wrappers
  import opened Bytes
  import E = EnginePacket
  import EndToEnd
  import R = Reassembly
  import S = SocketPacket
  import T = Transports

  type Task = nat
  type TransportId = nat

  /** What a task wants the lock for. */
  datatype Job = Send(group: seq<E.Packet>) | Upgrade(target: TransportId)

  datatype Lock = Free | Sending(task: Task, group: seq<E.Packet>, sent: nat) | Upgrading(task: Task, target: TransportId)

  /** A group that was sent, and the transport it went to. */
  datatype Entry = Entry(transport: TransportId, group: seq<E.Packet>)

  datatype State = State(
    current: TransportId,
    lock: Lock,
    wires: map<TransportId, seq<E.Packet>>,
    log: seq<Entry>
  )

  datatype Action = Acquire(task: Task, job: Job) | Push(task: Task) | Swap(task: Task) | Release(task: Task)

  function WireAt(s: State, t: TransportId): seq<E.Packet> {
    if t in s.wires then s.wires[t] else []
  }

  /** One step of one task; `None` if the step is not possible. */
  function Step(s: State, a: Action): Option<State> {
    match a
    case Acquire(task, job) =>
      if s.lock != Free then None
      else (match job
            case Send(group) => Some(s.(lock := Sending(task, group, 0)))
            case Upgrade(target) => Some(s.(lock := Upgrading(task, target))))
    case Push(task) =>
      if s.lock.Sending? && s.lock.task == task && s.lock.sent < |s.lock.group| then
        Some(s.(lock := s.lock.(sent := s.lock.sent + 1),
                wires := s.wires[s.current := WireAt(s, s.current) + [s.lock.group[s.lock.sent]]]))
      else
        None
    case Swap(task) =>
      if s.lock.Upgrading? && s.lock.task == task then Some(s.(current := s.lock.target)) else None
    case Release(task) =>
      if s.lock.Sending? && s.lock.task == task && s.lock.sent == |s.lock.group| then
        Some(s.(lock := Free, log := s.log + [Entry(s.current, s.lock.group)]))
      else if s.lock.Upgrading? && s.lock.task == task && s.current == s.lock.target then
        Some(s.(lock := Free))
      else
        None
  }

  function Execute(s: State, actions: seq<Action>): Option<State>
    decreases |actions|
  {
    if actions == [] then
      Some(s)
    else
      var next :- Step(s, actions[0]);
      Execute(next, actions[1..])
  }

  const INITIAL := State(0, Free, map[], [])

  /** The groups that went to a transport, in order. */
  function GroupsOn(entries: seq<Entry>, t: TransportId): seq<seq<E.Packet>> {
    if entries == [] then []
    else
      var n := |entries| - 1;
      GroupsOn(entries[..n], t) + if entries[n].transport == t then [entries[n].group] else []
  }

  lemma GroupsOnStep(entries: seq<Entry>, e: Entry, t: TransportId)
    ensures GroupsOn(entries + [e], t) == GroupsOn(entries, t) + if e.transport == t then [e.group] else []
    ensures Flatten(GroupsOn(entries + [e], t)) == Flatten(GroupsOn(entries, t)) + if e.transport == t then e.group else []
  {
    assert (entries + [e])[..|entries|] == entries;
    if e.transport == t {
      FlattenConcat(GroupsOn(entries, t), [e.group]);
      assert [e.group][1..] == [] && Flatten([e.group]) == e.group;
    } else {
      assert GroupsOn(entries, t) + [] == GroupsOn(entries, t);
    }
  }

  /** The part of the lock holder's group that is already on the wire. */
  function Begun(s: State, t: TransportId): seq<E.Packet> {
    if s.lock.Sending? && s.current == t && s.lock.sent <= |s.lock.group| then s.lock.group[..s.lock.sent] else []
  }

  /** Every wire holds whole groups, in lock order, and then the part of the lock holder's group sent so far. */
  ghost predicate Atomic(s: State) {
    && (s.lock.Sending? ==> s.lock.sent <= |s.lock.group|)
    && forall t: TransportId :: WireAt(s, t) == Flatten(GroupsOn(s.log, t)) + Begun(s, t)
  }

  lemma StepKeepsAtomic(s: State, a: Action)
    requires Atomic(s) && Step(s, a).Some?
    ensures Atomic(Step(s, a).value)
  {
    hide Flatten, GroupsOn;
    var s' := Step(s, a).value;
    forall t: TransportId
      ensures WireAt(s', t) == Flatten(GroupsOn(s'.log, t)) + Begun(s', t)
    {
      assert WireAt(s, t) == Flatten(GroupsOn(s.log, t)) + Begun(s, t);
      match a
      case Acquire(task, job) =>
        assert Begun(s', t) == [] && Begun(s, t) == [];
      case Push(task) => PushKeepsWire(s, task, t);
      case Swap(task) =>
      case Release(task) =>
        if s.lock.Sending? {
          GroupsOnStep(s.log, Entry(s.current, s.lock.group), t);
          assert s.lock.group[..s.lock.sent] == s.lock.group;
        }
    }
  }

  lemma PushKeepsWire(s: State, task: Task, t: TransportId)
    requires Step(s, Push(task)).Some? && WireAt(s, t) == Flatten(GroupsOn(s.log, t)) + Begun(s, t)
    ensures var s' := Step(s, Push(task)).value; WireAt(s', t) == Flatten(GroupsOn(s'.log, t)) + Begun(s', t)
  {
    hide Flatten, GroupsOn;
    if t == s.current {
      var g, n := s.lock.group, s.lock.sent;
      assert g[..n + 1] == g[..n] + [g[n]];
    }
  }

  lemma {:induction false} RunsAreAtomic(s: State, actions: seq<Action>)
    requires Atomic(s) && Execute(s, actions).Some?
    ensures Atomic(Execute(s, actions).value)
    decreases |actions|
  {
    hide Atomic, Step;
    if actions != [] {
      StepKeepsAtomic(s, actions[0]);
      RunsAreAtomic(Step(s, actions[0]).value, actions[1..]);
    }
  }

  // The log and the run.

  /** The groups that a run takes the lock for, in that order, with the transport that is current then. */
  function Jobs(actions: seq<Action>, current: TransportId): seq<Entry>
    decreases |actions|
  {
    if actions == [] then []
    else if !actions[0].Acquire? then Jobs(actions[1..], current)
    else match actions[0].job
      case Send(group) => [Entry(current, group)] + Jobs(actions[1..], current)
      case Upgrade(target) => Jobs(actions[1..], target)
  }

  /** The lock holder's group, if a sender holds the lock. */
  function Held(s: State): seq<Entry> {
    if s.lock.Sending? then [Entry(s.current, s.lock.group)] else []
  }

  /** The transport that is current once the lock is free again. */
  function Next(s: State): TransportId {
    if s.lock.Upgrading? then s.lock.target else s.current
  }

  lemma {:induction false} LogIsJobs(s: State, actions: seq<Action>)
    requires Execute(s, actions).Some?
    ensures var s' := Execute(s, actions).value; s'.log + Held(s') == s.log + Held(s) + Jobs(actions, Next(s))
    decreases |actions|
  {
    if actions != [] {
      LogIsJobs(Step(s, actions[0]).value, actions[1..]);
    }
  }

  /** The groups that are complete on their wire: the finished ones, and the lock holder's after its last packet. */
  function Whole(s: State): seq<Entry> {
    s.log + if s.lock.Sending? && s.lock.sent == |s.lock.group| then Held(s) else []
  }

  /** The lock holder's group while it is not complete. */
  function Partial(s: State, t: TransportId): seq<E.Packet> {
    if s.lock.Sending? && s.lock.sent < |s.lock.group| then Begun(s, t) else []
  }

  lemma WholeWire(s: State, t: TransportId)
    requires Atomic(s)
    ensures WireAt(s, t) == Flatten(GroupsOn(Whole(s), t)) + Partial(s, t)
  {
    hide Flatten, GroupsOn;
    assert WireAt(s, t) == Flatten(GroupsOn(s.log, t)) + Begun(s, t);
    if s.lock.Sending? && s.lock.sent == |s.lock.group| {
      GroupsOnStep(s.log, Entry(s.current, s.lock.group), t);
      assert s.lock.group[..s.lock.sent] == s.lock.group;
    } else {
      assert s.log + [] == s.log;
    }
  }

  /**
   Group atomicity, for every interleaving: on every transport the packets are
   whole groups, namely those the run took the lock for while that transport was
   current, in that order, and then a proper beginning of at most one more, the
   last one the run took the lock for.
   */
  lemma GroupAtomicity(actions: seq<Action>, t: TransportId)
    requires Execute(INITIAL, actions).Some?
    ensures var s, jobs := Execute(INITIAL, actions).value, Jobs(actions, INITIAL.current);
            && Whole(s) <= jobs && |jobs| <= |Whole(s)| + 1
            && WireAt(s, t) == Flatten(GroupsOn(Whole(s), t)) + Partial(s, t)
            && (Partial(s, t) != [] ==>
                  |Whole(s)| < |jobs| && jobs[|Whole(s)|].transport == t && Partial(s, t) < jobs[|Whole(s)|].group)
  {
    hide Flatten, GroupsOn, Jobs, Execute;
    assert Atomic(INITIAL) by {
      NothingSent();
    }
    RunsAreAtomic(INITIAL, actions);
    var s := Execute(INITIAL, actions).value;
    LogIsJobs(INITIAL, actions);
    assert INITIAL.log + Held(INITIAL) == [];
    WholeWire(s, t);
    if s.lock.Sending? && s.lock.sent < |s.lock.group| {
      assert Jobs(actions, INITIAL.current) == s.log + [Entry(s.current, s.lock.group)];
    }
  }

  lemma NothingSent()
    ensures Atomic(INITIAL)
  {
  }

  /** The steps of one `emit_multi` on its own. */
  function Section(task: Task, group: seq<E.Packet>): seq<Action> {
    [Acquire(task, Send(group))] + Pushes(task, |group|) + [Release(task)]
  }

  function Pushes(task: Task, n: nat): seq<Action> {
    if n == 0 then [] else [Push(task)] + Pushes(task, n - 1)
  }

  /** From a free lock the steps of one sender append its group to the current transport and to the log: the sequential view. */
  lemma SectionSends(s: State, task: Task, group: seq<E.Packet>)
    requires s.lock.Free?
    ensures Execute(s, Section(task, group)).Some?
    ensures var s' := Execute(s, Section(task, group)).value;
            && s'.lock.Free? && s'.current == s.current && s'.log == s.log + [Entry(s.current, group)]
            && forall t: TransportId :: WireAt(s', t) == WireAt(s, t) + if t == s.current then group else []
  {
    var start := s.(lock := Sending(task, group, 0));
    var rest := Pushes(task, |group|) + [Release(task)];
    assert Section(task, group) == [Acquire(task, Send(group))] + rest;
    assert Section(task, group)[1..] == rest;
    PushesSend(start, task, [Release(task)]);
  }

  lemma {:induction false} PushesSend(s: State, task: Task, after: seq<Action>)
    requires s.lock.Sending? && s.lock.task == task && s.lock.sent <= |s.lock.group|
    requires after == [Release(task)]
    ensures var actions := Pushes(task, |s.lock.group| - s.lock.sent) + after;
            var r := Execute(s, actions);
            && r.Some? && r.value.lock.Free? && r.value.current == s.current
            && r.value.log == s.log + [Entry(s.current, s.lock.group)]
            && forall t: TransportId ::
                 WireAt(r.value, t) == WireAt(s, t) + if t == s.current then s.lock.group[s.lock.sent..] else []
    decreases |s.lock.group| - s.lock.sent
  {
    var left := |s.lock.group| - s.lock.sent;
    var actions := Pushes(task, left) + after;
    if left == 0 {
      assert actions == [Release(task)] && actions[1..] == [];
      assert s.lock.group[s.lock.sent..] == [];
    } else {
      var s' := Step(s, Push(task)).value;
      assert actions == [Push(task)] + (Pushes(task, left - 1) + after);
      assert actions[1..] == Pushes(task, left - 1) + after;
      PushesSend(s', task, after);
      var g, n := s.lock.group, s.lock.sent;
      assert g[n..] == [g[n]] + g[n + 1..];
    }
  }

  // What the receiver at the other end of a transport makes of its wire.

  function Attachments(p: S.Packet): seq<bytes> {
    if p.attachments.Some? then p.attachments.value else []
  }

  /** A packet in the domain of the codec whose count is the number of its attachments. */
  predicate ProperPacket(p: S.Packet) {
    S.Representable(p) && S.Encodable(p) && p.count == |Attachments(p)|
  }

  /** How such a packet looks when it is received. */
  function ReceivedAs(p: S.Packet): S.Packet {
    p.(attachments := if p.count > 0 then p.attachments else None)
  }

  predicate IsControl(group: seq<E.Packet>) {
    |group| == 1 && !R.IsMessage(group[0])
  }

  /** Groups worth sending: one packet that is no message, or a Socket.IO packet with all its attachments. */
  ghost predicate Proper(group: seq<E.Packet>) {
    IsControl(group) || exists p: S.Packet :: ProperPacket(p) && group == EndToEnd.GroupOf(p)
  }

  /** The Socket.IO packet of a group, as it is received. */
  ghost function PacketIn(group: seq<E.Packet>): seq<S.Packet>
    requires Proper(group)
  {
    if IsControl(group) then []
    else var p: S.Packet :| ProperPacket(p) && group == EndToEnd.GroupOf(p); [ReceivedAs(p)]
  }

  ghost predicate AllProper(groups: seq<seq<E.Packet>>) {
    forall i | 0 <= i < |groups| :: Proper(groups[i])
  }

  ghost function PacketsIn(groups: seq<seq<E.Packet>>): seq<S.Packet>
    requires AllProper(groups)
  {
    if groups == [] then [] else PacketIn(groups[0]) + PacketsIn(groups[1..])
  }

  lemma GroupSound(channel: T.Channel, p: S.Packet)
    requires ProperPacket(p)
    ensures R.IsGroupOf(EndToEnd.AllArrived(channel, EndToEnd.GroupOf(p)), ReceivedAs(p))
  {
    hide S.PacketBytes, S.PacketOf, S.Encodable, S.Representable;
    S.CodecRoundTrip(p);
    var g := EndToEnd.AllArrived(channel, EndToEnd.GroupOf(p));
    forall i | 0 <= i < |g|
      ensures R.IsMessage(g[i])
      ensures g[i].data == if i == 0 then S.PacketBytes(p) else Attachments(p)[i - 1]
    {
      assert i > 0 ==> EndToEnd.GroupOf(p)[i] == E.Packet(E.MessageBinary, Attachments(p)[i - 1]);
    }
  }

  /** A proper group is received as its packet; a proper beginning of it as nothing yet, without an error. */
  lemma GroupRead(channel: T.Channel, group: seq<E.Packet>, n: nat)
    requires Proper(group) && n <= |group|
    ensures n == |group| ==> R.Run(R.Idle, EndToEnd.AllArrived(channel, group)) == (R.Idle, PacketIn(group))
    ensures n < |group| ==>
              var r := R.Run(R.Idle, EndToEnd.AllArrived(channel, group)[..n]); r.1 == [] && !r.0.Failed?
  {
    hide R.Run, R.IsGroupOf, ReceivedAs, ProperPacket, R.Step;
    var arrived := EndToEnd.AllArrived(channel, group);
    assert arrived[..|arrived|] == arrived;
    if IsControl(group) {
      assert arrived == [group[0]] by {
        ControlArrives(channel, group[0]);
      }
      R.SegmentReceived(R.Control(group[0]));
      R.RunNothing(R.Idle);
    } else {
      var p :| ProperPacket(p) && group == EndToEnd.GroupOf(p) && PacketIn(group) == [ReceivedAs(p)];
      GroupSound(channel, p);
      R.GroupReceived(arrived, ReceivedAs(p), n);
    }
  }

  lemma ControlArrives(channel: T.Channel, p: E.Packet)
    requires !R.IsMessage(p)
    ensures T.Arrived(channel, p) == p
  {
  }

  lemma ArrivedConcat(channel: T.Channel, a: seq<E.Packet>, b: seq<E.Packet>)
    ensures EndToEnd.AllArrived(channel, a + b) == EndToEnd.AllArrived(channel, a) + EndToEnd.AllArrived(channel, b)
  {
    hide T.Arrived;
  }

  lemma {:induction false} GroupsRead(channel: T.Channel, groups: seq<seq<E.Packet>>)
    requires AllProper(groups)
    ensures R.Run(R.Idle, EndToEnd.AllArrived(channel, Flatten(groups))) == (R.Idle, PacketsIn(groups))
  {
    hide Proper, PacketIn, R.Run, EndToEnd.AllArrived;
    if groups == [] {
      NothingArrives(channel);
    } else {
      var rest := EndToEnd.AllArrived(channel, Flatten(groups[1..]));
      GroupRead(channel, groups[0], |groups[0]|);
      GroupsRead(channel, groups[1..]);
      ArrivedConcat(channel, groups[0], Flatten(groups[1..]));
      R.RunConcat(R.Idle, EndToEnd.AllArrived(channel, groups[0]), rest);
    }
  }

  lemma NothingArrives(channel: T.Channel)
    ensures R.Run(R.Idle, EndToEnd.AllArrived(channel, [])) == (R.Idle, [])
  {
    assert EndToEnd.AllArrived(channel, []) == [];
  }

  lemma {:induction false} GroupsOnPrefix(entries: seq<Entry>, more: seq<Entry>, t: TransportId)
    ensures GroupsOn(entries, t) <= GroupsOn(entries + more, t)
  {
    if more == [] {
      assert entries + more == entries;
    } else {
      var n := |more| - 1;
      assert (entries + more)[..|entries| + n] == entries + more[..n];
      GroupsOnPrefix(entries, more[..n], t);
    }
  }

  lemma WholeGroups(actions: seq<Action>, t: TransportId)
    requires Execute(INITIAL, actions).Some?
    ensures var s, jobs := Execute(INITIAL, actions).value, Jobs(actions, INITIAL.current);
            && GroupsOn(Whole(s), t) <= GroupsOn(jobs, t)
            && (Partial(s, t) != [] ==> exists g <- GroupsOn(jobs, t) :: Partial(s, t) < g)
  {
    hide Execute, Jobs, Whole, Partial, Flatten;
    var s, jobs := Execute(INITIAL, actions).value, Jobs(actions, INITIAL.current);
    GroupAtomicity(actions, t);
    var whole := Whole(s);
    assert jobs == whole + jobs[|whole|..];
    GroupsOnPrefix(whole, jobs[|whole|..], t);
    if Partial(s, t) != [] {
      assert jobs == whole + [jobs[|whole|]];
      var g := jobs[|whole|].group;
      GroupsOnStep(whole, jobs[|whole|], t);
      assert GroupsOn(jobs, t) == GroupsOn(whole, t) + [g];
      assert g in GroupsOn(jobs, t) && Partial(s, t) < g;
    }
  }

  /**
   For every interleaving, and for every transport to which only proper groups are
   sent: the receiver at its other end, reading what is on the wire so far, has met
   no error, least of all an invalid attachment, and has got exactly the packets of
   the groups that are complete, in the order in which the run took the lock.
   */
  lemma WireIsReceived(channel: T.Channel, actions: seq<Action>, t: TransportId)
    requires Execute(INITIAL, actions).Some? && AllProper(GroupsOn(Jobs(actions, INITIAL.current), t))
    ensures var s := Execute(INITIAL, actions).value;
            && AllProper(GroupsOn(Whole(s), t))
            && var (receiver, packets) := R.Run(R.Idle, EndToEnd.AllArrived(channel, WireAt(s, t)));
               !receiver.Failed? && packets == PacketsIn(GroupsOn(Whole(s), t))
  {
    hide Execute, Jobs, Whole, Partial, Flatten, GroupsOn, Proper, PacketsIn, R.Run, EndToEnd.AllArrived, WireAt;
    var s := Execute(INITIAL, actions).value;
    WholeGroups(actions, t);
    GroupAtomicity(actions, t);
    var groups := GroupsOn(Whole(s), t);
    assert AllProper(groups) by {
      var all := GroupsOn(Jobs(actions, INITIAL.current), t);
      assert forall i | 0 <= i < |groups| :: groups[i] == all[i];
    }
    GroupsRead(channel, groups);
    var whole, part := Flatten(groups), Partial(s, t);
    ArrivedConcat(channel, whole, part);
    R.RunConcat(R.Idle, EndToEnd.AllArrived(channel, whole), EndToEnd.AllArrived(channel, part));
    PartRead(channel, actions, t);
    assert PacketsIn(groups) + [] == PacketsIn(groups);
  }

  lemma PartRead(channel: T.Channel, actions: seq<Action>, t: TransportId)
    requires Execute(INITIAL, actions).Some? && AllProper(GroupsOn(Jobs(actions, INITIAL.current), t))
    ensures var s := Execute(INITIAL, actions).value;
            var r := R.Run(R.Idle, EndToEnd.AllArrived(channel, Partial(s, t)));
            r.1 == [] && !r.0.Failed?
  {
    hide Execute, Jobs, Whole, Partial, GroupsOn, Proper, R.Run;
    var part := Partial(Execute(INITIAL, actions).value, t);
    if part == [] {
      NothingArrives(channel);
    } else {
      WholeGroups(actions, t);
      var g :| g in GroupsOn(Jobs(actions, INITIAL.current), t) && part < g;
      GroupRead(channel, g, |part|);
      assert EndToEnd.AllArrived(channel, g)[..|part|] == EndToEnd.AllArrived(channel, part);
    }
  }

  /** On its own, a task that upgrades makes its transport the current one, and changes nothing else. */
  lemma UpgradeSection(s: State, task: Task, target: TransportId)
    requires s.lock.Free?
    ensures Execute(s, [Acquire(task, Upgrade(target)), Swap(task), Release(task)]) == Some(s.(current := target))
  {
    var actions := [Acquire(task, Upgrade(target)), Swap(task), Release(task)];
    assert actions[1..] == [Swap(task), Release(task)] && actions[1..][1..] == [Release(task)] && actions[1..][1..][1..] == [];
    var s1 := s.(lock := Upgrading(task, target));
    var s2 := s1.(current := target);
    assert Step(s, actions[0]) == Some(s1) && Step(s1, Swap(task)) == Some(s2) && Step(s2, Release(task)) == Some(s.(current := target));
    assert Execute(s2, [Release(task)]) == Execute(s.(current := target), []);
    assert Execute(s1, actions[1..]) == Execute(s2, actions[1..][1..]);
  }

  /** While a task holds the lock, no other can take it, send, replace the transport or release it. */
  lemma LockExcludes(s: State, a: Action)
    requires s.lock.Sending? || s.lock.Upgrading?
    requires a.Acquire? || a.task != s.lock.task
    ensures Step(s, a) == None
  {
  }
}

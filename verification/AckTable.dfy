/**
 Outstanding acknowledgements: `emit_with_ack` and `handle_ack` in
 socketio/src/socket.rs and `AckIdGenerator` in socketio/src/packet.rs.
 */
module AckTable {
  import opened Wrappers
  import M = Messages

  /** Ids are `usize` and wrap around. */
  const IDS: nat := 0x1_0000_0000_0000_0000

  type Callback = nat

  datatype Entry = Entry(id: nat, callback: Callback, started: nat, timeout: nat)

  /** A run of an entry's callback with the payload of a reply, and when that was. */
  datatype Call = Call(entry: Entry, payload: Option<M.Payload>, at: nat)

  function Elapsed(e: Entry, now: nat): nat {
    if now >= e.started then now - e.started else 0
  }

  predicate InTime(e: Entry, now: nat) {
    Elapsed(e, now) < e.timeout
  }

  /** The positions of the entries with a given id, in order. */
  function Matches(table: seq<Entry>, id: nat): seq<nat> {
    if table == [] then []
    else
      var n := |table| - 1;
      Matches(table[..n], id) + if table[n].id == id then [n] else []
  }

  /** The callbacks a reply runs: those of matching entries that have not timed out. */
  function Calls(table: seq<Entry>, id: nat, payload: Option<M.Payload>, now: nat): seq<Call> {
    if table == [] then []
    else
      var n := |table| - 1;
      var e := table[n];
      Calls(table[..n], id, payload, now) + if e.id == id && InTime(e, now) then [Call(e, payload, now)] else []
  }

  /** The entries with other ids, in order. */
  function Without(table: seq<Entry>, id: nat): seq<Entry> {
    if table == [] then []
    else
      var n := |table| - 1;
      Without(table[..n], id) + if table[n].id == id then [] else [table[n]]
  }

  function RemoveAt(table: seq<Entry>, i: nat): seq<Entry>
    requires i < |table|
  {
    table[..i] + table[i + 1..]
  }

  /** Removing positions one after the other, each in what the ones before have left; `None` if one is out of bounds. */
  function RemoveEach(table: seq<Entry>, indices: seq<nat>): Option<seq<Entry>>
    decreases |indices|
  {
    if indices == [] then Some(table)
    else if indices[0] >= |table| then None
    else RemoveEach(RemoveAt(table, indices[0]), indices[1..])
  }

  predicate Distinct(table: seq<Entry>) {
    forall i, j | 0 <= i < j < |table| :: table[i].id != table[j].id
  }

  lemma {:induction false} MatchesAreMatches(table: seq<Entry>, id: nat)
    ensures forall i <- Matches(table, id) :: i < |table| && table[i].id == id
    ensures forall i: nat | i < |table| :: table[i].id == id ==> i in Matches(table, id)
    ensures forall k, l | 0 <= k < l < |Matches(table, id)| :: Matches(table, id)[k] < Matches(table, id)[l]
  {
    if table != [] {
      var n := |table| - 1;
      var before := Matches(table[..n], id);
      MatchesAreMatches(table[..n], id);
      forall i <- before
        ensures i < n && table[i].id == id
      {
        assert i < |table[..n]| && table[..n][i].id == id;
      }
      forall i: nat | i < n && table[i].id == id
        ensures i in before
      {
        assert table[..n][i].id == id;
      }
      forall k | 0 <= k < |before|
        ensures before[k] < n
      {
        assert before[k] in before;
      }
    }
  }

  lemma MatchesMatch(table: seq<Entry>, id: nat)
    ensures var r := Matches(table, id);
            && (forall k | 0 <= k < |r| :: r[k] < |table| && table[r[k]].id == id)
            && (forall k, l | 0 <= k < l < |r| :: r[k] < r[l])
            && (forall i: nat | i < |table| :: table[i].id == id ==> i in r)
  {
    MatchesAreMatches(table, id);
    var r := Matches(table, id);
    forall k | 0 <= k < |r|
      ensures r[k] < |table| && table[r[k]].id == id
    {
      assert r[k] in r;
    }
  }

  lemma FirstMatch(table: seq<Entry>, id: nat)
    ensures Matches(table, id) != [] ==> Matches(table, id)[0] < |table| && table[Matches(table, id)[0]].id == id
  {
    MatchesAreMatches(table, id);
    var r := Matches(table, id);
    assert r != [] ==> r[0] in r;
  }

  /** What is left without an id: exactly the entries with other ids. */
  lemma {:induction false} WithoutMeans(table: seq<Entry>, id: nat, e: Entry)
    ensures e in Without(table, id) <==> e in table && e.id != id
  {
    if table != [] {
      WithoutMeans(table[..|table| - 1], id, e);
      assert table == table[..|table| - 1] + [table[|table| - 1]];
    }
  }

  lemma {:induction false} NoMatch(table: seq<Entry>, id: nat)
    requires forall i | 0 <= i < |table| :: table[i].id != id
    ensures Without(table, id) == table && Matches(table, id) == []
  {
    if table != [] {
      var n := |table| - 1;
      var before := table[..n];
      assert forall i | 0 <= i < n :: before[i] == table[i];
      NoMatch(before, id);
      assert table == before + [table[n]];
    }
  }

  lemma NoneBefore(table: seq<Entry>, id: nat)
    requires Matches(table, id) == []
    ensures Without(table, id) == table
  {
    MatchesMatch(table, id);
    NoMatch(table, id);
  }

  lemma {:induction false} OneMatch(table: seq<Entry>, id: nat)
    requires |Matches(table, id)| == 1
    ensures Matches(table, id)[0] < |table| && Without(table, id) == RemoveAt(table, Matches(table, id)[0])
  {
    var n, m := |table| - 1, Matches(table, id);
    if table[n].id == id {
      NoneBefore(table[..n], id);
      assert RemoveAt(table, n) == table[..n];
    } else {
      OneMatch(table[..n], id);
      assert m == Matches(table[..n], id);
      assert RemoveAt(table, m[0]) == RemoveAt(table[..n], m[0]) + [table[n]];
    }
  }

  /** Removals behind a position leave it alone. */
  lemma {:induction false} RemovalsBehind(table: seq<Entry>, indices: seq<nat>, i: nat)
    requires i < |table| && forall k | 0 <= k < |indices| :: i < indices[k]
    ensures var r := RemoveEach(table, indices); r.Some? ==> i < |r.value| && r.value[i] == table[i]
    decreases |indices|
  {
    if indices != [] && indices[0] < |table| {
      RemovalsBehind(RemoveAt(table, indices[0]), indices[1..], i);
    }
  }

  /**
   The removal loop uses positions of the list as it was before the first
   removal: it removes exactly the matching entries if and only if there is at
   most one.
   */
  lemma RemovalExact(table: seq<Entry>, id: nat)
    ensures RemoveEach(table, Matches(table, id)) == Some(Without(table, id)) <==> |Matches(table, id)| <= 1
  {
    var m := Matches(table, id);
    MatchesMatch(table, id);
    if |m| == 0 {
      NoMatch(table, id);
    } else if |m| == 1 {
      OneMatch(table, id);
      assert m[1..] == [];
    } else {
      SecondMatchStays(table, m);
      WithoutMeans(table, id, table[m[1]]);
    }
  }

  /** With two positions or more, the entry at the second one is never removed. */
  lemma SecondMatchStays(table: seq<Entry>, m: seq<nat>)
    requires |m| >= 2 && m[|m| - 1] < |table| && forall k, l | 0 <= k < l < |m| :: m[k] < m[l]
    ensures var r := RemoveEach(table, m); r.Some? ==> m[1] - 1 < |r.value| && r.value[m[1] - 1] == table[m[1]]
  {
    var once := RemoveAt(table, m[0]);
    assert once[m[1] - 1] == table[m[1]];
    RemovalsBehind(once, m[1..], m[1] - 1);
  }

  lemma DistinctMatches(table: seq<Entry>, id: nat)
    ensures Distinct(table) ==> |Matches(table, id)| <= 1
  {
    MatchesMatch(table, id);
    var m := Matches(table, id);
    if |m| >= 2 {
      assert m[0] < m[1] && table[m[0]].id == table[m[1]].id;
    }
  }

  lemma {:induction false} CallsOfMatch(table: seq<Entry>, id: nat, payload: Option<M.Payload>, now: nat)
    ensures |Calls(table, id, payload, now)| <= |Matches(table, id)|
    ensures forall c <- Calls(table, id, payload, now) ::
              && c.entry in table && c.entry.id == id && c.payload == payload && c.at == now
              && (c.entry.started <= now ==> now < c.entry.started + c.entry.timeout)
  {
    if table != [] {
      CallsOfMatch(table[..|table| - 1], id, payload, now);
    }
  }

  /** The first `n` ids of a new generator. */
  function Ids(n: nat): (ids: seq<nat>)
    ensures |ids| == n
  {
    seq(n, i requires 0 <= i < n => i % IDS)
  }

  class AckIdGenerator {
    var seqNo: nat
    ghost var generated: nat

    ghost predicate Valid()
      reads this
    {
      seqNo == generated % IDS
    }

    constructor ()
      ensures Valid() && generated == 0
    {
      seqNo, generated := 0, 0;
    }

    /** The next id of `Ids`. */
    method Generate() returns (id: nat)
      requires Valid()
      modifies this
      ensures Valid() && generated == old(generated) + 1
      ensures Ids(generated) == Ids(old(generated)) + [id]
    {
      id := seqNo;
      seqNo := (seqNo + 1) % IDS;
      generated := generated + 1;
    }
  }

  /** The part of a socket that deals with acknowledgements. */
  class Acks {
    const generator: AckIdGenerator
    var outstanding: seq<Entry>
    var calls: seq<Call>

    constructor ()
      ensures fresh(generator) && generator.Valid() && generator.generated == 0
      ensures outstanding == [] && calls == []
    {
      generator := new AckIdGenerator();
      outstanding := [];
      calls := [];
    }

    /** Registers a callback under the next id; the packet with that id is sent afterwards. */
    method Register(callback: Callback, timeout: nat, now: nat) returns (id: nat)
      requires generator.Valid()
      modifies this`outstanding, generator
      ensures generator.Valid() && generator.generated == old(generator.generated) + 1
      ensures Ids(generator.generated) == Ids(old(generator.generated)) + [id]
      ensures outstanding == old(outstanding) + [Entry(id, callback, now, timeout)]
    {
      id := generator.Generate();
      outstanding := outstanding + [Entry(id, callback, now, timeout)];
    }

    /** The first phase: finds the matching entries and runs their callbacks if they are in time. */
    method Scan(id: nat, payload: Option<M.Payload>, now: nat) returns (toBeRemoved: seq<nat>)
      modifies this`calls
      ensures toBeRemoved == Matches(outstanding, id)
      ensures calls == old(calls) + Calls(outstanding, id, payload, now)
    {
      toBeRemoved := [];
      for index := 0 to |outstanding|
        invariant toBeRemoved == Matches(outstanding[..index], id)
        invariant calls == old(calls) + Calls(outstanding[..index], id, payload, now)
      {
        var ack := outstanding[index];
        var seen := outstanding[..index + 1];
        assert seen[..index] == outstanding[..index];
        if ack.id == id {
          toBeRemoved := toBeRemoved + [index];
          if Elapsed(ack, now) < ack.timeout {
            calls := calls + [Call(ack, payload, now)];
          }
        }
      }
      assert outstanding[..|outstanding|] == outstanding;
    }

    /** The second phase; `false` stands for the panic of an index out of bounds. */
    method RemoveAll(toBeRemoved: seq<nat>) returns (ok: bool)
      modifies this`outstanding
      ensures ok == RemoveEach(old(outstanding), toBeRemoved).Some?
      ensures ok ==> outstanding == RemoveEach(old(outstanding), toBeRemoved).value
    {
      for k := 0 to |toBeRemoved|
        invariant RemoveEach(old(outstanding), toBeRemoved) == RemoveEach(outstanding, toBeRemoved[k..])
      {
        var index := toBeRemoved[k];
        if index >= |outstanding| {
          return false;
        }
        assert toBeRemoved[k..][1..] == toBeRemoved[k + 1..];
        outstanding := outstanding[..index] + outstanding[index + 1..];
      }
      return true;
    }

    /**
     Both phases with nothing in between. With distinct ids this never panics,
     removes the entry of that id and nothing else, and runs at most one callback.
     */
    method HandleAck(packetId: Option<nat>, payload: Option<M.Payload>, now: nat) returns (ok: bool)
      modifies this`outstanding, this`calls
      ensures packetId.None? ==> ok && outstanding == old(outstanding) && calls == old(calls)
      ensures packetId.Some? ==> calls == old(calls) + Calls(old(outstanding), packetId.value, payload, now)
      ensures packetId.Some? && Distinct(old(outstanding)) ==>
                ok && outstanding == Without(old(outstanding), packetId.value) && |calls| <= |old(calls)| + 1
      ensures packetId.Some? && Distinct(old(outstanding)) ==>
                forall e <- old(outstanding) | e.id == packetId.value && e.started <= now ::
                  calls == old(calls) + if now < e.started + e.timeout then [Call(e, payload, now)] else []
    {
      if packetId.None? {
        return true;
      }
      var toBeRemoved := Scan(packetId.value, payload, now);
      ok := RemoveAll(toBeRemoved);
      RemovalExact(old(outstanding), packetId.value);
      if Distinct(old(outstanding)) {
        DistinctMatches(old(outstanding), packetId.value);
        CallsOfMatch(old(outstanding), packetId.value, payload, now);
        forall i | 0 <= i < |old(outstanding)| && old(outstanding)[i].id == packetId.value && old(outstanding)[i].started <= now
          ensures var e := old(outstanding)[i];
                  Calls(old(outstanding), e.id, payload, now) ==
                  if now < e.started + e.timeout then [Call(e, payload, now)] else []
        {
          ReplyRunsCallback(old(outstanding), i, payload, now);
        }
      }
    }
  }

  /** The ids of the first `n` calls of `Generate` are pairwise distinct exactly until the counter wraps around. */
  lemma IdsDistinctUntilWrap(n: nat)
    ensures (forall i, j | 0 <= i < j < n :: Ids(n)[i] != Ids(n)[j]) <==> n <= 0x1_0000_0000_0000_0000
  {
    var ids := Ids(n);
    if n > IDS {
      assert ids[0] == ids[IDS];
    } else {
      forall i, j | 0 <= i < j < n
        ensures ids[i] != ids[j]
      {
        assert i % IDS == i && j % IDS == j;
      }
    }
  }

  // Whole runs: any number of emitting tasks, and tasks that handle replies.

  type Task = nat

  datatype State = State(
    issued: nat,                  // how many ids were generated
    reserved: map<Task, nat>,     // ids generated but not yet in the table
    table: seq<Entry>,
    registered: map<Task, nat>,   // ids in the table whose packet is not yet sent
    wire: seq<nat>,               // ids of the packets sent
    now: nat,
    pending: map<Task, seq<nat>>, // positions still to be removed by a task that handles a reply
    calls: seq<Call>,
    removed: seq<Entry>,
    replied: set<nat>,            // ids of the replies handled
    panicked: bool
  )

  datatype Action =
    | Generate(task: Task)
    | Push(task: Task, callback: Callback, started: nat, timeout: nat)
    | Send(task: Task)
    | Tick
    | Scan(task: Task, id: nat, payload: Option<M.Payload>)
    | Remove(task: Task)

  /** One step of one task. Every removal takes the lock anew, so other tasks can act before and between removals. */
  function Step(s: State, a: Action): Option<State> {
    if s.panicked then None else
    match a
    case Generate(t) =>
      if t in s.reserved || t in s.registered then None
      else Some(s.(reserved := s.reserved[t := s.issued % IDS], issued := s.issued + 1))
    case Push(t, callback, started, timeout) =>
      if t !in s.reserved || started > s.now then None
      else Some(s.(table := s.table + [Entry(s.reserved[t], callback, started, timeout)],
                   registered := s.registered[t := s.reserved[t]],
                   reserved := s.reserved - {t}))
    case Send(t) =>
      if t !in s.registered then None
      else Some(s.(wire := s.wire + [s.registered[t]], registered := s.registered - {t}))
    case Tick => Some(s.(now := s.now + 1))
    case Scan(t, id, payload) =>
      if t in s.pending && s.pending[t] != [] then None
      else Some(s.(pending := s.pending[t := Matches(s.table, id)], calls := s.calls + Calls(s.table, id, payload, s.now),
                   replied := s.replied + {id}))
    case Remove(t) =>
      if t !in s.pending || s.pending[t] == [] then None
      else if s.pending[t][0] >= |s.table| then Some(s.(panicked := true))
      else
        var i := s.pending[t][0];
        Some(s.(table := RemoveAt(s.table, i), removed := s.removed + [s.table[i]],
                pending := s.pending[t := s.pending[t][1..]]))
  }

  function Execute(s: State, actions: seq<Action>): Option<State>
    decreases |actions|
  {
    if actions == [] then
      Some(s)
    else
      var next :- Step(s, actions[0]);
      Execute(next, actions[1..])
  }

  const INITIAL := State(0, map[], [], map[], [], 0, map[], [], [], {}, false)

  predicate InTable(table: seq<Entry>, id: nat) {
    exists i | 0 <= i < |table| :: table[i].id == id
  }

  /** The id of the entry a task is about to remove. */
  predicate BeingRemoved(s: State, poller: Task, id: nat) {
    poller in s.pending && |s.pending[poller]| == 1 && s.pending[poller][0] < |s.table| && s.table[s.pending[poller][0]].id == id
  }

  /** Ids are never in two places: with a task that will register it, in the table, or among the removed. */
  ghost predicate IdsAccounted(s: State) {
    && (forall t, u | t in s.reserved && u in s.reserved && t != u :: s.reserved[t] != s.reserved[u])
    && (forall t | t in s.reserved ::
          s.reserved[t] < s.issued && !InTable(s.table, s.reserved[t]) && !InTable(s.removed, s.reserved[t]))
    && Distinct(s.table) && Distinct(s.removed)
    && (forall id: nat | InTable(s.table, id) :: id < s.issued && !InTable(s.removed, id))
    && (forall id: nat | InTable(s.removed, id) :: id < s.issued)
  }

  /** With one polling task: at most one position is waiting for removal, and it is in bounds. */
  ghost predicate RemovalReady(s: State, poller: Task) {
    && !s.panicked
    && (forall t | t in s.pending && t != poller :: s.pending[t] == [])
    && (poller in s.pending && s.pending[poller] != [] ==> |s.pending[poller]| == 1 && s.pending[poller][0] < |s.table|)
  }

  /** Each callback has run at most once and in time, and only for an entry that is removed or about to be. */
  ghost predicate CallsOnce(s: State, poller: Task) {
    && (forall c <- s.calls :: c.entry.started <= c.at < c.entry.started + c.entry.timeout && c.at <= s.now)
    && (forall k, l | 0 <= k < l < |s.calls| :: s.calls[k].entry.id != s.calls[l].entry.id)
    && (forall k | 0 <= k < |s.calls| :: InTable(s.removed, s.calls[k].entry.id) || BeingRemoved(s, poller, s.calls[k].entry.id))
  }

  /** An id that is on the wire, or about to be, is in the table unless it was removed after a reply. */
  ghost predicate Registered(s: State, poller: Task) {
    && (forall t | t in s.registered :: InTable(s.table, s.registered[t]) || InTable(s.removed, s.registered[t]))
    && (forall k | 0 <= k < |s.wire| :: InTable(s.table, s.wire[k]) || InTable(s.removed, s.wire[k]))
    && (forall i | 0 <= i < |s.removed| :: s.removed[i].id in s.replied)
    && (poller in s.pending && s.pending[poller] != [] && s.pending[poller][0] < |s.table| ==>
          s.table[s.pending[poller][0]].id in s.replied)
  }

  /** No entry was started after now. */
  ghost predicate Started(s: State) {
    forall i | 0 <= i < |s.table| :: s.table[i].started <= s.now
  }

  ghost predicate Inv(s: State, poller: Task) {
    IdsAccounted(s) && RemovalReady(s, poller) && CallsOnce(s, poller) && Registered(s, poller) && Started(s)
  }

  predicate ByPoller(a: Action, poller: Task) {
    a.Scan? ==> a.task == poller
  }

  lemma PushedIds(table: seq<Entry>, e: Entry)
    ensures forall id: nat :: InTable(table + [e], id) <==> InTable(table, id) || e.id == id
    ensures Distinct(table) && !InTable(table, e.id) ==> Distinct(table + [e])
  {
    var longer := table + [e];
    assert longer[|table|] == e;
    forall id: nat
      ensures InTable(longer, id) <==> InTable(table, id) || e.id == id
    {
      if InTable(table, id) {
        var i :| 0 <= i < |table| && table[i].id == id;
        assert longer[i].id == id;
      }
    }
  }

  lemma RemovedIds(table: seq<Entry>, i: nat)
    requires i < |table| && Distinct(table)
    ensures Distinct(RemoveAt(table, i))
    ensures forall id: nat :: InTable(RemoveAt(table, i), id) <==> InTable(table, id) && id != table[i].id
  {
    var shorter := RemoveAt(table, i);
    forall k | 0 <= k < |shorter|
      ensures shorter[k] == table[if k < i then k else k + 1]
    {
    }
    forall id: nat
      ensures InTable(shorter, id) <==> InTable(table, id) && id != table[i].id
    {
      if InTable(table, id) && id != table[i].id {
        var k :| 0 <= k < |table| && table[k].id == id;
        assert shorter[if k < i then k else k - 1].id == id;
      }
    }
  }

  lemma StepKeepsIds(s: State, a: Action)
    requires IdsAccounted(s) && Step(s, a).Some? && Step(s, a).value.issued <= IDS
    ensures IdsAccounted(Step(s, a).value)
  {
    hide Matches, Calls, InTable, Distinct;
    match a
    case Generate(t) => assert s.issued % IDS == s.issued;
    case Push(t, callback, started, timeout) => PushedIds(s.table, Entry(s.reserved[t], callback, started, timeout));
    case Send(t) =>
    case Tick =>
    case Scan(t, id, payload) =>
    case Remove(t) =>
      var i := s.pending[t][0];
      if i < |s.table| {
        var e := s.table[i];
        assert InTable(s.table, e.id) by {
          Found(s.table, i);
        }
        RemovedIds(s.table, i);
        PushedIds(s.removed, e);
      }
  }

  lemma Found(table: seq<Entry>, i: nat)
    requires i < |table|
    ensures InTable(table, table[i].id)
  {
  }

  lemma StepKeepsReady(s: State, a: Action, poller: Task)
    requires IdsAccounted(s) && RemovalReady(s, poller) && Step(s, a).Some? && ByPoller(a, poller)
    ensures RemovalReady(Step(s, a).value, poller)
  {
    hide Matches, Calls;
    if a.Scan? {
      DistinctMatches(s.table, a.id);
      FirstMatch(s.table, a.id);
    }
  }

  lemma StepKeepsRegistered(s: State, a: Action, poller: Task)
    requires Inv(s, poller) && Step(s, a).Some? && ByPoller(a, poller)
    ensures Registered(Step(s, a).value, poller)
  {
    hide Matches, Calls, InTable, CallsOnce, Distinct;
    var s' := Step(s, a).value;
    match a
    case Generate(t) =>
    case Push(t, callback, started, timeout) =>
      PushedIds(s.table, Entry(s.reserved[t], callback, started, timeout));
    case Send(t) =>
    case Tick =>
    case Scan(t, id, payload) =>
      FirstMatch(s.table, id);
    case Remove(t) =>
      if !s'.panicked {
        var i := s.pending[t][0];
        PushedIds(s.removed, s.table[i]);
        RemovedIds(s.table, i);
      }
  }

  lemma StepKeepsStarted(s: State, a: Action)
    requires Started(s) && Step(s, a).Some?
    ensures Started(Step(s, a).value)
  {
    hide Matches, Calls;
    var s' := Step(s, a).value;
    if a.Remove? && !s'.panicked {
      var i := s.pending[a.task][0];
      assert forall k | 0 <= k < |s'.table| :: s'.table[k] == s.table[if k < i then k else k + 1];
    }
  }

  lemma StepKeepsCalls(s: State, a: Action, poller: Task)
    requires Inv(s, poller) && Step(s, a).Some? && ByPoller(a, poller)
    ensures CallsOnce(Step(s, a).value, poller)
  {
    hide Matches, Calls;
    var s' := Step(s, a).value;
    match a
    case Generate(t) =>
    case Push(t, callback, started, timeout) =>
    case Send(t) =>
    case Tick =>
    case Scan(t, id, payload) =>
      ScanCalls(s, poller, id, payload);
    case Remove(t) =>
      if !s'.panicked {
        PushedIds(s.removed, s.table[s.pending[t][0]]);
      }
  }

  /** A reply runs at most one callback, and not one that has run before: its entry would be removed already. */
  lemma ScanCalls(s: State, poller: Task, id: nat, payload: Option<M.Payload>)
    requires Inv(s, poller) && Step(s, Scan(poller, id, payload)).Some?
    ensures CallsOnce(Step(s, Scan(poller, id, payload)).value, poller)
  {
    hide Matches, Calls;
    CallsOfMatch(s.table, id, payload, s.now);
    DistinctMatches(s.table, id);
    FirstMatch(s.table, id);
    var added := Calls(s.table, id, payload, s.now);
    if added != [] {
      assert added[0] in added;
      forall k | 0 <= k < |s.calls|
        ensures s.calls[k].entry.id != id
      {
        Found(s.table, Matches(s.table, id)[0]);
      }
    }
  }

  lemma StepKeepsInv(s: State, a: Action, poller: Task)
    requires Inv(s, poller) && Step(s, a).Some? && ByPoller(a, poller) && Step(s, a).value.issued <= IDS
    ensures Inv(Step(s, a).value, poller)
  {
    hide Step, IdsAccounted, RemovalReady, CallsOnce, Registered, Started;
    StepKeepsIds(s, a);
    StepKeepsStarted(s, a);
    StepKeepsReady(s, a, poller);
    StepKeepsRegistered(s, a, poller);
    StepKeepsCalls(s, a, poller);
  }

  lemma {:induction false} IssuedGrows(s: State, actions: seq<Action>)
    requires Execute(s, actions).Some?
    ensures s.issued <= Execute(s, actions).value.issued
    decreases |actions|
  {
    if actions != [] {
      IssuedGrows(Step(s, actions[0]).value, actions[1..]);
    }
  }

  lemma {:induction false} RunKeepsInv(s: State, actions: seq<Action>, poller: Task)
    requires Inv(s, poller) && Execute(s, actions).Some? && Execute(s, actions).value.issued <= IDS
    requires forall i | 0 <= i < |actions| :: ByPoller(actions[i], poller)
    ensures Inv(Execute(s, actions).value, poller)
    decreases |actions|
  {
    hide Inv, Step;
    if actions != [] {
      IssuedGrows(Step(s, actions[0]).value, actions[1..]);
      StepKeepsInv(s, actions[0], poller);
      RunKeepsInv(Step(s, actions[0]).value, actions[1..], poller);
    }
  }

  /**
   The acknowledgement table over whole runs, for every interleaving of emitting
   tasks with one task that handles replies, until the ids wrap around: the ids
   outstanding are distinct and were all issued, nothing panics, every callback
   has run at most once and before its timeout, and an id on the wire whose reply
   has not been handled is in the table.
   */
  lemma AckTableSafe(actions: seq<Action>, poller: Task)
    requires Execute(INITIAL, actions).Some? && Execute(INITIAL, actions).value.issued <= IDS
    requires forall i | 0 <= i < |actions| :: ByPoller(actions[i], poller)
    ensures var s := Execute(INITIAL, actions).value;
            && Distinct(s.table) && (forall i | 0 <= i < |s.table| :: s.table[i].id < s.issued)
            && !s.panicked
            && (forall k, l | 0 <= k < l < |s.calls| :: s.calls[k].entry.id != s.calls[l].entry.id)
            && (forall c <- s.calls :: c.entry.started <= c.at < c.entry.started + c.entry.timeout)
            && (forall k | 0 <= k < |s.wire| && s.wire[k] !in s.replied :: InTable(s.table, s.wire[k]))
  {
    assert Inv(INITIAL, poller);
    RunKeepsInv(INITIAL, actions, poller);
    var s := Execute(INITIAL, actions).value;
    RemovedAreReplied(s, poller);
    forall i | 0 <= i < |s.table|
      ensures s.table[i].id < s.issued
    {
      Found(s.table, i);
    }
  }

  lemma RemovedAreReplied(s: State, poller: Task)
    requires Registered(s, poller)
    ensures forall k | 0 <= k < |s.wire| :: InTable(s.table, s.wire[k]) || s.wire[k] in s.replied
  {
  }

  predicate Emitting(a: Action) {
    !a.Scan? && !a.Remove?
  }

  /** Emitting tasks only append to the table and leave pending removals alone. */
  lemma {:induction false} EmittersAppend(s: State, actions: seq<Action>)
    requires Execute(s, actions).Some? && forall i | 0 <= i < |actions| :: Emitting(actions[i])
    ensures var s' := Execute(s, actions).value;
            s.table <= s'.table && s'.pending == s.pending && s'.removed == s.removed && s'.panicked == s.panicked
    decreases |actions|
  {
    if actions != [] {
      EmittersAppend(Step(s, actions[0]).value, actions[1..]);
    }
  }

  /**
   The two phases of handling a reply, with any number of emitters in between:
   the entry found by the scan, and no other, is removed; without one, nothing is.
   */
  lemma TwoPhases(s: State, poller: Task, id: nat, payload: Option<M.Payload>, between: seq<Action>)
    requires Inv(s, poller) && Step(s, Scan(poller, id, payload)).Some?
    requires forall i | 0 <= i < |between| :: Emitting(between[i])
    requires Execute(Step(s, Scan(poller, id, payload)).value, between).Some?
    requires Execute(Step(s, Scan(poller, id, payload)).value, between).value.issued <= IDS
    ensures var s' := Execute(Step(s, Scan(poller, id, payload)).value, between).value;
            var r := Step(s', Remove(poller));
            && s.table <= s'.table
            && (InTable(s.table, id) <==> r.Some?)
            && (r.Some? ==>
                  && !r.value.panicked && r.value.table == Without(s'.table, id)
                  && |r.value.removed| == |s'.removed| + 1 && s'.removed < r.value.removed
                  && r.value.removed[|s'.removed|].id == id)
  {
    hide Execute, IdsAccounted, CallsOnce, Registered, Calls;
    var scanned := Step(s, Scan(poller, id, payload)).value;
    var s' := Execute(scanned, between).value;
    StepKeepsInv(s, Scan(poller, id, payload), poller) by {
      IssuedGrows(scanned, between);
    }
    RunKeepsInv(scanned, between, poller);
    EmittersAppend(scanned, between);
    MatchesMatch(s.table, id);
    if Matches(s.table, id) != [] {
      OnlyMatch(s'.table, id, Matches(s.table, id)[0]) by {
        IdsDistinct(s');
      }
    }
  }

  lemma IdsDistinct(s: State)
    requires IdsAccounted(s)
    ensures Distinct(s.table)
  {
  }

  lemma OnlyMatch(table: seq<Entry>, id: nat, i: nat)
    requires Distinct(table) && i < |table| && table[i].id == id
    ensures Matches(table, id) == [i] && Without(table, id) == RemoveAt(table, i)
  {
    MatchesMatch(table, id);
    DistinctMatches(table, id);
    OneMatch(table, id);
  }

  /** A reply to an outstanding id runs its callback with the reply's payload, exactly if its timeout is not over. */
  lemma {:induction false} ReplyRunsCallback(table: seq<Entry>, i: nat, payload: Option<M.Payload>, now: nat)
    requires Distinct(table) && i < |table| && table[i].started <= now
    ensures Calls(table, table[i].id, payload, now) ==
            if now < table[i].started + table[i].timeout then [Call(table[i], payload, now)] else []
  {
    var n := |table| - 1;
    if i < n {
      ReplyRunsCallback(table[..n], i, payload, now);
    } else {
      NoCalls(table[..n], table[n].id, payload, now);
    }
  }

  lemma {:induction false} NoCalls(table: seq<Entry>, id: nat, payload: Option<M.Payload>, now: nat)
    requires !InTable(table, id)
    ensures Calls(table, id, payload, now) == []
  {
    if table != [] {
      var n := |table| - 1;
      assert table == table[..n] + [table[n]];
      PushedIds(table[..n], table[n]);
      NoCalls(table[..n], id, payload, now);
    }
  }

  // More than one task handling replies.

  /** The positions that a run removes. */
  function Removals(s: State, actions: seq<Action>): seq<nat>
    requires Execute(s, actions).Some?
    decreases |actions|
  {
    if actions == [] then []
    else
      var a := actions[0];
      (if a.Remove? then [s.pending[a.task][0]] else []) + Removals(Step(s, a).value, actions[1..])
  }

  predicate AllBehind(positions: seq<nat>, i: nat) {
    forall q <- positions :: q > i
  }

  lemma NoneBehind(i: nat)
    ensures AllBehind([], i)
  {
  }

  lemma BehindStep(q: nat, positions: seq<nat>, i: nat)
    ensures AllBehind([q] + positions, i) <==> q > i && AllBehind(positions, i)
  {
    assert q in [q] + positions && forall p <- positions :: p in [q] + positions;
  }

  /** The action is not one by which this task handles a reply. */
  predicate NotHandling(a: Action, t: Task) {
    (a.Scan? || a.Remove?) ==> a.task != t
  }

  /** The entry of that id is in front of a position, or gone. */
  ghost predicate Shifted(s: State, i: nat, id: nat) {
    InTable(s.removed, id) || exists k | 0 <= k < |s.table| && k < i :: s.table[k].id == id
  }

  /** Removing in front of a position, or at it, shifts what was there. */
  lemma RemoveShifts(s: State, t: Task, i: nat, id: nat)
    requires Step(s, Remove(t)).Some? && !Step(s, Remove(t)).value.panicked
    requires i < |s.table| && s.table[i].id == id && s.pending[t][0] <= i
    ensures Shifted(Step(s, Remove(t)).value, i, id)
  {
    var s', q := Step(s, Remove(t)).value, s.pending[t][0];
    if q < i {
      assert s'.table[i - 1].id == id;
    } else {
      assert s'.removed[|s.removed|].id == id;
    }
  }

  lemma StepKeepsShifted(s: State, a: Action, i: nat, id: nat)
    requires Shifted(s, i, id) && Step(s, a).Some?
    ensures Shifted(Step(s, a).value, i, id)
  {
    hide Matches, Calls;
    var s' := Step(s, a).value;
    if InTable(s.removed, id) {
      var j :| 0 <= j < |s.removed| && s.removed[j].id == id;
      assert s'.removed[j].id == id;
    } else {
      var k :| 0 <= k < |s.table| && k < i && s.table[k].id == id;
      if a.Remove? && !s'.panicked {
        var q := s.pending[a.task][0];
        if q < k {
          assert s'.table[k - 1].id == id;
        } else if q == k {
          assert s'.removed[|s.removed|].id == id;
        } else {
          assert s'.table[k].id == id;
        }
      } else {
        assert s'.table[k].id == id;
      }
    }
  }

  lemma {:induction false} RunKeepsShifted(s: State, actions: seq<Action>, i: nat, id: nat)
    requires Shifted(s, i, id) && Execute(s, actions).Some?
    ensures Shifted(Execute(s, actions).value, i, id)
    decreases |actions|
  {
    hide Shifted, Step;
    if actions != [] {
      StepKeepsShifted(s, actions[0], i, id);
      RunKeepsShifted(Step(s, actions[0]).value, actions[1..], i, id);
    }
  }

  /** The entry found is still at its position exactly if no removal was in front of it or at it. */
  lemma {:induction false} StaysInPlace(s: State, actions: seq<Action>, i: nat, id: nat)
    requires i < |s.table| && s.table[i].id == id
    requires IdsAccounted(s) && Execute(s, actions).Some?
    requires Execute(s, actions).value.issued <= IDS && !Execute(s, actions).value.panicked
    ensures var s' := Execute(s, actions).value;
            (i < |s'.table| && s'.table[i].id == id) <==> AllBehind(Removals(s, actions), i)
    decreases |actions|
  {
    hide Matches, Calls, IdsAccounted, Shifted, InTable, AllBehind;
    if actions == [] {
      NoneBehind(i);
    } else {
      var a, next := actions[0], Step(s, actions[0]).value;
      IssuedGrows(next, actions[1..]);
      NoPanicYet(next, actions[1..]);
      StepKeepsIds(s, a);
      if a.Remove? && s.pending[a.task][0] <= i {
        RemoveShifts(s, a.task, i, id);
        RunKeepsShifted(next, actions[1..], i, id);
        RunKeepsIds(next, actions[1..]);
        ShiftedElsewhere(Execute(s, actions).value, i, id);
        BehindStep(s.pending[a.task][0], Removals(next, actions[1..]), i);
      } else {
        StepLeaves(s, a, i);
        StaysInPlace(next, actions[1..], i, id);
        var rest := Removals(next, actions[1..]);
        if a.Remove? {
          BehindStep(s.pending[a.task][0], rest, i);
        } else {
          assert Removals(s, actions) == rest;
        }
      }
    }
  }

  lemma StepLeaves(s: State, a: Action, i: nat)
    requires i < |s.table| && Step(s, a).Some? && (a.Remove? ==> s.pending[a.task][0] > i)
    ensures var s' := Step(s, a).value; i < |s'.table| && s'.table[i] == s.table[i]
  {
    hide Matches, Calls;
  }

  lemma ShiftedElsewhere(s: State, i: nat, id: nat)
    requires IdsAccounted(s) && Shifted(s, i, id)
    ensures !(i < |s.table| && s.table[i].id == id)
  {
    if i < |s.table| {
      Found(s.table, i);
    }
  }

  lemma NoPanicYet(s: State, actions: seq<Action>)
    requires Execute(s, actions).Some? && !Execute(s, actions).value.panicked
    ensures !s.panicked
  {
  }

  lemma {:induction false} RunKeepsIds(s: State, actions: seq<Action>)
    requires IdsAccounted(s) && Execute(s, actions).Some? && Execute(s, actions).value.issued <= IDS
    ensures IdsAccounted(Execute(s, actions).value)
    decreases |actions|
  {
    hide IdsAccounted, Step;
    if actions != [] {
      IssuedGrows(Step(s, actions[0]).value, actions[1..]);
      StepKeepsIds(s, actions[0]);
      RunKeepsIds(Step(s, actions[0]).value, actions[1..]);
    }
  }

  /**
   When a pending removal is right, whatever other tasks do between a scan and its
   removal, handling replies included: the position found by the scan still holds
   the entry that was found if and only if nothing was removed at it or in front of it.
   */
  lemma PendingRemovalRight(before: seq<Action>, t: Task, id: nat, payload: Option<M.Payload>, between: seq<Action>)
    requires Execute(INITIAL, before).Some? && InTable(Execute(INITIAL, before).value.table, id)
    requires Step(Execute(INITIAL, before).value, Scan(t, id, payload)).Some?
    requires forall i | 0 <= i < |between| :: NotHandling(between[i], t)
    requires var scanned := Step(Execute(INITIAL, before).value, Scan(t, id, payload)).value;
             var run := Execute(scanned, between);
             run.Some? && run.value.issued <= IDS && !run.value.panicked
    ensures var scanned := Step(Execute(INITIAL, before).value, Scan(t, id, payload)).value;
            var s', r := Execute(scanned, between).value, Step(Execute(scanned, between).value, Remove(t));
            && r.Some? && |s'.pending[t]| == 1
            && ((!r.value.panicked && |r.value.removed| > |s'.removed| && r.value.removed[|s'.removed|].id == id) <==>
                AllBehind(Removals(scanned, between), s'.pending[t][0]))
  {
    hide Matches, Calls, IdsAccounted, Execute, InTable;
    var s := Execute(INITIAL, before).value;
    var scanned := Step(s, Scan(t, id, payload)).value;
    var s' := Execute(scanned, between).value;
    IssuedGrows(scanned, between);
    assert IdsAccounted(INITIAL) by {
      NothingIssued();
    }
    RunKeepsIds(INITIAL, before);
    StepKeepsIds(s, Scan(t, id, payload));
    ScanFinds(s.table, id) by {
      IdsDistinct(s);
    }
    PendingStays(scanned, between, t);
    var i := Matches(s.table, id)[0];
    StaysInPlace(scanned, between, i, id);
    RemovedAt(s', t, i, id);
  }

  lemma RemovedAt(s: State, t: Task, i: nat, id: nat)
    requires !s.panicked && t in s.pending && s.pending[t] == [i]
    ensures var r := Step(s, Remove(t));
            r.Some? && ((i < |s.table| && s.table[i].id == id) <==>
                        !r.value.panicked && |r.value.removed| > |s.removed| && r.value.removed[|s.removed|].id == id)
  {
  }

  lemma NothingIssued()
    ensures IdsAccounted(INITIAL)
  {
  }

  lemma ScanFinds(table: seq<Entry>, id: nat)
    requires Distinct(table) && InTable(table, id)
    ensures |Matches(table, id)| == 1 && Matches(table, id)[0] < |table| && table[Matches(table, id)[0]].id == id
  {
    var i :| 0 <= i < |table| && table[i].id == id;
    OnlyMatch(table, id, i);
  }

  lemma {:induction false} PendingStays(s: State, actions: seq<Action>, t: Task)
    requires Execute(s, actions).Some? && forall i | 0 <= i < |actions| :: NotHandling(actions[i], t)
    requires t in s.pending
    ensures var s' := Execute(s, actions).value; t in s'.pending && s'.pending[t] == s.pending[t]
    decreases |actions|
  {
    hide Matches, Calls;
    if actions != [] {
      PendingStays(Step(s, actions[0]).value, actions[1..], t);
    }
  }

  lemma {:induction false} ExecuteConcat(s: State, a: seq<Action>, b: seq<Action>)
    requires Execute(s, a).Some?
    ensures Execute(s, a + b) == Execute(Execute(s, a).value, b)
    decreases |a|
  {
    hide Step;
    if a == [] {
      assert a + b == b;
    } else {
      assert (a + b)[1..] == a[1..] + b;
      ExecuteConcat(Step(s, a[0]).value, a[1..], b);
    }
  }

  /** Registering three callbacks. */
  function Setup(timeout: nat): seq<Action> {
    [Generate(0), Push(0, 0, 0, timeout), Generate(1), Push(1, 1, 0, timeout), Generate(2), Push(2, 2, 0, timeout)]
  }

  lemma SetupRuns(timeout: nat)
    ensures var r := Execute(INITIAL, Setup(timeout));
            && r.Some? && !r.value.panicked && r.value.pending == map[] && r.value.removed == [] && r.value.replied == {}
            && r.value.table == [Entry(0, 0, 0, timeout), Entry(1, 1, 0, timeout), Entry(2, 2, 0, timeout)]
  {
    var acts := Setup(timeout);
    var s1 := Step(INITIAL, acts[0]).value;
    var s2 := Step(s1, acts[1]).value;
    var s3 := Step(s2, acts[2]).value;
    var s4 := Step(s3, acts[3]).value;
    var s5 := Step(s4, acts[4]).value;
    var s6 := Step(s5, acts[5]).value;
    assert s6.table == [Entry(0, 0, 0, timeout), Entry(1, 1, 0, timeout), Entry(2, 2, 0, timeout)];
    OneStep(INITIAL, acts);
    OneStep(s1, acts[1..]);
    OneStep(s2, acts[1..][1..]);
    OneStep(s3, acts[1..][1..][1..]);
    OneStep(s4, acts[1..][1..][1..][1..]);
    OneStep(s5, acts[1..][1..][1..][1..][1..]);
    assert acts[1..][1..][1..][1..][1..][1..] == [];
  }

  lemma OneStep(s: State, actions: seq<Action>)
    requires actions != [] && Step(s, actions[0]).Some?
    ensures Execute(s, actions) == Execute(Step(s, actions[0]).value, actions[1..])
  {
  }

  lemma ScanOne(s: State, t: Task, i: nat)
    requires Distinct(s.table) && i < |s.table| && !s.panicked && t !in s.pending
    ensures var r := Step(s, Scan(t, s.table[i].id, None));
            && r.Some? && !r.value.panicked && r.value.pending == s.pending[t := [i]]
            && r.value.table == s.table && r.value.removed == s.removed && r.value.replied == s.replied + {s.table[i].id}
  {
    hide Matches, Calls;
    OnlyMatch(s.table, s.table[i].id, i);
  }

  lemma RemoveOne(s: State, t: Task, i: nat)
    requires i < |s.table| && !s.panicked && t in s.pending && s.pending[t] == [i]
    ensures var r := Step(s, Remove(t));
            && r.Some? && !r.value.panicked && r.value.pending == s.pending[t := []]
            && r.value.table == RemoveAt(s.table, i) && r.value.removed == s.removed + [s.table[i]] && r.value.replied == s.replied
  {
    assert [i][1..] == [];
  }

  lemma TwoPollers(s: State)
    requires |s.table| == 3 && Distinct(s.table) && !s.panicked && s.pending == map[]
    ensures var r := Execute(s, [Scan(0, s.table[0].id, None), Scan(1, s.table[1].id, None), Remove(0), Remove(1)]);
            && r.Some? && r.value.table == [s.table[1]] && r.value.removed == s.removed + [s.table[0], s.table[2]]
            && r.value.replied == s.replied + {s.table[0].id, s.table[1].id}
  {
    hide Distinct, Execute, Step;
    var acts := [Scan(0, s.table[0].id, None), Scan(1, s.table[1].id, None), Remove(0), Remove(1)];
    ScanOne(s, 0, 0);
    var s1 := Step(s, acts[0]).value;
    ScanOne(s1, 1, 1);
    var s2 := Step(s1, acts[1]).value;
    RemoveOne(s2, 0, 0);
    var s3 := Step(s2, acts[2]).value;
    assert s3.table == [s.table[1], s.table[2]];
    RemoveOne(s3, 1, 1);
    var s4 := Step(s3, acts[3]).value;
    OneStep(s, acts);
    OneStep(s1, acts[1..]);
    OneStep(s2, acts[1..][1..]);
    OneStep(s3, acts[1..][1..][1..]);
    NoSteps(s4);
    assert acts[1..][1..][1..][1..] == [];
  }

  lemma NoSteps(s: State)
    ensures Execute(s, []) == Some(s)
  {
  }

  /**
   What would go wrong with two tasks handling replies for one table: in this run
   both scan before either removes, and the entry with id 2 is removed without a
   reply while the one with id 1, which had its reply, stays.
   */
  lemma TwoPollersRemoveWrong(timeout: nat)
    ensures var replies := [Scan(0, 0, None), Scan(1, 1, None), Remove(0), Remove(1)];
            var r := Execute(INITIAL, Setup(timeout) + replies);
            && r.Some? && r.value.table == [Entry(1, 1, 0, timeout)] && r.value.replied == {0, 1}
            && r.value.removed == [Entry(0, 0, 0, timeout), Entry(2, 2, 0, timeout)]
  {
    hide Execute, Setup, Step;
    SetupRuns(timeout);
    ExecuteConcat(INITIAL, Setup(timeout), [Scan(0, 0, None), Scan(1, 1, None), Remove(0), Remove(1)]);
    TwoPollers(Execute(INITIAL, Setup(timeout)).value);
  }

  /**
   What one `emit_with_ack` does on its own, from any state in which the task is free:
   its callback is in the table under the next id, and then that id is on the wire.
   */
  lemma EmitRuns(s: State, t: Task, callback: Callback, timeout: nat)
    requires !s.panicked && t !in s.reserved && t !in s.registered
    ensures var r := Execute(s, [Generate(t), Push(t, callback, s.now, timeout), Send(t)]);
            && r.Some? && !r.value.panicked && r.value.issued == s.issued + 1
            && r.value.table == s.table + [Entry(s.issued % IDS, callback, s.now, timeout)]
            && r.value.wire == s.wire + [s.issued % IDS]
            && r.value.reserved == s.reserved && r.value.registered == s.registered
  {
    var acts := [Generate(t), Push(t, callback, s.now, timeout), Send(t)];
    var s1 := Step(s, acts[0]).value;
    var s2 := Step(s1, acts[1]).value;
    var s3 := Step(s2, acts[2]).value;
    assert s.reserved[t := s.issued % IDS] - {t} == s.reserved;
    assert s.registered[t := s.issued % IDS] - {t} == s.registered;
    OneStep(s, acts);
    OneStep(s1, acts[1..]);
    OneStep(s2, acts[1..][1..]);
    NoSteps(s3);
    assert acts[1..][1..][1..] == [];
  }

  /** Time can always pass, and changes nothing else. */
  lemma TimePasses(s: State)
    requires !s.panicked
    ensures Step(s, Tick) == Some(s.(now := s.now + 1))
  {
  }

  /** The panic: every removal shortens the list, so a later position may be out of bounds by then. */
  lemma {:induction false} OutOfBounds(table: seq<Entry>, indices: seq<nat>, k: nat)
    requires k < |indices| && indices[k] + k >= |table|
    ensures RemoveEach(table, indices) == None
    decreases |indices|
  {
    if k > 0 && indices[0] < |table| {
      OutOfBounds(RemoveAt(table, indices[0]), indices[1..], k - 1);
    }
  }
}

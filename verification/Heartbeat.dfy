/**
 The server's ping loop (`start_ping_pong` in engineio/src/server/server.rs) in
 idealised time: ticks come exactly on time, and a packet that arrives at the
 time of a tick is seen by that tick.
 */
module Heartbeat {
  import opened Wrappers

  /** The first tick, and the ping interval and timeout of the server's options. */
  datatype Timer = Timer(start: nat, interval: nat, timeout: nat)

  function Tick(m: Timer, k: nat): nat {
    m.start + k * m.interval
  }

  /** The times at which a peer gave a sign of life, the creation of its socket first. */
  predicate Times(arrivals: seq<nat>) {
    arrivals != [] && forall i, j | 0 <= i < j < |arrivals| :: arrivals[i] <= arrivals[j]
  }

  lemma OneMore(arrivals: seq<nat>, now: nat)
    requires Times(arrivals) && arrivals[|arrivals| - 1] <= now
    ensures Times(arrivals + [now])
  {
  }

  /** The value of `last_pong` at some time: every arrival sets it. */
  function LastPong(arrivals: seq<nat>, now: nat): nat
    requires arrivals != []
  {
    var n := |arrivals| - 1;
    if n == 0 || arrivals[n] <= now then arrivals[n] else LastPong(arrivals[..n], now)
  }

  predicate Alive(m: Timer, arrivals: seq<nat>, now: nat)
    requires arrivals != []
  {
    now < LastPong(arrivals, now) + m.timeout + m.interval
  }

  /** The first of `n` ticks that finds the peer dead. */
  function FirstDead(m: Timer, arrivals: seq<nat>, n: nat): (r: Option<nat>)
    requires arrivals != []
    ensures r.None? ==> forall k | 0 <= k < n :: Alive(m, arrivals, Tick(m, k))
    ensures r.Some? ==> r.value < n && !Alive(m, arrivals, Tick(m, r.value))
    ensures r.Some? ==> forall k | 0 <= k < r.value :: Alive(m, arrivals, Tick(m, k))
  {
    if n == 0 then None
    else
      var before := FirstDead(m, arrivals, n - 1);
      if before.Some? then before
      else if Alive(m, arrivals, Tick(m, n - 1)) then None
      else Some(n - 1)
  }

  /** What the loop meets at a tick: a socket that takes the ping or not, or none any more. */
  datatype Peer = Present(takesPing: bool) | Gone

  predicate Stays(m: Timer, arrivals: seq<nat>, peer: Peer, now: nat)
    requires arrivals != []
  {
    peer == Present(true) && Alive(m, arrivals, now)
  }

  /** The first tick at which the loop ends: the ping fails, the socket is gone, or the peer is dead. */
  function FirstExit(m: Timer, arrivals: seq<nat>, peers: seq<Peer>): (r: Option<nat>)
    requires arrivals != []
    ensures r.None? ==> forall k | 0 <= k < |peers| :: Stays(m, arrivals, peers[k], Tick(m, k))
    ensures r.Some? ==> r.value < |peers| && !Stays(m, arrivals, peers[r.value], Tick(m, r.value))
    ensures r.Some? ==> forall k | 0 <= k < r.value :: Stays(m, arrivals, peers[k], Tick(m, k))
  {
    if peers == [] then None
    else
      var n := |peers| - 1;
      var before := FirstExit(m, arrivals, peers[..n]);
      if before.Some? then before
      else if Stays(m, arrivals, peers[n], Tick(m, n)) then None
      else Some(n)
  }

  /** Without failing pings, and as long as the socket is there, the loop ends when the peer is dead. */
  lemma {:induction false} ExitIsDeath(m: Timer, arrivals: seq<nat>, peers: seq<Peer>)
    requires arrivals != [] && forall k | 0 <= k < |peers| :: peers[k] == Present(true)
    ensures FirstExit(m, arrivals, peers) == FirstDead(m, arrivals, |peers|)
  {
    hide Alive, Tick;
    if peers != [] {
      ExitIsDeath(m, arrivals, peers[..|peers| - 1]);
    }
  }

  /** The loop over as many ticks as there are peers given: the time of closing, if it comes to that, and the pings sent. */
  method PingLoop(m: Timer, arrivals: seq<nat>, peers: seq<Peer>) returns (closed: Option<nat>, pings: nat)
    requires arrivals != []
    ensures FirstExit(m, arrivals, peers).None? ==> closed == None && pings == |peers|
    ensures FirstExit(m, arrivals, peers).Some? ==>
              var k := FirstExit(m, arrivals, peers).value;
              closed == Some(Tick(m, k)) && pings == k + if peers[k] == Present(true) then 1 else 0
  {
    pings := 0;
    var now := m.start;
    for k := 0 to |peers|
      invariant pings == k && now == Tick(m, k)
      invariant FirstExit(m, arrivals, peers[..k]) == None
    {
      ExitStep(m, arrivals, peers, k);
      if peers[k] == Present(false) {
        return Some(now), pings;
      }
      if peers[k] == Present(true) {
        pings := pings + 1;
      }
      if peers[k].Gone? {
        return Some(now), pings;
      }
      var lastPong := LastPong(arrivals, now);
      if !(now < lastPong + m.timeout + m.interval) {
        return Some(now), pings;
      }
      NextTick(m, k + 1);
      now := now + m.interval;
    }
    assert peers[..|peers|] == peers;
    return None, pings;
  }

  /** An exit at the next tick is the first one of the whole run. */
  lemma ExitStep(m: Timer, arrivals: seq<nat>, peers: seq<Peer>, k: nat)
    requires arrivals != [] && k < |peers| && FirstExit(m, arrivals, peers[..k]) == None
    ensures Stays(m, arrivals, peers[k], Tick(m, k)) ==> FirstExit(m, arrivals, peers[..k + 1]) == None
    ensures !Stays(m, arrivals, peers[k], Tick(m, k)) ==> FirstExit(m, arrivals, peers) == Some(k)
  {
    hide Alive, Tick;
    assert peers[..k + 1][..k] == peers[..k];
    forall j | 0 <= j < k
      ensures Stays(m, arrivals, peers[j], Tick(m, j))
    {
      assert peers[..k][j] == peers[j];
    }
  }

  lemma NextTick(m: Timer, k: nat)
    requires k > 0
    ensures Tick(m, k) == Tick(m, k - 1) + m.interval
  {
  }

  /** A time that is timeout and interval together, or longer, after the `i`-th sign of life, and before the next. */
  predicate InGap(m: Timer, arrivals: seq<nat>, i: nat, now: nat)
    requires i < |arrivals|
  {
    arrivals[i] + m.timeout + m.interval <= now && (i + 1 < |arrivals| ==> now < arrivals[i + 1])
  }

  lemma {:induction false} LastPongIs(arrivals: seq<nat>, now: nat, i: nat)
    requires Times(arrivals) && i < |arrivals| && arrivals[i] <= now
    requires i + 1 < |arrivals| ==> now < arrivals[i + 1]
    ensures LastPong(arrivals, now) == arrivals[i]
  {
    var n := |arrivals| - 1;
    if i < n {
      assert arrivals[i + 1] <= arrivals[n];
      LastPongIs(arrivals[..n], now, i);
    }
  }

  /** The last arrival not after `now`. */
  lemma {:induction false} Latest(arrivals: seq<nat>, now: nat) returns (i: nat)
    requires Times(arrivals) && arrivals[0] <= now
    ensures i < |arrivals| && arrivals[i] <= now && (i + 1 < |arrivals| ==> now < arrivals[i + 1])
  {
    var n := |arrivals| - 1;
    if n == 0 || arrivals[n] <= now {
      i := n;
    } else {
      i := Latest(arrivals[..n], now);
    }
  }

  lemma DeadInGap(m: Timer, arrivals: seq<nat>, now: nat)
    requires Times(arrivals) && arrivals[0] <= now
    ensures !Alive(m, arrivals, now) <==> exists i | 0 <= i < |arrivals| :: InGap(m, arrivals, i, now)
  {
    var i := Latest(arrivals, now);
    LastPongIs(arrivals, now, i);
    if j :| 0 <= j < |arrivals| && InGap(m, arrivals, j, now) {
      LastPongIs(arrivals, now, j);
    } else {
      assert !InGap(m, arrivals, i, now);
    }
  }

  /** The ticks come at the start and then every interval. */
  lemma TickTimes(m: Timer, k: nat)
    ensures Tick(m, k) == m.start + k * m.interval
    ensures Tick(m, 0) == m.start && Tick(m, k + 1) == Tick(m, k) + m.interval
  {
  }

  /** The timer closes a peer exactly if one of its ticks falls into a gap. */
  lemma ClosedIffTickInGap(m: Timer, arrivals: seq<nat>, n: nat)
    requires Times(arrivals) && arrivals[0] <= m.start
    ensures FirstDead(m, arrivals, n).Some? <==>
            exists k, i | 0 <= k < n && 0 <= i < |arrivals| :: InGap(m, arrivals, i, Tick(m, k))
  {
    hide InGap, Alive;
    forall k | 0 <= k < n
      ensures !Alive(m, arrivals, Tick(m, k)) <==> exists i | 0 <= i < |arrivals| :: InGap(m, arrivals, i, Tick(m, k))
    {
      DeadInGap(m, arrivals, Tick(m, k));
    }
  }

  /** A peer whose signs of life are always less than timeout and interval together apart is never closed. */
  lemma LivePeerKept(m: Timer, arrivals: seq<nat>, n: nat)
    requires Times(arrivals) && arrivals[0] <= m.start
    requires forall i | 0 <= i < |arrivals| - 1 :: arrivals[i + 1] < arrivals[i] + m.timeout + m.interval
    requires forall k | 0 <= k < n :: Tick(m, k) < arrivals[|arrivals| - 1] + m.timeout + m.interval
    ensures FirstDead(m, arrivals, n) == None
  {
    hide Tick;
    ClosedIffTickInGap(m, arrivals, n);
  }

  /** Some tick falls into every interval that is not before the first. */
  lemma {:induction false} TickWithin(m: Timer, x: nat, from: nat) returns (k: nat)
    requires m.interval > 0 && Tick(m, from) < x + m.interval
    ensures from <= k && x <= Tick(m, k) < x + m.interval
    decreases x + m.interval - Tick(m, from)
  {
    if x <= Tick(m, from) {
      k := from;
    } else {
      NextTick(m, from + 1);
      k := TickWithin(m, x, from + 1);
    }
  }

  lemma {:induction false} TicksGrow(m: Timer, j: nat, k: nat)
    requires j <= k
    ensures Tick(m, j) <= Tick(m, k)
    decreases k - j
  {
    if j < k {
      NextTick(m, k);
      TicksGrow(m, j, k - 1);
    }
  }

  /**
   Dead-peer detection: a peer that gives no sign of life for the timeout and two
   intervals after its `i`-th one, at time `t`, perhaps none ever again, is closed at a
   tick before `t + timeout + 2 * interval`; and not before `t + timeout + interval`,
   unless an earlier silence had closed it before `t`.
   */
  lemma DeadPeerClosed(m: Timer, arrivals: seq<nat>, i: nat, n: nat)
    requires m.interval > 0 && Times(arrivals) && i < |arrivals|
    requires m.start < arrivals[i] + m.timeout + 2 * m.interval <= Tick(m, n)
    requires i + 1 < |arrivals| ==> arrivals[i] + m.timeout + 2 * m.interval <= arrivals[i + 1]
    ensures var t, r := arrivals[i], FirstDead(m, arrivals, n);
            && r.Some?
            && var c := Tick(m, r.value);
               c < t + m.timeout + 2 * m.interval && (t <= c ==> t + m.timeout + m.interval <= c)
  {
    var t := arrivals[i] + m.timeout + m.interval;
    hide Tick;
    TickTimes(m, 0);
    var k := TickWithin(m, t, 0);
    if n <= k {
      TicksGrow(m, n, k);
    }
    LastPongIs(arrivals, Tick(m, k), i);
    assert !Alive(m, arrivals, Tick(m, k));
    var r := FirstDead(m, arrivals, n);
    TicksGrow(m, r.value, k);
    if Tick(m, r.value) >= arrivals[i] {
      LastPongIs(arrivals, Tick(m, r.value), i);
    }
  }

  /**
   The same for the loop itself, whose socket takes every ping: it closes the peer at
   such a tick, having sent a ping at that tick and at each one before it.
   */
  lemma LoopClosesDeadPeer(m: Timer, arrivals: seq<nat>, peers: seq<Peer>, i: nat)
    requires m.interval > 0 && Times(arrivals) && i < |arrivals|
    requires forall k | 0 <= k < |peers| :: peers[k] == Present(true)
    requires m.start < arrivals[i] + m.timeout + 2 * m.interval <= m.start + |peers| * m.interval
    requires i + 1 < |arrivals| ==> arrivals[i] + m.timeout + 2 * m.interval <= arrivals[i + 1]
    ensures var t, r := arrivals[i], FirstExit(m, arrivals, peers);
            && r.Some?
            && var c := m.start + r.value * m.interval;
               c < t + m.timeout + 2 * m.interval && (t <= c ==> t + m.timeout + m.interval <= c)
  {
    hide Alive;
    ExitIsDeath(m, arrivals, peers);
    DeadPeerClosed(m, arrivals, i, |peers|);
  }

  /** Without failing pings a peer that is never silent for so long stays. */
  lemma LoopKeepsLivePeer(m: Timer, arrivals: seq<nat>, peers: seq<Peer>)
    requires Times(arrivals) && arrivals[0] <= m.start
    requires forall k | 0 <= k < |peers| :: peers[k] == Present(true)
    requires forall i | 0 <= i < |arrivals| - 1 :: arrivals[i + 1] < arrivals[i] + m.timeout + m.interval
    requires m.start + |peers| * m.interval < arrivals[|arrivals| - 1] + m.timeout + m.interval
    ensures FirstExit(m, arrivals, peers) == None
  {
    hide Alive;
    ExitIsDeath(m, arrivals, peers);
    forall k | 0 <= k < |peers|
      ensures Tick(m, k) < arrivals[|arrivals| - 1] + m.timeout + m.interval
    {
      TicksGrow(m, k, |peers|);
    }
    LivePeerKept(m, arrivals, |peers|);
  }
}

/** What repeated failure detection does to one node over a whole run of ticks and heartbeats
    (internal/cluster/membership.go, internal/cluster/gossip/gossip.go). */
module FailureDetector {
  import opened ClusterNodes

  datatype Health = Health(status: Status, lastHeartbeat: int)

  datatype Event = Tick(now: int) | Beat(now: int)

  function Step(h: Health, e: Event, timeout: int): Health {
    match e
    case Tick(now) => h.(status := Verdict(h.status, now - h.lastHeartbeat, timeout))
    case Beat(now) => Health(Alive, now)
  }

  function Run(h: Health, events: seq<Event>, timeout: int): Health {
    if events == [] then h else Step(Run(h, events[..|events| - 1], timeout), events[|events| - 1], timeout)
  }

  function HealthOf(n: Node): Health {
    Health(n.status, n.lastHeartbeat)
  }

  /** One detector pass is one tick for every node but the local one, and a heartbeat is one beat. */
  lemma MembershipSteps(nodes: Nodes, local: string, id: string, now: int, timeout: int)
    requires id in nodes && id != local
    ensures HealthOf(Detected(nodes, local, now, timeout)[id]) == Step(HealthOf(nodes[id]), Tick(now), timeout)
    ensures HealthOf(nodes[id].(lastHeartbeat := now, status := Alive)) == Step(HealthOf(nodes[id]), Beat(now), timeout)
    ensures local in nodes ==> Detected(nodes, local, now, timeout)[local] == nodes[local]
  {
  }

  /** The state before the event at an index. */
  function Before(h: Health, events: seq<Event>, timeout: int, i: nat): Health
    requires i <= |events|
  {
    Run(h, events[..i], timeout)
  }

  function Age(h: Health, e: Event): int {
    e.now - h.lastHeartbeat
  }

  lemma BeforeInPrefix(h: Health, events: seq<Event>, timeout: int, n: nat, i: nat)
    requires i <= n <= |events|
    ensures Before(h, events[..n], timeout, i) == Before(h, events, timeout, i)
  {
    assert events[..n][..i] == events[..i];
  }

  /** A tick suspected the node, and nothing but ticks has happened since. */
  ghost predicate SuspectedAt(h: Health, events: seq<Event>, timeout: int, i: nat, n: nat)
    requires i < n <= |events|
  {
    && events[i].Tick? && Before(h, events, timeout, i).status == Alive &&
        Age(Before(h, events, timeout, i), events[i]) > timeout
    && forall k :: i < k <= n ==>
         Before(h, events, timeout, k) == Health(Suspect, Before(h, events, timeout, i).lastHeartbeat)
  }

  lemma {:induction false} SuspectHasACause(h: Health, events: seq<Event>, timeout: int, n: nat) returns (i: nat)
    requires h.status == Alive && n <= |events|
    requires Before(h, events, timeout, n).status == Suspect
    ensures i < n && SuspectedAt(h, events, timeout, i, n)
    decreases n
  {
    assert n > 0;
    assert events[..n][..n - 1] == events[..n - 1];
    var previous := Before(h, events, timeout, n - 1);
    assert Before(h, events, timeout, n) == Step(previous, events[n - 1], timeout);
    if previous.status == Suspect {
      i := SuspectHasACause(h, events, timeout, n - 1);
    } else {
      i := n - 1;
    }
  }

  /** A node that starts alive is declared dead only after two separate ticks: one that suspected it for a
      heartbeat older than the timeout, and a later one, with no heartbeat in between, when that same heartbeat
      was more than twice the timeout old. */
  lemma {:induction false} DeathTakesTwoTicks(h: Health, events: seq<Event>, timeout: int) returns (i: nat, j: nat)
    requires h.status == Alive && Run(h, events, timeout).status == Dead
    ensures i < j < |events| && SuspectedAt(h, events, timeout, i, j)
    ensures events[j].Tick? && Before(h, events, timeout, j).status == Suspect &&
              Age(Before(h, events, timeout, j), events[j]) > 2 * timeout
    ensures forall k :: j < k <= |events| ==> Before(h, events, timeout, k).status == Dead
    decreases |events|
  {
    var n := |events| - 1;
    assert events[..|events|] == events;
    var previous := Run(h, events[..n], timeout);
    if previous.status == Dead {
      i, j := DeathTakesTwoTicks(h, events[..n], timeout);
      forall k | 0 <= k <= n
        ensures Before(h, events[..n], timeout, k) == Before(h, events, timeout, k)
      {
        BeforeInPrefix(h, events, timeout, n, k);
      }
    } else {
      j := n;
      i := SuspectHasACause(h, events, timeout, n);
    }
  }

  /** Conversely silence is noticed: without a heartbeat, a tick that finds the last one older than the timeout leaves
      the node suspected at least, and a later tick that finds it older than twice the timeout leaves it dead for
      good. */
  lemma {:induction false} SilentNodesDie(h: Health, events: seq<Event>, timeout: int, i: nat, j: nat)
    requires i < |events| && forall k :: 0 <= k < |events| ==> events[k].Tick?
    requires h.status in {Alive, Suspect, Dead} && events[i].now - h.lastHeartbeat > timeout
    ensures Run(h, events, timeout).lastHeartbeat == h.lastHeartbeat
    ensures Run(h, events, timeout).status in {Suspect, Dead}
    ensures i < j < |events| && events[j].now - h.lastHeartbeat > 2 * timeout ==> Run(h, events, timeout).status == Dead
    decreases |events|
  {
    var n := |events| - 1;
    TicksKeepTheHeartbeat(h, events[..n], timeout);
    if i < n {
      SilentNodesDie(h, events[..n], timeout, i, j);
    }
  }

  lemma {:induction false} TicksKeepTheHeartbeat(h: Health, events: seq<Event>, timeout: int)
    requires forall k :: 0 <= k < |events| ==> events[k].Tick?
    requires h.status in {Alive, Suspect, Dead}
    ensures Run(h, events, timeout).lastHeartbeat == h.lastHeartbeat
    ensures Run(h, events, timeout).status in {Alive, Suspect, Dead}
    decreases |events|
  {
    if events != [] {
      TicksKeepTheHeartbeat(h, events[..|events| - 1], timeout);
    }
  }

  /** And a heartbeat revives a node whatever it was. */
  lemma HeartbeatsRevive(h: Health, events: seq<Event>, timeout: int, now: int)
    ensures Run(h, events + [Beat(now)], timeout) == Health(Alive, now)
  {
    assert (events + [Beat(now)])[..|events|] == events;
  }

  /** A node whose heartbeat is never older than the timeout when a tick comes is never suspected. */
  lemma {:induction false} PunctualNodesStayAlive(h: Health, events: seq<Event>, timeout: int)
    requires h.status == Alive
    requires forall i :: 0 <= i < |events| && events[i].Tick? ==>
               Age(Before(h, events, timeout, i), events[i]) <= timeout
    ensures forall i :: 0 <= i <= |events| ==> Before(h, events, timeout, i).status == Alive
    decreases |events|
  {
    if events != [] {
      var n := |events| - 1;
      forall i | 0 <= i <= n
        ensures Before(h, events[..n], timeout, i) == Before(h, events, timeout, i)
      {
        BeforeInPrefix(h, events, timeout, n, i);
      }
      PunctualNodesStayAlive(h, events[..n], timeout);
      assert Before(h, events, timeout, n).status == Alive;
      assert events[..|events|] == events;
    }
  }
}

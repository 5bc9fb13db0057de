/** Replica writes as a protocol: what has become of every write that a handler has passed to a replica
    (internal/server/handlers/kv.go, internal/cluster/handoff/manager.go). Handler iterations, replay attempts
    and read repairs interleave freely; a node has one replay at a time. */
module Delivery {
  import opened Common
  import opened Handoff

  /** What an RPC to a replica may do: apply and answer, apply and lose the answer, not arrive, or answer with an
      error in the response after not applying. */
  datatype Reply = Accepted | LostReply | NotDelivered | Refused

  predicate Applies(reply: Reply) {
    reply == Accepted || reply == LostReply
  }

  /** The call itself returned an error. */
  predicate CallFails(reply: Reply) {
    reply == LostReply || reply == NotDelivered
  }

  /** The handler keeps a hint for a replica that is not alive, whose call fails, or that refuses. */
  predicate KeepsHint(alive: bool, reply: Reply) {
    !alive || reply != Accepted
  }

  /** A running replay: the hints below next are still to be attempted, from the top down. */
  datatype Cursor = Cursor(snapshot: seq<Write>, next: nat)

  /** One replica as the sender knows it, with the bookkeeping of the proof: what it has applied, what was
      delivered with an answer, and what was given up. */
  datatype Replica = Replica(hints: seq<Write>, replay: Option<Cursor>, applied: seq<Write>,
                             delivered: multiset<Write>, dropped: multiset<Write>)

  const FRESH := Replica([], None, [], multiset{}, multiset{})

  /** One iteration of a handler's replica loop. */
  function StoreOn(r: Replica, w: Write, alive: bool, reply: Reply): Replica {
    r.(hints := if KeepsHint(alive, reply) then r.hints + [w] else r.hints,
       applied := if alive && Applies(reply) then r.applied + [w] else r.applied,
       delivered := if KeepsHint(alive, reply) then r.delivered else r.delivered + multiset{w})
  }

  function RemoveAt(hints: seq<Write>, i: nat): seq<Write> {
    if i < |hints| then hints[..i] + hints[i + 1..] else hints
  }

  datatype Event = StartReplay | Attempt(reply: Reply) | EndReplay | Repair(write: Write)

  predicate Possible(r: Replica, e: Event) {
    match e
    case StartReplay => r.replay.None?
    case Attempt(_) => r.replay.Some? && 0 < r.replay.value.next <= |r.replay.value.snapshot|
    case EndReplay => r.replay.Some? && r.replay.value.next == 0
    case Repair(_) => true
  }

  /** A replay attempt removes the hint at its own index when the call returns without an error, which is also
      the case when the response carries one. */
  function Step(r: Replica, e: Event): Replica
    requires Possible(r, e)
  {
    match e
    case StartReplay => r.(replay := Some(Cursor(r.hints, |r.hints|)))
    case EndReplay => r.(replay := None)
    case Repair(w) => r.(applied := r.applied + [w])
    case Attempt(reply) =>
      var i := r.replay.value.next - 1;
      var w := r.replay.value.snapshot[i];
      r.(replay := Some(r.replay.value.(next := i)),
         hints := if CallFails(reply) then r.hints else RemoveAt(r.hints, i),
         applied := if Applies(reply) then r.applied + [w] else r.applied,
         delivered := if reply == Accepted then r.delivered + multiset{w} else r.delivered,
         dropped := if reply == Refused then r.dropped + multiset{w} else r.dropped)
  }

  // ---- the whole system -----------------------------------------------------------------

  /** A put or delete whose local part succeeded: its replicas in order, and how many the loop has served. */
  datatype Request = Request(write: Write, replicas: seq<string>, served: nat)

  datatype System = System(nodes: map<string, Replica>, requests: seq<Request>)

  datatype Action =
    | Begin(write: Write, replicas: seq<string>)
    | Serve(request: nat, alive: bool, reply: Reply)
    | At(node: string, event: Event)

  function Get(s: System, node: string): Replica {
    if node in s.nodes then s.nodes[node] else FRESH
  }

  predicate Acknowledged(q: Request) {
    q.served == |q.replicas|
  }

  predicate Enabled(s: System, a: Action) {
    match a
    case Begin(_, _) => true
    case Serve(id, _, _) => id < |s.requests| && s.requests[id].served < |s.requests[id].replicas|
    case At(node, e) => Possible(Get(s, node), e)
  }

  function Act(s: System, a: Action): System
    requires Enabled(s, a)
  {
    match a
    case Begin(w, replicas) => s.(requests := s.requests + [Request(w, replicas, 0)])
    case Serve(id, alive, reply) =>
      var q := s.requests[id];
      var node := q.replicas[q.served];
      System(s.nodes[node := StoreOn(Get(s, node), q.write, alive, reply)],
          s.requests[id := q.(served := q.served + 1)])
    case At(node, e) => s.(nodes := s.nodes[node := Step(Get(s, node), e)])
  }

  const EMPTY := System(map[], [])

  ghost predicate Legal(actions: seq<Action>)
    decreases |actions|, 0
  {
    actions == [] || (Legal(actions[..|actions| - 1]) && Enabled(Run(actions[..|actions| - 1]), actions[|actions| - 1]))
  }

  ghost function Run(actions: seq<Action>): System
    requires Legal(actions)
    decreases |actions|, 1
  {
    if actions == [] then EMPTY else Act(Run(actions[..|actions| - 1]), actions[|actions| - 1])
  }

  // ---- what is owed --------------------------------------------------------------------------

  /** How often a node occurs among some replicas. */
  function Occurrences(replicas: seq<string>, node: string): nat {
    if replicas == [] then 0
    else Occurrences(replicas[..|replicas| - 1], node) + (if replicas[|replicas| - 1] == node then 1 else 0)
  }

  function Served(q: Request): seq<string> {
    Take(q.replicas, q.served)
  }

  /** How often handlers have passed a write to a node so far. */
  function Owed(requests: seq<Request>, node: string, w: Write): nat {
    if requests == [] then 0
    else
      var q := requests[|requests| - 1];
      Owed(requests[..|requests| - 1], node, w) + (if q.write == w then Occurrences(Served(q), node) else 0)
  }

  ghost predicate WellFormed(requests: seq<Request>) {
    forall q :: q in requests ==> q.served <= |q.replicas|
  }

  lemma OneMoreServed(q: Request, node: string)
    requires q.served < |q.replicas|
    ensures Occurrences(Served(q.(served := q.served + 1)), node) ==
            Occurrences(Served(q), node) + (if q.replicas[q.served] == node then 1 else 0)
  {
    assert q.replicas[..q.served + 1][..q.served] == q.replicas[..q.served];
    assert q.replicas[..|q.replicas|] == q.replicas;
  }

  lemma {:induction false} ServingOwesOneMore(requests: seq<Request>, id: nat, node: string, w: Write)
    requires id < |requests| && requests[id].served < |requests[id].replicas|
    ensures var q := requests[id];
            Owed(requests[id := q.(served := q.served + 1)], node, w) ==
            Owed(requests, node, w) + (if q.replicas[q.served] == node && q.write == w then 1 else 0)
    decreases |requests|
  {
    var more := requests[id := requests[id].(served := requests[id].served + 1)];
    var n := |requests| - 1;
    if id == n {
      assert more[..n] == requests[..n];
      OneMoreServed(requests[id], node);
    } else {
      assert more[..n] == requests[..n][id := more[id]];
      ServingOwesOneMore(requests[..n], id, node, w);
    }
  }

  lemma BeginningOwesNothing(requests: seq<Request>, q: Request, node: string, w: Write)
    requires q.served == 0
    ensures Owed(requests + [q], node, w) == Owed(requests, node, w)
  {
    assert (requests + [q])[..|requests|] == requests;
    assert Served(q) == [];
  }

  lemma {:induction false} ServedAreOwed(requests: seq<Request>, id: nat, k: nat)
    requires id < |requests| && k < requests[id].served <= |requests[id].replicas|
    ensures Owed(requests, requests[id].replicas[k], requests[id].write) > 0
    decreases |requests|
  {
    var n := |requests| - 1;
    if id == n {
      ServedOccur(Served(requests[id]), k);
    } else {
      ServedAreOwed(requests[..n], id, k);
    }
  }

  lemma {:induction false} ServedOccur(served: seq<string>, k: nat)
    requires k < |served|
    ensures Occurrences(served, served[k]) > 0
    decreases |served|
  {
    if k < |served| - 1 {
      ServedOccur(served[..|served| - 1], k);
    }
  }

  // ---- the invariant -----------------------------------------------------------------------------

  /** Nothing is lost or invented: as often as a write was owed, it has been delivered, is pending, or was dropped
      by a refused replay. */
  ghost predicate Conserved(r: Replica, w: Write, owed: nat) {
    owed == r.delivered[w] + multiset(r.hints)[w] + r.dropped[w] && r.delivered[w] <= multiset(r.applied)[w]
  }

  /** The hints that a replay has yet to attempt are still where its indices point. */
  ghost predicate Aligned(r: Replica) {
    r.replay.Some? ==>
      var c := r.replay.value;
      c.next <= |c.snapshot| && c.snapshot[..c.next] <= r.hints
  }

  lemma AttemptRemovesItsOwnHint(hints: seq<Write>, snapshot: seq<Write>, next: nat, w: Write)
    requires 0 < next <= |snapshot| && snapshot[..next] <= hints
    ensures multiset(hints)[w] == multiset(RemoveAt(hints, next - 1))[w] + (if snapshot[next - 1] == w then 1 else 0)
    ensures snapshot[..next - 1] <= RemoveAt(hints, next - 1)
    ensures snapshot[..next - 1] <= hints
  {
    var i := next - 1;
    assert hints[i] == snapshot[..next][i];
    assert hints == hints[..i] + [hints[i]] + hints[i + 1..];
    assert hints[..i] == snapshot[..next][..i] == snapshot[..i];
  }

  lemma StoreConserves(r: Replica, w: Write, owed: nat, write: Write, alive: bool, reply: Reply)
    requires Conserved(r, w, owed) && Aligned(r)
    ensures Conserved(StoreOn(r, write, alive, reply), w, if write == w then owed + 1 else owed)
    ensures Aligned(StoreOn(r, write, alive, reply))
  {
  }

  lemma StepConserves(r: Replica, w: Write, owed: nat, e: Event)
    requires Conserved(r, w, owed) && Aligned(r) && Possible(r, e)
    ensures Conserved(Step(r, e), w, owed) && Aligned(Step(r, e))
  {
    match e
    case Attempt(reply) => AttemptConserves(r, w, owed, reply);
    case Repair(v) => CountSnoc(r.applied, v, w);
    case StartReplay =>
    case EndReplay =>
  }

  lemma CountSnoc(s: seq<Write>, x: Write, w: Write)
    ensures multiset(s + [x])[w] == multiset(s)[w] + (if x == w then 1 else 0)
  {
  }

  lemma AttemptConserves(r: Replica, w: Write, owed: nat, reply: Reply)
    requires Conserved(r, w, owed) && Aligned(r) && Possible(r, Attempt(reply))
    ensures Conserved(Step(r, Attempt(reply)), w, owed) && Aligned(Step(r, Attempt(reply)))
  {
    AttemptStaysAligned(r, w, reply);
    hide Aligned;
    AttemptCounts(r, w, reply);
    hide Step;
    hide RemoveAt;
  }

  lemma AttemptStaysAligned(r: Replica, w: Write, reply: Reply)
    requires Aligned(r) && Possible(r, Attempt(reply))
    ensures var i := r.replay.value.next - 1;
            multiset(r.hints)[w] ==
            multiset(RemoveAt(r.hints, i))[w] + (if r.replay.value.snapshot[i] == w then 1 else 0)
    ensures Aligned(Step(r, Attempt(reply)))
  {
    var c := r.replay.value;
    AttemptRemovesItsOwnHint(r.hints, c.snapshot, c.next, w);
    hide RemoveAt;
    var after := Step(r, Attempt(reply));
    assert after.replay.value.next == c.next - 1 && after.replay.value.snapshot == c.snapshot;
    assert after.hints == if CallFails(reply) then r.hints else RemoveAt(r.hints, c.next - 1);
  }

  /** What an attempt changes in the bookkeeping of a write. */
  lemma AttemptCounts(r: Replica, w: Write, reply: Reply)
    requires Possible(r, Attempt(reply))
    ensures var after := Step(r, Attempt(reply));
            var own := if r.replay.value.snapshot[r.replay.value.next - 1] == w then 1 else 0;
            && after.delivered[w] == r.delivered[w] + (if reply == Accepted then own else 0)
            && after.dropped[w] == r.dropped[w] + (if reply == Refused then own else 0)
            && multiset(after.applied)[w] == multiset(r.applied)[w] + (if Applies(reply) then own else 0)
            && after.hints == if CallFails(reply) then r.hints else RemoveAt(r.hints, r.replay.value.next - 1)
  {
    hide RemoveAt;
    CountSnoc(r.applied, r.replay.value.snapshot[r.replay.value.next - 1], w);
  }

  ghost predicate NodeInv(s: System, node: string, w: Write) {
    Conserved(Get(s, node), w, Owed(s.requests, node, w)) && Aligned(Get(s, node))
  }

  lemma ActKeepsNodeInv(s: System, a: Action, node: string, w: Write)
    requires NodeInv(s, node, w) && Enabled(s, a)
    ensures NodeInv(Act(s, a), node, w)
  {
    hide StoreOn;
    hide Step;
    hide Conserved;
    hide Aligned;
    match a
    case Begin(write, replicas) => BeginningOwesNothing(s.requests, Request(write, replicas, 0), node, w);
    case Serve(id, alive, reply) =>
      ServingOwesOneMore(s.requests, id, node, w);
      StoreConserves(Get(s, node), w, Owed(s.requests, node, w), s.requests[id].write, alive, reply);
    case At(n, e) =>
      if n == node {
        StepConserves(Get(s, node), w, Owed(s.requests, node, w), e);
      }
  }

  /** Delivery conservation in every reachable state: for every node and every write, counting repetitions. */
  lemma {:induction false} EveryRunConserves(actions: seq<Action>, node: string, w: Write)
    requires Legal(actions)
    ensures WellFormed(Run(actions).requests)
    ensures Conserved(Get(Run(actions), node), w, Owed(Run(actions).requests, node, w))
    ensures Aligned(Get(Run(actions), node))
    decreases |actions|
  {
    hide Conserved;
    hide Aligned;
    if actions == [] {
      NothingYet(node, w);
    } else {
      EveryRunConserves(actions[..|actions| - 1], node, w);
      ActKeepsNodeInv(Run(actions[..|actions| - 1]), actions[|actions| - 1], node, w);
    }
  }

  lemma NothingYet(node: string, w: Write)
    ensures NodeInv(EMPTY, node, w)
  {
  }

  /** No replay attempt was answered with an error inside the response. */
  predicate RefusalFree(actions: seq<Action>, node: string) {
    forall i :: 0 <= i < |actions| ==> actions[i] != At(node, Attempt(Refused))
  }

  /** Writes are dropped exactly by replay attempts that are refused: the replay looks at the call's error only. */
  lemma {:induction false} DroppedIffRefused(actions: seq<Action>, node: string)
    requires Legal(actions)
    ensures Get(Run(actions), node).dropped == multiset{} <==> RefusalFree(actions, node)
    decreases |actions|
  {
    if actions != [] {
      var n := |actions| - 1;
      DroppedIffRefused(actions[..n], node);
      DroppedStep(Run(actions[..n]), actions[n], node);
      OneMoreRefusalFree(actions, node);
      hide RefusalFree;
      hide Act;
    }
  }

  lemma OneMoreRefusalFree(actions: seq<Action>, node: string)
    requires actions != []
    ensures var n := |actions| - 1;
            RefusalFree(actions, node) <==> RefusalFree(actions[..n], node) && actions[n] != At(node, Attempt(Refused))
  {
  }

  lemma DroppedStep(s: System, a: Action, node: string)
    requires Enabled(s, a)
    ensures a != At(node, Attempt(Refused)) ==> Get(Act(s, a), node).dropped == Get(s, node).dropped
    ensures a == At(node, Attempt(Refused)) ==> Get(Act(s, a), node).dropped != multiset{}
  {
    if a == At(node, Attempt(Refused)) {
      var c := Get(s, node).replay.value;
      assert c.snapshot[c.next - 1] in Get(Act(s, a), node).dropped;
    }
  }

  // ---- exactly what is kept ----------------------------------------------------------------

  /** The event sends the write and the response refuses it. */
  predicate Refuses(r: Replica, e: Event, w: Write)
    requires Possible(r, e)
  {
    e == Attempt(Refused) && r.replay.value.snapshot[r.replay.value.next - 1] == w
  }

  /** The event makes the node apply the write: a replay or a read repair reaches it. */
  predicate AppliesWrite(r: Replica, e: Event, w: Write)
    requires Possible(r, e)
  {
    match e
    case Attempt(reply) => Applies(reply) && r.replay.value.snapshot[r.replay.value.next - 1] == w
    case Repair(v) => v == w
    case StartReplay => false
    case EndReplay => false
  }

  predicate IsRefusal(s: System, a: Action, node: string, w: Write)
    requires Enabled(s, a)
  {
    a.At? && a.node == node && Refuses(Get(s, node), a.event, w)
  }

  predicate IsApplication(s: System, a: Action, node: string, w: Write)
    requires Enabled(s, a)
  {
    match a
    case Begin(_, _) => false
    case Serve(id, alive, reply) =>
      var q := s.requests[id];
      q.replicas[q.served] == node && q.write == w && alive && Applies(reply)
    case At(n, e) => n == node && AppliesWrite(Get(s, node), e, w)
  }

  /** How many replay attempts that sent a write to a node were refused. */
  ghost function Refusals(actions: seq<Action>, node: string, w: Write): nat
    requires Legal(actions)
  {
    if actions == [] then 0
    else
      var before := actions[..|actions| - 1];
      Refusals(before, node, w) + (if IsRefusal(Run(before), actions[|actions| - 1], node, w) then 1 else 0)
  }

  /** Some action made the node apply the write. */
  ghost predicate AppliedOnce(actions: seq<Action>, node: string, w: Write)
    requires Legal(actions)
  {
    actions != [] &&
    var before := actions[..|actions| - 1];
    AppliedOnce(before, node, w) || IsApplication(Run(before), actions[|actions| - 1], node, w)
  }

  lemma StoreCounts(r: Replica, write: Write, alive: bool, reply: Reply, w: Write)
    ensures StoreOn(r, write, alive, reply).dropped == r.dropped
    ensures w in StoreOn(r, write, alive, reply).applied <==> w in r.applied || (write == w && alive && Applies(reply))
  {
  }

  lemma StepCounts(r: Replica, e: Event, w: Write)
    requires Possible(r, e)
    ensures Step(r, e).dropped[w] == r.dropped[w] + (if Refuses(r, e, w) then 1 else 0)
    ensures w in Step(r, e).applied <==> w in r.applied || AppliesWrite(r, e, w)
  {
  }

  lemma CountsStep(s: System, a: Action, node: string, w: Write)
    requires Enabled(s, a)
    ensures Get(Act(s, a), node).dropped[w] ==
            Get(s, node).dropped[w] + (if IsRefusal(s, a, node, w) then 1 else 0)
    ensures w in Get(Act(s, a), node).applied <==> w in Get(s, node).applied || IsApplication(s, a, node, w)
  {
    hide StoreOn;
    hide Step;
    match a
    case Begin(_, _) =>
    case Serve(id, alive, reply) => StoreCounts(Get(s, node), s.requests[id].write, alive, reply, w);
    case At(n, e) =>
      if n == node {
        StepCounts(Get(s, node), e, w);
      }
  }

  lemma {:induction false} CountsOfARun(actions: seq<Action>, node: string, w: Write)
    requires Legal(actions)
    ensures Get(Run(actions), node).dropped[w] == Refusals(actions, node, w)
    ensures w in Get(Run(actions), node).applied <==> AppliedOnce(actions, node, w)
    decreases |actions|
  {
    if actions != [] {
      var before := actions[..|actions| - 1];
      CountsOfARun(before, node, w);
      CountsStep(Run(before), actions[|actions| - 1], node, w);
    }
  }

  /** In every reachable state a write is applied at a node or pending for it exactly when fewer of the replays that
      sent it there were refused than handlers have passed it on, or some attempt to apply it got through. */
  lemma KeptIff(actions: seq<Action>, node: string, w: Write)
    requires Legal(actions)
    ensures w in Get(Run(actions), node).applied || w in Get(Run(actions), node).hints <==>
            Refusals(actions, node, w) < Owed(Run(actions).requests, node, w) || AppliedOnce(actions, node, w)
  {
    EveryRunConserves(actions, node, w);
    CountsOfARun(actions, node, w);
    hide Run;
    hide Refusals;
    hide AppliedOnce;
    var r := Get(Run(actions), node);
    assert w in r.hints <==> multiset(r.hints)[w] > 0;
    assert w in r.applied <==> multiset(r.applied)[w] > 0;
  }

  /** And every single time it was passed on has been answered or is pending exactly when no replay of it was
      refused. */
  lemma FullyKeptIff(actions: seq<Action>, node: string, w: Write)
    requires Legal(actions)
    ensures var r := Get(Run(actions), node);
            r.delivered[w] + multiset(r.hints)[w] == Owed(Run(actions).requests, node, w) <==>
                Refusals(actions, node, w) == 0
  {
    EveryRunConserves(actions, node, w);
    CountsOfARun(actions, node, w);
  }

  lemma {:induction false} NoRefusals(actions: seq<Action>, node: string, w: Write)
    requires Legal(actions) && RefusalFree(actions, node)
    ensures Refusals(actions, node, w) == 0
    decreases |actions|
  {
    if actions != [] {
      NoRefusals(actions[..|actions| - 1], node, w);
      OneMoreRefusalFree(actions, node);
    }
  }

  /** For each replica of an acknowledged write: it has been applied there or is a pending hint, exactly when it was
      refused less often than passed on or got through once; in particular when no replay to that replica was
      refused. */
  lemma AcknowledgedIsAppliedOrPending(actions: seq<Action>, id: nat, k: nat)
    requires Legal(actions)
    requires id < |Run(actions).requests| && Acknowledged(Run(actions).requests[id])
    requires k < |Run(actions).requests[id].replicas|
    ensures var q := Run(actions).requests[id];
            var node := q.replicas[k];
            var r := Get(Run(actions), node);
            && Owed(Run(actions).requests, node, q.write) > 0
            && (q.write in r.applied || q.write in r.hints <==>
                  Refusals(actions, node, q.write) < Owed(Run(actions).requests, node, q.write)
                  || AppliedOnce(actions, node, q.write))
            && (RefusalFree(actions, node) ==> q.write in r.applied || q.write in r.hints)
  {
    var s := Run(actions);
    var q := s.requests[id];
    KeptIff(actions, q.replicas[k], q.write);
    ServedAreOwed(s.requests, id, k);
    if RefusalFree(actions, q.replicas[k]) {
      NoRefusals(actions, q.replicas[k], q.write);
    }
  }

  /** And a refused replay does lose an acknowledged write: it is neither applied nor pending afterwards. */
  lemma RefusedReplayLosesAWrite(w: Write)
    ensures var actions := [Begin(w, ["r"]), Serve(0, false, NotDelivered), At("r", StartReplay),
              At("r", Attempt(Refused))];
            && Legal(actions)
            && Run(actions).requests == [Request(w, ["r"], 1)]
            && Get(Run(actions), "r").applied == [] && Get(Run(actions), "r").hints == []
  {
    hide Act;
    hide Enabled;
    FirstTwoActions(w);
    LastTwoActions(w);
    var begun := [] + [Begin(w, ["r"])];
    var served := begun + [Serve(0, false, NotDelivered)];
    var started := served + [At("r", StartReplay)];
    var refused := started + [At("r", Attempt(Refused))];
    ExtendRun([], Begin(w, ["r"]));
    ExtendRun(begun, Serve(0, false, NotDelivered));
    ExtendRun(served, At("r", StartReplay));
    ExtendRun(started, At("r", Attempt(Refused)));
    assert refused == [Begin(w, ["r"]), Serve(0, false, NotDelivered), At("r", StartReplay), At("r", Attempt(Refused))];
  }

  lemma ExtendRun(actions: seq<Action>, a: Action)
    requires Legal(actions) && Enabled(Run(actions), a)
    ensures Legal(actions + [a]) && Run(actions + [a]) == Act(Run(actions), a)
  {
    assert (actions + [a])[..|actions|] == actions;
  }

  function AfterService(w: Write, r: Replica): System {
    System(map["r" := r], [Request(w, ["r"], 1)])
  }

  lemma FirstTwoActions(w: Write)
    ensures Enabled(EMPTY, Begin(w, ["r"]))
    ensures Act(EMPTY, Begin(w, ["r"])) == System(map[], [Request(w, ["r"], 0)])
    ensures Enabled(System(map[], [Request(w, ["r"], 0)]), Serve(0, false, NotDelivered))
    ensures Act(System(map[], [Request(w, ["r"], 0)]), Serve(0, false, NotDelivered)) ==
            AfterService(w, FRESH.(hints := [w]))
  {
    assert [] + [w] == [w];
    assert [Request(w, ["r"], 0)][0 := Request(w, ["r"], 1)] == [Request(w, ["r"], 1)];
  }

  lemma LastTwoActions(w: Write)
    ensures var pending := AfterService(w, FRESH.(hints := [w]));
            var replaying := AfterService(w, FRESH.(hints := [w], replay := Some(Cursor([w], 1))));
            && Enabled(pending, At("r", StartReplay)) && Act(pending, At("r", StartReplay)) == replaying
            && Enabled(replaying, At("r", Attempt(Refused)))
            && Act(replaying, At("r", Attempt(Refused))).requests == [Request(w, ["r"], 1)]
            && Get(Act(replaying, At("r", Attempt(Refused))), "r").applied == []
            && Get(Act(replaying, At("r", Attempt(Refused))), "r").hints == []
  {
    assert RemoveAt([w], 0) == [];
  }
}

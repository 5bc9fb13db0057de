/** The replica loops of the key-value handlers (internal/server/handlers/kv.go). Every iteration is one
    serving step of the delivery protocol. */
module KvHandlers {
  import opened Common
  import opened ClusterNodes
  import opened KvLog
  import opened Handoff
  import opened Delivery

  /** Where a key's owners come from: no cluster at all, or the owner list of the ring, which may be empty. */
  datatype Routing = Standalone | Routed(owners: seq<Node>)

  datatype Response = NoOwners | PrimaryUnavailable | Forwarded | StorageFailed | Done

  /** The writes that hints stand for. */
  function Writes(hints: seq<Hint>): seq<Write> {
    if hints == [] then [] else Writes(hints[..|hints| - 1]) + [ToWrite(hints[|hints| - 1])]
  }

  lemma WritesSnoc(hints: seq<Hint>, h: Hint)
    ensures Writes(hints + [h]) == Writes(hints) + [ToWrite(h)]
  {
    assert (hints + [h])[..|hints|] == hints;
  }

  /** A replica after a handler has served it as often as it occurs among the replicas. */
  function ServeAll(r: Replica, node: string, replicas: seq<Node>, replies: seq<Reply>, w: Write): Replica
    requires |replicas| == |replies|
  {
    if replicas == [] then r
    else
      var n := |replicas| - 1;
      var before := ServeAll(r, node, replicas[..n], replies[..n], w);
      if replicas[n].id == node then StoreOn(before, w, replicas[n].status == Alive, replies[n]) else before
  }

  /** Replicas reached by RPC, each with the writes it has applied. */
  class Network {
    var applied: map<string, seq<Write>>

    constructor ()
      ensures applied == map[]
    {
      applied := map[];
    }

    function Applied(node: string): seq<Write>
      reads this
    {
      if node in applied then applied[node] else []
    }

    /** ReplicaPut and ReplicaDelete: the caller learns whether the call failed and whether the response
        carries an error. */
    method Call(node: string, w: Write) returns (failed: bool, refused: bool, ghost reply: Reply)
      modifies this
      ensures failed == CallFails(reply) && refused == (reply == Refused)
      ensures failed <==> reply == NotDelivered || reply == LostReply
      ensures Applied(node) ==
              if reply == Accepted || reply == LostReply then old(Applied(node)) + [w] else old(Applied(node))
      ensures forall n :: n != node ==> Applied(n) == old(Applied(n))
    {
      var arrives: bool := *;
      var accepts: bool := *;
      var answers: bool := *;
      reply := if !arrives then NotDelivered else if !accepts then Refused else if answers then Accepted else LostReply;
      if arrives && accepts {
        applied := applied[node := Applied(node) + [w]];
      }
      failed, refused := !arrives || (accepts && !answers), arrives && !accepts;
    }
  }

  class KvHandler {
    const hintManager: HintManager
    const network: Network
    var stored: map<string, Bytes>

    constructor (hintManager: HintManager, network: Network)
      ensures this.hintManager == hintManager && this.network == network && stored == map[]
    {
      this.hintManager, this.network := hintManager, network;
      stored := map[];
    }

    /** A replica as this handler and the network know it. */
    ghost function View(node: string): Replica
      reads hintManager, network
    {
      Replica(Writes(hintManager.Pending(node)), None, network.Applied(node), multiset{}, multiset{})
    }

    /** What has been added for a node, counted: a hint for each of its servings that was not answered with acceptance,
        and the write for each that reached it. Nothing is taken away, and no other write is touched. */
    ghost predicate PassedOn(node: string, before: Replica, replicas: seq<Node>, replies: seq<Reply>, w: Write)
      requires |replicas| == |replies|
      reads hintManager, network
    {
      var after := View(node);
      && before.hints <= after.hints && before.applied <= after.applied
      && multiset(after.hints)[w] == multiset(before.hints)[w] + Unanswered(node, replicas, replies)
      && multiset(after.applied)[w] == multiset(before.applied)[w] + Reached(node, replicas, replies)
      && (forall v :: v != w ==>
            multiset(after.hints)[v] == multiset(before.hints)[v] &&
                multiset(after.applied)[v] == multiset(before.applied)[v])
    }

    /** Exactly one serving step for every replica in the list, in order. */
    ghost predicate AllServed(node: string, before: Replica, replicas: seq<Node>, replies: seq<Reply>, w: Write)
      requires |replicas| == |replies|
      reads hintManager, network
    {
      var after := ServeAll(before, node, replicas, replies, w);
      View(node).hints == after.hints && View(node).applied == after.applied
    }

    /** The loop over the replicas: a replica that is not alive, whose call fails or that refuses gets a hint. */
    method ServeReplicas(replicas: seq<Node>, operation: string, key: string, value: Bytes, now: int)
      returns (ghost replies: seq<Reply>)
      requires hintManager.Valid() && (operation == PUT || (operation == DELETE && value == []))
      modifies hintManager`hints, network
      ensures hintManager.Valid() && |replies| == |replicas|
      ensures forall node :: AllServed(node, old(View(node)), replicas, replies,
                if operation == PUT then Put(key, value) else Delete(key))
    {
      hide StoreOn;
      replies := [];
      ghost var w := if operation == PUT then Put(key, value) else Delete(key);
      for i := 0 to |replicas|
        invariant hintManager.Valid() && |replies| == i
        invariant forall node :: AllServed(node, old(View(node)), replicas[..i], replies, w)
      {
        ghost var reply;
        label Before:
        reply := ServeOne(replicas[i], operation, key, value, now);
        assert replicas[..i + 1][..i] == replicas[..i] && (replies + [reply])[..i] == replies;
        forall node
          ensures AllServed(node, old(View(node)), replicas[..i + 1], replies + [reply], w)
        {
          var before := ServeAll(old(View(node)), node, replicas[..i], replies, w);
          assert old@Before(AllServed(node, before, [], [], w));
          StoreReadsTwoFields(before, old@Before(View(node)), w, replicas[i].status == Alive, reply);
        }
        replies := replies + [reply];
      }
      assert replicas[..|replicas|] == replicas;
    }

    method ServeOne(replica: Node, operation: string, key: string, value: Bytes, now: int) returns (ghost reply: Reply)
      requires hintManager.Valid() && (operation == PUT || (operation == DELETE && value == []))
      modifies hintManager`hints, network
      ensures hintManager.Valid()
      ensures var w := if operation == PUT then Put(key, value) else Delete(key);
              var after := StoreOn(old(View(replica.id)), w, replica.status == Alive, reply);
              View(replica.id).hints == after.hints && View(replica.id).applied == after.applied
      ensures forall node :: node != replica.id ==>
                View(node).hints == old(View(node)).hints && View(node).applied == old(View(node)).applied
    {
      hide Writes;
      WritesSnoc(hintManager.Pending(replica.id), Hint(replica.id, operation, key, value, now));
      if replica.status != Alive {
        hintManager.StoreHint(replica.id, operation, key, value, now);
        reply := NotDelivered;
        return;
      }
      var failed, refused;
      failed, refused, reply := network.Call(replica.id, if operation == PUT then Put(key, value) else Delete(key));
      if failed {
        hintManager.StoreHint(replica.id, operation, key, value, now);
        return;
      }
      if refused {
        hintManager.StoreHint(replica.id, operation, key, value, now);
        return;
      }
    }

    /** The local primary stores first and reads back; only then are the replicas served, all of them before the
        request is acknowledged. If reading back fails, the value stays stored but no replica hears of it. */
    method HandlePut(key: string, body: Bytes, routing: Routing, localID: string, storageOk: bool, readOk: bool,
                     now: int)
      returns (response: Response, ghost replies: seq<Reply>)
      requires hintManager.Valid()
      modifies this, hintManager`hints, network
      ensures hintManager.Valid()
      ensures response == Respond(routing, localID, storageOk && readOk)
      ensures response != Done ==>
                && stored ==
                   (if Route(routing, localID) == Done && storageOk then old(stored)[key := body] else old(stored))
                && forall node :: View(node) == old(View(node))
      ensures response == Done ==>
                && stored == old(stored)[key := body] && |replies| == |Replicas(routing)|
                && forall node :: AllServed(node, old(View(node)), Replicas(routing), replies, Put(key, body))
      ensures response == Done <==>
                storageOk && readOk && (routing.Standalone?
                         || (routing.owners != [] && localID != "" && routing.owners[0].id == localID))
      ensures routing.Routed? && routing.owners == [] ==> response == NoOwners
      ensures routing.Standalone? || (routing.owners != [] && localID != "" && routing.owners[0].id == localID) ==>
                response == Done || response == StorageFailed
      ensures routing.Routed? && routing.owners != [] && (localID == "" || routing.owners[0].id != localID) ==>
                response == if routing.owners[0].status == Alive then Forwarded else PrimaryUnavailable
      ensures response == Done && routing.Standalone? ==> replies == [] && forall node :: View(node) == old(View(node))
      ensures response == Done && routing.Routed? ==>
                && |replies| == |routing.owners| - 1
                && forall node :: PassedOn(node, old(View(node)), routing.owners[1..], replies, Put(key, body))
    {
      hide PassedOn;
      hide AllServed;
      replies := [];
      response := Route(routing, localID);
      if response != Done {
        return;
      }
      if !storageOk {
        return StorageFailed, [];
      }
      stored := stored[key := body];
      assert forall node :: View(node) == old(View(node));
      if !readOk {
        return StorageFailed, [];
      }
      label Stored:
      replies := ServeReplicas(Replicas(routing), PUT, key, body, now);
      forall node
        ensures AllServed(node, old(View(node)), Replicas(routing), replies, Put(key, body))
        ensures PassedOn(node, old(View(node)), Replicas(routing), replies, Put(key, body))
        ensures Replicas(routing) == [] ==> View(node) == old(View(node))
      {
        assert old@Stored(View(node)) == old(View(node));
        ServedIsPassedOn(node, old(View(node)), Replicas(routing), replies, Put(key, body));
      }
    }

    method HandleDelete(key: string, routing: Routing, localID: string, storageOk: bool, now: int)
      returns (response: Response, ghost replies: seq<Reply>)
      requires hintManager.Valid()
      modifies this, hintManager`hints, network
      ensures hintManager.Valid()
      ensures response == Respond(routing, localID, storageOk)
      ensures response != Done ==> stored == old(stored) && forall node :: View(node) == old(View(node))
      ensures response == Done ==>
                && stored == old(stored) - {key} && |replies| == |Replicas(routing)|
                && forall node :: AllServed(node, old(View(node)), Replicas(routing), replies, Delete(key))
      ensures response == Done <==>
                storageOk && (routing.Standalone?
                         || (routing.owners != [] && localID != "" && routing.owners[0].id == localID))
      ensures routing.Routed? && routing.owners == [] ==> response == NoOwners
      ensures routing.Standalone? || (routing.owners != [] && localID != "" && routing.owners[0].id == localID) ==>
                response == Done || response == StorageFailed
      ensures routing.Routed? && routing.owners != [] && (localID == "" || routing.owners[0].id != localID) ==>
                response == if routing.owners[0].status == Alive then Forwarded else PrimaryUnavailable
      ensures response == Done && routing.Standalone? ==> replies == [] && forall node :: View(node) == old(View(node))
      ensures response == Done && routing.Routed? ==>
                && |replies| == |routing.owners| - 1
                && forall node :: PassedOn(node, old(View(node)), routing.owners[1..], replies, Delete(key))
    {
      hide PassedOn;
      hide AllServed;
      replies := [];
      response := Route(routing, localID);
      if response != Done {
        return;
      }
      if !storageOk {
        return StorageFailed, [];
      }
      stored := stored - {key};
      assert forall node :: View(node) == old(View(node));
      label Stored:
      replies := ServeReplicas(Replicas(routing), DELETE, key, [], now);
      forall node
        ensures AllServed(node, old(View(node)), Replicas(routing), replies, Delete(key))
        ensures PassedOn(node, old(View(node)), Replicas(routing), replies, Delete(key))
        ensures Replicas(routing) == [] ==> View(node) == old(View(node))
      {
        assert old@Stored(View(node)) == old(View(node));
        ServedIsPassedOn(node, old(View(node)), Replicas(routing), replies, Delete(key));
      }
    }

    lemma ServedIsPassedOn(node: string, before: Replica, replicas: seq<Node>, replies: seq<Reply>, w: Write)
      requires |replicas| == |replies| && AllServed(node, before, replicas, replies, w)
      requires before.replay == None && before.delivered == multiset{} && before.dropped == multiset{}
      ensures PassedOn(node, before, replicas, replies, w)
      ensures replicas == [] ==> View(node) == before
    {
      HintsCount(before, node, replicas, replies, w, w);
      ApplicationsCount(before, node, replicas, replies, w, w);
      forall v | v != w
        ensures multiset(View(node).hints)[v] == multiset(before.hints)[v]
        ensures multiset(View(node).applied)[v] == multiset(before.applied)[v]
      {
        HintsCount(before, node, replicas, replies, w, v);
        ApplicationsCount(before, node, replicas, replies, w, v);
      }
    }
  }

  // ---- servings counted -------------------------------------------------------------------

  /** How often a node was served without being alive and answering that it accepts. */
  function Unanswered(node: string, replicas: seq<Node>, replies: seq<Reply>): nat
    requires |replicas| == |replies|
  {
    if replicas == [] then 0
    else
      var n := |replicas| - 1;
      Unanswered(node, replicas[..n], replies[..n])
      + (if replicas[n].id == node && !(replicas[n].status == Alive && replies[n] == Accepted) then 1 else 0)
  }

  /** How often a node was served, alive, and applied the write, whether or not the answer came back. */
  function Reached(node: string, replicas: seq<Node>, replies: seq<Reply>): nat
    requires |replicas| == |replies|
  {
    if replicas == [] then 0
    else
      var n := |replicas| - 1;
      Reached(node, replicas[..n], replies[..n])
      + (if replicas[n].id == node && replicas[n].status == Alive && replies[n] in {Accepted, LostReply} then 1 else 0)
  }

  function Servings(node: string, replicas: seq<Node>): nat {
    if replicas == [] then 0
    else Servings(node, replicas[..|replicas| - 1]) + (if replicas[|replicas| - 1].id == node then 1 else 0)
  }

  /** Every serving leaves the write there or a hint for it, and a node that is not served gets neither. */
  lemma {:induction false} EveryServingCounts(node: string, replicas: seq<Node>, replies: seq<Reply>)
    requires |replicas| == |replies|
    ensures Servings(node, replicas) <= Unanswered(node, replicas, replies) + Reached(node, replicas, replies)
    ensures Servings(node, replicas) == 0 ==>
              Unanswered(node, replicas, replies) == 0 == Reached(node, replicas, replies)
    ensures forall i :: 0 <= i < |replicas| && replicas[i].id == node ==> Servings(node, replicas) > 0
    decreases |replicas|
  {
    if replicas != [] {
      var n := |replicas| - 1;
      EveryServingCounts(node, replicas[..n], replies[..n]);
      assert forall i :: 0 <= i < n ==> replicas[..n][i] == replicas[i];
    }
  }

  lemma {:induction false} HintsCount(r: Replica, node: string, replicas: seq<Node>, replies: seq<Reply>, w: Write,
                                      v: Write)
    requires |replicas| == |replies|
    ensures var after := ServeAll(r, node, replicas, replies, w);
            && r.hints <= after.hints
            && multiset(after.hints)[v] ==
               multiset(r.hints)[v] + (if v == w then Unanswered(node, replicas, replies) else 0)
    decreases |replicas|
  {
    if replicas != [] {
      var n := |replicas| - 1;
      HintsCount(r, node, replicas[..n], replies[..n], w, v);
      OneServing(ServeAll(r, node, replicas[..n], replies[..n], w), w, replicas[n].status == Alive, replies[n], v);
      hide StoreOn;
    }
  }

  lemma {:induction false} ApplicationsCount(r: Replica, node: string, replicas: seq<Node>, replies: seq<Reply>,
                                             w: Write,
                                             v: Write)
    requires |replicas| == |replies|
    ensures var after := ServeAll(r, node, replicas, replies, w);
            && r.applied <= after.applied
            && multiset(after.applied)[v] ==
               multiset(r.applied)[v] + (if v == w then Reached(node, replicas, replies) else 0)
    decreases |replicas|
  {
    if replicas != [] {
      var n := |replicas| - 1;
      ApplicationsCount(r, node, replicas[..n], replies[..n], w, v);
      OneServing(ServeAll(r, node, replicas[..n], replies[..n], w), w, replicas[n].status == Alive, replies[n], v);
      hide StoreOn;
    }
  }

  lemma OneServing(r: Replica, w: Write, alive: bool, reply: Reply, v: Write)
    ensures var after := StoreOn(r, w, alive, reply);
            && after.hints == (if alive && reply == Accepted then r.hints else r.hints + [w])
            && after.applied == (if alive && reply in {Accepted, LostReply} then r.applied + [w] else r.applied)
            && multiset(r.hints + [w])[v] == multiset(r.hints)[v] + (if v == w then 1 else 0)
            && multiset(r.applied + [w])[v] == multiset(r.applied)[v] + (if v == w then 1 else 0)
  {
  }

  /** The owners after the primary. */
  function Replicas(routing: Routing): seq<Node> {
    if routing.Standalone? || routing.owners == [] then [] else routing.owners[1..]
  }

  /** Whether a request is served here, and if not, why. */
  function Route(routing: Routing, localID: string): Response {
    if routing.Standalone? then Done
    else if routing.owners == [] then NoOwners
    else if localID != "" && routing.owners[0].id == localID then Done
    else if routing.owners[0].status != Alive then PrimaryUnavailable
    else Forwarded
  }

  function Respond(routing: Routing, localID: string, storageOk: bool): Response {
    if Route(routing, localID) == Done && !storageOk then StorageFailed else Route(routing, localID)
  }

  lemma StoreReadsTwoFields(a: Replica, b: Replica, w: Write, alive: bool, reply: Reply)
    requires a.hints == b.hints && a.applied == b.applied
    ensures StoreOn(a, w, alive, reply).hints == StoreOn(b, w, alive, reply).hints
    ensures StoreOn(a, w, alive, reply).applied == StoreOn(b, w, alive, reply).applied
  {
  }

  // ---- the loop as actions of the protocol ------------------------------------------------

  function ServeActions(id: nat, replicas: seq<Node>, replies: seq<Reply>): seq<Action>
    requires |replicas| == |replies|
  {
    if replicas == [] then []
    else
      var n := |replicas| - 1;
      ServeActions(id, replicas[..n], replies[..n]) + [Serve(id, replicas[n].status == Alive, replies[n])]
  }

  /** A handler's loop is the protocol's serving actions for its request: they are possible from any legal run that
      has begun the request, they acknowledge it, and they leave every replica as the loop does. */
  lemma {:induction false} LoopIsServeActions(before: seq<Action>, id: nat, w: Write, replicas: seq<Node>,
                                              rest: seq<string>, replies: seq<Reply>)
    requires Legal(before) && |replicas| == |replies|
    requires id < |Run(before).requests| && Run(before).requests[id] == Request(w, Ids(replicas) + rest, 0)
    ensures var actions := before + ServeActions(id, replicas, replies);
            && Legal(actions)
            && Run(actions).requests == Run(before).requests[id := Request(w, Ids(replicas) + rest, |replicas|)]
            && (rest == [] ==> Acknowledged(Run(actions).requests[id]))
            && forall node :: Get(Run(actions), node) == ServeAll(Get(Run(before), node), node, replicas, replies, w)
    decreases |replicas|
  {
    hide StoreOn;
    hide Legal;
    hide Run;
    if replicas == [] {
      assert before + ServeActions(id, replicas, replies) == before;
      assert Run(before).requests[id := Run(before).requests[id]] == Run(before).requests;
    } else {
      var n := |replicas| - 1;
      var last := replicas[n];
      assert Ids(replicas) + rest == Ids(replicas[..n]) + ([last.id] + rest);
      LoopIsServeActions(before, id, w, replicas[..n], [last.id] + rest, replies[..n]);
      var previous := before + ServeActions(id, replicas[..n], replies[..n]);
      OneMoreAction(previous, id, Request(w, Ids(replicas) + rest, n), last, replies[n]);
      assert previous + [Serve(id, last.status == Alive, replies[n])] == before + ServeActions(id, replicas, replies);
    }
  }

  lemma OneMoreAction(previous: seq<Action>, id: nat, q: Request, replica: Node, reply: Reply)
    requires Legal(previous) && id < |Run(previous).requests| && Run(previous).requests[id] == q
    requires q.served < |q.replicas| && q.replicas[q.served] == replica.id
    ensures var actions := previous + [Serve(id, replica.status == Alive, reply)];
            && Legal(actions)
            && Run(actions).requests == Run(previous).requests[id := q.(served := q.served + 1)]
            && forall node :: Get(Run(actions), node) ==
                 if node == replica.id then StoreOn(Get(Run(previous), node), q.write, replica.status == Alive, reply)
                 else Get(Run(previous), node)
  {
    hide StoreOn;
    var actions := previous + [Serve(id, replica.status == Alive, reply)];
    assert actions[..|previous|] == previous;
  }

  // ---- an acknowledged request and its owners ------------------------------------------------

  /** A run in which a handler has begun a request for the owners after the primary and served them all, and whatever
      happens afterwards. */
  function Handled(before: seq<Action>, id: nat, w: Write, owners: seq<Node>, replies: seq<Reply>, later: seq<Action>):
      seq<Action>
    requires owners != [] && |replies| == |owners| - 1
  {
    before + [Begin(w, Ids(owners[1..]))] + ServeActions(id, owners[1..], replies) + later
  }

  lemma HandledIsAcknowledged(before: seq<Action>, w: Write, owners: seq<Node>, replies: seq<Reply>, later: seq<Action>)
    requires Legal(before) && owners != [] && |replies| == |owners| - 1
    requires Legal(Handled(before, |Run(before).requests|, w, owners, replies, later))
    ensures var id := |Run(before).requests|;
            var requests := Run(Handled(before, id, w, owners, replies, later)).requests;
            id < |requests| && requests[id] == Request(w, Ids(owners[1..]), |owners| - 1)
  {
    var id := |Run(before).requests|;
    var rest := owners[1..];
    var begun := before + [Begin(w, Ids(rest))];
    RequestBegins(before, w, Ids(rest));
    hide Legal;
    hide Run;
    hide ServeActions;
    hide ServeAll;
    assert Ids(rest) + [] == Ids(rest);
    LoopIsServeActions(begun, id, w, rest, [], replies);
    RequestStaysAcknowledged(begun + ServeActions(id, rest, replies), later, id);
  }

  /** A put or delete that the primary has acknowledged, as a part of any run of the protocol, however it goes on: at
      each of the other owners the write has been applied or is a pending hint, unless replays of it there were refused
      as often as it was passed on and no attempt ever got through. */
  lemma OwnersKeepTheWrite(before: seq<Action>, w: Write, owners: seq<Node>, replies: seq<Reply>, later: seq<Action>,
                           i: nat)
    requires Legal(before) && |replies| == |owners| - 1 && 1 <= i < |owners|
    requires Legal(Handled(before, |Run(before).requests|, w, owners, replies, later))
    ensures var actions := Handled(before, |Run(before).requests|, w, owners, replies, later);
            var node := owners[i].id;
            var r := Get(Run(actions), node);
            && (w in r.applied || w in r.hints <==>
                  Refusals(actions, node, w) < Owed(Run(actions).requests, node, w) || AppliedOnce(actions, node, w))
            && (RefusalFree(actions, node) ==> w in r.applied || w in r.hints)
  {
    var id := |Run(before).requests|;
    HandledIsAcknowledged(before, w, owners, replies, later);
    hide Handled;
    hide Legal;
    hide Run;
    hide Refusals;
    hide AppliedOnce;
    hide Owed;
    hide RefusalFree;
    assert Ids(owners[1..])[i - 1] == owners[i].id;
    AcknowledgedIsAppliedOrPending(Handled(before, id, w, owners, replies, later), id, i - 1);
  }

  lemma RequestBegins(before: seq<Action>, w: Write, replicas: seq<string>)
    requires Legal(before)
    ensures var begun := before + [Begin(w, replicas)];
            && Legal(begun)
            && Run(begun).requests == Run(before).requests + [Request(w, replicas, 0)]
  {
    ExtendRun(before, Begin(w, replicas));
  }

  /** Once acknowledged, a request stays what it is. */
  lemma {:induction false} RequestStaysAcknowledged(actions: seq<Action>, later: seq<Action>, id: nat)
    requires Legal(actions) && Legal(actions + later)
    requires id < |Run(actions).requests| && Acknowledged(Run(actions).requests[id])
    ensures id < |Run(actions + later).requests| && Run(actions + later).requests[id] == Run(actions).requests[id]
    decreases |later|
  {
    if later == [] {
      assert actions + later == actions;
    } else {
      var n := |later| - 1;
      assert (actions + later)[..|actions + later| - 1] == actions + later[..n];
      RequestStaysAcknowledged(actions, later[..n], id);
    }
  }

  // ---- the replay loop as attempts of the protocol ------------------------------------------

  lemma {:induction false} WritesConcat(a: seq<Hint>, b: seq<Hint>)
    ensures Writes(a + b) == Writes(a) + Writes(b)
    ensures |Writes(a)| == |a|
    decreases |a| + |b|
  {
    if b != [] {
      var n := |b| - 1;
      assert (a + b)[..|a + b| - 1] == a + b[..n];
      WritesConcat(a, b[..n]);
    } else {
      assert a + b == a;
      if a != [] {
        WritesConcat(a[..|a| - 1], []);
      }
    }
  }

  lemma OneWrite(h: Hint)
    ensures Writes([h]) == [ToWrite(h)]
  {
    assert [h][..0] == [];
  }

  /** One round of the hint manager's replay loop is one attempt of the protocol: from the queue that the loop finds at
      its call, with what was stored meanwhile, both leave the same queue and point at the same next hint. */
  lemma AttemptIsAStep(snapshot: seq<Hint>, i: nat, kept: seq<Hint>, added: seq<Hint>, meanwhile: seq<Hint>,
                       success: bool, r: Replica, reply: Reply)
    requires i < |snapshot| && Sendable(snapshot[i]) && success == !CallFails(reply)
    requires r.hints == Writes(snapshot[..i + 1] + (kept + added) + meanwhile)
    requires r.replay == Some(Cursor(Writes(snapshot), i + 1))
    ensures Possible(r, Attempt(reply))
    ensures Writes(snapshot)[i] == ToWrite(snapshot[i])
    ensures var after := Step(r, Attempt(reply));
            && after.hints ==
               Writes(snapshot[..i] + ((if success then [] else [snapshot[i]]) + kept + (added + meanwhile)))
            && after.replay == Some(Cursor(Writes(snapshot), i))
            && after.applied == (if Applies(reply) then r.applied + [ToWrite(snapshot[i])] else r.applied)
  {
    var low, h, high := snapshot[..i], snapshot[i], kept + (added + meanwhile);
    AroundAHint(snapshot, i, kept, added, meanwhile, success);
    RemovingOneWrite(low, h, snapshot[i + 1..]);
    RemovingOneWrite(low, h, high);
    hide Writes;
    hide RemoveAt;
  }

  lemma AroundAHint(snapshot: seq<Hint>, i: nat, kept: seq<Hint>, added: seq<Hint>, meanwhile: seq<Hint>, success: bool)
    requires i < |snapshot|
    ensures var low, h, high := snapshot[..i], snapshot[i], kept + (added + meanwhile);
            && snapshot == low + [h] + snapshot[i + 1..]
            && snapshot[..i + 1] + (kept + added) + meanwhile == low + [h] + high
            && snapshot[..i] + ((if success then [] else [snapshot[i]]) + kept + (added + meanwhile)) ==
               if success then low + high else low + [h] + high
  {
    assert [] + kept == kept;
  }

  /** Removing a hint by its index removes its write by the same index. */
  lemma RemovingOneWrite(low: seq<Hint>, h: Hint, high: seq<Hint>)
    ensures var writes := Writes(low + [h] + high);
            && |writes| == |low| + 1 + |high|
            && writes[|low|] == ToWrite(h)
            && RemoveAt(writes, |low|) == Writes(low + high)
  {
    OneWrite(h);
    WritesConcat(low, [h]);
    WritesConcat(low + [h], high);
    WritesConcat(low, high);
    WritesConcat(high, []);
    hide Writes;
    var writes := Writes(low) + [ToWrite(h)] + Writes(high);
    assert writes[..|low|] == Writes(low) && writes[|low| + 1..] == Writes(high);
  }
}

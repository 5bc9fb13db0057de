/** The membership object (internal/cluster/membership.go). */
module MembershipObject {
  import opened Common
  import opened ClusterNodes
  import StringOrder

  class Membership {
    var nodes: Nodes
    var localNodeID: string

    ghost predicate Valid()
      reads this
    {
      Keyed(nodes) && AtMostOneLeader(nodes)
    }

    constructor ()
      ensures Valid() && nodes == map[] && localNodeID == ""
    {
      nodes := map[];
      localNodeID := "";
    }

    /** Renaming the local node holds no election: the flag stays where it is until the next one. */
    method SetLocalNodeID(id: string)
      requires Valid()
      modifies `localNodeID
      ensures Valid() && nodes == old(nodes) && localNodeID == id
    {
      localNodeID := id;
    }

    method AddNode(node: Node)
      requires Valid()
      modifies `nodes
      ensures Valid() && Elected(nodes, localNodeID)
      ensures Unled(nodes) == Unled(old(nodes)[node.id := node])
    {
      nodes := nodes[node.id := node];
      var _, _ := ElectLeader();
    }

    method RemoveNode(id: string)
      requires Valid()
      modifies `nodes
      ensures Valid() && Elected(nodes, localNodeID)
      ensures Unled(nodes) == Unled(old(nodes) - {id})
    {
      nodes := nodes - {id};
      var _, _ := ElectLeader();
    }

    /** A heartbeat revives the node; an unknown id is an error and changes nothing. */
    method UpdateHeartbeat(id: string, now: int) returns (found: bool)
      requires Valid()
      modifies `nodes
      ensures Valid() && found == (id in old(nodes))
      ensures !found ==> nodes == old(nodes)
      ensures found ==> Elected(nodes, localNodeID)
                        && Unled(nodes) == Unled(old(nodes)[id := old(nodes)[id].(lastHeartbeat := now,
                            status := Alive)])
    {
      if id !in nodes {
        return false;
      }
      nodes := nodes[id := nodes[id].(lastHeartbeat := now, status := Alive)];
      var _, _ := ElectLeader();
      return true;
    }

    method MarkSuspect(id: string) returns (found: bool)
      requires Valid()
      modifies `nodes
      ensures Valid() && found == (id in old(nodes))
      ensures !found ==> nodes == old(nodes)
      ensures found ==>
                && Elected(nodes, localNodeID)
                && Unled(nodes) == Unled(old(nodes)[id := old(nodes)[id].(status := Suspect)])
    {
      if id !in nodes {
        return false;
      }
      nodes := nodes[id := nodes[id].(status := Suspect)];
      var _, _ := ElectLeader();
      return true;
    }

    method MarkDead(id: string) returns (found: bool)
      requires Valid()
      modifies `nodes
      ensures Valid() && found == (id in old(nodes))
      ensures !found ==> nodes == old(nodes)
      ensures found ==>
                && Elected(nodes, localNodeID)
                && Unled(nodes) == Unled(old(nodes)[id := old(nodes)[id].(status := Dead)])
    {
      if id !in nodes {
        return false;
      }
      nodes := nodes[id := nodes[id].(status := Dead)];
      var _, _ := ElectLeader();
      return true;
    }

    /** SetLeader moves the flag by hand. */
    method SetLeader(id: string) returns (found: bool)
      requires Valid()
      modifies `nodes
      ensures Valid() && found == (id in old(nodes))
      ensures !found ==> nodes == old(nodes)
      ensures found ==> Unled(nodes) == Unled(old(nodes)) && forall k :: k in nodes ==> (nodes[k].isLeader <==> k == id)
    {
      if id !in nodes {
        return false;
      }
      var node := nodes[id];
      ClearFlags();
      nodes := nodes[id := node.(isLeader := true)];
      return true;
    }

    method ClearFlags()
      modifies `nodes
      ensures nodes == Unled(old(nodes))
    {
      var todo := nodes.Keys;
      while todo != {}
        invariant todo <= nodes.Keys == old(nodes).Keys
        invariant forall k :: k in nodes ==>
                    nodes[k] == if k in todo then old(nodes)[k] else old(nodes)[k].(isLeader := false)
        decreases todo
      {
        var key :| key in todo;
        todo := todo - {key};
        nodes := nodes[key := nodes[key].(isLeader := false)];
      }
    }

    /** electLeaderLocked: visits the nodes in no particular order, keeps the least alive one that is not
        the local node, and moves the flag to it. Needs nothing of the flags it finds. */
    method ElectLeader() returns (leader: Option<Node>, elected: bool)
      requires Keyed(nodes)
      modifies `nodes
      ensures Valid() && Elected(nodes, localNodeID)
      ensures Unled(nodes) == Unled(old(nodes))
      ensures elected <==> exists id :: Candidate(nodes, localNodeID, id)
      ensures elected ==>
                && leader.Some? && leader.value.id in nodes
                && leader.value == nodes[leader.value.id] && leader.value.isLeader
      ensures !elected ==> forall k :: k in nodes ==> !nodes[k].isLeader
    {
      var current: Option<Node> := None;
      var best: Option<Node> := None;
      var todo := nodes.Keys;
      while todo != {}
        invariant todo <= nodes.Keys && nodes == old(nodes)
        invariant best.Some? ==> Candidate(nodes, localNodeID, best.value.id) && nodes[best.value.id] == best.value
        invariant forall k :: k in nodes && k !in todo && Candidate(nodes, localNodeID, k) ==>
                    best.Some? && (k == best.value.id || StringOrder.Less(best.value.id, k))
        decreases todo
      {
        var key :| key in todo;
        todo := todo - {key};
        var node := nodes[key];
        if node.isLeader {
          current := Some(node);
        }
        if node.status != Alive {
          continue;
        }
        if node.id == localNodeID {
          continue;
        }
        if best.None? || StringOrder.Less(node.id, best.value.id) {
          BetterBest(nodes, todo, localNodeID, best, node);
          best := Some(node);
        } else {
          StringOrder.Total(node.id, best.value.id);
        }
      }
      ClearFlags();
      if best.Some? {
        nodes := nodes[best.value.id := best.value.(isLeader := true)];
        SoleFlag(nodes, localNodeID, best.value.id);
        ElectedIsSafe(nodes, localNodeID);
        return Some(nodes[best.value.id]), true;
      }
      return current, false;
    }

    /** detectFailures: judges every node once, in no particular order. A node it declares dead triggers an
        election in the middle of the loop; a node it suspects does not. */
    method DetectFailures(now: int, timeout: int)
      requires Valid()
      modifies `nodes
      ensures Valid()
      ensures Unled(nodes) == Unled(Detected(old(nodes), localNodeID, now, timeout))
    {
      hide Mixed;
      hide Unled;
      hide Keyed;
      hide AtMostOneLeader;
      hide Elected;
      hide Detected;
      ghost var target := Detected(nodes, localNodeID, now, timeout);
      NoneJudged(nodes, localNodeID, now, timeout);
      var todo := nodes.Keys;
      while todo != {}
        invariant todo <= nodes.Keys == old(nodes).Keys
        invariant Valid()
        invariant Unled(nodes) == Mixed(old(nodes), target, todo)
        decreases todo
      {
        var id :| id in todo;
        var node := nodes[id];
        NotYetJudged(nodes, old(nodes), target, todo, id);
        var judged := Verdict(node.status, now - node.lastHeartbeat, timeout);
        TargetOf(old(nodes), localNodeID, now, timeout, id);
        JudgeOne(nodes, old(nodes), target, todo, id,
                 node.(status := if id == localNodeID then node.status else judged));
        StatusKeepsFlags(nodes, id, judged);
        assert nodes[id := node] == nodes;
        todo := todo - {id};
        if id == localNodeID || node.id == localNodeID {
          continue;
        }
        if node.status == Dead {
          continue;
        }
        var elapsed := now - node.lastHeartbeat;
        if node.status == Alive && elapsed > timeout {
          nodes := nodes[id := node.(status := Suspect)];
          continue;
        }
        if node.status == Suspect && elapsed > 2 * timeout {
          nodes := nodes[id := node.(status := Dead)];
          ghost var before := nodes;
          var _, _ := ElectLeader();
          SameMembers(nodes, before);
        }
      }
      AllJudged(nodes, old(nodes), target);
    }
  }

  /** The membership when the nodes still to do are as before and the others as in the target. */
  ghost function Mixed(before: Nodes, target: Nodes, todo: set<string>): Nodes
    requires before.Keys == target.Keys
  {
    map k | k in before :: (if k in todo then before[k] else target[k]).(isLeader := false)
  }

  lemma NotYetJudged(nodes: Nodes, before: Nodes, target: Nodes, todo: set<string>, id: string)
    requires nodes.Keys == before.Keys == target.Keys && id in todo && id in nodes
    requires Unled(nodes) == Mixed(before, target, todo)
    ensures nodes[id].(isLeader := false) == before[id].(isLeader := false)
  {
    assert Unled(nodes)[id] == Mixed(before, target, todo)[id];
  }

  lemma TargetOf(before: Nodes, local: string, now: int, timeout: int, id: string)
    requires id in before
    ensures Detected(before, local, now, timeout)[id] ==
            if id == local then before[id]
            else before[id].(status := Verdict(before[id].status, now - before[id].lastHeartbeat, timeout))
  {
  }

  lemma JudgeOne(nodes: Nodes, before: Nodes, target: Nodes, todo: set<string>, id: string, judged: Node)
    requires nodes.Keys == before.Keys == target.Keys && id in todo && id in nodes
    requires Unled(nodes) == Mixed(before, target, todo)
    requires judged.(isLeader := false) == target[id].(isLeader := false)
    ensures Unled(nodes[id := judged]) == Mixed(before, target, todo - {id})
  {
    forall k | k in nodes
      ensures Unled(nodes[id := judged])[k] == Mixed(before, target, todo - {id})[k]
    {
      assert Unled(nodes)[k] == Mixed(before, target, todo)[k];
    }
  }

  lemma StatusKeepsFlags(nodes: Nodes, id: string, status: Status)
    requires id in nodes && Keyed(nodes) && AtMostOneLeader(nodes)
    ensures var after := nodes[id := nodes[id].(status := status)];
            Keyed(after) && AtMostOneLeader(after)
    ensures nodes[id].id == id
  {
  }

  lemma NoneJudged(nodes: Nodes, local: string, now: int, timeout: int)
    ensures Detected(nodes, local, now, timeout).Keys == nodes.Keys
    ensures Unled(nodes) == Mixed(nodes, Detected(nodes, local, now, timeout), nodes.Keys)
  {
  }

  lemma SameMembers(a: Nodes, b: Nodes)
    requires Unled(a) == Unled(b)
    ensures a.Keys == b.Keys
  {
    assert a.Keys == Unled(a).Keys == Unled(b).Keys == b.Keys;
  }

  lemma AllJudged(nodes: Nodes, before: Nodes, target: Nodes)
    requires before.Keys == target.Keys
    requires Unled(nodes) == Mixed(before, target, {})
    ensures Unled(nodes) == Unled(target)
  {
  }

  lemma BetterBest(nodes: Nodes, todo: set<string>, local: string, best: Option<Node>, node: Node)
    requires best.Some? ==> StringOrder.Less(node.id, best.value.id)
    requires forall k :: k in nodes && k !in todo && k != node.id && Candidate(nodes, local, k) ==>
               best.Some? && (k == best.value.id || StringOrder.Less(best.value.id, k))
    ensures forall k :: k in nodes && k !in todo && Candidate(nodes, local, k) ==>
              k == node.id || StringOrder.Less(node.id, k)
  {
    forall k | k in nodes && k !in todo && Candidate(nodes, local, k)
      ensures k == node.id || StringOrder.Less(node.id, k)
    {
      if k != node.id && k != best.value.id {
        StringOrder.Transitive(node.id, best.value.id, k);
      }
    }
  }

  lemma SoleFlag(nodes: Nodes, local: string, id: string)
    requires LeastCandidate(nodes, local, id)
    requires forall k :: k in nodes ==> (nodes[k].isLeader <==> k == id)
    ensures Elected(nodes, local)
  {
    forall k | k in nodes && k != id
      ensures !LeastCandidate(nodes, local, k)
    {
      if LeastCandidate(nodes, local, k) {
        StringOrder.Asymmetric(id, k);
      }
    }
  }
}

/** The gossip engine (internal/cluster/gossip/gossip.go, internal/cluster/gossip/messages.go). */
module Gossip {
  import opened Common
  import opened ClusterNodes
  import opened GossipMerge
  import opened GossipSpec
  import opened MembershipObject

  /** ToGossipNodeStates */
  method ToGossipNodeStates(infos: seq<GossipNodeInfo>) returns (states: seq<GossipNodeState>)
    ensures states == StatesOf(infos)
  {
    states := [];
    for i := 0 to |infos|
      invariant states == StatesOf(infos[..i])
    {
      var status := Alive;
      var name := ToLower(infos[i].status);
      if name == "suspect" {
        status := Suspect;
      } else if name == "dead" {
        status := Dead;
      }
      StatesOfConcat(infos[..i], [infos[i]]);
      assert infos[..i + 1] == infos[..i] + [infos[i]];
      assert [infos[i]][1..] == [];
      states := states + [GossipNodeState(infos[i].id, infos[i].address, status, infos[i].version,
          infos[i].lastHeartbeat)];
    }
    assert infos[..|infos|] == infos;
  }

  lemma MergeIgnoresFlags(nodes: Nodes, id: string, merged: Node, s: GossipNodeState)
    requires s.nodeID == id && id != ""
    requires merged.(isLeader := false) == MergeInto(Lookup(nodes, id), ToNode(s)).(isLeader := false)
    ensures Unled(nodes[id := merged]) == MergeOne(Unled(nodes), s)
  {
    assert Lookup(Unled(nodes), id) == if id in nodes then Some(nodes[id].(isLeader := false)) else None;
  }

  class GossipEngine {
    const localNodeID: string
    const membership: Membership

    constructor (localNodeID: string, membership: Membership)
      ensures this.localNodeID == localNodeID && this.membership == membership
    {
      this.localNodeID := localNodeID;
      this.membership := membership;
    }

    /** MergeMembership: adds unknown nodes, merges known ones, and skips states without an id. */
    method MergeMembership(remote: seq<GossipNodeState>)
      requires membership.Valid()
      modifies membership`nodes
      ensures membership.Valid()
      ensures Unled(membership.nodes) == MergeAll(Unled(old(membership.nodes)), remote)
    {
      for i := 0 to |remote|
        invariant membership.Valid()
        invariant MergeAll(Unled(membership.nodes), remote[i..]) == MergeAll(Unled(old(membership.nodes)), remote)
      {
        var s := remote[i];
        assert remote[i..][0] == s && remote[i..][1..] == remote[i + 1..];
        if s.nodeID == "" {
          continue;
        }
        if s.nodeID !in membership.nodes {
          MergeIgnoresFlags(membership.nodes, s.nodeID, ToNode(s), s);
          membership.AddNode(ToNode(s));
          continue;
        }
        var existing := membership.nodes[s.nodeID];
        var (shouldUpdate, updated) := MergeNodeStates(existing, ToNode(s));
        MergeIgnoresFlags(membership.nodes, s.nodeID, updated, s);
        if shouldUpdate {
          membership.AddNode(updated);
        } else {
          assert membership.nodes[s.nodeID := existing] == membership.nodes;
        }
      }
    }

    /** GetLocalStateSnapshot: every node once, in no particular order. */
    method Snapshot() returns (infos: seq<GossipNodeInfo>, ghost order: seq<string>)
      ensures Lists(order, membership.nodes.Keys)
      ensures infos == InfosOf(membership.nodes, order)
      ensures |infos| == |membership.nodes| && forall id :: id in membership.nodes ==>
                ToInfo(membership.nodes[id]) in infos
    {
      infos, order := [], [];
      var todo := membership.nodes.Keys;
      while todo != {}
        invariant todo <= membership.nodes.Keys
        invariant Lists(order, membership.nodes.Keys - todo)
        invariant infos == InfosOf(membership.nodes, order)
        decreases todo
      {
        var id :| id in todo;
        todo := todo - {id};
        infos := [ToInfo(membership.nodes[id])] + infos;
        order := [id] + order;
      }
      InfosListEveryNode(membership.nodes, order, membership.nodes.Keys);
    }

    /** HandleInboundGossip: merge the sender's nodes, answer with the result. */
    method HandleInbound(nodes: seq<GossipNodeInfo>) returns (response: seq<GossipNodeInfo>, ghost order: seq<string>)
      requires membership.Valid()
      modifies membership`nodes
      ensures membership.Valid()
      ensures Unled(membership.nodes) == MergeAll(Unled(old(membership.nodes)), StatesOf(nodes))
      ensures Lists(order, membership.nodes.Keys) && response == InfosOf(membership.nodes, order)
    {
      if |nodes| > 0 {
        var states := ToGossipNodeStates(nodes);
        MergeMembership(states);
      }
      response, order := Snapshot();
    }

    /** One lossless gossip exchange with a peer, as the gossip cycle performs it. */
    method ExchangeWith(peer: GossipEngine)
      requires membership.Valid() && peer.membership.Valid() && membership != peer.membership
      modifies membership`nodes, peer.membership`nodes
      ensures membership.Valid() && peer.membership.Valid()
      ensures Exchanged(Unled(old(membership.nodes)), Unled(old(peer.membership.nodes)),
                        Unled(membership.nodes), Unled(peer.membership.nodes))
    {
      ghost var a, b := membership.nodes, peer.membership.nodes;
      var request, order := Snapshot();
      var response, order' := peer.HandleInbound(request);
      ghost var b' := peer.membership.nodes;
      if |response| > 0 {
        var states := ToGossipNodeStates(response);
        MergeMembership(states);
      }
      SnapshotMerged(a, b, order, b');
      SnapshotMerged(b', a, order', membership.nodes);
    }

    /** Two exchanges make both sides agree on everything. */
    method ConvergeWith(peer: GossipEngine)
      requires membership.Valid() && peer.membership.Valid() && membership != peer.membership
      modifies membership`nodes, peer.membership`nodes
      ensures membership.Valid() && peer.membership.Valid()
      ensures forall id {:trigger Lookup(Unled(membership.nodes), id)} ::
                id != "" ==> Agree(Lookup(Unled(membership.nodes), id), Lookup(Unled(peer.membership.nodes), id))
    {
      ExchangeWith(peer);
      ghost var a, b := Unled(membership.nodes), Unled(peer.membership.nodes);
      ExchangeWith(peer);
      TwoExchangesConverge(Unled(old(membership.nodes)), Unled(old(peer.membership.nodes)), a, b,
                           Unled(membership.nodes), Unled(peer.membership.nodes));
    }

    /** evaluateFailureDetector: judges the nodes of a snapshot, marking them through the membership. */
    method EvaluateFailureDetector(now: int, timeout: int)
      requires membership.Valid()
      modifies membership`nodes
      ensures membership.Valid()
      ensures Unled(membership.nodes) == Unled(Detected(old(membership.nodes), localNodeID, now, timeout))
    {
      hide Mixed;
      hide Unled;
      hide Keyed;
      hide AtMostOneLeader;
      hide Elected;
      hide Detected;
      var snapshot := membership.nodes;
      ghost var target := Detected(snapshot, localNodeID, now, timeout);
      NoneJudged(snapshot, localNodeID, now, timeout);
      var todo := snapshot.Keys;
      while todo != {}
        invariant todo <= membership.nodes.Keys == snapshot.Keys
        invariant membership.Valid()
        invariant Unled(membership.nodes) == Mixed(snapshot, target, todo)
        decreases todo
      {
        var id :| id in todo;
        var n := snapshot[id];
        ghost var current := membership.nodes[id];
        NotYetJudged(membership.nodes, snapshot, target, todo, id);
        TargetOf(snapshot, localNodeID, now, timeout, id);
        StatusKeepsFlags(membership.nodes, id, n.status);
        ghost var judged := if id == localNodeID then n.status else Verdict(n.status, now - n.lastHeartbeat, timeout);
        JudgeOne(membership.nodes, snapshot, target, todo, id, current.(status := judged));
        assert membership.nodes[id := current] == membership.nodes;
        assert n.id == current.(isLeader := false).id && n.status == current.(isLeader := false).status;
        todo := todo - {id};
        if n.id == localNodeID {
          continue;
        }
        if n.status == Dead {
          continue;
        }
        var elapsed := now - n.lastHeartbeat;
        ghost var before := membership.nodes;
        if n.status == Alive && elapsed > timeout {
          var _ := membership.MarkSuspect(n.id);
          SameMembers(membership.nodes, before[id := before[id].(status := Suspect)]);
        } else if n.status == Suspect && elapsed > 2 * timeout {
          var _ := membership.MarkDead(n.id);
          SameMembers(membership.nodes, before[id := before[id].(status := Dead)]);
        }
      }
      AllJudged(membership.nodes, snapshot, target);
    }
  }

  /** What a membership holds after merging a snapshot of another, id by id and flags apart. */
  lemma SnapshotMerged(from: Nodes, into: Nodes, order: seq<string>, after: Nodes)
    requires Keyed(from) && Lists(order, from.Keys)
    requires Unled(after) == MergeAll(Unled(into), StatesOf(InfosOf(from, order)))
    ensures forall id {:trigger Lookup(Unled(after), id)} :: id != "" ==>
              Lookup(Unled(after), id) ==
              if id in from then Some(MergeInto(Lookup(Unled(into), id), Wire(Unled(from)[id])))
                  else Lookup(Unled(into), id)
  {
    forall id | id != ""
      ensures Lookup(Unled(after), id) ==
              if id in from then Some(MergeInto(Lookup(Unled(into), id), Wire(Unled(from)[id])))
                  else Lookup(Unled(into), id)
    {
      MergeActsPerId(Unled(into), StatesOf(InfosOf(from, order)), id);
      MergingASnapshot(Lookup(Unled(into), id), from, order, id);
    }
  }

  /** On the same membership, with the same clock, timeout and local id, the gossip detector and the membership's
      own come to the same statuses. */
  method RunBothDetectors(engine: GossipEngine, other: Membership, now: int, timeout: int)
    requires engine.membership.Valid() && other.Valid() && engine.membership != other
    requires engine.membership.nodes == other.nodes && engine.localNodeID == other.localNodeID
    modifies engine.membership`nodes, other`nodes
    ensures Unled(engine.membership.nodes) == Unled(other.nodes)
    ensures forall id :: id in other.nodes ==>
              id in engine.membership.nodes && engine.membership.nodes[id].status == other.nodes[id].status
  {
    engine.EvaluateFailureDetector(now, timeout);
    other.DetectFailures(now, timeout);
    forall id | id in other.nodes
      ensures id in engine.membership.nodes && engine.membership.nodes[id].status == other.nodes[id].status
    {
      assert id in Unled(other.nodes);
      assert Unled(engine.membership.nodes)[id] == Unled(other.nodes)[id];
    }
  }
}

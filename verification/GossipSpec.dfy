/** What merging whole lists of states does to a membership, id by id. */
module GossipSpec {
  import opened Common
  import opened ClusterNodes
  import opened GossipMerge

  function MergeOne(nodes: Nodes, s: GossipNodeState): Nodes {
    if s.nodeID == "" then nodes else nodes[s.nodeID := MergeInto(Lookup(nodes, s.nodeID), ToNode(s))]
  }

  /** The states are merged one after the other. */
  function MergeAll(nodes: Nodes, states: seq<GossipNodeState>): Nodes
    decreases |states|
  {
    if states == [] then nodes else MergeAll(MergeOne(nodes, states[0]), states[1..])
  }

  /** The same seen at one id. */
  function MergeAllAt(node: Option<Node>, states: seq<GossipNodeState>, id: string): Option<Node>
    decreases |states|
  {
    if states == [] then node
    else
      var next := if states[0].nodeID == id && id != "" then Some(MergeInto(node, ToNode(states[0]))) else node;
      MergeAllAt(next, states[1..], id)
  }

  /** Merging acts on each id separately, and on the empty id not at all. */
  lemma {:induction false} MergeActsPerId(nodes: Nodes, states: seq<GossipNodeState>, id: string)
    ensures Lookup(MergeAll(nodes, states), id) == MergeAllAt(Lookup(nodes, id), states, id)
    decreases |states|
  {
    if states != [] {
      MergeActsPerId(MergeOne(nodes, states[0]), states[1..], id);
    }
  }

  lemma {:induction false} MergeKeepsNodes(node: Option<Node>, states: seq<GossipNodeState>, id: string)
    requires node.Some?
    ensures MergeAllAt(node, states, id).Some?
    decreases |states|
  {
    if states != [] {
      var next := if states[0].nodeID == id && id != "" then Some(MergeInto(node, ToNode(states[0]))) else node;
      MergeKeepsNodes(next, states[1..], id);
    }
  }

  /** No merge ever drops a node. */
  lemma NoNodeIsDropped(nodes: Nodes, states: seq<GossipNodeState>)
    ensures nodes.Keys <= MergeAll(nodes, states).Keys
  {
    forall id | id in nodes
      ensures id in MergeAll(nodes, states)
    {
      MergeActsPerId(nodes, states, id);
      MergeKeepsNodes(Lookup(nodes, id), states, id);
    }
  }

  // ---- the rank of a node ---------------------------------------------------------------

  /** The version first, then the heartbeat. */
  predicate RankAtMost(a: Node, b: Node) {
    var order := CompareVersions(a.version, b.version);
    order < 0 || (order == 0 && a.lastHeartbeat <= b.lastHeartbeat)
  }

  predicate SameRank(a: Node, b: Node) {
    CompareVersions(a.version, b.version) == 0 && a.lastHeartbeat == b.lastHeartbeat
  }

  predicate VersionIn(versions: set<string>, node: Option<Node>) {
    node.Some? ==> node.value.version in versions
  }

  ghost predicate VersionsIn(versions: set<string>, states: seq<GossipNodeState>) {
    forall s :: s in states ==> s.version in versions
  }

  lemma RankIsTransitive(versions: set<string>, a: Node, b: Node, c: Node)
    requires Ordered(versions) && {a.version, b.version, c.version} <= versions
    requires RankAtMost(a, b) && RankAtMost(b, c)
    ensures RankAtMost(a, c)
  {
    hide CompareVersions;
    CompareVersionsAntisymmetric(a.version, b.version);
    CompareVersionsAntisymmetric(b.version, c.version);
    CompareVersionsAntisymmetric(a.version, c.version);
    assert CompareVersions(c.version, b.version) >= 0 && CompareVersions(b.version, a.version) >= 0;
    if CompareVersions(a.version, c.version) == 0 {
      assert CompareVersions(a.version, c.version) >= 0 && CompareVersions(c.version, b.version) >= 0;
      assert CompareVersions(b.version, a.version) >= 0 && CompareVersions(a.version, c.version) >= 0;
    }
  }

  lemma RankIsAntisymmetric(a: Node, b: Node)
    ensures SameRank(a, b) <==> RankAtMost(a, b) && RankAtMost(b, a)
    ensures RankAtMost(a, b) || RankAtMost(b, a)
  {
    CompareVersionsAntisymmetric(a.version, b.version);
  }

  /** A merge takes the higher of two ranks, whatever the versions. */
  lemma MergeTakesTheHigherRank(existing: Node, remote: Node)
    ensures var merged := MergeNodeStates(existing, remote).1;
            && merged.version in {existing.version, remote.version}
            && SameRank(merged, if RankAtMost(existing, remote) then remote else existing)
  {
    CompareVersionsAntisymmetric(existing.version, remote.version);
  }

  /** The states about an id, as nodes. */
  ghost predicate About(states: seq<GossipNodeState>, id: string, n: Node) {
    exists s :: s in states && s.nodeID == id && id != "" && ToNode(s) == n
  }

  /** What a node has become is a state it has seen, and none that it has seen ranks higher. */
  ghost predicate IsMaximum(result: Node, node: Option<Node>, states: seq<GossipNodeState>, id: string) {
    && (node.Some? ==> RankAtMost(node.value, result))
    && (forall n :: About(states, id, n) ==> RankAtMost(n, result))
    && ((node.Some? && SameRank(node.value, result)) || exists n :: About(states, id, n) && SameRank(n, result))
  }

  lemma AboutCons(states: seq<GossipNodeState>, id: string, n: Node)
    requires states != []
    ensures About(states, id, n) <==>
            (states[0].nodeID == id && id != "" && ToNode(states[0]) == n) || About(states[1..], id, n)
  {
    if About(states, id, n) {
      var s :| s in states && s.nodeID == id && id != "" && ToNode(s) == n;
      assert s == states[0] || s in states[1..];
    }
    if About(states[1..], id, n) {
      var s :| s in states[1..] && s.nodeID == id && id != "" && ToNode(s) == n;
      assert s in states;
    }
    if states[0].nodeID == id && id != "" && ToNode(states[0]) == n {
      assert states[0] in states;
    }
  }

  lemma AboutVersion(versions: set<string>, states: seq<GossipNodeState>, id: string, n: Node)
    requires VersionsIn(versions, states) && About(states, id, n)
    ensures n.version in versions
  {
  }

  /** Merging any list of states with versions that are in order leaves a node at the lexicographic maximum of
      version and heartbeat. */
  lemma {:induction false} MergeReachesMaximum(versions: set<string>, node: Option<Node>, states: seq<GossipNodeState>,
                                               id: string)
    requires Ordered(versions) && VersionsIn(versions, states) && VersionIn(versions, node)
    ensures var result := MergeAllAt(node, states, id);
            if result.None? then node.None? && forall n :: !About(states, id, n)
            else result.value.version in versions && IsMaximum(result.value, node, states, id)
    decreases |states|
  {
    if states == [] {
      if node.Some? {
        RankIsAntisymmetric(node.value, node.value);
      }
    } else {
      var s, rest := states[0], states[1..];
      var next := if s.nodeID == id && id != "" then Some(MergeInto(node, ToNode(s))) else node;
      NextVersion(versions, node, s, id);
      hide MergeNodeStates;
      hide CompareVersions;
      hide Ordered;
      assert VersionsIn(versions, rest);
      MergeReachesMaximum(versions, next, rest, id);
      forall n
        ensures About(states, id, n) <==> (s.nodeID == id && id != "" && ToNode(s) == n) || About(rest, id, n)
      {
        AboutCons(states, id, n);
      }
      var result := MergeAllAt(node, states, id);
      if result.Some? {
        MaximumStep(versions, result.value, node, next, states, id);
      }
    }
  }

  lemma NextVersion(versions: set<string>, node: Option<Node>, s: GossipNodeState, id: string)
    requires s.version in versions && VersionIn(versions, node)
    ensures var next := if s.nodeID == id && id != "" then Some(MergeInto(node, ToNode(s))) else node;
            && VersionIn(versions, next)
            && (s.nodeID == id && id != "" ==>
                  SameRank(next.value,
                           if node.Some? && !RankAtMost(node.value, ToNode(s)) then node.value else ToNode(s)))
  {
    if node.Some? {
      MergeTakesTheHigherRank(node.value, ToNode(s));
    }
  }

  /** The maximum over the rest, starting from the first merge, is the maximum over all. */
  lemma MaximumStep(versions: set<string>, result: Node, node: Option<Node>, next: Option<Node>,
                    states: seq<GossipNodeState>, id: string)
    requires Ordered(versions) && VersionsIn(versions, states) && VersionIn(versions, node) && VersionIn(versions, next)
    requires states != [] && result.version in versions && IsMaximum(result, next, states[1..], id)
    requires var s := states[0];
             if s.nodeID == id && id != "" then
               && next.Some?
               && SameRank(next.value,
                           if node.Some? && !RankAtMost(node.value, ToNode(s)) then node.value else ToNode(s))
             else next == node
    requires forall n :: About(states, id, n) <==>
               (states[0].nodeID == id && id != "" && ToNode(states[0]) == n) || About(states[1..], id, n)
    ensures IsMaximum(result, node, states, id)
  {
    hide CompareVersions;
    hide About;
    var s := states[0];
    assert s in states;
    if s.nodeID == id && id != "" {
      var told := ToNode(s);
      assert About(states, id, told);
      FirstMergeBelow(versions, result, node, next.value, told);
      if !SameRank(next.value, result) {
        var n :| About(states[1..], id, n) && SameRank(n, result);
        assert About(states, id, n);
      } else if node.Some? && !RankAtMost(node.value, told) {
        SameRankIsTransitive(versions, node.value, next.value, result);
      } else {
        SameRankIsTransitive(versions, told, next.value, result);
      }
    } else if !(node.Some? && SameRank(node.value, result)) {
      var n :| About(states[1..], id, n) && SameRank(n, result);
      assert About(states, id, n);
    }
  }

  lemma SameRankIsTransitive(versions: set<string>, a: Node, b: Node, c: Node)
    requires Ordered(versions) && {a.version, b.version, c.version} <= versions
    requires SameRank(b, a) && SameRank(b, c)
    ensures SameRank(a, c)
  {
    hide CompareVersions;
    hide Ordered;
    CompareVersionsAntisymmetric(a.version, b.version);
    CompareVersionsAntisymmetric(c.version, b.version);
    RankIsTransitive(versions, a, b, c);
    RankIsTransitive(versions, c, b, a);
    RankIsAntisymmetric(a, c);
  }

  /** What the first merge leaves bounds both of its sources. */
  lemma FirstMergeBelow(versions: set<string>, result: Node, node: Option<Node>, next: Node, told: Node)
    requires Ordered(versions) && VersionIn(versions, node) && {result.version, next.version, told.version} <= versions
    requires SameRank(next, if node.Some? && !RankAtMost(node.value, told) then node.value else told)
    requires RankAtMost(next, result)
    ensures RankAtMost(told, result) && (node.Some? ==> RankAtMost(node.value, result))
  {
    hide CompareVersions;
    hide Ordered;
    var higher := if node.Some? && !RankAtMost(node.value, told) then node.value else told;
    RankIsAntisymmetric(next, higher);
    RankIsTransitive(versions, higher, next, result);
    if node.Some? {
      RankIsAntisymmetric(node.value, told);
      if RankAtMost(node.value, told) {
        RankIsTransitive(versions, node.value, told, result);
      } else {
        RankIsTransitive(versions, told, node.value, result);
      }
    }
  }

  /** Two results agree in rank, or neither has the node. */
  predicate SameRanks(x: Option<Node>, y: Option<Node>) {
    (x.Some? <==> y.Some?) && (x.Some? ==> SameRank(x.value, y.value))
  }

  lemma OrderIsFree(versions: set<string>, node: Option<Node>, a: seq<GossipNodeState>, b: seq<GossipNodeState>,
                    id: string)
    requires Ordered(versions) && VersionsIn(versions, a) && VersionIn(versions, node)
    requires forall s :: s in a <==> s in b
    ensures SameRanks(MergeAllAt(node, a, id), MergeAllAt(node, b, id))
  {
    MergeReachesMaximum(versions, node, a, id);
    MergeReachesMaximum(versions, node, b, id);
    assert forall n :: About(a, id, n) <==> About(b, id, n);
    var x, y := MergeAllAt(node, a, id), MergeAllAt(node, b, id);
    if x.Some? && y.Some? {
      MaximumIsAbove(versions, x.value, y.value, node, a, b, id);
      MaximumIsAbove(versions, y.value, x.value, node, b, a, id);
      RankIsAntisymmetric(x.value, y.value);
    }
  }

  lemma MaximumIsAbove(versions: set<string>, x: Node, y: Node, node: Option<Node>, a: seq<GossipNodeState>,
                       b: seq<GossipNodeState>, id: string)
    requires Ordered(versions) && VersionsIn(versions, a) && VersionIn(versions, node) &&
               {x.version, y.version} <= versions
    requires forall n :: About(a, id, n) <==> About(b, id, n)
    requires IsMaximum(x, node, a, id) && IsMaximum(y, node, b, id)
    ensures RankAtMost(x, y)
  {
    hide CompareVersions;
    hide Ordered;
    var n: Node;
    if node.Some? && SameRank(node.value, x) {
      n := node.value;
    } else {
      n :| About(a, id, n) && SameRank(n, x);
      AboutVersion(versions, a, id, n);
    }
    RankIsAntisymmetric(n, x);
    RankIsTransitive(versions, x, n, y);
  }

  /** Gossip is insensitive to order and duplication: lists with the same states leave every node with versions that
      compare equal and with the same heartbeat. */
  lemma RankIgnoresOrder(versions: set<string>, nodes: Nodes, a: seq<GossipNodeState>, b: seq<GossipNodeState>,
                         id: string)
    requires Uncrossed(versions) && VersionsIn(versions, a) && VersionIn(versions, Lookup(nodes, id))
    requires forall s :: s in a <==> s in b
    ensures SameRanks(Lookup(MergeAll(nodes, a), id), Lookup(MergeAll(nodes, b), id))
  {
    OrderedIffUncrossed(versions);
    MergeActsPerId(nodes, a, id);
    MergeActsPerId(nodes, b, id);
    OrderIsFree(versions, Lookup(nodes, id), a, b, id);
  }

  /** Whatever states with these versions arrive, and whatever was there before, their order and repetition leaves no
      trace in the rank. */
  ghost predicate OrderFree(versions: set<string>) {
    forall node: Option<Node>, a: seq<GossipNodeState>, b: seq<GossipNodeState>, id: string
      {:trigger MergeAllAt(node, a, id), MergeAllAt(node, b, id)} ::
      VersionIn(versions, node) && VersionsIn(versions, a) && (forall s :: s in a <==> s in b) ==>
        SameRanks(MergeAllAt(node, a, id), MergeAllAt(node, b, id))
  }

  /** Gossip is insensitive to order exactly for versions that are not crossed. */
  lemma OrderFreeIff(versions: set<string>)
    ensures OrderFree(versions) <==> Uncrossed(versions)
  {
    hide OrderFree;
    hide Crossing;
    if Uncrossed(versions) {
      UncrossedIsFree(versions);
    } else {
      var a, x, b :| a in versions && x in versions && b in versions && Crossing(a, x, b);
      CrossedIsNotFree(versions, a, x, b);
    }
  }

  lemma UncrossedIsFree(versions: set<string>)
    requires Uncrossed(versions)
    ensures OrderFree(versions)
  {
    OrderedIffUncrossed(versions);
    hide Uncrossed;
    hide Ordered;
    hide MergeAllAt;
    hide SameRanks;
    forall node: Option<Node>, a: seq<GossipNodeState>, b: seq<GossipNodeState>, id: string |
      VersionIn(versions, node) && VersionsIn(versions, a) && (forall s :: s in a <==> s in b)
      ensures SameRanks(MergeAllAt(node, a, id), MergeAllAt(node, b, id))
    {
      OrderIsFree(versions, node, a, b, id);
    }
  }

  lemma CrossedIsNotFree(versions: set<string>, a: string, x: string, b: string)
    requires {a, x, b} <= versions && Crossing(a, x, b)
    ensures !OrderFree(versions)
  {
    hide MergeAllAt;
    hide CompareVersions;
    hide Crossing;
    hide SameRanks;
    var p := GossipNodeState("n", "", Alive, a, 0);
    var q := p.(version := x);
    var r := p.(version := b);
    CrossedOrders(p, q, r);
    assert VersionIn(versions, None) && VersionsIn(versions, [p, r, q]);
    assert !SameRanks(MergeAllAt(None, [p, r, q], "n"), MergeAllAt(None, [p, q, r], "n"));
  }

  /** Three crossed states leave the middle string or the last one, depending on their order. */
  lemma CrossedOrders(a: GossipNodeState, x: GossipNodeState, b: GossipNodeState)
    requires a.nodeID == x.nodeID == b.nodeID == "n" && Crossing(a.version, x.version, b.version)
    requires a.address == b.address == x.address && a.status == b.status == x.status
    requires a.lastHeartbeat == b.lastHeartbeat == x.lastHeartbeat
    ensures MergeAllAt(None, [a, b, x], "n") == Some(ToNode(x))
    ensures MergeAllAt(None, [a, x, b], "n") == Some(ToNode(b))
    ensures !SameRanks(Some(ToNode(x)), Some(ToNode(b)))
    ensures forall s :: s in [a, b, x] <==> s in [a, x, b]
  {
    CrossedVersions(a.version, x.version, b.version);
    CompareVersionsAntisymmetric(a.version, b.version);
    CompareVersionsAntisymmetric(x.version, b.version);
    hide CompareVersions;
    MergeThree(a, b, x);
    MergeThree(a, x, b);
    hide MergeAllAt;
    hide Crossing;
    assert MergeInto(Some(ToNode(a)), ToNode(b)) == ToNode(a);
    assert MergeInto(Some(ToNode(a)), ToNode(x)) == ToNode(x);
    assert MergeInto(Some(ToNode(x)), ToNode(b)) == ToNode(b);
  }

  lemma MergeThree(p: GossipNodeState, q: GossipNodeState, r: GossipNodeState)
    requires p.nodeID == q.nodeID == r.nodeID == "n"
    ensures MergeAllAt(None, [p, q, r], "n") ==
            Some(MergeInto(Some(MergeInto(Some(ToNode(p)), ToNode(q))), ToNode(r)))
  {
    hide MergeNodeStates;
    hide ToNode;
    assert [p, q, r][1..] == [q, r] && [q, r][1..] == [r] && [r][1..] == [];
    var first := ToNode(p);
    var second := MergeInto(Some(first), ToNode(q));
    assert MergeAllAt(Some(second), [r], "n") == Some(MergeInto(Some(second), ToNode(r)));
    assert MergeAllAt(Some(first), [q, r], "n") == MergeAllAt(Some(second), [r], "n");
  }

  /** Versions that do not parse spoil this: the same three states end in "1x" or in "9". */
  lemma OrderMattersForMixedVersions()
    ensures var nine := GossipNodeState("n", "a", Alive, "9", 0);
            var ten := GossipNodeState("n", "a", Alive, "10", 0);
            var other := GossipNodeState("n", "a", Alive, "1x", 0);
            && MergeAllAt(None, [nine, ten, other], "n") == Some(ToNode(other))
            && MergeAllAt(None, [ten, other, nine], "n") == Some(ToNode(nine))
  {
    CompareVersionsHasCycles();
    hide CompareVersions;
    var nine := GossipNodeState("n", "a", Alive, "9", 0);
    var ten := GossipNodeState("n", "a", Alive, "10", 0);
    var other := GossipNodeState("n", "a", Alive, "1x", 0);
    assert [nine, ten, other][1..] == [ten, other] && [ten, other][1..] == [other] && [other][1..] == [];
    assert [ten, other, nine][1..] == [other, nine] && [other, nine][1..] == [nine] && [nine][1..] == [];
    assert MergeAllAt(Some(ToNode(ten)), [other], "n") == Some(ToNode(other));
    assert MergeAllAt(Some(ToNode(other)), [nine], "n") == Some(ToNode(nine));
  }

  /** Something told, or the node itself, had this status. */
  ghost predicate WasOrWasTold(node: Node, states: seq<GossipNodeState>, status: Status) {
    node.status == status || exists i :: 0 <= i < |states| && states[i].status == status
  }

  /** Told about a node at its own version, with heartbeats that never go back, a membership ends at the best status it
      had or was told: alive, then suspect, then dead. */
  lemma {:induction false} BestStatusWins(node: Node, states: seq<GossipNodeState>, id: string)
    requires id != "" && forall i :: 0 <= i < |states| ==> states[i].nodeID == id && states[i].version == node.version
    requires states != [] ==> node.lastHeartbeat <= states[0].lastHeartbeat
    requires forall i, j :: 0 <= i < j < |states| ==> states[i].lastHeartbeat <= states[j].lastHeartbeat
    ensures var result := MergeAllAt(Some(node), states, id);
            && result.Some?
            && result.value.status ==
               if WasOrWasTold(node, states, Alive) then Alive
               else if WasOrWasTold(node, states, Suspect) then Suspect
               else if WasOrWasTold(node, states, Dead) then Dead
               else Unknown
    decreases |states|
  {
    if states != [] {
      var first, rest := states[0], states[1..];
      var next := MergeNodeStates(node, ToNode(first)).1;
      MergedStatus(node, ToNode(first));
      MergedFields(node, ToNode(first));
      BestStatusWins(next, rest, id);
      hide MergeNodeStates;
      hide CompareVersions;
      forall status
        ensures WasOrWasTold(node, states, status) <==>
                node.status == status || first.status == status
                || exists i :: 0 <= i < |rest| && rest[i].status == status
      {
        ToldCons(node, states, status);
      }
    }
  }

  lemma ToldCons(node: Node, states: seq<GossipNodeState>, status: Status)
    requires states != []
    ensures WasOrWasTold(node, states, status) <==>
            node.status == status || states[0].status == status
            || exists i :: 0 <= i < |states[1..]| && states[1..][i].status == status
  {
    if i :| 0 <= i < |states| && states[i].status == status {
      assert i > 0 ==> states[1..][i - 1].status == status;
    }
    if i :| 0 <= i < |states[1..]| && states[1..][i].status == status {
      assert states[i + 1].status == status;
    }
  }

  // ---- snapshots and exchanges ----------------------------------------------------------------

  function StatesOf(infos: seq<GossipNodeInfo>): seq<GossipNodeState> {
    if infos == [] then [] else [ToState(infos[0])] + StatesOf(infos[1..])
  }

  lemma {:induction false} StatesOfConcat(a: seq<GossipNodeInfo>, b: seq<GossipNodeInfo>)
    ensures StatesOf(a + b) == StatesOf(a) + StatesOf(b)
  {
    if a == [] {
      assert a + b == b;
    } else {
      assert (a + b)[1..] == a[1..] + b;
      StatesOfConcat(a[1..], b);
    }
  }

  /** The nodes listed in some order of their ids. */
  function InfosOf(nodes: Nodes, order: seq<string>): seq<GossipNodeInfo>
    requires forall k :: k in order ==> k in nodes
  {
    if order == [] then [] else [ToInfo(nodes[order[0]])] + InfosOf(nodes, order[1..])
  }

  ghost predicate Lists(order: seq<string>, ids: set<string>) {
    && (forall k :: k in order <==> k in ids)
    && (forall i, j :: 0 <= i < j < |order| ==> order[i] != order[j])
  }

  /** A listing has one entry for every node and no other. */
  lemma {:induction false} InfosListEveryNode(nodes: Nodes, order: seq<string>, ids: set<string>)
    requires Lists(order, ids) && (forall k :: k in order ==> k in nodes)
    ensures |InfosOf(nodes, order)| == |ids|
    ensures forall k :: k in ids ==> k in nodes && ToInfo(nodes[k]) in InfosOf(nodes, order)
    decreases |order|
  {
    if order == [] {
      assert ids == {};
    } else {
      var first, rest := order[0], order[1..];
      assert first in ids;
      forall k
        ensures k in rest <==> k in ids - {first}
      {
        assert k in order <==> k == first || k in rest;
      }
      InfosListEveryNode(nodes, rest, ids - {first});
      assert |ids - {first}| == |ids| - 1;
    }
  }

  /** Merging a snapshot merges each of its nodes once, in whatever order it lists them. */
  lemma {:induction false} MergingASnapshot(node: Option<Node>, nodes: Nodes, order: seq<string>, id: string)
    requires Keyed(nodes) && (forall k :: k in order ==> k in nodes)
    requires forall i, j :: 0 <= i < j < |order| ==> order[i] != order[j]
    ensures MergeAllAt(node, StatesOf(InfosOf(nodes, order)), id) ==
            if id in order && id != "" then Some(MergeInto(node, Wire(nodes[id]))) else node
    decreases |order|
  {
    if order != [] {
      var states := StatesOf(InfosOf(nodes, order));
      WireConversions(nodes[order[0]]);
      assert InfosOf(nodes, order)[1..] == InfosOf(nodes, order[1..]);
      assert states[0] == ToState(ToInfo(nodes[order[0]]));
      assert states[1..] == StatesOf(InfosOf(nodes, order[1..]));
      var next := if states[0].nodeID == id && id != "" then Some(MergeInto(node, ToNode(states[0]))) else node;
      MergingASnapshot(next, nodes, order[1..], id);
      assert id in order <==> id == order[0] || id in order[1..];
      if id in order[1..] {
        var i :| 0 <= i < |order[1..]| && order[1..][i] == id;
        assert order[i + 1] == id;
      }
    }
  }

  /** The memberships of two nodes after one exchange, given the ones before. */
  ghost predicate Exchanged(a: Nodes, b: Nodes, a': Nodes, b': Nodes) {
    forall id {:trigger Lookup(a', id)} {:trigger Lookup(b', id)} ::
      id != "" ==> (Lookup(a', id), Lookup(b', id)) == ExchangeAt(Lookup(a, id), Lookup(b, id))
  }

  /** Two lossless exchanges converge a pair: the same ids, equal versions, heartbeats, statuses and addresses. */
  lemma TwoExchangesConverge(a: Nodes, b: Nodes, a1: Nodes, b1: Nodes, a2: Nodes, b2: Nodes)
    requires Exchanged(a, b, a1, b1) && Exchanged(a1, b1, a2, b2)
    ensures forall id {:trigger Lookup(a2, id)} :: id != "" ==> Agree(Lookup(a2, id), Lookup(b2, id))
    ensures forall id {:trigger Lookup(a1, id)} :: id != "" ==> AgreeButStatus(Lookup(a1, id), Lookup(b1, id))
  {
    forall id | id != ""
      ensures Agree(Lookup(a2, id), Lookup(b2, id)) && AgreeButStatus(Lookup(a1, id), Lookup(b1, id))
    {
      TwoExchangesAgree(Lookup(a, id), Lookup(b, id));
      OneExchangeAgreesButStatus(Lookup(a, id), Lookup(b, id));
    }
  }
}

/** Cluster members and what elections and failure detection make of them (internal/cluster/membership.go). */
module ClusterNodes {
  import StringOrder

  datatype Status = Alive | Suspect | Dead | Unknown

  datatype Node = Node(id: string, address: string, status: Status, lastHeartbeat: int, isLeader: bool, version: string)

  type Nodes = map<string, Node>

  function Ids(nodes: seq<Node>): (ids: seq<string>)
    ensures |ids| == |nodes|
    ensures forall i :: 0 <= i < |nodes| ==> ids[i] == nodes[i].id
  {
    seq(|nodes|, i requires 0 <= i < |nodes| => nodes[i].id)
  }

  ghost predicate Keyed(nodes: Nodes) {
    forall k :: k in nodes ==> nodes[k].id == k
  }

  /** The membership apart from its leader flags. */
  function Unled(nodes: Nodes): Nodes {
    map k | k in nodes :: nodes[k].(isLeader := false)
  }

  /** Memberships that are the same apart from leader flags have the same nodes with the same fields otherwise. */
  lemma SameUnled(a: Nodes, b: Nodes)
    ensures Unled(a) == Unled(b) <==>
            a.Keys == b.Keys
            && forall k :: k in a ==>
                 && a[k].id == b[k].id && a[k].address == b[k].address && a[k].status == b[k].status
                 && a[k].lastHeartbeat == b[k].lastHeartbeat && a[k].version == b[k].version
  {
    assert a.Keys == Unled(a).Keys && b.Keys == Unled(b).Keys;
    if Unled(a) == Unled(b) {
      forall k | k in a
        ensures a[k].(isLeader := false) == b[k].(isLeader := false)
      {
        assert Unled(a)[k] == Unled(b)[k];
      }
    }
  }

  ghost predicate AtMostOneLeader(nodes: Nodes) {
    forall a, b :: a in nodes && b in nodes && nodes[a].isLeader && nodes[b].isLeader ==> a == b
  }

  predicate Candidate(nodes: Nodes, local: string, id: string) {
    id in nodes && nodes[id].status == Alive && id != local
  }

  ghost predicate LeastCandidate(nodes: Nodes, local: string, id: string) {
    Candidate(nodes, local, id) && forall other :: Candidate(nodes, local, other) && other != id ==>
        StringOrder.Less(id, other)
  }

  /** The flag is on the least alive id other than the local one, and nowhere if there is none. */
  ghost predicate Elected(nodes: Nodes, local: string) {
    forall id :: id in nodes ==> (nodes[id].isLeader <==> LeastCandidate(nodes, local, id))
  }

  lemma ElectedIsSafe(nodes: Nodes, local: string)
    requires Elected(nodes, local)
    ensures AtMostOneLeader(nodes)
  {
    forall a, b | a in nodes && b in nodes && nodes[a].isLeader && nodes[b].isLeader
      ensures a == b
    {
      if a != b {
        StringOrder.Asymmetric(a, b);
      }
    }
  }

  /** Spelled out: the leader is an alive node other than the local one, and its id comes first among all such nodes. If
      there are such nodes, one of them leads. */
  lemma ElectedMeans(nodes: Nodes, local: string)
    requires Elected(nodes, local)
    ensures forall id :: id in nodes && nodes[id].isLeader ==>
              && nodes[id].status == Alive && id != local
              && forall other :: other in nodes && nodes[other].status == Alive && other != local && other != id ==>
                   StringOrder.Less(id, other)
    ensures (exists id :: id in nodes && nodes[id].status == Alive && id != local) ==>
              exists id :: id in nodes && nodes[id].isLeader
  {
    if id :| id in nodes && nodes[id].status == Alive && id != local {
      var candidates := set k | k in nodes && Candidate(nodes, local, k);
      assert id in candidates;
      var least := LeastOf(candidates);
      assert LeastCandidate(nodes, local, least);
    }
  }

  lemma {:induction false} LeastOf(ids: set<string>) returns (least: string)
    requires ids != {}
    ensures least in ids && forall x :: x in ids && x != least ==> StringOrder.Less(least, x)
    decreases |ids|
  {
    var y :| y in ids;
    least := y;
    if ids - {y} != {} {
      var z := LeastOf(ids - {y});
      StringOrder.Total(y, z);
      if StringOrder.Less(z, y) {
        least := z;
      } else {
        forall x | x in ids && x != y
          ensures StringOrder.Less(y, x)
        {
          if x != z {
            StringOrder.Transitive(y, z, x);
          }
        }
      }
    }
  }

  /** One detector's verdict on one node. */
  function Verdict(status: Status, age: int, timeout: int): Status {
    if status == Alive && age > timeout then Suspect
    else if status == Suspect && age > 2 * timeout then Dead
    else status
  }

  /** The statuses after a detector has run once: every node but the local one is judged by its heartbeat's age. */
  function Detected(nodes: Nodes, local: string, now: int, timeout: int): Nodes {
    map k | k in nodes ::
      if k == local then nodes[k]
      else nodes[k].(status := Verdict(nodes[k].status, now - nodes[k].lastHeartbeat, timeout))
  }
}

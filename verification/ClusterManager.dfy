/** Ownership of keys as a function of the alive members (internal/cluster/manager.go). */
module ClusterManager {
  import opened Common
  import opened ClusterNodes
  import opened RingSpec
  import opened Ring
  import opened MembershipObject

  /** The ids that the ring is rebuilt from. */
  function AliveIds(nodes: Nodes): set<string> {
    set k | k in nodes && k != "" && nodes[k].status == Alive
  }

  class Manager {
    const membership: Membership
    const virtualKey: (string, nat) -> nat
    const hash: string -> nat
    var hashRing: HashRing?

    constructor (membership: Membership, virtualKey: (string, nat) -> nat, hash: string -> nat)
      ensures this.membership == membership && this.virtualKey == virtualKey && this.hash == hash
    {
      this.membership, this.virtualKey, this.hash := membership, virtualKey, hash;
      hashRing := null;
    }

    function Layout100(): Layout {
      Layout(100, virtualKey, hash)
    }

    /** syncHashRing: a new ring with the alive members, added in no particular order. */
    method SyncHashRing()
      requires membership.Valid()
      modifies `hashRing
      ensures hashRing != null && fresh(hashRing) && hashRing.Valid()
      ensures hashRing.layout == Layout100() && hashRing.nodes == AliveIds(membership.nodes)
      ensures hashRing.layout == Layout(100, virtualKey, hash)
      ensures forall id :: id in hashRing.nodes <==>
                id != "" && id in membership.nodes && membership.nodes[id].status == Alive
    {
      var ring := new HashRing(100, virtualKey, hash);
      var todo := membership.nodes.Keys;
      while todo != {}
        invariant todo <= membership.nodes.Keys
        invariant fresh(ring) && ring.Valid() && ring.layout == Layout100()
        invariant ring.nodes == AliveIds(membership.nodes) - todo
        decreases todo
      {
        var id :| id in todo;
        var node := membership.nodes[id];
        todo := todo - {id};
        if node.id == "" || node.status != Alive {
          continue;
        }
        ring.AddNode(node.id);
      }
      hashRing := ring;
    }

    /** Owners: the member records of the first rf preferred alive nodes. */
    method Owners(key: string, rf: int) returns (owners: Option<seq<Node>>)
      requires membership.Valid()
      modifies `hashRing
      ensures owners.None? <==> key == "" || rf <= 0 || AliveIds(membership.nodes) == {}
      ensures owners.Some? ==>
                && hashRing != null && IsRing(Layout100(), hashRing.ring, AliveIds(membership.nodes))
                && Ids(owners.value) == Take(Preference(hashRing.ring, hash(key)), rf)
                && (forall n :: n in owners.value ==>
                    n.id in membership.nodes && membership.nodes[n.id] == n && n.status == Alive)
    {
      hide IsRing;
      hide Preference;
      hide NoDuplicates;
      SyncHashRing();
      var ids := hashRing.ReplicaOwners(key, rf);
      if ids.None? {
        return None;
      }
      OwnersAreDistinctNodes(Layout100(), hashRing.ring, AliveIds(membership.nodes), hash(key), rf);
      SomeOwner(AliveIds(membership.nodes), rf, |ids.value|);
      var nodes := Resolve(ids.value);
      if |nodes| == 0 {
        return None;
      }
      return Some(nodes);
    }

    /** Looks the ids up in the membership; the alive ones are all found. */
    method Resolve(ids: seq<string>) returns (nodes: seq<Node>)
      requires membership.Valid() && forall id :: id in ids ==> id in AliveIds(membership.nodes)
      ensures Ids(nodes) == ids
      ensures forall n :: n in nodes ==> n.id in membership.nodes && membership.nodes[n.id] == n && n.status == Alive
    {
      nodes := [];
      for i := 0 to |ids|
        invariant Ids(nodes) == ids[..i]
        invariant forall n :: n in nodes ==>
            n.id in membership.nodes && membership.nodes[n.id] == n && n.status == Alive
      {
        var id := ids[i];
        assert id in AliveIds(membership.nodes);
        if id in membership.nodes {
          nodes := nodes + [membership.nodes[id]];
        }
      }
    }
  }

  lemma SomeOwner(alive: set<string>, rf: int, count: nat)
    requires alive != {} && rf > 0 && count == Min(rf, |alive|)
    ensures count > 0
  {
  }

  /** Managers that see the same ids alive name the same owners for every key, whatever else their memberships
      hold and in whatever order they built their rings, as long as no two alive nodes collide. */
  method CompareOwners(a: Manager, b: Manager, key: string, rf: int)
    returns (x: Option<seq<Node>>, y: Option<seq<Node>>)
    requires a.membership.Valid() && b.membership.Valid() && a != b
    requires a.virtualKey == b.virtualKey && a.hash == b.hash
    requires AliveIds(a.membership.nodes) == AliveIds(b.membership.nodes)
    requires NoCollisions(a.Layout100(), AliveIds(a.membership.nodes))
    modifies a`hashRing, b`hashRing
    ensures x.Some? <==> y.Some?
    ensures x.Some? ==> Ids(x.value) == Ids(y.value)
  {
    x := a.Owners(key, rf);
    y := b.Owners(key, rf);
    if x.Some? {
      RingIsDetermined(a.Layout100(), a.hashRing.ring, b.hashRing.ring, AliveIds(a.membership.nodes));
    }
  }
}

/** The ring object: adding, removing and looking up nodes (internal/cluster/hashring/hashring.go). */
module Ring {
  import opened Common
  import opened RingSpec

  /** sort.Slice by key. It is not stable: any entry of least key may come next. */
  method SortByKey(entries: seq<Entry>) returns (sorted: seq<Entry>)
    ensures Sorted(sorted) && multiset(sorted) == multiset(entries)
  {
    hide Sorted;
    var rest := entries;
    sorted := [];
    assert Sorted([]) by { EmptyIsSorted(); }
    while rest != []
      invariant multiset(sorted) + multiset(rest) == multiset(entries)
      invariant Sorted(sorted)
      invariant forall a, b :: a in sorted && b in rest ==> a.key <= b.key
      decreases |rest|
    {
      LeastExists(rest);
      var i :| 0 <= i < |rest| && IsLeast(rest, i);
      RemoveAt(rest, i);
      SortedSnoc(sorted, rest[i]);
      sorted, rest := sorted + [rest[i]], rest[..i] + rest[i + 1..];
    }
  }

  lemma RemoveAt<T>(s: seq<T>, i: nat)
    requires i < |s|
    ensures multiset(s) == multiset{s[i]} + multiset(s[..i] + s[i + 1..])
    ensures forall x :: x in s[..i] + s[i + 1..] ==> x in s
  {
    assert s == s[..i] + [s[i]] + s[i + 1..];
  }

  lemma EmptyIsSorted()
    ensures Sorted([])
  {
  }

  lemma SortedSnoc(sorted: seq<Entry>, e: Entry)
    requires Sorted(sorted) && forall a :: a in sorted ==> a.key <= e.key
    ensures Sorted(sorted + [e])
  {
  }

  predicate IsLeast(entries: seq<Entry>, i: nat)
    requires i < |entries|
  {
    forall j :: 0 <= j < |entries| ==> entries[i].key <= entries[j].key
  }

  lemma {:induction false} LeastExists(entries: seq<Entry>)
    requires entries != []
    ensures exists i :: 0 <= i < |entries| && IsLeast(entries, i)
  {
    if |entries| == 1 {
      assert IsLeast(entries, 0);
    } else {
      var n := |entries| - 1;
      LeastExists(entries[..n]);
      var i :| 0 <= i < n && IsLeast(entries[..n], i);
      assert IsLeast(entries, if entries[n].key < entries[i].key then n else i);
    }
  }

  /** Where the clockwise walk starts splits a sorted ring into its two halves. */
  lemma SplitAt(ring: seq<Entry>, h: nat, i: nat)
    requires i <= |ring|
    requires forall j :: 0 <= j < i ==> ring[j].key < h
    requires forall j :: i <= j < |ring| ==> ring[j].key >= h
    ensures Clockwise(ring, h) == ring[i..] + ring[..i]
  {
    assert ring == ring[..i] + ring[i..];
    JoinHalves(ring[..i], ring[i..], h);
  }

  lemma JoinHalves(low: seq<Entry>, high: seq<Entry>, h: nat)
    requires forall j :: 0 <= j < |low| ==> low[j].key < h
    requires forall j :: 0 <= j < |high| ==> high[j].key >= h
    ensures Clockwise(low + high, h) == high + low
  {
    calc {
      Clockwise(low + high, h);
      { FilterConcat(low, high, AtLeast(h)); FilterConcat(low, high, Below(h)); }
      (Filter(low, AtLeast(h)) + Filter(high, AtLeast(h))) + (Filter(low, Below(h)) + Filter(high, Below(h)));
      { FilterNone(low, AtLeast(h)); FilterAll(high, AtLeast(h)); FilterAll(low, Below(h)); FilterNone(high,
          Below(h)); }
      ([] + high) + (low + []);
      { assert [] + high == high && low + [] == low; }
      high + low;
    }
  }

  /** sort.Search: the first entry at or after a hash, by bisection. */
  method FirstAtLeast(ring: seq<Entry>, h: nat) returns (index: nat)
    requires Sorted(ring)
    ensures index <= |ring|
    ensures forall j :: 0 <= j < index ==> ring[j].key < h
    ensures forall j :: index <= j < |ring| ==> ring[j].key >= h
  {
    var low, high := 0, |ring|;
    while low < high
      invariant 0 <= low <= high <= |ring|
      invariant forall j :: 0 <= j < low ==> ring[j].key < h
      invariant forall j :: high <= j < |ring| ==> ring[j].key >= h
    {
      var mid := (low + high) / 2;
      if ring[mid].key >= h {
        high := mid;
      } else {
        low := mid + 1;
      }
    }
    index := low;
  }

  class HashRing {
    const layout: Layout
    var ring: seq<Entry>
    var nodes: set<string>

    ghost predicate Valid()
      reads this
    {
      layout.replicas > 0 && IsRing(layout, ring, nodes) && "" !in nodes
    }

    constructor (replicas: int, virtualKey: (string, nat) -> nat, hash: string -> nat)
      ensures Valid() && nodes == {} && ring == []
      ensures layout == Layout(if replicas <= 0 then 100 else replicas, virtualKey, hash)
    {
      layout := Layout(if replicas <= 0 then 100 else replicas, virtualKey, hash);
      ring := [];
      nodes := {};
    }

    method AddNode(nodeID: string)
      requires Valid()
      modifies this
      ensures Valid()
      ensures nodes == if nodeID == "" then old(nodes) else old(nodes) + {nodeID}
      ensures nodeID == "" || nodeID in old(nodes) ==> ring == old(ring)
    {
      if nodeID == "" {
        return;
      }
      if nodeID in nodes {
        return;
      }
      nodes := nodes + {nodeID};
      var entries := VirtualEntries(layout, nodeID);
      for i := 0 to layout.replicas
        invariant ring == old(ring) + entries[..i]
        invariant nodes == old(nodes) + {nodeID}
      {
        ring := ring + [Entry(layout.virtualKey(nodeID, i), nodeID)];
        assert entries[..i + 1] == entries[..i] + [entries[i]];
      }
      assert entries[..layout.replicas] == entries;
      ring := SortByKey(ring);
      forall e: Entry
        ensures multiset(ring)[e] == if e.node in nodes then multiset(VirtualEntries(layout, e.node))[e] else 0
      {
        assert multiset(ring)[e] == multiset(old(ring))[e] + multiset(entries)[e];
        if e.node != nodeID {
          assert e !in entries;
        }
      }
    }

    /** Exactly the node's own entries disappear, and the others keep their order. */
    method RemoveNode(nodeID: string)
      requires Valid()
      modifies this
      ensures Valid()
      ensures nodes == old(nodes) - {nodeID}
      ensures ring == Without(old(ring), nodeID)
    {
      if nodeID == "" || nodeID !in nodes {
        AbsentNode(layout, ring, nodes, nodeID);
        return;
      }
      WithoutIsRing(layout, ring, nodes, nodeID);
      nodes := nodes - {nodeID};
      ring := Filtered(ring, nodeID);
    }

    /** The node a key prefers most. */
    method GetNode(key: string) returns (node: Option<string>)
      requires Valid()
      ensures key == "" || nodes == {} ==> node == None
      ensures key != "" && nodes != {} ==>
                && Preference(ring, layout.hash(key)) != []
                && node == Some(Preference(ring, layout.hash(key))[0])
                && exists first :: first in ring && node == Some(first.node)
                     && forall e :: e in ring ==> NoLater(layout.hash(key), first.key, e.key)
    {
      if key == "" {
        return None;
      }
      EmptyRingIff();
      if |ring| == 0 {
        return None;
      }
      var hashed := layout.hash(key);
      var idx := FirstAtLeast(ring, hashed);
      SplitAt(ring, hashed, idx);
      if idx == |ring| {
        idx := 0;
      }
      DistinctProperties(Clockwise(ring, hashed));
      assert Clockwise(ring, hashed)[0] == ring[idx];
      ghost var first := PrimaryIsNext(ring, hashed);
      return Some(ring[idx].node);
    }

    lemma EmptyRingIff()
      requires Valid()
      ensures ring == [] <==> nodes == {}
    {
      if ring != [] {
        RingMembers(layout, ring, nodes, ring[0]);
      }
      if n :| n in nodes {
        RingMembers(layout, ring, nodes, VirtualEntries(layout, n)[0]);
      }
    }

    /** The first rf nodes of the key's preference. */
    method ReplicaOwners(key: string, rf: int) returns (result: Option<seq<string>>)
      requires Valid()
      ensures result == if key == "" || rf <= 0 || nodes == {} then None
                        else Some(Take(Preference(ring, layout.hash(key)), rf))
    {
      if key == "" || rf <= 0 {
        return None;
      }
      EmptyRingIff();
      if |ring| == 0 {
        return None;
      }
      var hashed := layout.hash(key);
      var start := FirstAtLeast(ring, hashed);
      SplitAt(ring, hashed, start);
      if start == |ring| {
        start := 0;
      }
      assert Clockwise(ring, hashed) == ring[start..] + ring[..start];
      var owners := WalkOwners(ring, start, rf);
      return Some(owners);
    }
  }

  /** The entries of all other nodes. */
  method Filtered(ring: seq<Entry>, nodeID: string) returns (filtered: seq<Entry>)
    ensures filtered == Without(ring, nodeID)
  {
    filtered := [];
    for i := 0 to |ring|
      invariant filtered == Without(ring[..i], nodeID)
    {
      FilterSnoc(ring, i, Other(nodeID));
      if ring[i].node == nodeID {
        continue;
      }
      filtered := filtered + [ring[i]];
    }
    assert ring[..|ring|] == ring;
  }

  lemma AbsentNode(l: Layout, ring: seq<Entry>, nodes: set<string>, nodeID: string)
    requires IsRing(l, ring, nodes) && nodeID !in nodes
    ensures Without(ring, nodeID) == ring
  {
    forall e | e in ring
      ensures e.node != nodeID
    {
      RingMembers(l, ring, nodes, e);
    }
    FilterAll(ring, Other(nodeID));
  }

  /** Walks once around the ring, collecting different nodes until there are enough. */
  method WalkOwners(ring: seq<Entry>, start: nat, rf: nat) returns (owners: seq<string>)
    requires start < |ring| && rf > 0
    ensures owners == Take(Distinct(ring[start..] + ring[..start]), rf)
  {
    hide Distinct;
    ghost var walk := ring[start..] + ring[..start];
    var seen: set<string> := {};
    owners := [];
    var n := |ring|;
    assert Distinct(walk[..0]) == [] by { DistinctOfEmpty(walk); }
    for i := 0 to n
      invariant owners == Distinct(walk[..i])
      invariant forall x :: x in seen <==> x in owners
      invariant |owners| < rf
    {
      var idx := (start + i) % n;
      var node := ring[idx].node;
      WalkIndex(ring, start, i);
      DistinctSnoc(walk, i);
      if node !in seen {
        seen := seen + {node};
        owners := owners + [node];
        if |owners| == rf {
          DistinctOfPrefix(walk, i + 1);
          TakePrefix(owners, Distinct(walk));
          return;
        }
      }
    }
    assert walk[..n] == walk;
  }

  lemma DistinctOfEmpty(walk: seq<Entry>)
    ensures Distinct(walk[..0]) == []
  {
  }

  lemma TakePrefix<T>(s: seq<T>, t: seq<T>)
    requires s <= t
    ensures Take(t, |s|) == s
  {
  }

  lemma WalkIndex(ring: seq<Entry>, start: nat, i: nat)
    requires start < |ring| && i < |ring|
    ensures (start + i) % |ring| == if start + i < |ring| then start + i else start + i - |ring|
    ensures (ring[start..] + ring[..start])[i] == ring[(start + i) % |ring|]
  {
  }
}

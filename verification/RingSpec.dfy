/** The consistent hash ring (internal/cluster/hashring/hashring.go). */
module RingSpec {
  import opened Common

  datatype Entry = Entry(key: nat, node: string)

  // ---- rings as sequences -----------------------------------------------------------

  ghost predicate Sorted(ring: seq<Entry>) {
    forall i, j :: 0 <= i < j < |ring| ==> ring[i].key <= ring[j].key
  }

  function AtLeast(h: nat): Entry -> bool {
    (e: Entry) => e.key >= h
  }

  function Below(h: nat): Entry -> bool {
    (e: Entry) => e.key < h
  }

  function Other(x: string): Entry -> bool {
    (e: Entry) => e.node != x
  }

  /** The ring as seen from a hash: up from it to the end, then around from the start. */
  function Clockwise(ring: seq<Entry>, h: nat): seq<Entry> {
    Filter(ring, AtLeast(h)) + Filter(ring, Below(h))
  }

  /** The distinct nodes of a walk in the order of their first appearance. */
  function Distinct(walk: seq<Entry>): seq<string> {
    if walk == [] then []
    else if walk[|walk| - 1].node in Distinct(walk[..|walk| - 1]) then Distinct(walk[..|walk| - 1])
    else Distinct(walk[..|walk| - 1]) + [walk[|walk| - 1].node]
  }

  /** All nodes of the ring in the order in which a key with this hash prefers them. */
  function Preference(ring: seq<Entry>, h: nat): seq<string> {
    Distinct(Clockwise(ring, h))
  }

  function Remove(nodes: seq<string>, x: string): seq<string> {
    Filter(nodes, n => n != x)
  }

  function Without(ring: seq<Entry>, x: string): seq<Entry> {
    Filter(ring, Other(x))
  }

  ghost predicate NoDuplicates<T>(s: seq<T>) {
    forall i, j :: 0 <= i < j < |s| ==> s[i] != s[j]
  }

  lemma {:induction false} DistinctProperties(walk: seq<Entry>)
    ensures NoDuplicates(Distinct(walk))
    ensures forall n :: n in Distinct(walk) <==> exists e :: e in walk && e.node == n
    ensures walk != [] ==> Distinct(walk) != [] && Distinct(walk)[0] == walk[0].node
  {
    if walk != [] {
      var before := walk[..|walk| - 1];
      var last := walk[|walk| - 1];
      DistinctProperties(before);
      forall n | n in Distinct(walk)
        ensures exists e :: e in walk && e.node == n
      {
        if n in Distinct(before) {
          var e :| e in before && e.node == n;
          assert e in walk;
        } else {
          assert last in walk;
        }
      }
      forall e | e in walk
        ensures e.node in Distinct(walk)
      {
        assert e in before || e == last;
      }
    }
  }

  lemma OneElement<T>(x: T, keep: T -> bool)
    ensures Filter([x], keep) == if keep(x) then [x] else []
  {
    assert [x][1..] == [];
  }

  lemma DistinctEnd(walk: seq<Entry>, last: Entry)
    ensures Distinct(walk + [last]) ==
            if last.node in Distinct(walk) then Distinct(walk) else Distinct(walk) + [last.node]
  {
    assert (walk + [last])[..|walk|] == walk;
  }

  lemma FilterEnd<T>(s: seq<T>, x: T, keep: T -> bool)
    ensures Filter(s + [x], keep) == if keep(x) then Filter(s, keep) + [x] else Filter(s, keep)
  {
    FilterConcat(s, [x], keep);
    OneElement(x, keep);
  }

  /** Leaving a node's entries out of a walk leaves exactly that node out of its distinct nodes. */
  lemma {:induction false} DistinctWithout(walk: seq<Entry>, x: string)
    ensures Distinct(Filter(walk, Other(x))) == Remove(Distinct(walk), x)
  {
    if walk != [] {
      var before := walk[..|walk| - 1];
      var last := walk[|walk| - 1];
      DistinctWithout(before, x);
      assert walk == before + [last];
      hide Filter;
      FilterEnd(before, last, Other(x));
      FilterEnd(Distinct(before), last.node, n => n != x);
      FilterMembers(Distinct(before), n => n != x, last.node);
      hide Distinct;
      DistinctEnd(before, last);
      DistinctEnd(Filter(before, Other(x)), last);
    }
  }

  lemma {:induction false} FiltersCommute<T>(s: seq<T>, p: T -> bool, q: T -> bool)
    ensures Filter(Filter(s, p), q) == Filter(Filter(s, q), p)
  {
    if s != [] {
      var head, rest := [s[0]], s[1..];
      FiltersCommute(rest, p, q);
      assert head[1..] == [];
      FilterConcat(if p(s[0]) then head else [], Filter(rest, p), q);
      FilterConcat(if q(s[0]) then head else [], Filter(rest, q), p);
    }
  }

  /** Ring removal moves the minimum: taking a node off the ring takes it out of every key's preference
      and changes nothing else, wrap-around and key ties included. */
  lemma RemovalOnlyRemoves(ring: seq<Entry>, h: nat, x: string)
    ensures Preference(Without(ring, x), h) == Remove(Preference(ring, h), x)
  {
    FiltersCommute(ring, AtLeast(h), Other(x));
    FiltersCommute(ring, Below(h), Other(x));
    FilterConcat(Filter(ring, AtLeast(h)), Filter(ring, Below(h)), Other(x));
    DistinctWithout(Clockwise(ring, h), x);
  }

  // ---- owners -----------------------------------------------------------------------

  lemma {:induction false} DistinctOfPrefix(walk: seq<Entry>, i: nat)
    requires i <= |walk|
    ensures Distinct(walk[..i]) <= Distinct(walk)
  {
    if i < |walk| {
      DistinctOfPrefix(walk[..|walk| - 1], i);
      assert walk[..|walk| - 1][..i] == walk[..i];
    } else {
      assert walk[..i] == walk;
    }
  }

  lemma {:induction false} CountDistinct<T>(s: seq<T>, elements: set<T>)
    requires NoDuplicates(s)
    requires forall x :: x in s <==> x in elements
    ensures |s| == |elements|
  {
    if s == [] {
      assert elements == {};
    } else {
      forall x
        ensures x in s[1..] <==> x in elements - {s[0]}
      {
        assert x in s <==> x == s[0] || x in s[1..];
        if x in s[1..] {
          var i :| 0 <= i < |s[1..]| && s[1..][i] == x;
          assert s[i + 1] != s[0];
        }
      }
      CountDistinct(s[1..], elements - {s[0]});
    }
  }

  lemma DistinctSnoc(walk: seq<Entry>, i: nat)
    requires i < |walk|
    ensures Distinct(walk[..i + 1]) ==
            if walk[i].node in Distinct(walk[..i]) then Distinct(walk[..i]) else Distinct(walk[..i]) + [walk[i].node]
  {
    assert walk[..i + 1][..i] == walk[..i];
  }

  // ---- the order of preference is that of the walk -----------------------------------------

  /** Going up from a hash and around, the first key is met no later than the second. */
  predicate NoLater(h: nat, a: nat, b: nat) {
    (a >= h && b < h) || ((a >= h <==> b >= h) && a <= b)
  }

  lemma {:induction false} DistinctOrder(walk: seq<Entry>, i: nat, j: nat) returns (p: nat)
    requires i < j < |Distinct(walk)|
    ensures p < |walk| && walk[p].node == Distinct(walk)[i]
    ensures forall q :: 0 <= q < |walk| && walk[q].node == Distinct(walk)[j] ==> p < q
    decreases |walk|
  {
    var n := |walk| - 1;
    var before := walk[..n];
    if j < |Distinct(before)| {
      p := DistinctOrder(before, i, j);
      assert forall q :: 0 <= q < n ==> before[q] == walk[q];
    } else {
      DistinctProperties(before);
      assert Distinct(before)[i] in Distinct(before);
      var e :| e in before && e.node == Distinct(before)[i];
      p :| 0 <= p < n && before[p] == e;
      forall q | 0 <= q < n
        ensures walk[q].node != Distinct(walk)[j]
      {
        assert before[q] in before;
      }
    }
  }

  lemma WalkIsClockwise(ring: seq<Entry>, h: nat)
    requires Sorted(ring)
    ensures forall i, j :: 0 <= i < j < |Clockwise(ring, h)| ==>
              NoLater(h, Clockwise(ring, h)[i].key, Clockwise(ring, h)[j].key)
  {
    var up: seq<Entry>, around: seq<Entry> := Filter(ring, AtLeast(h)), Filter(ring, Below(h));
    FilterKeepsSorted(ring, AtLeast(h));
    FilterKeepsSorted(ring, Below(h));
    FilteredSatisfy(ring, AtLeast(h));
    FilteredSatisfy(ring, Below(h));
    hide Filter;
    forall i, j | 0 <= i < j < |up + around|
      ensures NoLater(h, (up + around)[i].key, (up + around)[j].key)
    {
      if i < |up| {
        assert AtLeast(h)(up[i]);
      } else {
        assert Below(h)(around[i - |up|]);
      }
      if j < |up| {
        assert AtLeast(h)(up[j]);
      } else {
        assert Below(h)(around[j - |up|]);
      }
    }
  }

  /** A node is preferred to another because it has an entry that is met no later than any entry of the other, going up
      from the hash and around. The most preferred has one that is met no later than any on the ring. */
  lemma PreferenceIsClockwise(ring: seq<Entry>, h: nat, i: nat, j: nat) returns (first: Entry)
    requires Sorted(ring) && i < j < |Preference(ring, h)|
    ensures first in ring && first.node == Preference(ring, h)[i]
    ensures forall e :: e in ring && e.node == Preference(ring, h)[j] ==> NoLater(h, first.key, e.key)
  {
    var walk := Clockwise(ring, h);
    var p := DistinctOrder(walk, i, j);
    first := walk[p];
    WalkIsClockwise(ring, h);
    WalkMembers(ring, h);
    hide Clockwise;
    hide Distinct;
    assert walk[p] in walk;
    forall e | e in ring && e.node == Preference(ring, h)[j]
      ensures NoLater(h, first.key, e.key)
    {
      assert e in walk;
      var q :| 0 <= q < |walk| && walk[q] == e;
    }
  }

  lemma WalkMembers(ring: seq<Entry>, h: nat)
    ensures forall e :: e in Clockwise(ring, h) <==> e in ring
  {
    forall e
      ensures e in Clockwise(ring, h) <==> e in ring
    {
      FilterMembers(ring, AtLeast(h), e);
      FilterMembers(ring, Below(h), e);
    }
  }

  lemma PrimaryIsNext(ring: seq<Entry>, h: nat) returns (first: Entry)
    requires Sorted(ring) && ring != []
    ensures Preference(ring, h) != [] && first in ring && first.node == Preference(ring, h)[0]
    ensures forall e :: e in ring ==> NoLater(h, first.key, e.key)
  {
    var walk := Clockwise(ring, h);
    WalkIsClockwise(ring, h);
    WalkMembers(ring, h);
    DistinctProperties(walk);
    hide Clockwise;
    hide Distinct;
    assert ring[0] in walk;
    first := walk[0];
    assert first in walk;
    forall e | e in ring
      ensures NoLater(h, first.key, e.key)
    {
      assert e in walk;
      var q :| 0 <= q < |walk| && walk[q] == e;
    }
  }

  // ---- which rings a set of nodes may have ----------------------------------------------

  /** The number of virtual nodes and the two hashes, of which nothing is assumed. */
  datatype Layout = Layout(replicas: nat, virtualKey: (string, nat) -> nat, hash: string -> nat)

  function VirtualEntries(l: Layout, node: string): seq<Entry> {
    seq(l.replicas, (i: nat) => Entry(l.virtualKey(node, i), node))
  }

  /** A ring of a set of nodes: their virtual entries in key order. Ties may be in any order,
      because the sort is not stable. */
  ghost predicate IsRing(l: Layout, ring: seq<Entry>, nodes: set<string>) {
    && Sorted(ring)
    && forall e: Entry :: multiset(ring)[e] == if e.node in nodes then multiset(VirtualEntries(l, e.node))[e] else 0
  }

  /** Virtual keys of different nodes never collide. */
  ghost predicate NoCollisions(l: Layout, nodes: set<string>) {
    forall a, b, i: nat, j: nat {:trigger l.virtualKey(a, i), l.virtualKey(b, j)} ::
      a in nodes && b in nodes && i < l.replicas && j < l.replicas && l.virtualKey(a, i) == l.virtualKey(b, j) ==>
          a == b
  }

  lemma RingMembers(l: Layout, ring: seq<Entry>, nodes: set<string>, e: Entry)
    requires IsRing(l, ring, nodes)
    ensures e in ring <==> e.node in nodes && e in VirtualEntries(l, e.node)
  {
    assert e in ring <==> multiset(ring)[e] > 0;
  }

  lemma RingNodes(l: Layout, ring: seq<Entry>, nodes: set<string>, h: nat)
    requires IsRing(l, ring, nodes) && l.replicas > 0
    ensures forall n :: n in Preference(ring, h) <==> n in nodes
  {
    var walk := Clockwise(ring, h);
    DistinctProperties(walk);
    forall e
      ensures e in walk <==> e in ring
    {
      FilterMembers(ring, AtLeast(h), e);
      FilterMembers(ring, Below(h), e);
    }
    forall n | n in nodes
      ensures n in Preference(ring, h)
    {
      var e := VirtualEntries(l, n)[0];
      RingMembers(l, ring, nodes, e);
      assert e in walk;
    }
    forall n | n in Preference(ring, h)
      ensures n in nodes
    {
      var e :| e in walk && e.node == n;
      RingMembers(l, ring, nodes, e);
    }
  }

  lemma TakeKeeps<T>(s: seq<T>, n: nat)
    requires NoDuplicates(s)
    ensures NoDuplicates(Take(s, n)) && |Take(s, n)| == Min(n, |s|)
    ensures forall x :: x in Take(s, n) ==> x in s
    ensures Take(s, n) <= Take(s, n + 1)
  {
  }

  /** The owners of a key: as many different nodes as asked for and available, all of them on the ring,
      more owners only ever extending the list. */
  lemma OwnersAreDistinctNodes(l: Layout, ring: seq<Entry>, nodes: set<string>, h: nat, rf: nat)
    requires IsRing(l, ring, nodes) && l.replicas > 0
    ensures var owners := Take(Preference(ring, h), rf);
            && NoDuplicates(owners)
            && |owners| == Min(rf, |nodes|)
            && (forall n :: n in owners ==> n in nodes)
            && owners <= Take(Preference(ring, h), rf + 1)
  {
    var all := Preference(ring, h);
    hide Distinct;
    hide NoDuplicates;
    DistinctProperties(Clockwise(ring, h));
    RingNodes(l, ring, nodes, h);
    hide Preference;
    CountDistinct(all, nodes);
    TakeKeeps(all, rf);
  }

  lemma {:induction false} MultisetOfFilter<T>(s: seq<T>, keep: T -> bool, x: T)
    ensures multiset(Filter(s, keep))[x] == if keep(x) then multiset(s)[x] else 0
  {
    if s != [] {
      assert s == [s[0]] + s[1..];
      MultisetOfFilter(s[1..], keep, x);
    }
  }

  lemma {:induction false} FilterKeepsSorted(ring: seq<Entry>, keep: Entry -> bool)
    requires Sorted(ring)
    ensures Sorted(Filter(ring, keep))
  {
    if ring != [] {
      FilterKeepsSorted(ring[1..], keep);
      forall e | e in Filter(ring[1..], keep)
        ensures ring[0].key <= e.key
      {
        FilterMembers(ring[1..], keep, e);
      }
    }
  }

  /** Removing a node leaves a ring of the remaining nodes. */
  lemma WithoutIsRing(l: Layout, ring: seq<Entry>, nodes: set<string>, x: string)
    requires IsRing(l, ring, nodes)
    ensures IsRing(l, Without(ring, x), nodes - {x})
  {
    FilterKeepsSorted(ring, Other(x));
    forall e: Entry
      ensures multiset(Without(ring, x))[e] ==
              if e.node in nodes - {x} then multiset(VirtualEntries(l, e.node))[e] else 0
    {
      MultisetOfFilter(ring, Other(x), e);
    }
  }

  // ---- determinism ------------------------------------------------------------------------

  ghost predicate KeysIdentify(ring: seq<Entry>) {
    forall a, b :: a in ring && b in ring && a.key == b.key ==> a == b
  }

  lemma {:induction false} SortedIsUnique(a: seq<Entry>, b: seq<Entry>)
    requires Sorted(a) && Sorted(b) && multiset(a) == multiset(b) && KeysIdentify(a)
    ensures a == b
  {
    hide Sorted;
    hide KeysIdentify;
    assert |a| == |multiset(a)| == |multiset(b)| == |b|;
    if a != [] {
      SameHead(a, b);
      SameTails(a, b);
      SortedIsUnique(a[1..], b[1..]);
      assert a == [a[0]] + a[1..] && b == [b[0]] + b[1..];
    }
  }

  lemma SameTails(a: seq<Entry>, b: seq<Entry>)
    requires Sorted(a) && Sorted(b) && multiset(a) == multiset(b) && KeysIdentify(a)
    requires a != [] && b != [] && a[0] == b[0]
    ensures Sorted(a[1..]) && Sorted(b[1..]) && multiset(a[1..]) == multiset(b[1..]) && KeysIdentify(a[1..])
  {
    TailOfMultiset(a);
    TailOfMultiset(b);
    TailIsSorted(a);
    TailIsSorted(b);
    hide Sorted;
    forall x, y | x in a[1..] && y in a[1..] && x.key == y.key
      ensures x == y
    {
      assert x in a && y in a;
    }
  }

  lemma TailIsSorted(s: seq<Entry>)
    requires Sorted(s) && s != []
    ensures Sorted(s[1..])
  {
    forall i, j | 0 <= i < j < |s[1..]|
      ensures s[1..][i].key <= s[1..][j].key
    {
      assert s[1..][i] == s[i + 1] && s[1..][j] == s[j + 1];
    }
  }

  lemma TailOfMultiset<T>(s: seq<T>)
    requires s != []
    ensures multiset(s[1..]) == multiset(s) - multiset{s[0]}
  {
    assert s == [s[0]] + s[1..];
  }

  lemma SameHead(a: seq<Entry>, b: seq<Entry>)
    requires Sorted(a) && Sorted(b) && multiset(a) == multiset(b) && KeysIdentify(a)
    requires a != [] && b != []
    ensures a[0] == b[0]
  {
    assert a[0] in multiset(b) && b[0] in multiset(a);
    assert a[0] in b && b[0] in a && a[0] in a;
  }

  lemma NoCollisionsIdentify(l: Layout, ring: seq<Entry>, nodes: set<string>)
    requires IsRing(l, ring, nodes) && NoCollisions(l, nodes)
    ensures KeysIdentify(ring)
  {
    forall a, b | a in ring && b in ring && a.key == b.key
      ensures a == b
    {
      RingMembers(l, ring, nodes, a);
      RingMembers(l, ring, nodes, b);
      var i :| 0 <= i < l.replicas && VirtualEntries(l, a.node)[i] == a;
      var j :| 0 <= j < l.replicas && VirtualEntries(l, b.node)[j] == b;
      assert l.virtualKey(a.node, i) == l.virtualKey(b.node, j);
    }
  }

  /** Without collisions between nodes a set of nodes has only one ring, however it was built. */
  lemma RingIsDetermined(l: Layout, a: seq<Entry>, b: seq<Entry>, nodes: set<string>)
    requires IsRing(l, a, nodes) && IsRing(l, b, nodes) && NoCollisions(l, nodes)
    ensures a == b
  {
    NoCollisionsIdentify(l, a, nodes);
    assert multiset(a) == multiset(b);
    SortedIsUnique(a, b);
  }

  /** Ring addition: without collisions a new node is inserted into every key's preference and nothing else
      moves, so the primary changes to the new node or not at all. */
  lemma AdditionOnlyInserts(l: Layout, before: seq<Entry>, after: seq<Entry>, nodes: set<string>, x: string, h: nat)
    requires IsRing(l, before, nodes) && x !in nodes
    requires IsRing(l, after, nodes + {x}) && NoCollisions(l, nodes + {x})
    ensures Preference(before, h) == Remove(Preference(after, h), x)
    ensures nodes != {} && l.replicas > 0 ==>
              Preference(before, h) != [] && Preference(after, h) != []
              && Preference(after, h)[0] in {x, Preference(before, h)[0]}
  {
    WithoutIsRing(l, after, nodes + {x}, x);
    assert nodes + {x} - {x} == nodes;
    RingIsDetermined(l, before, Without(after, x), nodes);
    RemovalOnlyRemoves(after, h, x);
    if nodes != {} && l.replicas > 0 {
      RingNodes(l, before, nodes, h);
      RingNodes(l, after, nodes + {x}, h);
      var n :| n in nodes;
      assert n in Preference(before, h) && n in Preference(after, h);
    }
  }

  // ---- collisions do matter -----------------------------------------------------------------

  function KeyIs(k: nat): Entry -> bool {
    (e: Entry) => e.key == k
  }

  function Above(k: nat): Entry -> bool {
    (e: Entry) => e.key > k
  }

  /** The same entries with a chosen one first among those of its key. */
  function Promote(ring: seq<Entry>, e: Entry, i: nat): seq<Entry>
    requires i < |Filter(ring, KeyIs(e.key))|
  {
    var ties := Filter(ring, KeyIs(e.key));
    Filter(ring, Below(e.key)) + ([e] + (ties[..i] + ties[i + 1..])) + Filter(ring, Above(e.key))
  }

  lemma PromoteIsRing(l: Layout, ring: seq<Entry>, nodes: set<string>, e: Entry) returns (promoted: seq<Entry>)
    requires IsRing(l, ring, nodes) && e in ring
    ensures IsRing(l, promoted, nodes)
    ensures Clockwise(promoted, e.key) != [] && Clockwise(promoted, e.key)[0] == e
  {
    FilterMembers(ring, KeyIs(e.key), e);
    var i :| 0 <= i < |Filter(ring, KeyIs(e.key))| && Filter(ring, KeyIs(e.key))[i] == e;
    promoted := Promote(ring, e, i);
    PromoteKeepsEntries(ring, e, i);
    PromoteKeepsSorted(ring, e, i);
    PromoteLeads(ring, e, i);
    assert multiset(promoted) == multiset(ring);
  }

  lemma PromoteKeepsEntries(ring: seq<Entry>, e: Entry, i: nat)
    requires i < |Filter(ring, KeyIs(e.key))| && Filter(ring, KeyIs(e.key))[i] == e
    ensures multiset(Promote(ring, e, i)) == multiset(ring)
  {
    var below, ties, above := Filter(ring, Below(e.key)), Filter(ring, KeyIs(e.key)), Filter(ring, Above(e.key));
    MovedToFront(below, ties, above, i);
    hide Filter;
    forall x: Entry
      ensures multiset(Promote(ring, e, i))[x] == multiset(ring)[x]
    {
      MultisetOfFilter(ring, Below(e.key), x);
      MultisetOfFilter(ring, KeyIs(e.key), x);
      MultisetOfFilter(ring, Above(e.key), x);
    }
  }

  lemma MovedToFront<T>(a: seq<T>, b: seq<T>, c: seq<T>, i: nat)
    requires i < |b|
    ensures multiset(a + ([b[i]] + (b[..i] + b[i + 1..])) + c) == multiset(a) + multiset(b) + multiset(c)
  {
    assert b == b[..i] + [b[i]] + b[i + 1..];
    var moved := [b[i]] + (b[..i] + b[i + 1..]);
    assert multiset(moved) == multiset(b);
  }

  lemma {:induction false} FilteredSatisfy<T>(s: seq<T>, keep: T -> bool)
    ensures forall i :: 0 <= i < |Filter(s, keep)| ==> keep(Filter(s, keep)[i])
  {
    if s != [] {
      FilteredSatisfy(s[1..], keep);
    }
  }

  lemma PromoteKeepsSorted(ring: seq<Entry>, e: Entry, i: nat)
    requires Sorted(ring) && i < |Filter(ring, KeyIs(e.key))|
    ensures Sorted(Promote(ring, e, i))
  {
    FilterKeepsSorted(ring, Below(e.key));
    FilterKeepsSorted(ring, Above(e.key));
    FilteredSatisfy(ring, Below(e.key));
    FilteredSatisfy(ring, KeyIs(e.key));
    FilteredSatisfy(ring, Above(e.key));
    hide Filter;
  }

  lemma PromoteLeads(ring: seq<Entry>, e: Entry, i: nat)
    requires i < |Filter(ring, KeyIs(e.key))|
    ensures Clockwise(Promote(ring, e, i), e.key) != [] && Clockwise(Promote(ring, e, i), e.key)[0] == e
  {
    var below, ties, above := Filter(ring, Below(e.key)), Filter(ring, KeyIs(e.key)), Filter(ring, Above(e.key));
    var middle := [e] + (ties[..i] + ties[i + 1..]);
    FilteredSatisfy(ring, Below(e.key));
    FilterConcat(below + middle, above, AtLeast(e.key));
    FilterConcat(below, middle, AtLeast(e.key));
    FilterNone(below, AtLeast(e.key));
    assert Filter(middle, AtLeast(e.key)) == [e] + Filter(middle[1..], AtLeast(e.key));
  }

  /** A set of nodes always answers alike, whatever order its ring was built in, exactly when no two of its
      nodes collide. */
  lemma AnswersDeterminedIff(l: Layout, ring: seq<Entry>, nodes: set<string>)
    requires IsRing(l, ring, nodes)
    ensures NoCollisions(l, nodes) <==>
            forall a, b, h: nat :: IsRing(l, a, nodes) && IsRing(l, b, nodes) ==> Preference(a, h) == Preference(b, h)
  {
    if NoCollisions(l, nodes) {
      forall a, b, h: nat | IsRing(l, a, nodes) && IsRing(l, b, nodes)
        ensures Preference(a, h) == Preference(b, h)
      {
        RingIsDetermined(l, a, b, nodes);
      }
    } else {
      var n, m, i: nat, j: nat :| n in nodes && m in nodes && i < l.replicas && j < l.replicas
        && l.virtualKey(n, i) == l.virtualKey(m, j) && n != m;
      var e, f := VirtualEntries(l, n)[i], VirtualEntries(l, m)[j];
      RingMembers(l, ring, nodes, e);
      RingMembers(l, ring, nodes, f);
      var a := PromoteIsRing(l, ring, nodes, e);
      var b := PromoteIsRing(l, ring, nodes, f);
      DistinctProperties(Clockwise(a, e.key));
      DistinctProperties(Clockwise(b, e.key));
      assert Preference(a, e.key)[0] == n && Preference(b, e.key)[0] == m;
    }
  }

  const COLLIDING := Layout(1, (node: string, i: nat) => 0, (key: string) => 0)

  /** Two nodes whose only virtual keys collide: either may come first, and so may be the primary of every key. */
  lemma CollidingNodesDisagree(h: nat)
    ensures var a, b := Entry(0, "a"), Entry(0, "b");
            && IsRing(COLLIDING, [a, b], {"a", "b"}) && IsRing(COLLIDING, [b, a], {"a", "b"})
            && Preference([a, b], h) == ["a", "b"] && Preference([b, a], h) == ["b", "a"]
  {
    hide IsRing;
    hide Preference;
    CollidingRing("a", "b");
    CollidingRing("b", "a");
    assert {"a", "b"} == {"b", "a"};
    SameKeyWalk(Entry(0, "a"), Entry(0, "b"), h);
    SameKeyWalk(Entry(0, "b"), Entry(0, "a"), h);
  }

  lemma CollidingRing(m: string, n: string)
    requires m != n
    ensures IsRing(COLLIDING, [Entry(0, m), Entry(0, n)], {m, n})
  {
    var ring := [Entry(0, m), Entry(0, n)];
    forall e: Entry
      ensures multiset(ring)[e] == if e.node in {m, n} then multiset(VirtualEntries(COLLIDING, e.node))[e] else 0
    {
      assert VirtualEntries(COLLIDING, e.node) == [Entry(0, e.node)];
      assert multiset(ring) == multiset{Entry(0, m), Entry(0, n)};
    }
  }

  lemma SameKeyWalk(a: Entry, b: Entry, h: nat)
    requires a.key == b.key && a.node != b.node
    ensures Clockwise([a, b], h) == [a, b] && Preference([a, b], h) == [a.node, b.node]
  {
    if a.key >= h {
      FilterAll([a, b], AtLeast(h));
      FilterNone([a, b], Below(h));
    } else {
      FilterNone([a, b], AtLeast(h));
      FilterAll([a, b], Below(h));
    }
    assert [a, b][..1] == [a] && [a][..0] == [];
    assert Distinct([a]) == [a.node];
  }
}

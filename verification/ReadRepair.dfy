/** Read repair: the value that wins, and what a repair round does to the replicas
    (internal/server/handlers/kv.go). */
module ReadRepair {
  import opened Common
  import opened WalCodec
  import opened ClusterNodes

  type Bytes = seq<Byte>

  // ---- the winning value ---------------------------------------------------------------

  function Count(values: seq<Bytes>, v: Bytes): nat {
    if values == [] then 0
    else Count(values[..|values| - 1], v) + (if values[|values| - 1] == v then 1 else 0)
  }

  /** Where a value is first seen; past the end if it never is. */
  function FirstIndex(values: seq<Bytes>, v: Bytes): (i: nat)
    ensures v in values <==> i < |values|
    ensures i < |values| ==> values[i] == v
    ensures forall j :: 0 <= j < i && j < |values| ==> values[j] != v
  {
    if values == [] then 0
    else
      var before := values[..|values| - 1];
      assert values == before + [values[|values| - 1]];
      if v in before then FirstIndex(before, v)
      else if values[|values| - 1] == v then |values| - 1 else |values|
  }

  /** A value of maximal count, the one seen first among those. */
  ghost predicate Wins(values: seq<Bytes>, v: Bytes) {
    && v in values
    && (forall u :: u in values ==> Count(values, u) <= Count(values, v))
    && (forall u :: u in values && Count(values, u) == Count(values, v) ==>
        FirstIndex(values, v) <= FirstIndex(values, u))
  }

  lemma WinnerIsUnique(values: seq<Bytes>, v: Bytes, u: Bytes)
    requires Wins(values, v) && Wins(values, u)
    ensures v == u
  {
    assert Count(values, u) == Count(values, v);
  }

  lemma {:induction false} TwoCounts(values: seq<Bytes>, v: Bytes, u: Bytes)
    requires v != u
    ensures Count(values, v) + Count(values, u) <= |values|
  {
    if values != [] {
      TwoCounts(values[..|values| - 1], v, u);
    }
  }

  /** Hence any strict majority wins. */
  lemma StrictMajorityWins(values: seq<Bytes>, v: Bytes, u: Bytes)
    requires 2 * Count(values, v) > |values| && Wins(values, u) && v in values
    ensures u == v
  {
    if u != v {
      TwoCounts(values, v, u);
    }
  }

  /** Otherwise the value first read wins exactly when none is more frequent. */
  lemma FirstWinsIff(values: seq<Bytes>)
    requires values != []
    ensures Wins(values, values[0]) <==> forall u :: u in values ==> Count(values, u) <= Count(values, values[0])
  {
    assert FirstIndex(values, values[0]) == 0;
  }

  /** So a value without a strict majority may displace it: two votes of four do. */
  lemma PluralityBeatsFirst(a: Bytes, b: Bytes, c: Bytes)
    requires a != b && b != c && a != c
    ensures var four := [a, b, b, c];
            Wins(four, b) && 2 * Count(four, b) == |four| && forall u :: Wins(four, u) ==> u != a
  {
    var four := [a, b, b, c];
    forall v
      ensures Count(four, v) == (if v == a then 1 else 0) + (if v == b then 2 else 0) + (if v == c then 1 else 0)
    {
      CountSnoc([a, b, b], c, v);
      CountSnoc([a, b], b, v);
      CountSnoc([a], b, v);
      CountSnoc([], a, v);
      assert [a, b, b] == [a, b] + [b] && [a, b] == [a] + [b] && [a] == [] + [a] && four == [a, b, b] + [c];
    }
    hide Count;
    assert four[1] in four;
  }

  lemma CountSnoc(values: seq<Bytes>, x: Bytes, v: Bytes)
    ensures Count(values + [x], v) == Count(values, v) + (if x == v then 1 else 0)
  {
    assert (values + [x])[..|values|] == values;
  }

  lemma {:induction false} CountIsMultiplicity(values: seq<Bytes>, v: Bytes)
    ensures Count(values, v) == multiset(values)[v]
  {
    if values != [] {
      CountIsMultiplicity(values[..|values| - 1], v);
      assert values == values[..|values| - 1] + [values[|values| - 1]];
    }
  }

  lemma {:induction false} CountOfAbsent(values: seq<Bytes>, v: Bytes)
    ensures Count(values, v) > 0 <==> v in values
  {
    if values != [] {
      CountOfAbsent(values[..|values| - 1], v);
      assert v in values <==> v in values[..|values| - 1] || v == values[|values| - 1];
    }
  }

  /** The different values in the order they are first seen. */
  function Seen(values: seq<Bytes>): seq<Bytes> {
    if values == [] then []
    else
      var before := values[..|values| - 1];
      if values[|values| - 1] in before then Seen(before) else Seen(before) + [values[|values| - 1]]
  }

  lemma {:induction false} SeenIsOrdered(values: seq<Bytes>)
    ensures forall v :: v in Seen(values) <==> v in values
    ensures forall i, j :: 0 <= i < j < |Seen(values)| ==>
              FirstIndex(values, Seen(values)[i]) < FirstIndex(values, Seen(values)[j])
  {
    if values != [] {
      var before, last := values[..|values| - 1], values[|values| - 1];
      SeenIsOrdered(before);
      assert values == before + [last];
      forall v | v in before
        ensures FirstIndex(values, v) == FirstIndex(before, v) < |before|
      {
      }
    }
  }

  lemma SeenStep(values: seq<Bytes>, i: nat, v: Bytes)
    requires i < |values|
    ensures Seen(values[..i + 1]) ==
            if values[i] in values[..i] then Seen(values[..i]) else Seen(values[..i]) + [values[i]]
    ensures Count(values[..i + 1], v) == Count(values[..i], v) + (if values[i] == v then 1 else 0)
    ensures v in values[..i + 1] <==> v in values[..i] || v == values[i]
  {
    assert values[..i + 1][..i] == values[..i];
    assert values[..i + 1] == values[..i] + [values[i]];
  }

  /** majorityValue: counts the values, remembering the order they appear in, then scans that order for the
      first best count. No values at all give the empty one. */
  method MajorityValue(results: seq<Bytes>) returns (majority: Bytes)
    ensures results == [] ==> majority == []
    ensures results != [] ==> Wins(results, majority)
  {
    var counts, keys := CountValues(results);
    SeenIsOrdered(results);
    hide Seen;
    hide FirstIndex;
    hide Count;
    majority := [];
    var best := 0;
    var m: nat := 0;
    for i := 0 to |keys|
      invariant i == 0 ==> best == 0 && majority == []
      invariant i > 0 ==> m < i && majority == keys[m] && best == Count(results, majority)
      invariant forall j :: 0 <= j < i ==> Count(results, keys[j]) <= best && (j < m ==> Count(results, keys[j]) < best)
    {
      CountOfAbsent(results, keys[i]);
      assert keys[i] in results;
      if counts[keys[i]] > best {
        best := counts[keys[i]];
        majority := keys[i];
        m := i;
      }
    }
    if results != [] {
      assert results[0] in keys;
      WinnerAmongSeen(results, keys, m);
    }
  }

  lemma WinnerAmongSeen(values: seq<Bytes>, keys: seq<Bytes>, m: nat)
    requires m < |keys|
    requires forall v :: v in keys <==> v in values
    requires forall i, j :: 0 <= i < j < |keys| ==> FirstIndex(values, keys[i]) < FirstIndex(values, keys[j])
    requires forall j :: 0 <= j < |keys| ==> Count(values, keys[j]) <= Count(values, keys[m])
    requires forall j :: 0 <= j < m ==> Count(values, keys[j]) < Count(values, keys[m])
    ensures Wins(values, keys[m])
  {
    hide FirstIndex;
    hide Count;
    assert keys[m] in keys;
    forall u | u in values
      ensures Count(values, u) <= Count(values, keys[m])
      ensures Count(values, u) == Count(values, keys[m]) ==> FirstIndex(values, keys[m]) <= FirstIndex(values, u)
    {
      assert u in keys;
      var j :| 0 <= j < |keys| && keys[j] == u;
    }
  }

  method CountValues(results: seq<Bytes>) returns (counts: map<Bytes, nat>, keys: seq<Bytes>)
    ensures keys == Seen(results)
    ensures forall v :: v in counts <==> v in results
    ensures forall v :: v in results ==> counts[v] == Count(results, v)
  {
    hide Seen;
    hide Count;
    assert Seen([]) == [] by { NothingSeen(); }
    counts, keys := map[], [];
    for i := 0 to |results|
      invariant keys == Seen(results[..i])
      invariant forall v :: v in counts <==> v in results[..i]
      invariant forall v :: v in counts ==> counts[v] == Count(results[..i], v)
    {
      var s := results[i];
      CountOfAbsent(results[..i], s);
      forall v
        ensures Seen(results[..i + 1]) == if s in results[..i] then Seen(results[..i]) else Seen(results[..i]) + [s]
        ensures Count(results[..i + 1], v) == Count(results[..i], v) + (if s == v then 1 else 0)
        ensures v in results[..i + 1] <==> v in results[..i] || v == s
      {
        SeenStep(results, i, v);
      }
      SeenStep(results, i, s);
      if s !in counts {
        keys := keys + [s];
      }
      counts := counts[s := (if s in counts then counts[s] else 0) + 1];
    }
    assert results[..|results|] == results;
  }

  lemma NothingSeen()
    ensures Seen([]) == []
  {
  }

  // ---- a repair round ---------------------------------------------------------------------

  /** An owner answers when it is alive, its address works, and it has the key. */
  predicate Responds(owner: Node, reachable: set<string>, values: map<string, Bytes>) {
    owner.status == Alive && owner.address != "" && owner.address in reachable && owner.address in values
  }

  function Responders(owners: seq<Node>, reachable: set<string>, values: map<string, Bytes>): seq<Node> {
    Filter(owners, o => Responds(o, reachable, values))
  }

  function ValuesOf(responders: seq<Node>, values: map<string, Bytes>): (r: seq<Bytes>)
    requires forall o :: o in responders ==> o.address in values
    ensures |r| == |responders|
    ensures forall i :: 0 <= i < |r| ==> r[i] == values[responders[i].address]
  {
    seq(|responders|, i requires 0 <= i < |responders| => values[responders[i].address])
  }

  lemma RespondersHaveValues(owners: seq<Node>, reachable: set<string>, values: map<string, Bytes>)
    ensures forall o :: o in Responders(owners, reachable, values) ==> o.address in values && o.address != ""
  {
    forall o | o in Responders(owners, reachable, values)
      ensures o.address in values && o.address != ""
    {
      FilterMembers(owners, x => Responds(x, reachable, values), o);
    }
  }

  /** The addresses of some nodes. */
  function Addresses(nodes: seq<Node>): set<string> {
    set o | o in nodes :: o.address
  }

  /** The addresses among them whose value is not the given one. */
  function Stale(nodes: seq<Node>, values: map<string, Bytes>, v: Bytes): set<string> {
    set o | o in nodes && Lookup(values, o.address) != Some(v) :: o.address
  }

  lemma AddressesSnoc(nodes: seq<Node>, i: nat)
    requires i < |nodes|
    ensures Addresses(nodes[..i + 1]) == Addresses(nodes[..i]) + {nodes[i].address}
  {
    assert nodes[..i + 1] == nodes[..i] + [nodes[i]];
  }

  lemma StaleMember(nodes: seq<Node>, i: nat, values: map<string, Bytes>, v: Bytes)
    requires i < |nodes|
    ensures Lookup(values, nodes[i].address) != Some(v) ==> nodes[i].address in Stale(nodes, values, v)
  {
    assert nodes[i] in nodes;
  }

  /** What a round leaves: the winner at every responder, and nothing else touched. */
  ghost predicate Repaired(owners: seq<Node>, reachable: set<string>, first: Bytes, before: map<string, Bytes>,
                           after: map<string, Bytes>, canonical: Bytes)
  {
    RespondersHaveValues(owners, reachable, before);
    var responders := Responders(owners, reachable, before);
    && after.Keys == before.Keys
    && Wins([first] + ValuesOf(responders, before), canonical)
    && forall a :: a in before ==> after[a] == if a in Addresses(responders) then canonical else before[a]
  }

  /** Spelled out: every owner that is alive, reachable and has the key holds the winner, and no copy has changed other
      than at such an owner. */
  lemma RepairedMeans(owners: seq<Node>, reachable: set<string>, first: Bytes, before: map<string, Bytes>,
                      after: map<string, Bytes>, canonical: Bytes)
    requires Repaired(owners, reachable, first, before, after, canonical)
    ensures after.Keys == before.Keys
    ensures forall i :: 0 <= i < |owners| && owners[i].status == Alive && owners[i].address != "" ==>
              owners[i].address in reachable && owners[i].address in before ==> after[owners[i].address] == canonical
    ensures forall a :: a in before && after[a] != before[a] ==>
              exists i :: 0 <= i < |owners| && owners[i].address == a && owners[i].status == Alive && a != "" &&
                  a in reachable
  {
    RespondersHaveValues(owners, reachable, before);
    var responders := Responders(owners, reachable, before);
    forall o
      ensures o in responders <==> o in owners && Responds(o, reachable, before)
    {
      FilterMembers(owners, x => Responds(x, reachable, before), o);
    }
    hide Responders;
    hide Wins;
    forall a | a in before && after[a] != before[a]
      ensures exists i :: 0 <= i < |owners| && owners[i].address == a && owners[i].status == Alive && a != "" &&
                a in reachable
    {
      var o :| o in responders && o.address == a;
      var i :| 0 <= i < |owners| && owners[i] == o;
    }
  }

  /** The replicas' copies of one key, by address. */
  class Replicas {
    var values: map<string, Bytes>
    ghost var writes: seq<string>  // the addresses written to, in order

    constructor (values: map<string, Bytes>)
      ensures this.values == values && writes == []
    {
      this.values := values;
      writes := [];
    }

    method Put(address: string, value: Bytes)
      modifies this
      ensures values == old(values)[address := value] && writes == old(writes) + [address]
    {
      values := values[address := value];
      writes := writes + [address];
    }

    /** asyncReadRepair with calls that succeed on the reachable addresses: polls the owners, lets the majority
        decide, and overwrites every responder that differs. */
    method RepairRound(owners: seq<Node>, reachable: set<string>, first: Bytes)
      returns (ghost canonical: Bytes, ghost written: seq<string>)
      modifies this
      ensures Repaired(owners, reachable, first, old(values), values, canonical)
      ensures writes == old(writes) + written
      ensures var stale := Stale(Responders(owners, reachable, old(values)), old(values), canonical);
              (forall a :: a in written ==> a in stale) && (stale == {} ==> written == [])
    {
      var nodes, results := Poll(owners, reachable, first);
      RespondersHaveValues(owners, reachable, values);
      canonical, written := first, [];
      if |results| < 2 {
        assert ValuesOf(nodes, values) == [];
        assert Wins([first], first) by { OnlyOneWins(first); }
        return;
      }
      var majority := MajorityValue(results);
      canonical := majority;
      written := Overwrite(nodes, results, majority);
    }

    /** The responders in owner order, and their values after the one already read. */
    method Poll(owners: seq<Node>, reachable: set<string>, first: Bytes) returns (nodes: seq<Node>, results: seq<Bytes>)
      ensures nodes == Responders(owners, reachable, values)
      ensures forall o :: o in nodes ==> o.address in values
      ensures results == [first] + ValuesOf(nodes, values)
    {
      nodes, results := [], [first];
      var held := values;
      for i := 0 to |owners|
        invariant nodes == Responders(owners[..i], reachable, values)
        invariant forall o :: o in nodes ==> o.address in values
        invariant results == [first] + ValuesOf(nodes, values) && values == held
      {
        FilterSnoc(owners, i, o => Responds(o, reachable, held));
        if !Responds(owners[i], reachable, values) {
          continue;
        }
        ghost var earlier := nodes;
        nodes := nodes + [owners[i]];
        results := results + [values[owners[i].address]];
        assert ValuesOf(nodes, values) == ValuesOf(earlier, values) + [values[owners[i].address]];
      }
      assert owners[..|owners|] == owners;
    }

    method Overwrite(nodes: seq<Node>, results: seq<Bytes>, majority: Bytes) returns (ghost written: seq<string>)
      requires |results| == |nodes| + 1
      requires forall i :: 0 <= i < |nodes| ==>
                 nodes[i].address in values && nodes[i].address != "" && results[i + 1] == values[nodes[i].address]
      modifies this
      ensures values.Keys == old(values).Keys
      ensures forall a :: a in values ==> values[a] == if a in Addresses(nodes) then majority else old(values)[a]
      ensures writes == old(writes) + written
      ensures forall a :: a in written ==> a in Stale(nodes, old(values), majority)
      ensures Stale(nodes, old(values), majority) == {} ==> written == []
    {
      written := [];
      for i := 0 to |nodes|
        invariant values.Keys == old(values).Keys
        invariant forall a :: a in values ==>
            values[a] == if a in Addresses(nodes[..i]) then majority else old(values)[a]
        invariant writes == old(writes) + written
        invariant forall a :: a in written ==> a in Stale(nodes, old(values), majority)
        invariant Stale(nodes, old(values), majority) == {} ==> written == []
      {
        hide Addresses;
        hide Stale;
        AddressesSnoc(nodes, i);
        StaleMember(nodes, i, old(values), majority);
        if nodes[i].address == "" {
          continue;
        }
        if results[i + 1] != majority {
          ghost var before := values;
          Put(nodes[i].address, majority);
          written := written + [nodes[i].address];
          OneMoreOverwritten(old(values), before, values, Addresses(nodes[..i]), nodes[i].address, majority);
        }
      }
      assert nodes[..|nodes|] == nodes;
    }

    /** A repeated round from the same first value writes nothing: read repair has converged. */
    method RepairTwice(owners: seq<Node>, reachable: set<string>, first: Bytes) returns (ghost written: seq<string>)
      modifies this
      ensures written == []
    {
      hide Stale;
      hide Wins;
      hide Responders;
      ghost var before := values;
      ghost var c1, w1 := RepairRound(owners, reachable, first);
      ghost var between := values;
      ghost var c2;
      c2, written := RepairRound(owners, reachable, first);
      RespondersHaveValues(owners, reachable, between);
      SecondRoundIsQuiet(owners, reachable, first, before, between, c1, c2);
    }
  }

  lemma OneMoreOverwritten(start: map<string, Bytes>, before: map<string, Bytes>, after: map<string, Bytes>,
                           done: set<string>, address: string, majority: Bytes)
    requires before.Keys == start.Keys && address in start && after == before[address := majority]
    requires forall a :: a in before ==> before[a] == if a in done then majority else start[a]
    ensures after.Keys == start.Keys
    ensures forall a :: a in after ==> after[a] == if a in done + {address} then majority else start[a]
  {
  }

  lemma OnlyOneWins(v: Bytes)
    ensures Wins([v], v)
  {
  }

  // ---- convergence ------------------------------------------------------------------------------

  lemma {:induction false} SameResponders(owners: seq<Node>, reachable: set<string>, a: map<string, Bytes>,
                                          b: map<string, Bytes>)
    requires a.Keys == b.Keys
    ensures Responders(owners, reachable, a) == Responders(owners, reachable, b)
  {
    if owners != [] {
      SameResponders(owners[1..], reachable, a, b);
    }
  }

  lemma {:induction false} CountOfSame(values: seq<Bytes>, v: Bytes, u: Bytes)
    requires forall i :: 0 <= i < |values| ==> values[i] == v
    ensures Count(values, u) == if u == v then |values| else 0
  {
    if values != [] {
      CountOfSame(values[..|values| - 1], v, u);
    }
  }

  lemma {:induction false} CountCons(values: seq<Bytes>, x: Bytes, v: Bytes)
    ensures Count([x] + values, v) == Count(values, v) + (if x == v then 1 else 0)
  {
    if values == [] {
      assert [x] + values == [x] && [x][..0] == [];
    } else {
      assert ([x] + values)[..|values|] == [x] + values[..|values| - 1];
      CountCons(values[..|values| - 1], x, v);
    }
  }

  lemma {:induction false} CountAtMost(values: seq<Bytes>, v: Bytes)
    ensures Count(values, v) <= |values|
  {
    if values != [] {
      CountAtMost(values[..|values| - 1], v);
    }
  }

  /** Once all responders hold the winner of a round, it wins again. */
  lemma WinnerWinsAgain(first: Bytes, polled: seq<Bytes>, repaired: seq<Bytes>, v: Bytes, u: Bytes)
    requires Wins([first] + polled, v) && |repaired| == |polled| &&
               (forall i :: 0 <= i < |repaired| ==> repaired[i] == v)
    requires Wins([first] + repaired, u) && polled != []
    ensures u == v
  {
    CountCons(polled, first, v);
    CountCons(polled, first, first);
    CountCons(repaired, first, v);
    CountCons(repaired, first, first);
    CountOfSame(repaired, v, v);
    CountOfSame(repaired, v, first);
    CountAtMost(polled, v);
    var all := [first] + polled;
    assert first in all && all[0] == first;
    assert FirstIndex(all, first) == 0;
    assert Count(all, first) == Count(all, v) ==> FirstIndex(all, v) <= FirstIndex(all, first);
    assert repaired[0] in [first] + repaired;
    assert v in [first] + repaired;
  }

  // ---- the majority of the replies ----------------------------------------------------------------

  /** The value read first votes once more when its owner is polled. So a value that most replies agree on wins a round
      exactly when it is the one read first, or leads it by more than that one vote. */
  lemma MajorityOfRepliesWinsIff(polled: seq<Bytes>, first: Bytes, m: Bytes, winner: Bytes)
    requires 2 * Count(polled, m) > |polled| && Wins([first] + polled, winner)
    ensures winner == m <==> m == first || Count(polled, m) > Count(polled, first) + 1
  {
    var votes := [first] + polled;
    CountCons(polled, first, m);
    CountCons(polled, first, first);
    CountCons(polled, first, winner);
    CountOfAbsent(polled, m);
    assert m in votes && votes[0] == first && first in votes;
    assert FirstIndex(votes, first) == 0;
    if winner != m {
      TwoCounts(polled, m, winner);
    }
  }

  /** Three replicas, of which two agree: if the third was read first, its value wins and overwrites theirs. */
  lemma FirstReadOutvotesMajority(a: Node, b: Node, c: Node, reachable: set<string>, first: Bytes, m: Bytes,
                                  before: map<string, Bytes>, after: map<string, Bytes>, canonical: Bytes)
    requires first != m && before.Keys == {a.address, b.address, c.address} <= reachable && "" !in before
    requires a.status == b.status == c.status == Alive
    requires before[a.address] == first && before[b.address] == m && before[c.address] == m
    requires Repaired([a, b, c], reachable, first, before, after, canonical)
    ensures canonical == first && after[b.address] == first && after[c.address] == first
  {
    hide Wins;
    var owners := [a, b, c];
    RespondersHaveValues(owners, reachable, before);
    AllRespond(owners, reachable, before);
    hide Responders;
    assert ValuesOf(owners, before) == [first, m, m];
    TwoAgainstOne(first, m, canonical);
    assert b in owners && c in owners;
    assert b.address in Addresses(owners) && c.address in Addresses(owners);
  }

  lemma AllRespond(owners: seq<Node>, reachable: set<string>, values: map<string, Bytes>)
    requires forall i :: 0 <= i < |owners| ==> Responds(owners[i], reachable, values)
    ensures Responders(owners, reachable, values) == owners
  {
    FilterAll(owners, o => Responds(o, reachable, values));
  }

  lemma TwoAgainstOne(first: Bytes, m: Bytes, winner: Bytes)
    requires first != m && Wins([first] + [first, m, m], winner)
    ensures winner == first
  {
    var polled := [] + [first] + [m] + [m];
    assert polled == [first, m, m];
    CountSnoc([], first, m);
    CountSnoc([] + [first], m, m);
    CountSnoc([] + [first] + [m], m, m);
    CountSnoc([], first, first);
    CountSnoc([] + [first], m, first);
    CountSnoc([] + [first] + [m], m, first);
    hide Count;
    MajorityOfRepliesWinsIff(polled, first, m, winner);
    OnlyTwoValues(polled, first, m, winner);
  }

  lemma OnlyTwoValues(polled: seq<Bytes>, first: Bytes, m: Bytes, winner: Bytes)
    requires Wins([first] + polled, winner) && winner != m
    requires forall v :: v in polled ==> v == first || v == m
    ensures winner == first
  {
    assert winner == first || winner in polled;
  }

  lemma SecondRoundIsQuiet(owners: seq<Node>, reachable: set<string>, first: Bytes, before: map<string, Bytes>,
                           between: map<string, Bytes>, c1: Bytes, c2: Bytes)
    requires Repaired(owners, reachable, first, before, between, c1)
    requires var responders := Responders(owners, reachable, between);
             && (forall o :: o in responders ==> o.address in between)
             && Wins([first] + ValuesOf(responders, between), c2)
    ensures Stale(Responders(owners, reachable, between), between, c2) == {}
  {
    RespondersHaveValues(owners, reachable, before);
    SameResponders(owners, reachable, before, between);
    var responders := Responders(owners, reachable, before);
    var polled, repaired := ValuesOf(responders, before), ValuesOf(responders, between);
    forall o | o in responders
      ensures between[o.address] == c1
    {
      assert o.address in Addresses(responders);
    }
    if responders != [] {
      WinnerWinsAgain(first, polled, repaired, c1, c2);
    }
  }
}

/** A log of key-value mutations and the map it produces.
    Write-ahead logs, hint queues and replica histories are all such logs, so the
    facts about replaying twice, replaying out of order and replaying a suffix are
    proved here once, for any key and value type. */
module KvLog {
  import opened Common

  datatype Op<K, V> = Put(key: K, value: V) | Delete(key: K)

  /** What a mutation leaves under its own key. */
  function Effect<K, V>(op: Op<K, V>): Option<V> {
    match op
    case Put(_, v) => Some(v)
    case Delete(_) => None
  }

  function ApplyOne<K, V>(m: map<K, V>, op: Op<K, V>): map<K, V> {
    match op
    case Put(k, v) => m[k := v]
    case Delete(k) => m - {k}
  }

  /** The map that a log produces, oldest mutation first. */
  function Apply<K, V>(m: map<K, V>, ops: seq<Op<K, V>>): map<K, V> {
    if ops == [] then m
    else ApplyOne(Apply(m, ops[..|ops| - 1]), ops[|ops| - 1])
  }

  /** The most recent mutation of a key, if the log has one. */
  function Last<K(==), V>(ops: seq<Op<K, V>>, k: K): Option<Op<K, V>> {
    if ops == [] then None
    else if ops[|ops| - 1].key == k then Some(ops[|ops| - 1])
    else Last(ops[..|ops| - 1], k)
  }

  /** Only the last mutation of a key matters: the map a log produces is known pointwise. */
  lemma {:induction false} ApplyAt<K, V>(m: map<K, V>, ops: seq<Op<K, V>>, k: K)
    ensures Lookup(Apply(m, ops), k) ==
            match Last(ops, k) { case None => Lookup(m, k) case Some(op) => Effect(op) }
  {
    if ops != [] {
      ApplyAt(m, ops[..|ops| - 1], k);
    }
  }

  lemma {:induction false} LastConcat<K, V>(a: seq<Op<K, V>>, b: seq<Op<K, V>>, k: K)
    ensures Last(a + b, k) == if Last(b, k).Some? then Last(b, k) else Last(a, k)
  {
    if b == [] {
      assert a + b == a;
    } else {
      assert (a + b)[..|a + b| - 1] == a + b[..|b| - 1];
      LastConcat(a, b[..|b| - 1], k);
    }
  }

  lemma {:induction false} ApplyConcat<K, V>(m: map<K, V>, a: seq<Op<K, V>>, b: seq<Op<K, V>>)
    ensures Apply(m, a + b) == Apply(Apply(m, a), b)
  {
    if b == [] {
      assert a + b == a;
    } else {
      assert (a + b)[..|a + b| - 1] == a + b[..|b| - 1];
      ApplyConcat(m, a, b[..|b| - 1]);
    }
  }

  /** Replaying a suffix of a log over the very state that log produced changes nothing. */
  lemma SuffixReplayIsIdempotent<K, V>(m: map<K, V>, a: seq<Op<K, V>>, b: seq<Op<K, V>>)
    ensures Apply(Apply(m, a + b), b) == Apply(m, a + b)
  {
    forall k
      ensures Lookup(Apply(Apply(m, a + b), b), k) == Lookup(Apply(m, a + b), k)
    {
      ApplyAt(Apply(m, a + b), b, k);
      ApplyAt(m, a + b, k);
      LastConcat(a, b, k);
    }
    SameLookups(Apply(Apply(m, a + b), b), Apply(m, a + b));
  }

  /** Two logs leave the same thing under every key that either of them mutates. */
  ghost predicate SameOutcomes<K(!new), V>(a: seq<Op<K, V>>, b: seq<Op<K, V>>) {
    forall k: K {:trigger Last(a, k)} ::
      Last(a, k).Some? && Last(b, k).Some? ==> Effect(Last(a, k).value) == Effect(Last(b, k).value)
  }

  ghost predicate SameKeys<K(!new), V>(a: seq<Op<K, V>>, b: seq<Op<K, V>>) {
    forall k: K {:trigger Last(a, k)} :: Last(a, k).Some? <==> Last(b, k).Some?
  }

  /** Logs over the same keys are interchangeable from a given map exactly when their outcomes agree. */
  lemma InterchangeableIff<K(!new), V>(m: map<K, V>, a: seq<Op<K, V>>, b: seq<Op<K, V>>)
    requires SameKeys(a, b)
    ensures Apply(m, a) == Apply(m, b) <==> SameOutcomes(a, b)
  {
    forall k: K
      ensures Lookup(Apply(m, a), k) == match Last(a, k) { case None => Lookup(m, k) case Some(op) => Effect(op) }
      ensures Lookup(Apply(m, b), k) == match Last(b, k) { case None => Lookup(m, k) case Some(op) => Effect(op) }
    {
      ApplyAt(m, a, k);
      ApplyAt(m, b, k);
    }
    if SameOutcomes(a, b) {
      SameLookups(Apply(m, a), Apply(m, b));
    }
    if Apply(m, a) == Apply(m, b) {
      forall k: K | Last(a, k).Some? && Last(b, k).Some?
        ensures Effect(Last(a, k).value) == Effect(Last(b, k).value)
      {
        assert Lookup(Apply(m, a), k) == Lookup(Apply(m, b), k);
      }
    }
  }

  /** The beginning of a log leaves what the map already holds under every key that the rest does not override. */
  ghost predicate Redundant<K(!new), V>(m: map<K, V>, beginning: seq<Op<K, V>>, rest: seq<Op<K, V>>) {
    forall k: K {:trigger Last(beginning, k)} {:trigger Last(rest, k)} ::
      Last(beginning, k).Some? && Last(rest, k).None? ==> Effect(Last(beginning, k).value) == Lookup(m, k)
  }

  /** The beginning of a log can be left out exactly when it is redundant. */
  lemma DropBeginningIff<K(!new), V>(m: map<K, V>, beginning: seq<Op<K, V>>, rest: seq<Op<K, V>>)
    ensures Apply(m, rest) == Apply(m, beginning + rest) <==> Redundant(m, beginning, rest)
  {
    forall k: K
      ensures Lookup(Apply(m, rest), k) == match Last(rest, k) { case None => Lookup(m, k) case Some(op) => Effect(op) }
      ensures Lookup(Apply(m, beginning + rest), k) ==
              if Last(rest, k).Some? then Effect(Last(rest, k).value)
              else match Last(beginning, k) { case None => Lookup(m, k) case Some(op) => Effect(op) }
    {
      ApplyAt(m, rest, k);
      ApplyAt(m, beginning + rest, k);
      LastConcat(beginning, rest, k);
    }
    if Redundant(m, beginning, rest) {
      SameLookups(Apply(m, rest), Apply(m, beginning + rest));
    }
    if Apply(m, rest) == Apply(m, beginning + rest) {
      forall k: K | Last(beginning, k).Some? && Last(rest, k).None?
        ensures Effect(Last(beginning, k).value) == Lookup(m, k)
      {
        assert Lookup(Apply(m, rest), k) == Lookup(Apply(m, beginning + rest), k);
      }
    }
  }

  // ---- numbered parts replayed in ascending or descending order ----------------

  function Ascending<K, V>(part: nat -> seq<Op<K, V>>, n: nat): seq<Op<K, V>> {
    if n == 0 then [] else Ascending(part, n - 1) + part(n)
  }

  function Descending<K, V>(part: nat -> seq<Op<K, V>>, n: nat): seq<Op<K, V>> {
    if n == 0 then [] else part(n) + Descending(part, n - 1)
  }

  /** The lowest-numbered part up to n that mutates a key, 0 if there is none. */
  function LowestPart<K(==), V>(part: nat -> seq<Op<K, V>>, n: nat, k: K): (i: nat)
    ensures i <= n
    ensures i > 0 ==> Last(part(i), k).Some?
  {
    if n == 0 then 0
    else if LowestPart(part, n - 1, k) > 0 then LowestPart(part, n - 1, k)
    else if Last(part(n), k).Some? then n else 0
  }

  function HighestPart<K(==), V>(part: nat -> seq<Op<K, V>>, n: nat, k: K): (i: nat)
    ensures i <= n
    ensures i > 0 ==> Last(part(i), k).Some?
  {
    if n == 0 then 0 else if Last(part(n), k).Some? then n else HighestPart(part, n - 1, k)
  }

  lemma {:induction false} PartsBound<K, V>(part: nat -> seq<Op<K, V>>, n: nat, k: K, i: nat)
    requires 1 <= i <= n && Last(part(i), k).Some?
    ensures 0 < LowestPart(part, n, k) <= i <= HighestPart(part, n, k)
  {
    if i < n {
      PartsBound(part, n - 1, k, i);
    } else {
      assert LowestPart(part, n - 1, k) <= n - 1;
    }
  }

  /** Ascending order is decided by the highest part that mutates a key, descending order by the lowest. */
  lemma {:induction false} LastInParts<K, V>(part: nat -> seq<Op<K, V>>, n: nat, k: K)
    ensures Last(Ascending(part, n), k) ==
            if HighestPart(part, n, k) > 0 then Last(part(HighestPart(part, n, k)), k) else None
    ensures Last(Descending(part, n), k) ==
            if LowestPart(part, n, k) > 0 then Last(part(LowestPart(part, n, k)), k) else None
    ensures HighestPart(part, n, k) > 0 <==> LowestPart(part, n, k) > 0
  {
    if n > 0 {
      LastInParts(part, n - 1, k);
      LastConcat(Ascending(part, n - 1), part(n), k);
      LastConcat(part(n), Descending(part, n - 1), k);
    }
  }

  /** The lowest and the highest part that mutate a key leave the same thing under it, unless the tail
      that follows all parts overrides both. */
  ghost predicate OrderInsensitive<K(!new), V>(part: nat -> seq<Op<K, V>>, n: nat, tail: seq<Op<K, V>>) {
    forall k: K {:trigger Last(tail, k)} {:trigger LowestPart(part, n, k)} ::
      Last(tail, k).None? && LowestPart(part, n, k) > 0 && HighestPart(part, n, k) > 0 ==>
        Effect(Last(part(LowestPart(part, n, k)), k).value) == Effect(Last(part(HighestPart(part, n, k)), k).value)
  }

  /** Ascending and descending replay agree exactly for order-insensitive parts. */
  lemma ReorderIff<K(!new), V>(m: map<K, V>, part: nat -> seq<Op<K, V>>, n: nat, tail: seq<Op<K, V>>)
    ensures Apply(m, Ascending(part, n) + tail) == Apply(m, Descending(part, n) + tail) <==>
              OrderInsensitive(part, n, tail)
  {
    var up, down := Ascending(part, n) + tail, Descending(part, n) + tail;
    forall k: K
      ensures Last(up, k) == if Last(tail, k).Some? then Last(tail, k)
                             else if HighestPart(part, n, k) > 0 then Last(part(HighestPart(part, n, k)), k) else None
      ensures Last(down, k) == if Last(tail, k).Some? then Last(tail, k)
                               else if LowestPart(part, n, k) > 0 then Last(part(LowestPart(part, n, k)), k) else None
      ensures HighestPart(part, n, k) > 0 <==> LowestPart(part, n, k) > 0
    {
      LastInParts(part, n, k);
      LastConcat(Ascending(part, n), tail, k);
      LastConcat(Descending(part, n), tail, k);
    }
    InterchangeableIff(m, up, down);
    if OrderInsensitive(part, n, tail) {
      assert SameOutcomes(up, down);
    }
    if SameOutcomes(up, down) {
      forall k: K | Last(tail, k).None? && LowestPart(part, n, k) > 0 && HighestPart(part, n, k) > 0
        ensures Effect(Last(part(LowestPart(part, n, k)), k).value) ==
                  Effect(Last(part(HighestPart(part, n, k)), k).value)
      {
        assert Last(up, k).Some? && Last(down, k).Some?;
      }
    }
  }

  /** No key is mutated by two different parts. */
  ghost predicate DisjointParts<K(!new), V>(part: nat -> seq<Op<K, V>>, n: nat) {
    forall k: K, i: nat, j: nat {:trigger Last(part(i), k), Last(part(j), k)} ::
      1 <= i <= n && 1 <= j <= n && Last(part(i), k).Some? && Last(part(j), k).Some? ==> i == j
  }

  lemma DisjointPartsAreOrderInsensitive<K(!new), V>(part: nat -> seq<Op<K, V>>, n: nat, tail: seq<Op<K, V>>)
    requires DisjointParts(part, n)
    ensures OrderInsensitive(part, n, tail)
  {
    forall k: K | LowestPart(part, n, k) > 0 && HighestPart(part, n, k) > 0
      ensures LowestPart(part, n, k) == HighestPart(part, n, k)
    {
      assert Last(part(LowestPart(part, n, k)), k).Some? && Last(part(HighestPart(part, n, k)), k).Some?;
    }
  }
}

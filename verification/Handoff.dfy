/** Hinted handoff (internal/cluster/handoff/manager.go): deferred writes per unreachable node, replayed in
    reverse order and removed by index while new hints keep arriving. */
module Handoff {
  import opened Common
  import opened WalCodec
  import opened KvLog

  type Bytes = seq<Byte>
  type Write = Op<string, Bytes>

  const PUT := "put"
  const DELETE := "delete"

  datatype Hint = Hint(targetNode: string, operation: string, key: string, value: Bytes, timestamp: int)

  predicate Sendable(h: Hint) {
    h.operation == PUT || h.operation == DELETE
  }

  function ToWrite(h: Hint): Write {
    if h.operation == PUT then Put(h.key, h.value) else Delete(h.key)
  }

  /** The hints whose attempt did not succeed, in their stored order. */
  function Failed(hints: seq<Hint>, ok: seq<bool>): seq<Hint>
    requires |hints| == |ok|
  {
    if hints == [] then []
    else (if ok[0] then [] else [hints[0]]) + Failed(hints[1..], ok[1..])
  }

  /** Hints of an unknown operation are never sent, and count as successes. */
  ghost predicate OnlySendableFail(hints: seq<Hint>, ok: seq<bool>)
    requires |hints| == |ok|
  {
    forall i :: 0 <= i < |ok| && !ok[i] ==> Sendable(hints[i])
  }

  function Reverse<T>(s: seq<T>): seq<T> {
    if s == [] then [] else Reverse(s[1..]) + [s[0]]
  }

  class HintManager {
    var hints: map<string, seq<Hint>>
    ghost var sent: seq<Hint>  // every hint a replay has put on the wire, in order

    ghost predicate Valid()
      reads this
    {
      forall n :: n in hints ==> hints[n] != []
    }

    function Pending(node: string): seq<Hint>
      reads this
    {
      if node in hints then hints[node] else []
    }

    constructor ()
      ensures Valid() && hints == map[]
    {
      hints := map[];
      sent := [];
    }

    method StoreHint(targetNode: string, operation: string, key: string, value: Bytes, now: int)
      requires Valid()
      modifies `hints
      ensures Valid()
      ensures Pending(targetNode) == old(Pending(targetNode)) + [Hint(targetNode, operation, key, value, now)]
      ensures forall n :: n != targetNode ==> Pending(n) == old(Pending(n))
    {
      hints := hints[targetNode := Pending(targetNode) + [Hint(targetNode, operation, key, value, now)]];
    }

    /** Removes by index; an index out of range is ignored. */
    method RemoveHint(node: string, index: int)
      requires Valid()
      modifies `hints
      ensures Valid()
      ensures Pending(node) == if 0 <= index < |old(Pending(node))|
                               then old(Pending(node))[..index] + old(Pending(node))[index + 1..]
                                   else old(Pending(node))
      ensures forall n :: n != node ==> Pending(n) == old(Pending(n))
    {
      var current := Pending(node);
      if index < 0 || index >= |current| {
        return;
      }
      var rest := current[..index] + current[index + 1..];
      hints := hints[node := rest];
      if |rest| == 0 {
        hints := hints - {node};
      }
    }

    /** What other requests may do meanwhile: add hints for this node, and anything to the hints of others. */
    method OthersRun(node: string) returns (ghost added: seq<Hint>)
      requires Valid()
      modifies `hints
      ensures Valid()
      ensures Pending(node) == old(Pending(node)) + added
    {
      var more: seq<Hint> := *;
      var others: map<string, seq<Hint>> := *;
      var mine := Pending(node) + more;
      hints := (map n | n in others && n != node && others[n] != [] :: others[n]);
      if mine != [] {
        hints := hints[node := mine];
      }
      added := more;
    }

    /** The RPC that sends one hint, of which only the error is looked at. */
    method Send(h: Hint) returns (ok: bool)
      modifies `sent
      ensures sent == old(sent) + [h]
    {
      ok := *;
      sent := sent + [h];
    }

    /** One round of the replay loop: the hint at an index is sent if its operation is known, and removed by its
        index if that succeeds, whatever was stored meanwhile. */
    method AttemptHint(node: string, i: nat, snapshot: seq<Hint>, ghost kept: seq<Hint>, ghost added: seq<Hint>)
      returns (success: bool, ghost meanwhile: seq<Hint>)
      requires Valid() && i < |snapshot|
      requires Pending(node) == snapshot[..i + 1] + (kept + added)
      modifies this
      ensures Valid()
      ensures Pending(node) == snapshot[..i] + ((if success then [] else [snapshot[i]]) + kept + (added + meanwhile))
      ensures success || Sendable(snapshot[i])
      ensures sent == old(sent) + (if Sendable(snapshot[i]) then [snapshot[i]] else [])
      ensures snapshot[i].operation == "put" || snapshot[i].operation == "delete" ==> sent == old(sent) + [snapshot[i]]
    {
      var h := snapshot[i];
      meanwhile := OthersRun(node);
      OneHintDown(snapshot, i, kept, added, meanwhile);
      success := true;
      if Sendable(h) {
        success := Send(h);
      }
      if success {
        RemoveHint(node, i);
        assert [] + kept == kept;
      }
    }

    /** ReplayHints attempts every hint of its snapshot once, last one first, while others keep storing hints.
        What remains is exactly the failed ones in their stored order, then everything added meanwhile. */
    method ReplayHints(node: string) returns (ghost ok: seq<bool>, ghost added: seq<Hint>)
      requires Valid()
      modifies this
      ensures Valid()
      ensures |ok| == |old(Pending(node))|
      ensures Pending(node) == Failed(old(Pending(node)), ok) + added
      ensures sent == old(sent) + Filter(Reverse(old(Pending(node))), h => Sendable(h))
      ensures OnlySendableFail(old(Pending(node)), ok)
    {
      hide Failed;
      hide Filter;
      hide Reverse;
      hide Sendable;
      var snapshot := Pending(node);
      NothingAttempted(snapshot);
      ok, added := [], [];
      var i := |snapshot|;
      assert snapshot[i..] == [] && snapshot[..i] == snapshot;
      while i > 0
        invariant 0 <= i <= |snapshot| && Valid()
        invariant |ok| == |snapshot| - i
        invariant Pending(node) == snapshot[..i] + (Failed(snapshot[i..], ok) + added)
        invariant sent == old(sent) + Filter(Reverse(snapshot[i..]), h => Sendable(h))
        invariant OnlySendableFail(snapshot[i..], ok)
      {
        i := i - 1;
        assert snapshot[i..] == [snapshot[i]] + snapshot[i + 1..];
        SendableSnoc(Reverse(snapshot[i + 1..]), snapshot[i]);
        ReverseCons(snapshot[i], snapshot[i + 1..]);
        var success, meanwhile := AttemptHint(node, i, snapshot, Failed(snapshot[i + 1..], ok), added);
        FailedCons(snapshot[i], snapshot[i + 1..], success, ok);
        FailuresSendable(snapshot, i, success, ok);
        ok := [success] + ok;
        added := added + meanwhile;
      }
      assert snapshot[0..] == snapshot;
    }
  }

  lemma NothingAttempted(snapshot: seq<Hint>)
    ensures snapshot[|snapshot|..] == [] && Reverse<Hint>([]) == []
    ensures Failed([], []) == [] && Filter([], h => Sendable(h)) == []
  {
  }

  lemma OneHintDown(snapshot: seq<Hint>, i: nat, kept: seq<Hint>, added: seq<Hint>, meanwhile: seq<Hint>)
    requires i < |snapshot|
    ensures snapshot[i..] == [snapshot[i]] + snapshot[i + 1..]
    ensures var pending := snapshot[..i + 1] + (kept + added) + meanwhile;
            && pending == snapshot[..i] + (([snapshot[i]] + kept) + (added + meanwhile))
            && i < |pending|
            && pending[..i] + pending[i + 1..] == snapshot[..i] + (kept + (added + meanwhile))
  {
  }

  lemma FailedCons(h: Hint, hints: seq<Hint>, success: bool, ok: seq<bool>)
    requires |hints| == |ok|
    ensures Failed([h] + hints, [success] + ok) == (if success then [] else [h]) + Failed(hints, ok)
  {
    assert ([h] + hints)[1..] == hints && ([success] + ok)[1..] == ok;
  }

  lemma FailuresSendable(snapshot: seq<Hint>, i: nat, success: bool, ok: seq<bool>)
    requires i < |snapshot| && |ok| == |snapshot| - i - 1
    requires OnlySendableFail(snapshot[i + 1..], ok) && (success || Sendable(snapshot[i]))
    ensures OnlySendableFail(snapshot[i..], [success] + ok)
  {
    forall j | 0 < j <= |ok| && !ok[j - 1]
      ensures Sendable(snapshot[i..][j])
    {
      assert snapshot[i..][j] == snapshot[i + 1..][j - 1];
    }
  }

  lemma ReverseCons<T>(x: T, s: seq<T>)
    ensures Reverse([x] + s) == Reverse(s) + [x]
  {
    assert ([x] + s)[1..] == s;
  }

  lemma SendableSnoc(hints: seq<Hint>, h: Hint)
    ensures Filter(hints + [h], x => Sendable(x)) == Filter(hints, x => Sendable(x)) + (if Sendable(h) then [h] else [])
  {
    FilterConcat(hints, [h], x => Sendable(x));
    assert [h][1..] == [];
  }

  // ---- the reverse order ------------------------------------------------------------------

  /** The oldest write of a key. */
  function First(writes: seq<Write>, k: string): Option<Write> {
    if writes == [] then None else if writes[0].key == k then Some(writes[0]) else First(writes[1..], k)
  }

  lemma {:induction false} LastOfReverse(writes: seq<Write>, k: string)
    ensures Last(Reverse(writes), k) == First(writes, k)
  {
    if writes != [] {
      LastOfReverse(writes[1..], k);
      var r := Reverse(writes[1..]);
      assert (r + [writes[0]])[..|r|] == r;
    }
  }

  lemma {:induction false} FirstIffLast(writes: seq<Write>, k: string)
    ensures First(writes, k).Some? <==> Last(writes, k).Some?
  {
    if writes != [] {
      FirstIffLast(writes[1..], k);
      LastConcat([writes[0]], writes[1..], k);
      assert writes == [writes[0]] + writes[1..];
      assert [writes[0]][..0] == [];
    }
  }

  /** The oldest and the newest write of every key leave the same thing. */
  ghost predicate FirstsMatchLasts(writes: seq<Write>) {
    forall k {:trigger First(writes, k)} ::
      First(writes, k).Some? && Last(writes, k).Some? ==>
          Effect(First(writes, k).value) == Effect(Last(writes, k).value)
  }

  /** Sending in reverse leaves a replica as sending in stored order would, exactly when the oldest and the
      newest pending write of each key leave the same thing. */
  lemma ReverseReplayIff(contents: map<string, Bytes>, writes: seq<Write>)
    ensures Apply(contents, Reverse(writes)) == Apply(contents, writes) <==> FirstsMatchLasts(writes)
  {
    forall k
      ensures Last(Reverse(writes), k) == First(writes, k) && (First(writes, k).Some? <==> Last(writes, k).Some?)
    {
      LastOfReverse(writes, k);
      FirstIffLast(writes, k);
    }
    InterchangeableIff(contents, Reverse(writes), writes);
    if SameOutcomes(Reverse(writes), writes) {
      forall k | First(writes, k).Some? && Last(writes, k).Some?
        ensures Effect(First(writes, k).value) == Effect(Last(writes, k).value)
      {
        assert Last(Reverse(writes), k).Some?;
      }
    }
  }

  /** Two puts of one key: the replay leaves the older value. */
  lemma OlderValueSurvivesReplay(contents: map<string, Bytes>, key: string, older: Bytes, newer: Bytes)
    ensures Apply(contents, Reverse([Put(key, older), Put(key, newer)])) == contents[key := older]
    ensures Apply(contents, [Put(key, older), Put(key, newer)]) == contents[key := newer]
  {
    var first, second := Put(key, older), Put(key, newer);
    assert [first, second][1..] == [second] && [second][1..] == [];
    assert Reverse([second]) == [second];
    assert Reverse([first, second]) == [second, first];
    ApplyTwo(contents, second, first);
    ApplyTwo(contents, first, second);
  }

  lemma ApplyTwo(contents: map<string, Bytes>, a: Write, b: Write)
    ensures Apply(contents, [a, b]) == ApplyOne(ApplyOne(contents, a), b)
  {
    assert [a, b][..1] == [a] && [a][..0] == [];
    assert Apply(contents, [a]) == ApplyOne(contents, a);
  }

  /** In particular with at most one pending write per key. */
  lemma {:induction false} SingleWritesMatch(writes: seq<Write>, k: string)
    requires forall i, j :: 0 <= i < j < |writes| ==> writes[i].key != writes[j].key
    ensures First(writes, k) == Last(writes, k)
  {
    if writes != [] {
      SingleWritesMatch(writes[1..], k);
      LastConcat([writes[0]], writes[1..], k);
      assert writes == [writes[0]] + writes[1..];
      assert [writes[0]][..0] == [];
      if writes[0].key == k {
        NotAmong(writes[1..], k);
      }
    }
  }

  lemma {:induction false} NotAmong(writes: seq<Write>, k: string)
    requires forall w :: w in writes ==> w.key != k
    ensures Last(writes, k) == None
  {
    if writes != [] {
      assert writes[|writes| - 1] in writes;
      NotAmong(writes[..|writes| - 1], k);
    }
  }

  lemma OneHintPerKeyIsOrderFree(contents: map<string, Bytes>, writes: seq<Write>)
    requires forall i, j :: 0 <= i < j < |writes| ==> writes[i].key != writes[j].key
    ensures Apply(contents, Reverse(writes)) == Apply(contents, writes)
  {
    forall k
      ensures First(writes, k) == Last(writes, k)
    {
      SingleWritesMatch(writes, k);
    }
    ReverseReplayIff(contents, writes);
  }
}

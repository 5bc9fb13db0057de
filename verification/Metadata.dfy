/** Versions and times of records, in a session and after replay (internal/storage/memory/engine.go,
    internal/storage/memory/replay.go). */
module Metadata {
  import opened Common
  import opened WalCodec
  import opened Storage
  import opened EngineSpec

  /** The mutations of a log, made one after the other by callers that give no version. */
  function MutateAll(store: Store, log: seq<WalRecord>): Store {
    if log == [] then store else MutatedStore(MutateAll(store, log[..|log| - 1]), log[|log| - 1], 0)
  }

  function Of(log: seq<WalRecord>, k: Key): seq<WalRecord> {
    if log == [] then []
    else if log[|log| - 1].key == k then Of(log[..|log| - 1], k) + [log[|log| - 1]]
    else Of(log[..|log| - 1], k)
  }

  /** Each mutation of a key, deletes included, counts its version up by one, modulo 2^64; the key keeps the time of its
      first mutation and shows the time and value of its last. */
  lemma {:induction false} VersionsCount(store: Store, log: seq<WalRecord>, k: Key)
    requires forall i :: 0 <= i < |log| ==> ValidOperation(log[i].op)
    ensures Of(log, k) == [] ==> Lookup(MutateAll(store, log), k) == Lookup(store, k)
    ensures Of(log, k) != [] ==>
              var last := Of(log, k)[|Of(log, k)| - 1];
              && k in MutateAll(store, log)
              && var record := MutateAll(store, log)[k];
              && record.version == ((if k in store then store[k].version
                  else 0) + |Of(log, k)|) % 0x1_0000_0000_0000_0000
              && record.createdAt == (if k in store then store[k].createdAt else Of(log, k)[0].timestamp)
              && record.updatedAt == last.timestamp
              && record.deleteMarker == (last.op == 2)
              && record.value == (if last.op == 1 then last.value else [])
    decreases |log|
  {
    if log != [] {
      var before := log[..|log| - 1];
      VersionsCount(store, before, k);
      OneMutation(MutateAll(store, before), log[|log| - 1]);
      hide MutatedStore;
      if log[|log| - 1].key == k {
        OneVersionMore((if k in store then store[k].version else 0) + |Of(before, k)|);
      }
    }
  }

  lemma OneMutation(store: Store, r: WalRecord)
    requires ValidOperation(r.op)
    ensures var after := MutatedStore(store, r, 0);
            && (forall k :: k != r.key ==> Lookup(after, k) == Lookup(store, k))
            && r.key in after
            && after[r.key].version == ((if r.key in store then store[r.key].version
                else 0) + 1) % 0x1_0000_0000_0000_0000
            && after[r.key].createdAt == (if r.key in store then store[r.key].createdAt else r.timestamp)
            && after[r.key].updatedAt == r.timestamp
            && after[r.key].deleteMarker == (r.op == 2)
            && after[r.key].value == (if r.op == 1 then r.value else [])
  {
  }

  lemma OneVersionMore(n: nat)
    ensures (n % 0x1_0000_0000_0000_0000 + 1) % 0x1_0000_0000_0000_0000 == (n + 1) % 0x1_0000_0000_0000_0000
  {
    var m := 0x1_0000_0000_0000_0000;
    var q, u := n / m, n % m;
    assert n == m * q + u;
    if u + 1 == m {
      assert n + 1 == m * (q + 1);
    }
  }

  /** A version that the caller gives is stored as it is, and the creation time is still that of the first mutation. */
  lemma GivenVersionsAreKept(store: Store, r: WalRecord, version: nat)
    requires r.op == 1 && version != 0
    ensures MutatedStore(store, r, version)[r.key] ==
            Record(r.value, version, if r.key in store then store[r.key].createdAt else r.timestamp, r.timestamp, false)
  {
  }

  // ---- after replay ----------------------------------------------------------------------

  /** Replay folds just the kept records. */
  lemma {:induction false} ReplayOfKept(store: Store, log: seq<WalRecord>, since: Option<int>)
    ensures Replay(store, log, since) == Replay(store, KeptOnly(log, since), None)
    decreases |log|
  {
    if log != [] {
      var next := if Kept(log[0], since) then ReplayRecord(store, log[0]) else store;
      ReplayOfKept(next, log[1..], since);
      var kept, rest := KeptOnly(log, since), KeptOnly(log[1..], since);
      if Kept(log[0], since) {
        assert kept == [log[0]] + rest;
        assert kept[1..] == rest;
        assert Kept(log[0], None);
      } else {
        assert kept == rest;
      }
    }
  }

  lemma ReplaySnoc(store: Store, log: seq<WalRecord>)
    requires log != []
    ensures Replay(store, log, None) == ReplayRecord(Replay(store, log[..|log| - 1], None), log[|log| - 1])
  {
    var n := |log| - 1;
    assert log == log[..n] + [log[n]];
    ReplayConcat(store, log[..n], [log[n]], None);
    assert [log[n]][1..] == [];
  }

  /** A replayed key that was only put shows version 0, the time of its first put and the time and value of its last. */
  lemma {:induction false} ReplayedMetadata(store: Store, log: seq<WalRecord>, k: Key)
    requires forall i :: 0 <= i < |log| && log[i].key == k ==> log[i].op == 1
    ensures Of(log, k) == [] ==> Lookup(Replay(store, log, None), k) == Lookup(store, k)
    ensures Of(log, k) != [] ==>
              var last := Of(log, k)[|Of(log, k)| - 1];
              Lookup(Replay(store, log, None), k) ==
              Some(Record(last.value, 0, if k in store then store[k].createdAt else Of(log, k)[0].timestamp,
                          last.timestamp, false))
    decreases |log|
  {
    if log != [] {
      ReplaySnoc(store, log);
      ReplayedMetadata(store, log[..|log| - 1], k);
    }
  }

  /** A replayed delete leaves no tombstone, so a later put counts as the first. */
  lemma ReplayedDeleteIsGone(store: Store, log: seq<WalRecord>)
    requires log != [] && log[|log| - 1].op == 2
    ensures log[|log| - 1].key !in Replay(store, log, None)
  {
    ReplaySnoc(store, log);
  }
}

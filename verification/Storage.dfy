/** Stored records, the view that readers get of them, and how replaying a log record
    changes them (internal/storage/types.go, internal/storage/memory/replay.go). */
module Storage {
  import opened Common
  import opened WalCodec
  import KvLog

  type Key = seq<Byte>
  type Value = seq<Byte>

  /** The fields of storage.Record and its Metadata that the engine reads or writes. */
  datatype Record = Record(value: Value, version: nat, createdAt: int, updatedAt: int, deleteMarker: bool)

  type Store = map<Key, Record>

  /** What Get and Scan can see: tombstones are hidden. */
  type View = map<Key, Value>

  function Live(store: Store): View {
    map k | k in store && !store[k].deleteMarker :: store[k].value
  }

  /** The mutation that a valid log record describes. */
  function Mutation(r: WalRecord): KvLog.Op<Key, Value> {
    if r.op == OPERATION_PUT then KvLog.Put(r.key, r.value) else KvLog.Delete(r.key)
  }

  function Mutations(log: seq<WalRecord>): (ops: seq<KvLog.Op<Key, Value>>)
    ensures |ops| == |log|
  {
    if log == [] then [] else [Mutation(log[0])] + Mutations(log[1..])
  }

  lemma {:induction false} MutationsConcat(a: seq<WalRecord>, b: seq<WalRecord>)
    ensures Mutations(a + b) == Mutations(a) + Mutations(b)
  {
    if a == [] {
      assert a + b == b;
    } else {
      assert (a + b)[1..] == a[1..] + b;
      MutationsConcat(a[1..], b);
    }
  }

  /** Replay skips what the checkpoint is already known to hold. Without a checkpoint nothing is skipped. */
  predicate Kept(r: WalRecord, since: Option<int>) {
    since.None? || r.timestamp >= since.value
  }

  function KeptOnly(log: seq<WalRecord>, since: Option<int>): seq<WalRecord> {
    Filter(log, r => Kept(r, since))
  }

  lemma KeptConcat(a: seq<WalRecord>, b: seq<WalRecord>, since: Option<int>)
    ensures KeptOnly(a + b, since) == KeptOnly(a, since) + KeptOnly(b, since)
  {
    FilterConcat(a, b, r => Kept(r, since));
  }

  function ReplayRecord(store: Store, r: WalRecord): Store {
    if r.op == OPERATION_PUT then
      var createdAt := if r.key in store then store[r.key].createdAt else r.timestamp;
      store[r.key := Record(r.value, 0, createdAt, r.timestamp, false)]
    else
      store - {r.key}
  }

  /** The fold that replay performs: skip the records before the checkpoint, apply the others in order. */
  function Replay(store: Store, log: seq<WalRecord>, since: Option<int>): Store
    decreases |log|
  {
    if log == [] then store
    else Replay(if Kept(log[0], since) then ReplayRecord(store, log[0]) else store, log[1..], since)
  }

  lemma {:induction false} ReplayConcat(store: Store, a: seq<WalRecord>, b: seq<WalRecord>, since: Option<int>)
    ensures Replay(store, a + b, since) == Replay(Replay(store, a, since), b, since)
    decreases |a|
  {
    if a == [] {
      assert a + b == b;
    } else {
      assert (a + b)[1..] == a[1..] + b;
      ReplayConcat(if Kept(a[0], since) then ReplayRecord(store, a[0]) else store, a[1..], b, since);
    }
  }

  lemma LiveAfterReplayRecord(store: Store, r: WalRecord)
    ensures Live(ReplayRecord(store, r)) == KvLog.ApplyOne(Live(store), Mutation(r))
  {
  }

  /** Seen through the live view, replay is the plain application of the kept mutations:
      versions, creation times and tombstones do not influence it. */
  lemma {:induction false} LiveAfterReplay(store: Store, log: seq<WalRecord>, since: Option<int>)
    ensures Live(Replay(store, log, since)) == KvLog.Apply(Live(store), Mutations(KeptOnly(log, since)))
    decreases |log|
  {
    var kept := KeptOnly(log, since);
    if log != [] {
      var rest := KeptOnly(log[1..], since);
      if Kept(log[0], since) {
        var m := Mutation(log[0]);
        LiveAfterReplayRecord(store, log[0]);
        LiveAfterReplay(ReplayRecord(store, log[0]), log[1..], since);
        assert kept == [log[0]] + rest;
        MutationsConcat([log[0]], rest);
        assert Mutations([log[0]]) == [m];
        KvLog.ApplyConcat(Live(store), [m], Mutations(rest));
        assert [m][..0] == [];
        assert KvLog.Apply(Live(store), [m]) == KvLog.ApplyOne(Live(store), m);
      } else {
        LiveAfterReplay(store, log[1..], since);
        assert kept == rest;
      }
    }
  }

  // ---- the engine's own mutations of its map ---------------------------------

  /** Put keeps CreatedAt and, when the caller gives no version, counts it up (uint64 wrap-around included). */
  function PutRecord(store: Store, k: Key, value: Value, version: nat, now: int): Record {
    if k in store then
      Record(value, if version == 0 then (store[k].version + 1) % TWO_64 else version, store[k].createdAt, now, false)
    else
      Record(value, if version == 0 then 1 else version, now, now, false)
  }

  /** Delete leaves a tombstone with an advanced version. */
  function Tombstone(store: Store, k: Key, now: int): Record {
    if k in store then Record([], (store[k].version + 1) % TWO_64, store[k].createdAt, now, true)
    else Record([], 1, now, now, true)
  }
}

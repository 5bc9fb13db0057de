/** The durable engine object (internal/storage/memory/engine.go). */
module Engine {
  import opened Common
  import opened WalCodec
  import opened WalReader
  import opened WalWriter
  import opened Storage
  import opened DiskModel
  import opened Rotation
  import opened EngineSpec

  /** replay: reads one log file to its end and folds its records into the store. */
  method ReplayInto(c: Codec, bytes: seq<Byte>, store: Store, since: Option<int>)
    returns (result: Result<Store, WalError>)
    ensures result == ReplayFile(c, store, bytes, since)
  {
    var source := new Source(bytes);
    var reader := new Reader(c, source);
    var current := store;
    ghost var target := ReadAll(c, bytes);
    while true
      invariant fresh(reader) && fresh(source) && reader.source == source && reader.codec == c
      invariant !reader.closed && !reader.finished && reader.err == None
      invariant target.failure == ReadAll(c, source.unread).failure
      invariant Replay(store, target.records, since) == Replay(current, ReadAll(c, source.unread).records, since)
      decreases |source.unread|
    {
      ghost var before := source.unread;
      var more := reader.Next();
      if !more {
        break;
      }
      var record := reader.record;
      ReplayStep(current, record, ReadAll(c, source.unread).records, since);
      if !(since.None? || record.timestamp > since.value) && record.timestamp != since.value {
        continue;
      }
      if record.op == OPERATION_PUT {
        var createdAt := record.timestamp;
        if record.key in current {
          createdAt := current[record.key].createdAt;
        }
        current := current[record.key := Record(record.value, 0, createdAt, record.timestamp, false)];
      } else {
        current := current - {record.key};
      }
    }
    if reader.err.Some? {
      return Err(reader.err.value);
    }
    return Ok(current);
  }

  lemma ReplayStep(store: Store, r: WalRecord, rest: seq<WalRecord>, since: Option<int>)
    ensures Replay(store, [r] + rest, since) ==
            Replay(if Kept(r, since) then ReplayRecord(store, r) else store, rest, since)
  {
    assert ([r] + rest)[1..] == rest;
  }

  class Engine {
    const codec: Codec
    const cfg: Config
    const disk: Disk
    var store: Store
    var wal: Writer?
    var open: bool
    var checkpointCount: nat

    ghost predicate Valid()
      reads this, disk, wal
    {
      && (open ==> (wal != null <==> cfg.walEnabled))
      && (!open ==> wal == null)
      && (wal != null ==> !wal.closed && wal.disk == disk && wal.codec == codec && disk.state.active.Some?)
    }

    ghost function Footprint(): set<object>
      reads this
    {
      {this, disk} + (if wal == null then {} else {wal})
    }

    constructor (codec: Codec, cfg: Config, disk: Disk)
      ensures Valid() && !open && store == map[] && wal == null
      ensures this.codec == codec && this.cfg == cfg && this.disk == disk
    {
      this.codec, this.cfg, this.disk := codec, cfg, disk;
      store, wal, open, checkpointCount := map[], null, false, 0;
    }

    /** Rebuilds the map from the checkpoint and the logs. A log that does not read cleanly keeps the engine closed. */
    method Open() returns (result: Result<(), EngineError>)
      requires Valid()
      modifies this, disk
      ensures Valid() && fresh(Footprint() - old(Footprint()))
      ensures old(open) || !cfg.walEnabled ==>
                result == Ok(()) && open && store == old(store) && disk.state == old(disk.state) &&
                    disk.history == old(disk.history)
      ensures !old(open) && cfg.walEnabled && cfg.walPath == "" ==>
                result == Err(EmptyPath) && !open && store == old(store) && disk.state == old(disk.state) &&
                    disk.history == old(disk.history)
      ensures !old(open) && Durable(cfg) ==>
                && disk.state == WithActive(old(disk.state), ActiveBytes(old(disk.state)))
                && disk.history == old(disk.history) + [disk.state]
                && match Recover(codec, cfg, old(disk.state))
                   case Ok(s) => result == Ok(()) && open && store == s
                   case Err(e) => result == Err(Log(e)) && !open && store == old(store)
    {
      if open {
        return Ok(());
      }
      if cfg.walEnabled {
        if cfg.walPath == "" {
          return Err(EmptyPath);
        }
        ghost var d := disk.state;
        disk.CreateActive();
        assert ActiveBytes(disk.state) == ActiveBytes(d);
        var recovered := ReplayState();
        assert recovered == Recover(codec, cfg, d) by {
          SegmentsUnaffected(codec, d, disk.state, BaseStore(d), SegmentLimit(cfg), Since(d));
        }
        if recovered.Err? {
          return Err(Log(recovered.error));
        }
        store := recovered.value;
        wal := new Writer(codec, disk);
      }
      open := true;
      return Ok(());
    }

    /** replayStateLocked: the segments in the order of their numbers, then the active log. */
    method ReplayState() returns (result: Result<Store, WalError>)
      ensures result == Recover(codec, cfg, disk.state)
    {
      var d := disk.state;
      var current, since := BaseStore(d), Since(d);
      var n := SegmentLimit(cfg);
      for index := 0 to n
        invariant ReplaySegments(codec, d, BaseStore(d), index, since) == Ok(current)
      {
        if index + 1 in d.segments {
          var replayed := ReplayInto(codec, d.segments[index + 1], current, since);
          if replayed.Err? {
            SegmentErrorStops(codec, d, BaseStore(d), index + 1, n, since);
            return Err(replayed.error);
          }
          current := replayed.value;
        }
      }
      result := ReplayInto(codec, ActiveBytes(d), current, since);
    }

    method Get(key: Key) returns (result: Result<Record, EngineError>)
      requires Valid()
      ensures key == [] ==> result == Err(InvalidKey)
      ensures key != [] && !open ==> result == Err(EngineClosed)
      ensures key != [] && open && key !in Live(store) ==> result == Err(KeyNotFound)
      ensures key != [] && open && key in Live(store) ==>
                result == Ok(store[key]) && result.value.value == Live(store)[key]
    {
      if key == [] {
        return Err(InvalidKey);
      }
      if !open {
        return Err(EngineClosed);
      }
      if key !in store || store[key].deleteMarker {
        return Err(KeyNotFound);
      }
      return Ok(store[key]);
    }

    /** What a mutation has done: on success exactly the steps of the specification; a record that cannot
        be logged leaves the map alone, whether the encoder refused it or a write failed part way. */
    ghost predicate Mutated(before: DiskState, oldStore: Store, r: WalRecord, version: nat, cpNow: int,
                            result: Result<(), EngineError>, cuts: seq<nat>, steps: seq<DiskState>)
      reads this, disk
    {
      && disk.state == After(before, steps)
      && match result
         case Ok(_) =>
           && Completes(codec, r, cuts)
           && store == MutatedStore(oldStore, r, version)
           && steps == MutateSteps(codec, cfg, before, oldStore, r, version, cpNow, cuts)
         case Err(e) =>
           && store == oldStore
           && if !Encodable(r) then e == Log(CorruptedRecord) && steps == RotationSteps(cfg, before)
              else
                && e in {Log(WriteFailed), Log(ShortWrite)}
                && Progress(cuts, |codec.Frame(r)|, false)
                && steps == RotationSteps(cfg, before) + AppendSteps(Rotated(cfg, before), codec.Frame(r), cuts)
    }

    method Put(key: Key, value: Option<Value>, version: nat, now: int, cpNow: int)
      returns (result: Result<(), EngineError>, ghost cuts: seq<nat>, ghost steps: seq<DiskState>)
      requires Valid()
      modifies Footprint()
      ensures Valid() && open == old(open) && fresh(Footprint() - old(Footprint()))
      ensures disk.history == old(disk.history) + steps
      ensures key == [] ==> result == Err(InvalidKey)
      ensures key != [] && value.None? ==> result == Err(NilValue)
      ensures key != [] && value.Some? && !open ==> result == Err(EngineClosed)
      ensures key == [] || value.None? || !open ==> store == old(store) && steps == [] && disk.state == old(disk.state)
      ensures key != [] && value.Some? && open && !cfg.walEnabled ==>
                && result == Ok(()) && steps == [] && disk.state == old(disk.state)
                && store == old(store)[key := PutRecord(old(store), key, value.value, version, now)]
      ensures key != [] && value.Some? && open && cfg.walEnabled ==>
                Mutated(old(disk.state), old(store), WalRecord(OPERATION_PUT, now, key, value.value), version, cpNow,
                        result, cuts, steps)
    {
      hide RotationSteps;
      hide AppendSteps;
      hide CheckpointSteps;
      hide Progress;
      cuts, steps := [], [];
      if key == [] {
        return Err(InvalidKey), cuts, steps;
      }
      if value.None? {
        return Err(NilValue), cuts, steps;
      }
      if !open {
        return Err(EngineClosed), cuts, steps;
      }
      var createdAt, v := now, version;
      if key in store {
        createdAt := store[key].createdAt;
        if v == 0 {
          v := (store[key].version + 1) % TWO_64;
        }
      } else if v == 0 {
        v := 1;
      }
      result, cuts, steps := AppendWal(OPERATION_PUT, key, value.value, now);
      if result.Err? {
        return;
      }
      store := store[key := Record(value.value, v, createdAt, now, false)];
      ghost var checkpoint := MaybeCheckpoint(false, cpNow);
      AfterConcat(old(disk.state), steps, checkpoint);
      steps := steps + checkpoint;
      return Ok(()), cuts, steps;
    }

    method Delete(key: Key, now: int, cpNow: int)
      returns (result: Result<(), EngineError>, ghost cuts: seq<nat>, ghost steps: seq<DiskState>)
      requires Valid()
      modifies Footprint()
      ensures Valid() && open == old(open) && fresh(Footprint() - old(Footprint()))
      ensures disk.history == old(disk.history) + steps
      ensures key == [] ==> result == Err(InvalidKey)
      ensures key != [] && !open ==> result == Err(EngineClosed)
      ensures key == [] || !open ==> store == old(store) && steps == [] && disk.state == old(disk.state)
      ensures key != [] && open && !cfg.walEnabled ==>
                && result == Ok(()) && steps == [] && disk.state == old(disk.state)
                && store == old(store)[key := Tombstone(old(store), key, now)]
      ensures key != [] && open && cfg.walEnabled ==>
                Mutated(old(disk.state), old(store), WalRecord(OPERATION_DELETE, now, key, []), 0, cpNow,
                        result, cuts, steps)
    {
      hide RotationSteps;
      hide AppendSteps;
      hide CheckpointSteps;
      hide Progress;
      cuts, steps := [], [];
      if key == [] {
        return Err(InvalidKey), cuts, steps;
      }
      if !open {
        return Err(EngineClosed), cuts, steps;
      }
      result, cuts, steps := AppendWal(OPERATION_DELETE, key, [], now);
      if result.Err? {
        return;
      }
      if key in store {
        store := store[key := Record([], (store[key].version + 1) % TWO_64, store[key].createdAt, now, true)];
      } else {
        store := store[key := Record([], 1, now, now, true)];
      }
      ghost var checkpoint := MaybeCheckpoint(false, cpNow);
      AfterConcat(old(disk.state), steps, checkpoint);
      steps := steps + checkpoint;
      return Ok(()), cuts, steps;
    }

    /** appendWALLocked: the mutation is logged before the map changes. */
    method AppendWal(op: Byte, key: Key, value: Value, now: int)
      returns (result: Result<(), EngineError>, ghost cuts: seq<nat>, ghost steps: seq<DiskState>)
      requires Valid() && open
      modifies Footprint()
      ensures Valid() && open && store == old(store) && fresh(Footprint() - old(Footprint()))
      ensures disk.history == old(disk.history) + steps
      ensures !cfg.walEnabled ==> result == Ok(()) && steps == [] && disk.state == old(disk.state)
      ensures cfg.walEnabled ==>
                var r := WalRecord(op, now, key, value);
                var rotation := RotationSteps(cfg, old(disk.state));
                && disk.state == After(old(disk.state), steps)
                && if !Encodable(r) then result == Err(Log(CorruptedRecord)) && steps == rotation
                   else
                     && Progress(cuts, |codec.Frame(r)|, result.Ok?)
                     && (result.Err? ==> result.error in {Log(WriteFailed), Log(ShortWrite)})
                     && steps == rotation + AppendSteps(Rotated(cfg, old(disk.state)), codec.Frame(r), cuts)
                     && (result.Ok? ==> disk.state == Logged(codec, cfg, old(disk.state), r))
    {
      hide RotateSteps;
      hide AppendSteps;
      cuts, steps := [], [];
      if wal == null {
        return Ok(()), cuts, steps;
      }
      steps := RotateIfNeeded();
      var r := WalRecord(op, now, key, value);
      ghost var before := disk.history;
      var appended;
      appended, cuts := wal.Append(r);
      AfterConcat(old(disk.state), steps, disk.history[|before|..]);
      steps := steps + disk.history[|before|..];
      if appended.Err? {
        return Err(Log(appended.error)), cuts, steps;
      }
      CompletedAppend(codec, cfg, old(disk.state), r, cuts);
      return Ok(()), cuts, steps;
    }

    method RotateIfNeeded() returns (ghost steps: seq<DiskState>)
      requires Valid() && wal != null && open
      modifies Footprint()
      ensures Valid() && open && wal != null && store == old(store) && fresh(Footprint() - old(Footprint()))
      ensures steps == RotationSteps(cfg, old(disk.state))
      ensures disk.history == old(disk.history) + steps
      ensures disk.state == After(old(disk.state), steps)
    {
      if cfg.maxSegmentSize <= 0 || cfg.maxSegments <= 0 {
        return [];
      }
      var size := WalSize(cfg, disk.state);
      if size < cfg.maxSegmentSize {
        return [];
      }
      wal.Close();
      wal := null;
      RotateFiles();
      disk.TruncateActive();
      wal := new Writer(codec, disk);
      return RotateSteps(old(disk.state), SegmentLimit(cfg));
    }

    /** rotateWALFilesLocked: each present segment replaces the one above it, highest first, then the
        active log becomes segment 1. */
    method RotateFiles()
      requires cfg.maxSegments > 0
      modifies disk
      ensures var shift := ShiftSteps(old(disk.state), SegmentLimit(cfg));
              var active := ActiveSteps(After(old(disk.state), shift));
              && disk.history == old(disk.history) + shift + active
              && disk.state == After(After(old(disk.state), shift), active)
    {
      ghost var d := disk.state;
      var index: nat := cfg.maxSegments;
      ghost var steps: seq<DiskState> := [];
      while index >= 2
        invariant index <= SegmentLimit(cfg)
        invariant disk.history == old(disk.history) + steps
        invariant disk.state == After(d, steps)
        invariant steps + ShiftSteps(disk.state, index) == ShiftSteps(d, SegmentLimit(cfg))
      {
        if index - 1 in disk.state.segments {
          ghost var before := disk.state;
          disk.RemoveSegment(index);
          ghost var removed := disk.state;
          disk.RenameSegment(index - 1, index);
          assert steps + ([removed, disk.state] + ShiftSteps(disk.state, index - 1))
              == steps + [removed, disk.state] + ShiftSteps(disk.state, index - 1);
          steps := steps + [removed, disk.state];
        }
        index := index - 1;
      }
      if disk.state.active.Some? {
        disk.RemoveSegment(1);
        disk.RenameActive(1);
      }
    }

    /** maybeCheckpointLocked, which the maintenance ticker calls with force. */
    method MaybeCheckpoint(force: bool, now: int) returns (ghost steps: seq<DiskState>)
      requires Valid() && open
      modifies Footprint()
      ensures Valid() && open && store == old(store) && fresh(Footprint() - old(Footprint()))
      ensures steps == MaybeCheckpointSteps(cfg, old(disk.state), store, now, force)
      ensures disk.history == old(disk.history) + steps
      ensures disk.state == After(old(disk.state), steps)
      ensures checkpointCount == old(checkpointCount) + (if CheckpointDue(cfg, old(disk.state), force) then 1 else 0)
      ensures !cfg.walEnabled || !cfg.checkpointEnabled ==> disk.state == old(disk.state)
      ensures cfg.walEnabled && cfg.checkpointEnabled ==>
                disk.state ==
                if !force && 0 < cfg.checkpointSize &&
                    WalSize(cfg, old(disk.state)) < cfg.checkpointSize then old(disk.state)
                else old(disk.state).(checkpoint := Some(Snapshot(store, now)), active := Some([]))
    {
      if !cfg.walEnabled || !cfg.checkpointEnabled {
        return [];
      }
      if !force && cfg.checkpointSize > 0 {
        var size := WalSize(cfg, disk.state);
        if size < cfg.checkpointSize {
          return [];
        }
      }
      steps := CreateCheckpoint(now);
    }

    /** createCheckpointLocked and resetWALLocked: save, then truncate the active log if it is open. */
    method CreateCheckpoint(now: int) returns (ghost steps: seq<DiskState>)
      requires Valid()
      modifies Footprint()
      ensures Valid() && open == old(open) && store == old(store) && (wal == null <==> old(wal) == null)
      ensures fresh(Footprint() - old(Footprint()))
      ensures steps == CheckpointSteps(old(disk.state), store, now, wal != null)
      ensures disk.history == old(disk.history) + steps
      ensures disk.state == After(old(disk.state), steps)
      ensures checkpointCount == old(checkpointCount) + 1
    {
      disk.SaveCheckpoint(store, now);
      checkpointCount := checkpointCount + 1;
      steps := [disk.state];
      if wal != null {
        wal.Close();
        wal := null;
        disk.TruncateActive();
        wal := new Writer(codec, disk);
        steps := steps + [disk.state];
      }
    }

    /** Closing writes a final checkpoint but, the log being closed already, does not truncate it. */
    method Close(now: int) returns (ghost steps: seq<DiskState>)
      requires Valid()
      modifies Footprint()
      ensures Valid() && !open && wal == null && store == old(store)
      ensures steps == if old(open) then CloseSteps(cfg, old(disk.state), store, now) else []
      ensures disk.state ==
              if old(open) && cfg.walEnabled && cfg.checkpointEnabled && WalSize(cfg, old(disk.state)) > 0
              then old(disk.state).(checkpoint := Some(Snapshot(store, now))) else old(disk.state)
      ensures disk.history == old(disk.history) + steps
      ensures disk.state == After(old(disk.state), steps)
    {
      steps := [];
      if !open {
        return;
      }
      open := false;
      if wal != null {
        wal.Close();
        wal := null;
      }
      if cfg.walEnabled && cfg.checkpointEnabled {
        var size := WalSize(cfg, disk.state);
        if size > 0 {
          steps := CreateCheckpoint(now);
        }
      }
    }
  }

  lemma {:induction false} SegmentErrorStops(c: Codec, d: DiskState, store: Store, i: nat, n: nat, since: Option<int>)
    requires i <= n
    requires ReplaySegments(c, d, store, i, since).Err?
    ensures ReplaySegments(c, d, store, n, since) == ReplaySegments(c, d, store, i, since)
  {
    if i < n {
      SegmentErrorStops(c, d, store, i, n - 1, since);
    }
  }

  lemma {:induction false} SegmentsUnaffected(c: Codec, d: DiskState, e: DiskState, store: Store, n: nat,
                                              since: Option<int>)
    requires d.segments == e.segments
    ensures ReplaySegments(c, d, store, n, since) == ReplaySegments(c, e, store, n, since)
  {
    if n > 0 {
      SegmentsUnaffected(c, d, e, store, n - 1, since);
    }
  }
}

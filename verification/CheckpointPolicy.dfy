/** When checkpoints are taken, and how long they let the log become (internal/storage/memory/engine.go). */
module CheckpointPolicy {
  import opened Common
  import opened WalCodec
  import opened WalWriter
  import opened Storage
  import opened DiskModel
  import opened Rotation
  import opened EngineSpec
  import opened Engine
  import opened RotationLimits
  import opened EngineRuns

  /** The disk after a mutation: the logged record alone, or checkpointed and truncated, depending on the length of the
      whole log. */
  lemma DiskAfterMutation(c: Codec, cfg: Config, d: DiskState, store: Store, r: WalRecord, version: nat, cpNow: int,
                          cuts: seq<nat>)
    requires Completes(c, r, cuts) && cfg.walEnabled
    ensures var logged := Logged(c, cfg, d, r);
            var length := |ChronologicalBytes(logged, SegmentLimit(cfg))|;
            After(d, MutateSteps(c, cfg, d, store, r, version, cpNow, cuts)) ==
            if !cfg.checkpointEnabled || (0 < cfg.checkpointSize && length < cfg.checkpointSize) then logged
            else logged.(checkpoint := Some(Snapshot(MutatedStore(store, r, version), cpNow)), active := Some([]))
  {
    var logged := Logged(c, cfg, d, r);
    var append := AppendSteps(Rotated(cfg, d), c.Frame(r), cuts);
    var checkpoint := MaybeCheckpointSteps(cfg, logged, MutatedStore(store, r, version), cpNow, false);
    CompletedAppend(c, cfg, d, r, cuts);
    AfterConcat(d, RotationSteps(cfg, d), append);
    AfterConcat(d, RotationSteps(cfg, d) + append, checkpoint);
    SizeIsThatOfTheLog(cfg, logged);
    hide RotationSteps;
    hide AppendSteps;
    hide MutatedStore;
  }

  lemma RotationKeepsTheSlot(c: Codec, cfg: Config, d: DiskState, r: WalRecord)
    requires Encodable(r) && d.active.Some?
    ensures Logged(c, cfg, d, r).checkpoint == d.checkpoint && Logged(c, cfg, d, r).active.Some?
  {
    if RotationDue(cfg, d) {
      RotationAges(d, SegmentLimit(cfg));
    }
  }

  /** After an acknowledged Put or Delete with checkpoints on, the whole log is shorter than the limit and the slot as
      before, or the active log is empty and the slot holds exactly the new map, stamped with the time of the save. With
      a limit of zero or less it is always the latter; with checkpoints off the slot never changes. */
  lemma MutationBoundsTheLog(engine: Engine, before: DiskState, store: Store, r: WalRecord, version: nat, cpNow: int,
                             cuts: seq<nat>, steps: seq<DiskState>)
    requires engine.Mutated(before, store, r, version, cpNow, Result.Ok(()), cuts, steps)
    requires engine.cfg.walEnabled && before.active.Some?
    ensures var cfg, d := engine.cfg, engine.disk.state;
            var short := |ChronologicalBytes(d, SegmentLimit(cfg))| < cfg.checkpointSize &&
                d.checkpoint == before.checkpoint;
            var saved := d.active == Some([]) && d.checkpoint == Some(Snapshot(engine.store, cpNow));
            && (cfg.checkpointEnabled ==> (0 < cfg.checkpointSize && short) || saved)
            && (cfg.checkpointEnabled && cfg.checkpointSize <= 0 ==> saved)
            && (!cfg.checkpointEnabled ==> d.checkpoint == before.checkpoint)
  {
    hide MutateSteps;
    hide Logged;
    DiskAfterMutation(engine.codec, engine.cfg, before, store, r, version, cpNow, cuts);
    RotationKeepsTheSlot(engine.codec, engine.cfg, before, r);
  }

  /** A log that stays below the limit leaves the slot alone. */
  lemma ShortLogIsNotCheckpointed(engine: Engine, before: DiskState, store: Store, r: WalRecord, version: nat,
                                  cpNow: int,
                                  cuts: seq<nat>, steps: seq<DiskState>)
    requires engine.Mutated(before, store, r, version, cpNow, Result.Ok(()), cuts, steps)
    requires engine.cfg.walEnabled && before.active.Some? && !RotationOn(engine.cfg)
    requires |ChronologicalBytes(before,
               SegmentLimit(engine.cfg))| + |engine.codec.Frame(r)| < engine.cfg.checkpointSize
    ensures engine.disk.state.checkpoint == before.checkpoint
    ensures engine.disk.state == WithActive(before, before.active.value + engine.codec.Frame(r))
  {
    hide MutateSteps;
    DiskAfterMutation(engine.codec, engine.cfg, before, store, r, version, cpNow, cuts);
  }

  /** Over whole runs: after every acknowledged mutation the active log is empty or the whole log shorter than the
      limit. */
  lemma LogStaysShort(c: Codec, cfg: Config, events: seq<Event>)
    requires ClockedRun(c, cfg, events) && cfg.checkpointEnabled
    requires events != [] && events[|events| - 1].Mutate? && events[|events| - 1].outcome == Acked
    ensures var d := Run(c, cfg, events).disk;
            d.active == Some([]) || |ChronologicalBytes(d, SegmentLimit(cfg))| < cfg.checkpointSize
  {
    var s := Run(c, cfg, events[..|events| - 1]);
    var e := events[|events| - 1];
    assert Run(c, cfg, events) == Exec(c, cfg, s, e);
    hide Run;
    hide ClockedRun;
    DiskAfterMutation(c, cfg, s.disk, s.phase.store, e.record, e.version, e.cpNow, e.cuts);
    hide MutateSteps;
  }
}

/** Every run of the engine, with crashes between any two disk steps, recovers what was acknowledged. */
module Recovery {
  import opened Common
  import opened WalCodec
  import opened WalReader
  import opened Storage
  import opened DiskModel
  import opened Rotation
  import opened EngineSpec
  import opened RecoveryOrder
  import KvLog

  // ---- what a healthy disk is ------------------------------------------------------

  ghost predicate Ordered(log: seq<WalRecord>, clock: int) {
    && (forall i :: 0 <= i < |log| ==> log[i].timestamp <= clock && InInt64(log[i].timestamp))
    && (forall i, j :: 0 <= i < j < |log| ==> log[i].timestamp <= log[j].timestamp)
  }

  /** The log files read cleanly, their records are stamped in order and not after the clock, and
      replaying them chronologically over the checkpoint gives the view. */
  ghost predicate Healthy(c: Codec, cfg: Config, d: DiskState, view: View, clock: int) {
    && Clean(c, d)
    && Ordered(ChronologicalLog(c, d, SegmentLimit(cfg)), clock)
    && (d.checkpoint.Some? ==> d.checkpoint.value.timestamp <= clock)
    && ChronologicalView(c, d, SegmentLimit(cfg)) == view
  }

  // ---- checkpoint overlap ------------------------------------------------------------

  /** In an ordered log the records that are not before a time form a suffix. */
  lemma {:induction false} KeptIsSuffix(log: seq<WalRecord>, time: int, clock: int) returns (i: nat)
    requires Ordered(log, clock)
    ensures i <= |log| && KeptOnly(log, Some(time)) == log[i..]
    ensures forall k :: i <= k < |log| ==> log[k].timestamp >= time
    decreases |log|
  {
    if log == [] {
      i := 0;
    } else if log[0].timestamp >= time {
      i := 0;
      FilterAll(log, r => Kept(r, Some(time)));
    } else {
      var k := KeptIsSuffix(log[1..], time, clock);
      i := k + 1;
      assert log[i..] == log[1..][k..];
    }
  }

  /** Checkpoint overlap is harmless: over a store that a checkpointed, ordered log produced, replaying the
      records not before any later time leaves the live view unchanged. */
  lemma OverlapIsHarmless(base: View, log: seq<WalRecord>, since: Option<int>, time: int, clock: int)
    requires Ordered(log, clock)
    requires since.Some? ==> since.value <= time
    ensures var view := KvLog.Apply(base, Mutations(KeptOnly(log, since)));
            KvLog.Apply(view, Mutations(KeptOnly(log, Some(time)))) == view
  {
    var i := KeptIsSuffix(log, time, clock);
    var before := KeptOnly(log[..i], since);
    assert KeptOnly(log, since) == before + log[i..] by {
      assert log == log[..i] + log[i..];
      KeptConcat(log[..i], log[i..], since);
      FilterAll(log[i..], r => Kept(r, since));
    }
    hide Ordered;
    MutationsConcat(before, log[i..]);
    KvLog.SuffixReplayIsIdempotent(base, Mutations(before), Mutations(log[i..]));
  }

  lemma OrderedSuffix(a: seq<WalRecord>, b: seq<WalRecord>, clock: int)
    requires Ordered(a + b, clock)
    ensures Ordered(a, clock) && Ordered(b, clock)
  {
    var log := a + b;
    forall i | 0 <= i < |b|
      ensures b[i] == log[|a| + i]
    {
    }
    forall i | 0 <= i < |a|
      ensures a[i] == log[i]
    {
    }
  }

  // ---- each disk step keeps the disk healthy -----------------------------------------

  /** A completed append adds exactly its own mutation. */
  lemma AppendKeepsHealth(c: Codec, cfg: Config, d: DiskState, view: View, clock: int, r: WalRecord)
    requires Healthy(c, cfg, d, view, clock)
    requires Encodable(r) && InInt64(r.timestamp) && clock <= r.timestamp
    ensures Healthy(c, cfg, WithActive(d, ActiveBytes(d) + c.Frame(r)), KvLog.ApplyOne(view, Mutation(r)), r.timestamp)
  {
    hide ReadAll;
    var n := SegmentLimit(cfg);
    var bytes := c.Frame(r);
    var e := WithActive(d, ActiveBytes(d) + bytes);
    var log := ChronologicalLog(c, d, n);
    FrameIsClean(c, r);
    StoredTimeUnchanged(r);
    ChronologicalIsClean(c, d, n);
    AppendedBytes(c, d, n, bytes);
    assert ChronologicalLog(c, e, n) == log + [r];
    OneMoreRecord(Live(BaseStore(d)), log, Since(d), r, clock);
  }

  lemma StoredTimeUnchanged(r: WalRecord)
    requires InInt64(r.timestamp)
    ensures Stored(r) == r
  {
  }

  /** Bytes appended to the active log come last in chronological order. */
  lemma AppendedBytes(c: Codec, d: DiskState, n: nat, bytes: seq<Byte>)
    requires Clean(c, d) && CleanFile(c, ChronologicalBytes(d, n)) && CleanFile(c, bytes)
    ensures Clean(c, WithActive(d, ActiveBytes(d) + bytes))
    ensures ChronologicalLog(c, WithActive(d, ActiveBytes(d) + bytes), n) ==
              ChronologicalLog(c, d, n) + Records(c, bytes)
  {
    hide ReadAll;
    ReadJoined(c, ActiveBytes(d), bytes);
    SeqAssociative(OldestFirst(d.segments, n), ActiveBytes(d), bytes);
    ReadJoined(c, ChronologicalBytes(d, n), bytes);
  }

  lemma OneMoreRecord(base: View, log: seq<WalRecord>, since: Option<int>, r: WalRecord, clock: int)
    requires Ordered(log, clock) && InInt64(r.timestamp) && clock <= r.timestamp
    requires Kept(r, since)
    ensures Ordered(log + [r], r.timestamp)
    ensures KvLog.Apply(base, Mutations(KeptOnly(log + [r], since))) ==
            KvLog.ApplyOne(KvLog.Apply(base, Mutations(KeptOnly(log, since))), Mutation(r))
  {
    hide Ordered;
    var ops := Mutations(KeptOnly(log, since));
    OrderedSnoc(log, r, clock);
    OneMoreMutation(log, since, r);
    assert (ops + [Mutation(r)])[..|ops|] == ops;
  }

  lemma OrderedSnoc(log: seq<WalRecord>, r: WalRecord, clock: int)
    requires Ordered(log, clock) && InInt64(r.timestamp) && clock <= r.timestamp
    ensures Ordered(log + [r], r.timestamp)
  {
  }

  lemma OneMoreMutation(log: seq<WalRecord>, since: Option<int>, r: WalRecord)
    requires Kept(r, since)
    ensures Mutations(KeptOnly(log + [r], since)) == Mutations(KeptOnly(log, since)) + [Mutation(r)]
  {
    KeptConcat(log, [r], since);
    FilterAll([r], x => Kept(x, since));
    MutationsConcat(KeptOnly(log, since), [r]);
    assert Mutations([r]) == [Mutation(r)];
  }

  lemma FrameIsClean(c: Codec, r: WalRecord)
    requires Encodable(r)
    ensures CleanFile(c, c.Frame(r)) && Records(c, c.Frame(r)) == [Stored(r)]
  {
    ReadFrame(c, r, []);
    assert c.Frame(r) + [] == c.Frame(r);
  }

  /** Saving a snapshot of the live state keeps the disk healthy, whether or not a truncation follows. */
  lemma SaveKeepsHealth(c: Codec, cfg: Config, d: DiskState, view: View, clock: int, store: Store, now: int)
    requires Healthy(c, cfg, d, view, clock)
    requires Live(store) == view && clock <= now
    ensures Healthy(c, cfg, Checkpointed(d, store, now), view, now)
  {
    hide ReadAll;
    var n := SegmentLimit(cfg);
    assert ChronologicalBytes(Checkpointed(d, store, now), n) == ChronologicalBytes(d, n);
    OverlapIsHarmless(Live(BaseStore(d)), ChronologicalLog(c, d, n), Since(d), now, clock);
  }

  // ---- what truncating beside rotated segments does -----------------------------------

  /** Replaying the rotated records that a checkpoint of this time does not cover leaves what the view holds. */
  ghost predicate TruncationIsHarmless(c: Codec, cfg: Config, d: DiskState, view: View, time: int) {
    KvLog.Redundant(view, Uncovered(c, OldestFirst(d.segments, SegmentLimit(cfg)), Some(time)), [])
  }

  /** Truncating the active log after a checkpoint keeps the recoverable view exactly when it is harmless. */
  lemma TruncationHarmlessIff(c: Codec, cfg: Config, d: DiskState, view: View)
    requires Clean(c, d)
    requires d.checkpoint.Some? && Live(d.checkpoint.value.records) == view
    ensures ChronologicalView(c, WithActive(d, []), SegmentLimit(cfg)) == view <==>
            TruncationIsHarmless(c, cfg, d, view, d.checkpoint.value.timestamp)
  {
    hide ReadAll;
    var e := WithActive(d, []);
    EmptyFile(c);
    ChronologicalIsClean(c, e, SegmentLimit(cfg));
    var rotated := Uncovered(c, OldestFirst(d.segments, SegmentLimit(cfg)), Since(d));
    assert Mutations(KeptOnly(ChronologicalLog(c, e, SegmentLimit(cfg)), Since(e))) == rotated by {
      assert Records(c, OldestFirst(e.segments, SegmentLimit(cfg))) + [] ==
          Records(c, OldestFirst(e.segments, SegmentLimit(cfg)));
    }
    KvLog.DropBeginningIff(view, rotated, []);
    assert rotated + [] == rotated;
  }

  lemma TruncateKeepsHealth(c: Codec, cfg: Config, d: DiskState, view: View, clock: int)
    requires Healthy(c, cfg, d, view, clock)
    requires d.checkpoint.Some? && Live(d.checkpoint.value.records) == view
    requires TruncationIsHarmless(c, cfg, d, view, d.checkpoint.value.timestamp)
    ensures Healthy(c, cfg, WithActive(d, []), view, clock)
  {
    hide ReadAll;
    var n := SegmentLimit(cfg);
    var e := WithActive(d, []);
    EmptyFile(c);
    assert Clean(c, e);
    ChronologicalIsClean(c, d, n);
    ChronologicalIsClean(c, e, n);
    var rotated := Records(c, OldestFirst(d.segments, n));
    assert ChronologicalLog(c, e, n) == rotated + [] == rotated;
    OrderedSuffix(rotated, Records(c, ActiveBytes(d)), clock);
    TruncationHarmlessIff(c, cfg, d, view);
  }

  /** It is harmless in particular when the checkpoint is stamped later than every rotated record. */
  lemma LaterStampIsHarmless(c: Codec, cfg: Config, d: DiskState, view: View, time: int)
    requires forall r :: r in Records(c, OldestFirst(d.segments, SegmentLimit(cfg))) ==> r.timestamp < time
    ensures TruncationIsHarmless(c, cfg, d, view, time)
  {
    FilterNone(Records(c, OldestFirst(d.segments, SegmentLimit(cfg))), r => Kept(r, Some(time)));
  }

  // ---- what discarding the oldest segment does ------------------------------------------

  /** What the oldest segment leaves under a key that nothing later mentions is what the checkpoint holds there. */
  ghost predicate DiscardIsHarmless(c: Codec, cfg: Config, d: DiskState) {
    var n := SegmentLimit(cfg);
    DropsOldest(d, n) ==>
      KvLog.Redundant(Live(BaseStore(d)), Uncovered(c, SegmentBytes(d, n), Since(d)),
          Uncovered(c, BytesAfterOldest(d, n), Since(d)))
  }

  /** Discarding what rotation discards keeps the recoverable view exactly when it is harmless. */
  lemma DiscardHarmlessIff(c: Codec, cfg: Config, d: DiskState)
    requires Clean(c, d) && SegmentLimit(cfg) >= 1
    ensures ChronologicalView(c, Survivors(d, SegmentLimit(cfg)), SegmentLimit(cfg)) ==
              ChronologicalView(c, d, SegmentLimit(cfg)) <==>
            DiscardIsHarmless(c, cfg, d)
  {
    hide ReadAll;
    var n := SegmentLimit(cfg);
    if DropsOldest(d, n) {
      var oldest, rest := SegmentBytes(d, n), BytesAfterOldest(d, n);
      BytesWithoutOldest(d, n);
      EmptyFile(c);
      UncoveredJoined(c, oldest, rest, Since(d));
      KvLog.DropBeginningIff(Live(BaseStore(d)), Uncovered(c, oldest, Since(d)), Uncovered(c, rest, Since(d)));
    }
  }

  /** It is harmless in particular when the checkpoint covers the whole segment. */
  lemma CoveredDiscardIsHarmless(c: Codec, cfg: Config, d: DiskState)
    requires KeptOnly(Records(c, SegmentBytes(d, SegmentLimit(cfg))), Since(d)) == []
    ensures DiscardIsHarmless(c, cfg, d)
  {
    assert Uncovered(c, SegmentBytes(d, SegmentLimit(cfg)), Since(d)) == [];
  }

  lemma DiscardKeepsHealth(c: Codec, cfg: Config, d: DiskState, view: View, clock: int)
    requires Healthy(c, cfg, d, view, clock)
    requires SegmentLimit(cfg) >= 1 && DiscardIsHarmless(c, cfg, d)
    ensures Healthy(c, cfg, Survivors(d, SegmentLimit(cfg)), view, clock)
  {
    hide ReadAll;
    var n := SegmentLimit(cfg);
    DiscardHarmlessIff(c, cfg, d);
    hide Ordered;
    hide DiscardIsHarmless;
    if DropsOldest(d, n) {
      var oldest, rest := SegmentBytes(d, n), BytesAfterOldest(d, n);
      BytesWithoutOldest(d, n);
      EmptyFile(c);
      ReadJoined(c, oldest, rest);
      OrderedSuffix(Records(c, oldest), Records(c, rest), clock);
      assert Clean(c, WithoutSegment(d, n));
    }
  }

  lemma SameLogKeepsHealth(c: Codec, cfg: Config, s: DiskState, d: DiskState, view: View, clock: int)
    requires Healthy(c, cfg, d, view, clock)
    requires SameLog(s, d, SegmentLimit(cfg))
    ensures Healthy(c, cfg, s, view, clock)
  {
    hide ReadAll;
    EmptyFile(c);
    forall i | i in s.segments
      ensures CleanFile(c, s.segments[i])
    {
      assert s.segments[i] in d.segments.Values + {ActiveBytes(d)};
    }
  }

  /** Every state of a rotation is healthy, as long as what it discards is harmless. */
  lemma RotationKeepsHealth(c: Codec, cfg: Config, d: DiskState, view: View, clock: int)
    requires Healthy(c, cfg, d, view, clock) && d.active.Some?
    requires RotationDue(cfg, d) ==> DiscardIsHarmless(c, cfg, d)
    ensures forall s :: s in RotationSteps(cfg, d) ==> Healthy(c, cfg, s, view, clock)
    ensures Healthy(c, cfg, After(d, RotationSteps(cfg, d)), view, clock)
    ensures After(d, RotationSteps(cfg, d)).active.Some?
  {
    if RotationDue(cfg, d) {
      var k := Survivors(d, SegmentLimit(cfg));
      RotationConservesLog(d, SegmentLimit(cfg));
      DiscardKeepsHealth(c, cfg, d, view, clock);
      forall s | s in RotationSteps(cfg, d)
        ensures Healthy(c, cfg, s, view, clock)
      {
        SameLogKeepsHealth(c, cfg, s, k, view, clock);
      }
      assert After(d, RotationSteps(cfg, d)) in RotationSteps(cfg, d);
    }
  }

  /** A rotation keeps the recoverable view, at every one of its states, exactly when what it discards is harmless. */
  lemma RotationKeepsViewIff(c: Codec, cfg: Config, d: DiskState)
    requires Clean(c, d) && d.active.Some?
    ensures (forall s :: s in RotationSteps(cfg, d) ==>
              ChronologicalView(c, s, SegmentLimit(cfg)) == ChronologicalView(c, d, SegmentLimit(cfg)))
            <==> (RotationDue(cfg, d) ==> DiscardIsHarmless(c, cfg, d))
  {
    hide ReadAll;
    if RotationDue(cfg, d) {
      var n := SegmentLimit(cfg);
      RotationConservesLog(d, n);
      DiscardHarmlessIff(c, cfg, d);
      hide DiscardIsHarmless;
      forall s | s in RotationSteps(cfg, d)
        ensures ChronologicalView(c, s, n) == ChronologicalView(c, Survivors(d, n), n)
      {
      }
      assert After(d, RotationSteps(cfg, d)) in RotationSteps(cfg, d);
    }
  }

  /** Every state of a checkpoint is healthy, as long as the truncation is harmless. */
  lemma CheckpointKeepsHealth(c: Codec, cfg: Config, d: DiskState, view: View, clock: int, store: Store, now: int,
                              walOpen: bool)
    requires Healthy(c, cfg, d, view, clock)
    requires Live(store) == view && clock <= now
    requires walOpen ==> TruncationIsHarmless(c, cfg, d, view, now)
    ensures forall s :: s in CheckpointSteps(d, store, now, walOpen) ==> Healthy(c, cfg, s, view, now)
  {
    hide ReadAll;
    hide Healthy;
    SaveKeepsHealth(c, cfg, d, view, clock, store, now);
    if walOpen {
      TruncateKeepsHealth(c, cfg, Checkpointed(d, store, now), view, now);
    }
  }

  /** A checkpoint keeps the recoverable view, at both of its states, exactly when the truncation is harmless. */
  lemma CheckpointKeepsViewIff(c: Codec, cfg: Config, d: DiskState, view: View, clock: int, store: Store, now: int)
    requires Healthy(c, cfg, d, view, clock)
    requires Live(store) == view && clock <= now
    ensures (forall s :: s in CheckpointSteps(d, store, now, true) ==>
              ChronologicalView(c, s, SegmentLimit(cfg)) == view)
            <==> TruncationIsHarmless(c, cfg, d, view, now)
  {
    hide ReadAll;
    SaveKeepsHealth(c, cfg, d, view, clock, store, now);
    TruncationHarmlessIff(c, cfg, Checkpointed(d, store, now), view);
    var steps := CheckpointSteps(d, store, now, true);
    assert steps[0] in steps && steps[1] in steps;
  }

  /** A crash inside a record leaves a disk that refuses to open with an unexpected end of file. */
  lemma TornAppendRefusesToOpen(c: Codec, cfg: Config, d: DiskState, view: View, clock: int, r: WalRecord, k: nat)
    requires Healthy(c, cfg, d, view, clock)
    requires Encodable(r) && 0 < k < |c.Frame(r)|
    ensures Recover(c, cfg, WithActive(d, ActiveBytes(d) + c.Frame(r)[..k])) == Err(UnexpectedEOF)
  {
    hide ReadAll;
    var torn := c.Frame(r)[..k];
    var e := WithActive(d, ActiveBytes(d) + torn);
    TornFileFails(c, r, k);
    ReadJoined(c, ActiveBytes(d), torn);
    SegmentsReplayed(c, d, BaseStore(d), SegmentLimit(cfg));
    SegmentsDependOn(c, d, e, BaseStore(d), SegmentLimit(cfg));
  }

  lemma TornFileFails(c: Codec, r: WalRecord, k: nat)
    requires Encodable(r) && 0 < k < |c.Frame(r)|
    ensures ReadAll(c, c.Frame(r)[..k]).failure == Some(UnexpectedEOF)
  {
    ParseTornFrame(c, r, k);
  }

  lemma {:induction false} SegmentsDependOn(c: Codec, d: DiskState, e: DiskState, store: Store, n: nat)
    requires d.segments == e.segments && d.checkpoint == e.checkpoint
    ensures ReplaySegments(c, d, store, n, Since(d)) == ReplaySegments(c, e, store, n, Since(e))
  {
    if n > 0 {
      SegmentsDependOn(c, d, e, store, n - 1);
    }
  }
}

/** Three runs in which rotation loses an acknowledged value, one for each of the conditions that a run with
    rotation has to meet: the replay order, the discarded segment, and the truncation beside rotated segments. */
module RotationLoss {
  import opened Common
  import opened WalCodec
  import opened WalReader
  import opened WalWriter
  import opened Storage
  import opened DiskModel
  import opened Rotation
  import opened EngineSpec
  import opened RecoveryOrder
  import opened Recovery
  import opened EngineRuns
  import KvLog

  /** Two segments, and a size limit that every record exceeds. */
  predicate Small(cfg: Config) {
    Durable(cfg) && cfg.maxSegmentSize == 1 && cfg.maxSegments == 2 && cfg.checkpointSize == 1000
  }

  const LOG_ONLY := Config(true, "wal", false, 1000, 1, 2)
  const WITH_CHECKPOINTS := Config(true, "wal", true, 1000, 1, 2)

  const A: Key := [97]
  const B: Key := [98]
  const C: Key := [99]
  const D: Key := [100]

  function Written(key: Key, value: Byte, time: int): WalRecord {
    WalRecord(OPERATION_PUT, time, key, [value])
  }

  predicate Short(r: WalRecord) {
    r.op == OPERATION_PUT && |r.key| == 1 && |r.value| == 1 && InInt64(r.timestamp)
  }

  function Acknowledged(r: WalRecord): Event {
    Mutate(r, 0, r.timestamp, [28], Acked)
  }

  // ---- the disk after one to four writes --------------------------------------------------

  const NO_LOG := DiskState(None, map[], Some([]))

  function OneFile(a: seq<Byte>): DiskState {
    DiskState(None, map[], Some(a))
  }

  function TwoFiles(a: seq<Byte>, b: seq<Byte>): DiskState {
    DiskState(None, map[1 := a], Some(b))
  }

  function ThreeFiles(a: seq<Byte>, b: seq<Byte>, c: seq<Byte>): DiskState {
    DiskState(None, map[2 := a, 1 := b], Some(c))
  }

  lemma TwoSegmentRotation(d: DiskState)
    requires d.active.Some?
    ensures After(d, RotateSteps(d, 2)) ==
            DiskState(d.checkpoint,
                      (if 1 in d.segments then map[2 := d.segments[1]] + (d.segments - {1, 2})
                          else d.segments)[1 := d.active.value],
                      Some([]))
  {
    var shift := ShiftSteps(d, 2);
    if 1 in d.segments {
      var removed := WithoutSegment(d, 2);
      var moved := MovedSegment(removed, 1, 2);
      assert ShiftSteps(moved, 1) == [];
      assert shift == [removed, moved];
    } else {
      assert ShiftSteps(d, 1) == [];
    }
  }

  /** A log that is not empty is large enough to rotate. */
  lemma NonEmptyIsDue(cfg: Config, d: DiskState)
    requires Small(cfg) && d.active.Some? && d.active.value != []
    ensures RotationDue(cfg, d)
    ensures Rotated(cfg, d) == After(d, RotateSteps(d, 2))
  {
  }

  lemma FirstDisk(c: Codec, cfg: Config, r: WalRecord)
    requires Small(cfg) && Encodable(r)
    ensures !RotationDue(cfg, NO_LOG)
    ensures Logged(c, cfg, NO_LOG, r) == OneFile(c.Frame(r))
  {
    hide ReadAll;
    assert SegmentsSize(NO_LOG, 1) == 0;
    assert [] + c.Frame(r) == c.Frame(r);
  }

  lemma SecondDisk(c: Codec, cfg: Config, a: seq<Byte>, r: WalRecord)
    requires Small(cfg) && Encodable(r) && a != []
    ensures Logged(c, cfg, OneFile(a), r) == TwoFiles(a, c.Frame(r))
  {
    hide ReadAll;
    NonEmptyIsDue(cfg, OneFile(a));
    TwoSegmentRotation(OneFile(a));
    assert [] + c.Frame(r) == c.Frame(r);
  }

  lemma ThirdDisk(c: Codec, cfg: Config, a: seq<Byte>, b: seq<Byte>, r: WalRecord)
    requires Small(cfg) && Encodable(r) && b != []
    ensures Logged(c, cfg, TwoFiles(a, b), r) == ThreeFiles(a, b, c.Frame(r))
  {
    hide ReadAll;
    hide RotateSteps;
    NonEmptyIsDue(cfg, TwoFiles(a, b));
    TwoSegmentRotation(TwoFiles(a, b));
    assert [] + c.Frame(r) == c.Frame(r);
  }

  lemma FourthDisk(c: Codec, cfg: Config, x: seq<Byte>, a: seq<Byte>, b: seq<Byte>, r: WalRecord)
    requires Small(cfg) && Encodable(r) && b != []
    ensures Logged(c, cfg, ThreeFiles(x, a, b), r) == ThreeFiles(a, b, c.Frame(r))
  {
    hide ReadAll;
    hide RotateSteps;
    NonEmptyIsDue(cfg, ThreeFiles(x, a, b));
    TwoSegmentRotation(ThreeFiles(x, a, b));
    assert [] + c.Frame(r) == c.Frame(r);
  }

  // ---- runs of writes --------------------------------------------------------------------------

  lemma AckedWithoutCheckpoint(c: Codec, cfg: Config, d: DiskState, store: Store, r: WalRecord)
    requires Short(r) && !CheckpointDue(cfg, Logged(c, cfg, d, r), false)
    ensures Completes(c, r, [28])
    ensures After(d, MutateSteps(c, cfg, d, store, r, 0, r.timestamp, [28])) == Logged(c, cfg, d, r)
  {
    CompletedAppend(c, cfg, d, r, [28]);
    AfterConcat(d, RotationSteps(cfg, d), AppendSteps(Rotated(cfg, d), c.Frame(r), [28]));
  }

  /** Extending a run by one acknowledged write that does not cause a checkpoint. */
  lemma OneMoreWrite(c: Codec, cfg: Config, events: seq<Event>, r: WalRecord)
    requires Durable(cfg) && ClockedRun(c, cfg, events)
    requires Run(c, cfg, events).phase.Up? && Short(r)
    requires Run(c, cfg, events).clock <= r.timestamp
    requires !CheckpointDue(cfg, Logged(c, cfg, Run(c, cfg, events).disk, r), false)
    ensures var s := Run(c, cfg, events);
            var next := events + [Acknowledged(r)];
            && ClockedRun(c, cfg, next)
            && Run(c, cfg, next) == System(Logged(c, cfg, s.disk, r), Up(MutatedStore(s.phase.store, r, 0)),
                r.timestamp)
            && Promised(next) == Promised(events)[r.key := r.value]
            && (RotationSafeRun(c, cfg, next) <==>
                  RotationSafeRun(c, cfg, events) && (RotationDue(cfg, s.disk) ==> DiscardIsHarmless(c, cfg, s.disk)))
  {
    hide ReadAll;
    hide MutateSteps;
    hide DiscardIsHarmless;
    hide TruncationIsHarmless;
    hide Logged;
    hide MutatedStore;
    var s := Run(c, cfg, events);
    var next := events + [Acknowledged(r)];
    assert next[..|next| - 1] == events;
    AckedWithoutCheckpoint(c, cfg, s.disk, s.phase.store, r);
  }

  lemma NothingToReplay(c: Codec, cfg: Config)
    ensures Recover(c, cfg, EMPTY_DISK) == Ok(map[])
  {
    hide ReadAll;
    EmptyFile(c);
    EmptySegments(c, EMPTY_DISK, SegmentLimit(cfg));
  }

  lemma {:induction false} EmptySegments(c: Codec, d: DiskState, n: nat)
    requires d.segments == map[]
    ensures ReplaySegments(c, d, map[], n, Since(d)) == Ok(map[])
  {
    hide ReadAll;
    EmptyFile(c);
    if n > 0 {
      EmptySegments(c, d, n - 1);
    }
  }

  lemma AfterOpen(c: Codec, cfg: Config)
    requires Durable(cfg)
    ensures ClockedRun(c, cfg, [Open]) && RotationSafeRun(c, cfg, [Open])
    ensures Run(c, cfg, [Open]) == System(NO_LOG, Up(map[]), -TWO_63)
    ensures Promised([Open]) == map[]
  {
    hide ReadAll;
    hide OrderDoesNotMatter;
    NoSegmentsAreSafe(c, cfg, EMPTY_DISK, map[], 0);
    NothingToReplay(c, cfg);
    assert [Open][..0] == [];
  }

  /** Rotation discards nothing while the last place is empty. */
  lemma NothingDiscarded(c: Codec, cfg: Config, d: DiskState)
    requires Small(cfg) && 2 !in d.segments
    ensures DiscardIsHarmless(c, cfg, d)
  {
    EmptyFile(c);
    CoveredDiscardIsHarmless(c, cfg, d);
  }

  lemma FewBytes(cfg: Config, d: DiskState)
    requires Small(cfg) && d.active.Some? && |d.active.value| <= 28
    requires d.segments == map[] || (d.segments.Keys == {1} && |d.segments[1]| <= 28)
    ensures !CheckpointDue(cfg, d, false)
  {
    assert SegmentsSize(d, 0) == 0;
    assert SegmentsSize(d, 1) <= 28;
    assert SegmentsSize(d, 2) <= 28;
  }

  function TwoWrites(q: WalRecord, r: WalRecord): seq<Event> {
    [Open, Acknowledged(q), Acknowledged(r)]
  }

  lemma AfterTwoWrites(c: Codec, cfg: Config, q: WalRecord, r: WalRecord)
    requires Small(cfg) && Short(q) && Short(r) && q.timestamp <= r.timestamp
    ensures var run := TwoWrites(q, r);
            && ClockedRun(c, cfg, run) && RotationSafeRun(c, cfg, run)
            && Run(c, cfg, run).disk == TwoFiles(c.Frame(q), c.Frame(r))
            && Run(c, cfg, run).phase.Up? && Run(c, cfg, run).clock == r.timestamp
            && Promised(run) == map[q.key := q.value][r.key := r.value]
  {
    hide ReadAll;
    hide ClockedRun;
    hide RotationSafeRun;
    hide Run;
    hide Promised;
    hide Logged;
    hide MutatedStore;
    hide DiscardIsHarmless;
    hide CheckpointDue;
    hide RotationDue;
    AfterOpen(c, cfg);
    FirstDisk(c, cfg, q);
    FewBytes(cfg, OneFile(c.Frame(q)));
    OneMoreWrite(c, cfg, [Open], q);
    SecondDisk(c, cfg, c.Frame(q), r);
    FewBytes(cfg, TwoFiles(c.Frame(q), c.Frame(r)));
    NothingDiscarded(c, cfg, OneFile(c.Frame(q)));
    OneMoreWrite(c, cfg, [Open] + [Acknowledged(q)], r);
    assert TwoWrites(q, r) == [Open] + [Acknowledged(q)] + [Acknowledged(r)];
  }

  lemma AfterThreeWrites(c: Codec, q: WalRecord, r: WalRecord, s: WalRecord)
    requires Short(q) && Short(r) && Short(s) && q.timestamp <= r.timestamp <= s.timestamp
    ensures var run := TwoWrites(q, r) + [Acknowledged(s)];
            && ClockedRun(c, LOG_ONLY, run) && RotationSafeRun(c, LOG_ONLY, run)
            && Run(c, LOG_ONLY, run).disk == ThreeFiles(c.Frame(q), c.Frame(r), c.Frame(s))
            && Run(c, LOG_ONLY, run).phase.Up? && Run(c, LOG_ONLY, run).clock == s.timestamp
            && Promised(run) == map[q.key := q.value][r.key := r.value][s.key := s.value]
  {
    hide ReadAll;
    hide ClockedRun;
    hide RotationSafeRun;
    hide Run;
    hide Promised;
    hide Logged;
    hide MutatedStore;
    hide DiscardIsHarmless;
    hide RotationDue;
    AfterTwoWrites(c, LOG_ONLY, q, r);
    ThirdDisk(c, LOG_ONLY, c.Frame(q), c.Frame(r), s);
    NothingDiscarded(c, LOG_ONLY, TwoFiles(c.Frame(q), c.Frame(r)));
    OneMoreWrite(c, LOG_ONLY, TwoWrites(q, r), s);
  }

  // ---- what is recovered from three files -------------------------------------------------------

  lemma OneRecord(store: Store, r: WalRecord)
    ensures Replay(store, [r], None) == ReplayRecord(store, r)
  {
    assert [r][1..] == [];
  }

  /** Segment 1, then segment 2, then the active log: the middle record first. */
  lemma RecoverThreeFiles(c: Codec, q: WalRecord, r: WalRecord, s: WalRecord)
    requires Short(q) && Short(r) && Short(s)
    ensures var d := ThreeFiles(c.Frame(q), c.Frame(r), c.Frame(s));
            && Clean(c, d)
            && Recover(c, LOG_ONLY, d) == Ok(ReplayRecord(ReplayRecord(ReplayRecord(map[], r), q), s))
  {
    hide ReadAll;
    var d := ThreeFiles(c.Frame(q), c.Frame(r), c.Frame(s));
    FrameIsClean(c, q);
    FrameIsClean(c, r);
    FrameIsClean(c, s);
    var s1 := ReplayRecord(map[], r);
    var s2 := ReplayRecord(s1, q);
    OneRecord(map[], r);
    OneRecord(s1, q);
    OneRecord(s2, s);
    assert ReplaySegments(c, d, map[], 0, None) == Ok(map[]);
    assert ReplaySegments(c, d, map[], 1, None) == Ok(s1);
    assert ReplaySegments(c, d, map[], 2, None) == Ok(s2);
  }

  /** The replay order: segment 2 is the older one, but Open replays it last of the segments. */
  lemma NewestValueIsLost(c: Codec)
    ensures var run := TwoWrites(Written(A, 1, 1), Written(A, 2, 2)) + [Acknowledged(Written(B, 3, 3))];
            && ClockedRun(c, LOG_ONLY, run) && RotationSafeRun(c, LOG_ONLY, run)
            && Lookup(Promised(run), A) == Some([2])
            && var d := Run(c, LOG_ONLY, run).disk;
            && Recover(c, LOG_ONLY, d).Ok? && Lookup(Live(Recover(c, LOG_ONLY, d).value), A) == Some([1])
            && !OrderDoesNotMatter(c, LOG_ONLY, d)
  {
    hide ReadAll;
    hide OrderDoesNotMatter;
    hide Recover;
    var q, r, s := Written(A, 1, 1), Written(A, 2, 2), Written(B, 3, 3);
    var run := TwoWrites(q, r) + [Acknowledged(s)];
    AfterThreeWrites(c, q, r, s);
    RecoverThreeFiles(c, q, r, s);
    EveryRunRecovers(c, LOG_ONLY, run);
  }

  /** Two segments whose uncovered mutations have no key in common may be replayed in any order. */
  lemma NoCommonKey(c: Codec, cfg: Config, d: DiskState)
    requires Small(cfg)
    requires forall k {:trigger KvLog.Last(UncoveredSegments(c, d)(1), k)} ::
               KvLog.Last(UncoveredSegments(c, d)(1), k).None? || KvLog.Last(UncoveredSegments(c, d)(2), k).None?
    ensures OrderDoesNotMatter(c, cfg, d)
  {
    hide Uncovered;
    var part := UncoveredSegments(c, d);
    forall k: Key, i: nat, j: nat | 1 <= i <= 2 && 1 <= j <= 2 && KvLog.Last(part(i), k).Some? &&
        KvLog.Last(part(j), k).Some?
      ensures i == j
    {
      assert KvLog.Last(part(1), k).None? || KvLog.Last(part(2), k).None?;
    }
    KvLog.DisjointPartsAreOrderInsensitive(part, 2, Uncovered(c, ActiveBytes(d), Since(d)));
  }

  lemma LastOfOne(op: KvLog.Op<Key, Value>, k: Key)
    ensures KvLog.Last([op], k) == if op.key == k then Some(op) else None
  {
    assert [op][..0] == [];
  }

  lemma DifferentKeysAnyOrder(c: Codec, q: WalRecord, r: WalRecord, s: WalRecord)
    requires Short(q) && Short(r) && Short(s) && q.key != r.key
    ensures OrderDoesNotMatter(c, LOG_ONLY, ThreeFiles(c.Frame(q), c.Frame(r), c.Frame(s)))
  {
    hide ReadAll;
    var d := ThreeFiles(c.Frame(q), c.Frame(r), c.Frame(s));
    FrameIsClean(c, q);
    FrameIsClean(c, r);
    OnlyMutation(c, c.Frame(q), q);
    OnlyMutation(c, c.Frame(r), r);
    hide Uncovered;
    hide OrderDoesNotMatter;
    forall k
      ensures KvLog.Last(UncoveredSegments(c, d)(1), k).None? || KvLog.Last(UncoveredSegments(c, d)(2), k).None?
    {
      assert UncoveredSegments(c, d)(1) == [Mutation(r)] && UncoveredSegments(c, d)(2) == [Mutation(q)];
      LastOfOne(Mutation(q), k);
      LastOfOne(Mutation(r), k);
    }
    NoCommonKey(c, LOG_ONLY, d);
  }

  lemma OnlyMutation(c: Codec, bytes: seq<Byte>, r: WalRecord)
    requires Records(c, bytes) == [r]
    ensures Uncovered(c, bytes, None) == [Mutation(r)]
  {
    FilterAll([r], x => Kept(x, None));
    assert [r][1..] == [];
  }

  /** The discarded segment: of four acknowledged writes to different keys the first is gone, although the order of
      what is left does not matter. Up to the fourth the run was safe. */
  lemma OldestWriteIsLost(c: Codec)
    ensures var before := TwoWrites(Written(A, 1, 1), Written(B, 2, 2)) + [Acknowledged(Written(C, 3, 3))];
            var run := before + [Acknowledged(Written(D, 4, 4))];
            && ClockedRun(c, LOG_ONLY, run) && ClockedRun(c, LOG_ONLY, before)
            && RotationSafeRun(c, LOG_ONLY, before) && !RotationSafeRun(c, LOG_ONLY, run)
            && Lookup(Promised(run), A) == Some([1])
            && var d := Run(c, LOG_ONLY, run).disk;
            && OrderDoesNotMatter(c, LOG_ONLY, d)
            && Recover(c, LOG_ONLY, d).Ok? && A !in Live(Recover(c, LOG_ONLY, d).value)
  {
    hide ReadAll;
    hide OrderDoesNotMatter;
    hide Recover;
    hide ClockedRun;
    hide RotationSafeRun;
    hide Run;
    hide Promised;
    hide Logged;
    hide DiscardIsHarmless;
    var q, r, s, t := Written(A, 1, 1), Written(B, 2, 2), Written(C, 3, 3), Written(D, 4, 4);
    var before := TwoWrites(q, r) + [Acknowledged(s)];
    AfterThreeWrites(c, q, r, s);
    FourthDisk(c, LOG_ONLY, c.Frame(q), c.Frame(r), c.Frame(s), t);
    OneMoreWrite(c, LOG_ONLY, before, t);
    DifferentKeysAnyOrder(c, r, s, t);
    RecoverThreeFiles(c, r, s, t);
    LossIsUnsafe(c, LOG_ONLY, before + [Acknowledged(t)], A);
  }

  /** A run after which a clean, order-insensitive disk does not hold what is promised was not safe. */
  lemma LossIsUnsafe(c: Codec, cfg: Config, run: seq<Event>, k: Key)
    requires ClockedRun(c, cfg, run)
    requires var d := Run(c, cfg, run).disk;
             Recover(c, cfg, d).Ok? && OrderDoesNotMatter(c, cfg, d)
             && Lookup(Live(Recover(c, cfg, d).value), k) != Lookup(Promised(run), k)
    ensures !RotationSafeRun(c, cfg, run)
  {
    hide ReadAll;
    hide Recover;
    hide OrderDoesNotMatter;
    hide Run;
    hide Promised;
    if RotationSafeRun(c, cfg, run) {
      EveryRunRecovers(c, cfg, run);
    }
  }

  // ---- truncation beside a rotated segment ------------------------------------------------------

  lemma RecoverBesideCheckpoint(c: Codec, store: Store, q: WalRecord)
    requires Short(q)
    ensures var d := DiskState(Some(Snapshot(store, q.timestamp)), map[1 := c.Frame(q)], Some([]));
            Recover(c, WITH_CHECKPOINTS, d) == Ok(ReplayRecord(store, q)) && OrderDoesNotMatter(c, WITH_CHECKPOINTS, d)
  {
    hide ReadAll;
    var d := DiskState(Some(Snapshot(store, q.timestamp)), map[1 := c.Frame(q)], Some([]));
    FrameIsClean(c, q);
    EmptyFile(c);
    assert [q][1..] == [];
    assert Replay(store, [q], Some(q.timestamp)) == ReplayRecord(store, q);
    assert ReplaySegments(c, d, store, 0, Since(d)) == Ok(store);
    assert ReplaySegments(c, d, store, 1, Since(d)) == Ok(ReplayRecord(store, q));
    assert ReplaySegments(c, d, store, 2, Since(d)) == Ok(ReplayRecord(store, q));
    NothingInTheLastPlace(c, WITH_CHECKPOINTS, d);
  }

  lemma NothingInTheLastPlace(c: Codec, cfg: Config, d: DiskState)
    requires Small(cfg) && 2 !in d.segments
    ensures OrderDoesNotMatter(c, cfg, d)
  {
    EmptyFile(c);
    assert UncoveredSegments(c, d)(2) == [];
    hide OrderDoesNotMatter;
    NoCommonKey(c, cfg, d);
  }

  lemma TickTruncates(c: Codec, cfg: Config, events: seq<Event>, now: int)
    requires ClockedRun(c, cfg, events) && Run(c, cfg, events).phase.Up? && Run(c, cfg, events).clock <= now
    requires Durable(cfg) && cfg.checkpointEnabled
    ensures var s := Run(c, cfg, events);
            var next := events + [Tick(now, None)];
            && ClockedRun(c, cfg, next)
            && Run(c, cfg, next).disk == WithActive(Checkpointed(s.disk, s.phase.store, now), [])
            && Run(c, cfg, next).phase == s.phase
            && Promised(next) == Promised(events)
  {
    hide ReadAll;
    var next := events + [Tick(now, None)];
    assert next[..|next| - 1] == events;
  }

  /** The truncation: two writes of one key and a checkpoint at the same instant. The newer record is truncated, the
      older one stays behind in segment 1, is not before the checkpoint, and comes back. */
  lemma TruncatedValueIsLost(c: Codec)
    ensures var before := TwoWrites(Written(A, 1, 1), Written(A, 2, 1));
            var run := before + [Tick(1, None)];
            && ClockedRun(c, WITH_CHECKPOINTS, run) && ClockedRun(c, WITH_CHECKPOINTS, before)
            && RotationSafeRun(c, WITH_CHECKPOINTS, before) && !RotationSafeRun(c, WITH_CHECKPOINTS, run)
            && Lookup(Promised(run), A) == Some([2])
            && var d := Run(c, WITH_CHECKPOINTS, run).disk;
            && OrderDoesNotMatter(c, WITH_CHECKPOINTS, d)
            && Recover(c, WITH_CHECKPOINTS, d).Ok? && Lookup(Live(Recover(c, WITH_CHECKPOINTS, d).value), A) ==
                Some([1])
  {
    hide ReadAll;
    hide Recover;
    hide OrderDoesNotMatter;
    hide ClockedRun;
    hide RotationSafeRun;
    hide Run;
    hide Promised;
    var q, r := Written(A, 1, 1), Written(A, 2, 1);
    var before := TwoWrites(q, r);
    AfterTwoWrites(c, WITH_CHECKPOINTS, q, r);
    TickTruncates(c, WITH_CHECKPOINTS, before, 1);
    RecoverBesideCheckpoint(c, Run(c, WITH_CHECKPOINTS, before).phase.store, q);
    LossIsUnsafe(c, WITH_CHECKPOINTS, before + [Tick(1, None)], A);
  }
}

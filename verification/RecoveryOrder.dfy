/** The order in which Open replays log files, against the order in which they were written. */
module RecoveryOrder {
  import opened Common
  import opened WalCodec
  import opened WalReader
  import opened Storage
  import opened DiskModel
  import opened Rotation
  import opened EngineSpec
  import KvLog

  predicate CleanFile(c: Codec, bytes: seq<Byte>) {
    ReadAll(c, bytes).failure.None?
  }

  /** Every log file reads cleanly to its end. */
  ghost predicate Clean(c: Codec, d: DiskState) {
    (forall i :: i in d.segments ==> CleanFile(c, d.segments[i])) && CleanFile(c, ActiveBytes(d))
  }

  function Records(c: Codec, bytes: seq<Byte>): seq<WalRecord> {
    ReadAll(c, bytes).records
  }

  /** Every record on disk, in the order of writing. */
  function ChronologicalLog(c: Codec, d: DiskState, n: nat): seq<WalRecord> {
    Records(c, ChronologicalBytes(d, n))
  }

  /** The mutations of a file that the checkpoint does not cover. */
  function Uncovered(c: Codec, bytes: seq<Byte>, since: Option<int>): seq<KvLog.Op<Key, Value>> {
    Mutations(KeptOnly(Records(c, bytes), since))
  }

  function UncoveredSegments(c: Codec, d: DiskState): nat -> seq<KvLog.Op<Key, Value>> {
    (i: nat) => Uncovered(c, SegmentBytes(d, i), Since(d))
  }

  /** The view that replaying the log in the order of writing gives. */
  function ChronologicalView(c: Codec, d: DiskState, n: nat): View {
    KvLog.Apply(Live(BaseStore(d)), Mutations(KeptOnly(ChronologicalLog(c, d, n), Since(d))))
  }

  lemma EmptyFile(c: Codec)
    ensures ReadAll(c, []) == Reading([], None)
  {
  }

  /** Files that read cleanly read the same when joined. */
  lemma ReadJoined(c: Codec, a: seq<Byte>, b: seq<Byte>)
    requires CleanFile(c, a)
    ensures Records(c, a + b) == Records(c, a) + Records(c, b)
    ensures ReadAll(c, a + b).failure == ReadAll(c, b).failure
  {
    AcceptedBytesAreALog(c, a);
    ReadConcat(c, Records(c, a), b);
  }

  lemma UncoveredJoined(c: Codec, a: seq<Byte>, b: seq<Byte>, since: Option<int>)
    requires CleanFile(c, a)
    ensures Uncovered(c, a + b, since) == Uncovered(c, a, since) + Uncovered(c, b, since)
  {
    ReadJoined(c, a, b);
    KeptConcat(Records(c, a), Records(c, b), since);
    MutationsConcat(KeptOnly(Records(c, a), since), KeptOnly(Records(c, b), since));
  }

  lemma {:induction false} OldestFirstIsClean(c: Codec, d: DiskState, n: nat)
    requires Clean(c, d)
    ensures CleanFile(c, OldestFirst(d.segments, n))
    ensures Uncovered(c, OldestFirst(d.segments, n), Since(d)) == KvLog.Descending(UncoveredSegments(c, d), n)
  {
    hide ReadAll;
    EmptyFile(c);
    if n > 0 {
      var rest := OldestFirst(d.segments, n - 1);
      var segment := SegmentBytes(d, n);
      OldestFirstIsClean(c, d, n - 1);
      ReadJoined(c, segment, rest);
      calc {
        Uncovered(c, OldestFirst(d.segments, n), Since(d));
        Uncovered(c, segment + rest, Since(d));
        { UncoveredJoined(c, segment, rest, Since(d)); }
        UncoveredSegments(c, d)(n) + KvLog.Descending(UncoveredSegments(c, d), n - 1);
        KvLog.Descending(UncoveredSegments(c, d), n);
      }
    }
  }

  lemma ChronologicalIsClean(c: Codec, d: DiskState, n: nat)
    requires Clean(c, d)
    ensures CleanFile(c, ChronologicalBytes(d, n))
    ensures ChronologicalLog(c, d, n) == Records(c, OldestFirst(d.segments, n)) + Records(c, ActiveBytes(d))
    ensures Mutations(KeptOnly(ChronologicalLog(c, d, n), Since(d))) ==
            KvLog.Descending(UncoveredSegments(c, d), n) + Uncovered(c, ActiveBytes(d), Since(d))
  {
    OldestFirstIsClean(c, d, n);
    ReadJoined(c, OldestFirst(d.segments, n), ActiveBytes(d));
    UncoveredJoined(c, OldestFirst(d.segments, n), ActiveBytes(d), Since(d));
  }

  lemma {:induction false} SegmentsReplayed(c: Codec, d: DiskState, store: Store, n: nat)
    requires Clean(c, d)
    ensures ReplaySegments(c, d, store, n, Since(d)).Ok?
    ensures Live(ReplaySegments(c, d, store, n, Since(d)).value) ==
              KvLog.Apply(Live(store), KvLog.Ascending(UncoveredSegments(c, d), n))
  {
    if n > 0 {
      EmptyFile(c);
      SegmentsReplayed(c, d, store, n - 1);
      var s := ReplaySegments(c, d, store, n - 1, Since(d)).value;
      LiveAfterReplay(s, Records(c, SegmentBytes(d, n)), Since(d));
      KvLog.ApplyConcat(Live(store), KvLog.Ascending(UncoveredSegments(c, d), n - 1), UncoveredSegments(c, d)(n));
    }
  }

  /** A clean disk always opens, and the view it opens with replays the uncovered mutations of
      segments 1 to N and then of the active log. */
  lemma CleanDiskOpens(c: Codec, cfg: Config, d: DiskState)
    requires Clean(c, d)
    ensures Recover(c, cfg, d).Ok?
    ensures Live(Recover(c, cfg, d).value) ==
            KvLog.Apply(Live(BaseStore(d)),
                        KvLog.Ascending(UncoveredSegments(c, d), SegmentLimit(cfg)) + Uncovered(c, ActiveBytes(d),
                            Since(d)))
  {
    var n := SegmentLimit(cfg);
    SegmentsReplayed(c, d, BaseStore(d), n);
    var s := ReplaySegments(c, d, BaseStore(d), n, Since(d)).value;
    LiveAfterReplay(s, Records(c, ActiveBytes(d)), Since(d));
    KvLog.ApplyConcat(Live(BaseStore(d)), KvLog.Ascending(UncoveredSegments(c, d), n),
        Uncovered(c, ActiveBytes(d), Since(d)));
  }

  /** A disk opens exactly when every log file that belongs to it reads cleanly; one damaged or torn file is enough to
      refuse. */
  lemma OpensIffClean(c: Codec, cfg: Config, d: DiskState)
    ensures Recover(c, cfg, d).Ok? <==>
            (forall i: nat :: 1 <= i <= SegmentLimit(cfg) && i in d.segments ==>
                ReadAll(c, d.segments[i]).failure == None)
            && ReadAll(c, ActiveBytes(d)).failure == None
  {
    hide ReadAll;
    SegmentsReadIffClean(c, d, BaseStore(d), SegmentLimit(cfg), Since(d));
  }

  lemma {:induction false} SegmentsReadIffClean(c: Codec, d: DiskState, store: Store, n: nat, since: Option<int>)
    ensures ReplaySegments(c, d, store, n, since).Ok? <==>
            forall i: nat :: 1 <= i <= n && i in d.segments ==> ReadAll(c, d.segments[i]).failure == None
  {
    hide ReadAll;
    EmptyFile(c);
    if n > 0 {
      SegmentsReadIffClean(c, d, store, n - 1, since);
    }
  }

  /** For every key that the uncovered active log does not mention, the newest and the oldest segment
      that mention it leave the same value, or both leave none. */
  ghost predicate OrderDoesNotMatter(c: Codec, cfg: Config, d: DiskState) {
    KvLog.OrderInsensitive(UncoveredSegments(c, d), SegmentLimit(cfg), Uncovered(c, ActiveBytes(d), Since(d)))
  }

  /** Replaying in the order of the segment numbers is right exactly when the order does not matter. */
  lemma RecoversChronologicallyIff(c: Codec, cfg: Config, d: DiskState)
    requires Clean(c, d)
    ensures Recover(c, cfg, d).Ok?
    ensures Live(Recover(c, cfg, d).value) == ChronologicalView(c, d, SegmentLimit(cfg)) <==>
              OrderDoesNotMatter(c, cfg, d)
  {
    CleanDiskOpens(c, cfg, d);
    ChronologicalIsClean(c, d, SegmentLimit(cfg));
    KvLog.ReorderIff(Live(BaseStore(d)), UncoveredSegments(c, d), SegmentLimit(cfg),
        Uncovered(c, ActiveBytes(d), Since(d)));
  }

  /** In particular it is right when the uncovered records of different segments touch disjoint keys. */
  lemma DisjointSegmentsRecover(c: Codec, cfg: Config, d: DiskState)
    requires Clean(c, d)
    requires KvLog.DisjointParts(UncoveredSegments(c, d), SegmentLimit(cfg))
    ensures Recover(c, cfg, d).Ok?
    ensures Live(Recover(c, cfg, d).value) == ChronologicalView(c, d, SegmentLimit(cfg))
  {
    KvLog.DisjointPartsAreOrderInsensitive(UncoveredSegments(c, d), SegmentLimit(cfg),
        Uncovered(c, ActiveBytes(d), Since(d)));
    RecoversChronologicallyIff(c, cfg, d);
  }
}

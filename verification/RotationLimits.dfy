/** How large the log may grow and how long a record stays in it when segments rotate
    (internal/storage/memory/engine.go). */
module RotationLimits {
  import opened Common
  import opened WalCodec
  import opened WalReader
  import opened DiskModel
  import opened Rotation
  import opened EngineSpec

  // ---- size ----------------------------------------------------------------------------

  lemma {:induction false} SegmentsSizeIsLength(d: DiskState, n: nat)
    ensures SegmentsSize(d, n) == |OldestFirst(d.segments, n)|
  {
    if n > 0 {
      SegmentsSizeIsLength(d, n - 1);
    }
  }

  /** The size that triggers a rotation is that of the whole log, rotated segments included. */
  lemma SizeIsThatOfTheLog(cfg: Config, d: DiskState)
    ensures WalSize(cfg, d) == |ChronologicalBytes(d, SegmentLimit(cfg))|
  {
    SegmentsSizeIsLength(d, SegmentLimit(cfg));
  }

  /** A rotation is due exactly when both limits are set and the whole log has reached the first. */
  lemma RotationDueIff(cfg: Config, d: DiskState)
    ensures RotationDue(cfg, d) <==>
            cfg.maxSegmentSize > 0 && cfg.maxSegments > 0
            && |ChronologicalBytes(d, cfg.maxSegments)| >= cfg.maxSegmentSize
  {
    SizeIsThatOfTheLog(cfg, d);
  }

  /** A rotation makes the log smaller only by what it discards, so it may well be due again at the next append. */
  lemma RotationFreesTheDiscarded(cfg: Config, d: DiskState)
    requires RotationDue(cfg, d) && d.active.Some?
    ensures WalSize(cfg, Rotated(cfg, d)) ==
            WalSize(cfg, d) - (if DropsOldest(d, SegmentLimit(cfg)) then |SegmentBytes(d, SegmentLimit(cfg))| else 0)
  {
    var n := SegmentLimit(cfg);
    RotationConservesLog(d, n);
    SizeIsThatOfTheLog(cfg, d);
    SizeIsThatOfTheLog(cfg, Rotated(cfg, d));
    if DropsOldest(d, n) {
      BytesWithoutOldest(d, n);
    }
  }

  // ---- how segments age ---------------------------------------------------------------------

  /** The segment below a place, if there is one, has moved up into it. */
  predicate MovedUp(d: DiskState, e: DiskState, i: nat)
    requires i >= 2
  {
    i - 1 in d.segments ==> i in e.segments && e.segments[i] == d.segments[i - 1]
  }

  predicate Unmoved(d: DiskState, e: DiskState, i: nat) {
    Lookup(e.segments, i) == Lookup(d.segments, i)
  }

  lemma {:induction false} ShiftAges(d: DiskState, index: nat)
    ensures var e := After(d, ShiftSteps(d, index));
            && e.active == d.active && e.checkpoint == d.checkpoint
            && (forall i: nat :: 2 <= i <= index ==> MovedUp(d, e, i))
            && (forall i: nat :: i > index ==> Unmoved(d, e, i))
    decreases index
  {
    if index < 2 {
    } else if index - 1 !in d.segments {
      ShiftAges(d, index - 1);
    } else {
      var removed := WithoutSegment(d, index);
      var moved := MovedSegment(removed, index - 1, index);
      var rest := ShiftSteps(moved, index - 1);
      ShiftAges(moved, index - 1);
      var e := After(d, ShiftSteps(d, index));
      assert ShiftSteps(d, index) == [removed, moved] + rest;
      assert e == After(moved, rest);
      assert Unmoved(moved, e, index);
      forall i: nat | 2 <= i <= index
        ensures MovedUp(d, e, i)
      {
        if i < index {
          assert MovedUp(moved, e, i);
        }
      }
      forall i: nat | i > index
        ensures Unmoved(d, e, i)
      {
        assert Unmoved(moved, e, i);
      }
    }
  }

  /** A rotation makes the active log segment 1 and moves every segment below the last one place up. */
  lemma RotationAges(d: DiskState, n: nat)
    requires n >= 1 && d.active.Some?
    ensures var e := After(d, RotateSteps(d, n));
            && e.active == Some([]) && e.checkpoint == d.checkpoint
            && 1 in e.segments && e.segments[1] == d.active.value
            && forall i: nat :: 2 <= i <= n ==> MovedUp(d, e, i)
  {
    ShiftAges(d, n);
    var shifted := After(d, ShiftSteps(d, n));
    var moved := ActiveMoved(WithoutSegment(shifted, 1), 1);
    assert ActiveSteps(shifted) == [WithoutSegment(shifted, 1), moved];
    assert After(d, RotateSteps(d, n)) == WithActive(moved, []);
    forall i: nat | 2 <= i <= n
      ensures MovedUp(d, After(d, RotateSteps(d, n)), i)
    {
      assert MovedUp(d, shifted, i);
    }
  }

  // ---- a series of appends that all start a new file ------------------------------------------

  /** The disk after some records have been appended, with the rotations that were due. */
  function LoggedAll(c: Codec, cfg: Config, d: DiskState, log: seq<WalRecord>): DiskState
    requires AllEncodable(log)
  {
    if log == [] then d else Logged(c, cfg, LoggedAll(c, cfg, d, log[..|log| - 1]), log[|log| - 1])
  }

  /** Every append rotates, or finds the active log empty. */
  ghost predicate EachStartsAFile(c: Codec, cfg: Config, d: DiskState, log: seq<WalRecord>)
    requires AllEncodable(log)
  {
    log == [] ||
    var before := log[..|log| - 1];
    && EachStartsAFile(c, cfg, d, before)
    && (RotationDue(cfg, LoggedAll(c, cfg, d, before)) || ActiveBytes(LoggedAll(c, cfg, d, before)) == [])
  }

  /** A segment holds the one record that was logged that many records before the last. */
  ghost predicate HoldsRecord(c: Codec, d: DiskState, log: seq<WalRecord>, i: nat) {
    i < |log| && Encodable(log[|log| - 1 - i]) && i in d.segments && d.segments[i] == c.Frame(log[|log| - 1 - i])
  }

  /** The newest files hold the newest records, one each. */
  ghost predicate NewestFiles(c: Codec, d: DiskState, n: nat, log: seq<WalRecord>) {
    log != [] ==>
      && Encodable(log[|log| - 1]) && d.active == Some(c.Frame(log[|log| - 1]))
      && forall i: nat :: 1 <= i <= n && i < |log| ==> HoldsRecord(c, d, log, i)
  }

  lemma {:induction false} AppendsFillTheFiles(c: Codec, cfg: Config, d: DiskState, log: seq<WalRecord>)
    requires RotationOn(cfg) && d.active.Some? && AllEncodable(log) && EachStartsAFile(c, cfg, d, log)
    ensures LoggedAll(c, cfg, d, log).active.Some? && LoggedAll(c, cfg, d, log).checkpoint == d.checkpoint
    ensures NewestFiles(c, LoggedAll(c, cfg, d, log), SegmentLimit(cfg), log)
  {
    if log != [] {
      var before := log[..|log| - 1];
      LastAppend(c, cfg, d, log);
      AppendsFillTheFiles(c, cfg, d, before);
      hide LoggedAll;
      hide EachStartsAFile;
      hide NewestFiles;
      hide Logged;
      hide RotationDue;
      assert log[|log| - 1] in log;
      hide AllEncodable;
      LastFile(c, cfg, LoggedAll(c, cfg, d, before), log);
    }
  }

  lemma LastFile(c: Codec, cfg: Config, s: DiskState, log: seq<WalRecord>)
    requires log != [] && Encodable(log[|log| - 1])
    requires RotationOn(cfg) && s.active.Some? && NewestFiles(c, s, SegmentLimit(cfg), log[..|log| - 1])
    requires RotationDue(cfg, s) || ActiveBytes(s) == []
    ensures var e := Logged(c, cfg, s, log[|log| - 1]);
            e.active.Some? && e.checkpoint == s.checkpoint && NewestFiles(c, e, SegmentLimit(cfg), log)
  {
    OneMoreFile(c, cfg, s, log[..|log| - 1], log[|log| - 1]);
    hide NewestFiles;
    hide Logged;
    assert log[..|log| - 1] + [log[|log| - 1]] == log;
  }

  lemma LastAppend(c: Codec, cfg: Config, d: DiskState, log: seq<WalRecord>)
    requires AllEncodable(log) && log != [] && EachStartsAFile(c, cfg, d, log)
    ensures var before := log[..|log| - 1];
            && AllEncodable(before) && EachStartsAFile(c, cfg, d, before)
            && LoggedAll(c, cfg, d, log) == Logged(c, cfg, LoggedAll(c, cfg, d, before), log[|log| - 1])
            && (RotationDue(cfg, LoggedAll(c, cfg, d, before)) || ActiveBytes(LoggedAll(c, cfg, d, before)) == [])
  {
    hide Logged;
    hide RotationDue;
  }

  lemma OneMoreFile(c: Codec, cfg: Config, s: DiskState, before: seq<WalRecord>, r: WalRecord)
    requires RotationOn(cfg) && s.active.Some? && Encodable(r) && NewestFiles(c, s, SegmentLimit(cfg), before)
    requires RotationDue(cfg, s) || ActiveBytes(s) == []
    ensures Logged(c, cfg, s, r).active.Some? && Logged(c, cfg, s, r).checkpoint == s.checkpoint
    ensures NewestFiles(c, Logged(c, cfg, s, r), SegmentLimit(cfg), before + [r])
  {
    hide RotateSteps;
    assert [] + c.Frame(r) == c.Frame(r);
    if RotationDue(cfg, s) {
      RotationAges(s, SegmentLimit(cfg));
      NextFile(c, s, Rotated(cfg, s), SegmentLimit(cfg), before, r);
    } else {
      assert before == [];
    }
  }

  lemma NextFile(c: Codec, s: DiskState, rotated: DiskState, n: nat, before: seq<WalRecord>, r: WalRecord)
    requires Encodable(r) && NewestFiles(c, s, n, before) && s.active.Some?
    requires 1 in rotated.segments && rotated.segments[1] == s.active.value
    requires forall i: nat :: 2 <= i <= n ==> MovedUp(s, rotated, i)
    ensures NewestFiles(c, WithActive(rotated, c.Frame(r)), n, before + [r])
  {
    forall i: nat | 1 <= i <= n && i < |before| + 1
      ensures HoldsRecord(c, WithActive(rotated, c.Frame(r)), before + [r], i)
    {
      if i > 1 {
        assert HoldsRecord(c, s, before, i - 1) && MovedUp(s, rotated, i);
      }
    }
  }

  lemma {:induction false} FilesInOrder(c: Codec, d: DiskState, n: nat, log: seq<WalRecord>)
    requires AllEncodable(log) && n < |log|
    requires forall i: nat :: 1 <= i <= n ==> HoldsRecord(c, d, log, i)
    ensures OldestFirst(d.segments, n) == EncodeAll(c, log[|log| - 1 - n..|log| - 1])
  {
    var last := |log| - 1;
    if n == 0 {
      assert log[last..last] == [];
    } else {
      FilesInOrder(c, d, n - 1, log);
      assert HoldsRecord(c, d, log, n);
      assert log[last - n..last][1..] == log[last - (n - 1)..last];
      assert log[last - n..last][0] == log[last - n];
    }
  }

  /** With N segments, N + 1 appends that each start a file leave nothing else in the log: it holds exactly their
      records, however large the log was before and whether or not a checkpoint covers what was in it. */
  lemma RotationForgets(c: Codec, cfg: Config, d: DiskState, log: seq<WalRecord>)
    requires RotationOn(cfg) && d.active.Some? && AllEncodable(log) && EachStartsAFile(c, cfg, d, log)
    requires |log| > SegmentLimit(cfg)
    ensures var e := LoggedAll(c, cfg, d, log);
            var newest := log[|log| - 1 - SegmentLimit(cfg)..];
            && ChronologicalBytes(e, SegmentLimit(cfg)) == EncodeAll(c, newest)
            && (RotationDue(cfg, e) <==> |EncodeAll(c, newest)| >= cfg.maxSegmentSize)
  {
    hide LoggedAll;
    hide EachStartsAFile;
    hide EncodeAll;
    hide NewestFiles;
    var e := LoggedAll(c, cfg, d, log);
    AppendsFillTheFiles(c, cfg, d, log);
    NewestBytes(c, e, SegmentLimit(cfg), log);
    SizeIsThatOfTheLog(cfg, e);
  }

  lemma NewestBytes(c: Codec, e: DiskState, n: nat, log: seq<WalRecord>)
    requires AllEncodable(log) && n < |log| && NewestFiles(c, e, n, log)
    ensures ChronologicalBytes(e, n) == EncodeAll(c, log[|log| - 1 - n..])
  {
    var older, newest := log[|log| - 1 - n..|log| - 1], log[|log| - 1];
    FilesInOrder(c, e, n, log);
    OldestThenNewest(c, e, n, older, newest);
    NewestLast(log, n);
    hide OldestFirst;
    hide EncodeAll;
    hide HoldsRecord;
    hide ChronologicalBytes;
  }

  lemma OldestThenNewest(c: Codec, e: DiskState, n: nat, older: seq<WalRecord>, newest: WalRecord)
    requires AllEncodable(older) && Encodable(newest)
    requires OldestFirst(e.segments, n) == EncodeAll(c, older) && e.active == Some(c.Frame(newest))
    ensures ChronologicalBytes(e, n) == EncodeAll(c, older + [newest])
  {
    OneMoreFrame(c, older, newest);
    hide OldestFirst;
    hide EncodeAll;
  }

  lemma NewestLast<T>(log: seq<T>, n: nat)
    requires n < |log|
    ensures log[|log| - 1 - n..] == log[|log| - 1 - n..|log| - 1] + [log[|log| - 1]]
  {
  }

  lemma OneMoreFrame(c: Codec, log: seq<WalRecord>, r: WalRecord)
    requires AllEncodable(log) && Encodable(r)
    ensures EncodeAll(c, log + [r]) == EncodeAll(c, log) + c.Frame(r)
  {
    EncodeAllConcat(c, log, [r]);
    assert [r][1..] == [];
  }

  lemma AppendGrows(c: Codec, cfg: Config, d: DiskState, r: WalRecord)
    requires Encodable(r)
    ensures WalSize(cfg, Logged(c, cfg, d, r)) == WalSize(cfg, Rotated(cfg, d)) + |c.Frame(r)|
  {
    var rotated := Rotated(cfg, d);
    SizeIsThatOfTheLog(cfg, rotated);
    SizeIsThatOfTheLog(cfg, Logged(c, cfg, d, r));
  }

  const ONE_SEGMENT := Config(true, "wal", false, 0, 60, 1)

  /** So rotation does not go on for ever: a log of 60 bytes makes the next two appends rotate, and the third does
      not, because by then the large file is gone. */
  lemma RotationStopsAgain(c: Codec, large: seq<Byte>, q: WalRecord, r: WalRecord)
    requires |large| == 60 && Encodable(q) && Encodable(r) && |c.Frame(q)| == |c.Frame(r)| == 28
    ensures var d := DiskState(None, map[], Some(large));
            && RotationDue(ONE_SEGMENT, d)
            && RotationDue(ONE_SEGMENT, LoggedAll(c, ONE_SEGMENT, d, [q]))
            && !RotationDue(ONE_SEGMENT, LoggedAll(c, ONE_SEGMENT, d, [q, r]))
  {
    var d := DiskState(None, map[], Some(large));
    SizeOfOneFile(large);
    RotationFreesTheDiscarded(ONE_SEGMENT, d);
    AppendGrows(c, ONE_SEGMENT, d, q);
    TwoAppends(c, ONE_SEGMENT, d, q, r);
    hide WalSize;
    hide Logged;
    hide LoggedAll;
    hide EachStartsAFile;
    RotationForgets(c, ONE_SEGMENT, d, [q, r]);
    assert [q, r][0..] == [] + [q] + [r];
    OneMoreFrame(c, [], q);
    OneMoreFrame(c, [] + [q], r);
  }

  lemma TwoAppends(c: Codec, cfg: Config, d: DiskState, q: WalRecord, r: WalRecord)
    requires Encodable(q) && Encodable(r) && RotationDue(cfg, d) && RotationDue(cfg, Logged(c, cfg, d, q))
    ensures LoggedAll(c, cfg, d, [q]) == Logged(c, cfg, d, q)
    ensures EachStartsAFile(c, cfg, d, [q, r])
  {
    hide Logged;
    hide RotationDue;
    assert [q][..0] == [] && [q, r][..1] == [q];
    assert LoggedAll(c, cfg, d, []) == d;
    assert EachStartsAFile(c, cfg, d, []) && EachStartsAFile(c, cfg, d, [q]);
  }

  lemma SizeOfOneFile(bytes: seq<Byte>)
    ensures WalSize(ONE_SEGMENT, DiskState(None, map[], Some(bytes))) == |bytes|
  {
    var d := DiskState(None, map[], Some(bytes));
    assert SegmentsSize(d, 0) == 0;
    assert SegmentsSize(d, 1) == 0;
  }
}

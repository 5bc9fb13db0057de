/** Whole runs of the engine: mutations, checkpoints, closes and reopens in any order, with the
    process dying between any two disk steps. */
module EngineRuns {
  import opened Common
  import opened WalCodec
  import opened WalReader
  import opened WalWriter
  import opened Storage
  import opened DiskModel
  import opened Rotation
  import opened EngineSpec
  import opened RecoveryOrder
  import opened Recovery
  import KvLog

  /** Stuck is a closed engine whose log ends inside a record. */
  datatype Phase = Down | Up(store: Store) | Stuck

  datatype System = System(disk: DiskState, phase: Phase, clock: int)

  const INITIAL := System(EMPTY_DISK, Down, -TWO_63)

  /** How a mutation ended: acknowledged, refused by the encoder, or cut off by a crash after some of
      its disk steps, when that many bytes of its record had reached the log (none, if it was about to be refused). */
  datatype Outcome = Acked | Refused | Crashed(step: nat, reached: nat)

  datatype Event =
    | Open
    | Mutate(record: WalRecord, version: nat, cpNow: int, cuts: seq<nat>, outcome: Outcome)
    | Tick(now: int, crash: Option<nat>)
    | Close(now: int, crash: Option<nat>)
    | PowerLoss

  function FrameSize(r: WalRecord): nat {
    FIXED_HEADER_SIZE + |r.key| + |r.value| + CHECKSUM_SIZE
  }

  /** The mutation counts: it was acknowledged, or its whole record had reached the log when the process died. */
  predicate Counts(e: Event) {
    e.Mutate? && (e.outcome == Acked || (e.outcome.Crashed? && e.outcome.reached == FrameSize(e.record)))
  }

  /** What the engine promises to hold after a run: all acknowledged mutations, and those in flight
      whose record reached the log. */
  function Promised(events: seq<Event>): View {
    if events == [] then map[]
    else
      var before := Promised(events[..|events| - 1]);
      var e := events[|events| - 1];
      if Counts(e) then KvLog.ApplyOne(before, Mutation(e.record)) else before
  }

  // ---- one event -----------------------------------------------------------------------

  /** How many bytes of the record are in the log after some of the steps. */
  function Reached(cfg: Config, d: DiskState, cuts: seq<nat>, step: nat): nat {
    var rotation := |RotationSteps(cfg, d)|;
    if step <= rotation || cuts == [] then 0 else cuts[Min(step - rotation, |cuts|) - 1]
  }

  function Until(steps: seq<DiskState>, crash: Option<nat>): seq<DiskState> {
    if crash.Some? then Take(steps, crash.value) else steps
  }

  /** Runs are those of an engine with a log. */
  ghost predicate Possible(c: Codec, cfg: Config, s: System, e: Event) {
    Durable(cfg) &&
    match e
    case Open => true
    case PowerLoss => true
    case Tick(_, _) => s.phase.Up?
    case Close(_, _) => s.phase.Up?
    case Mutate(r, version, cpNow, cuts, outcome) =>
      && s.phase.Up? && r.key != [] && ValidOperation(r.op)
      && match outcome
         case Refused => !Encodable(r)
         case Acked => Completes(c, r, cuts)
         case Crashed(step, reached) =>
           if Encodable(r) then
             && Completes(c, r, cuts)
             && step <= |MutateSteps(c, cfg, s.disk, s.phase.store, r, version, cpNow, cuts)|
             && reached == Reached(cfg, s.disk, cuts, step)
           else step <= |RotationSteps(cfg, s.disk)| && reached == 0
  }

  ghost function Exec(c: Codec, cfg: Config, s: System, e: Event): System
    requires Possible(c, cfg, s, e)
  {
    match e
    case PowerLoss => s.(phase := if s.phase.Up? then Down else s.phase)
    case Open =>
      if s.phase.Up? then s
      else
        var reopened := WithActive(s.disk, ActiveBytes(s.disk));
        (match Recover(c, cfg, s.disk)
         case Ok(store) => System(reopened, Up(store), s.clock)
         case Err(_) => System(reopened, s.phase, s.clock))
    case Tick(now, crash) =>
      var steps := Until(MaybeCheckpointSteps(cfg, s.disk, s.phase.store, now, true), crash);
      System(After(s.disk, steps), if crash.Some? then Down else s.phase, now)
    case Close(now, crash) =>
      System(After(s.disk, Until(CloseSteps(cfg, s.disk, s.phase.store, now), crash)), Down, now)
    case Mutate(r, version, cpNow, cuts, outcome) =>
      match outcome
      case Refused => System(Rotated(cfg, s.disk), s.phase, cpNow)
      case Acked =>
        var steps := MutateSteps(c, cfg, s.disk, s.phase.store, r, version, cpNow, cuts);
        System(After(s.disk, steps), Up(MutatedStore(s.phase.store, r, version)), cpNow)
      case Crashed(step, reached) =>
        var steps := if Encodable(r) then MutateSteps(c, cfg, s.disk, s.phase.store, r, version, cpNow, cuts)
                     else RotationSteps(cfg, s.disk);
        System(After(s.disk, steps[..step]), if 0 < reached < FrameSize(r) then Stuck else Down, cpNow)
  }

  // ---- what is assumed of the environment ------------------------------------------------

  /** The clock does not run backwards and stays within 64-bit nanoseconds. */
  predicate Clocked(s: System, e: Event) {
    match e
    case Open => true
    case PowerLoss => true
    case Tick(now, _) => s.clock <= now
    case Close(now, _) => s.clock <= now
    case Mutate(r, _, cpNow, _, _) => s.clock <= r.timestamp <= cpNow && InInt64(r.timestamp)
  }

  /** With rotation: what is discarded and what a truncation leaves behind is harmless, and the engine is reopened
      only on disks where the replay order does not matter. */
  ghost predicate RotationSafe(c: Codec, cfg: Config, s: System, e: Event)
    requires Possible(c, cfg, s, e)
  {
    match e
    case PowerLoss => true
    case Close(_, _) => true
    case Open => s.phase.Down? ==> OrderDoesNotMatter(c, cfg, s.disk)
    case Tick(now, _) =>
      CheckpointDue(cfg, s.disk, true) ==> TruncationIsHarmless(c, cfg, s.disk, Live(s.phase.store), now)
    case Mutate(r, version, cpNow, _, _) =>
      && (RotationDue(cfg, s.disk) ==> DiscardIsHarmless(c, cfg, s.disk))
      && (Encodable(r) && CheckpointDue(cfg, Logged(c, cfg, s.disk, r), false) ==>
            TruncationIsHarmless(c, cfg, Logged(c, cfg, s.disk, r), Live(MutatedStore(s.phase.store, r, version)),
                cpNow))
  }

  ghost predicate ClockedRun(c: Codec, cfg: Config, events: seq<Event>)
    decreases |events|, 0
  {
    events == [] ||
    var before := events[..|events| - 1];
    && ClockedRun(c, cfg, before)
    && Possible(c, cfg, Run(c, cfg, before), events[|events| - 1])
    && Clocked(Run(c, cfg, before), events[|events| - 1])
  }

  ghost function Run(c: Codec, cfg: Config, events: seq<Event>): System
    requires ClockedRun(c, cfg, events)
    decreases |events|, 1
  {
    if events == [] then INITIAL
    else Exec(c, cfg, Run(c, cfg, events[..|events| - 1]), events[|events| - 1])
  }

  ghost predicate RotationSafeRun(c: Codec, cfg: Config, events: seq<Event>)
    requires ClockedRun(c, cfg, events)
  {
    events == [] ||
    var before := events[..|events| - 1];
    && RotationSafeRun(c, cfg, before)
    && RotationSafe(c, cfg, Run(c, cfg, before), events[|events| - 1])
  }

  // ---- the invariant -------------------------------------------------------------------------

  ghost predicate Inv(c: Codec, cfg: Config, s: System, view: View) {
    match s.phase
    case Down => Healthy(c, cfg, s.disk, view, s.clock)
    case Up(store) => Healthy(c, cfg, s.disk, view, s.clock) && s.disk.active.Some? && Live(store) == view
    case Stuck => Recover(c, cfg, s.disk) == Err(UnexpectedEOF)
  }

  lemma Later(c: Codec, cfg: Config, d: DiskState, view: View, clock: int, clock': int)
    requires Healthy(c, cfg, d, view, clock) && clock <= clock'
    ensures Healthy(c, cfg, d, view, clock')
  {
    hide ReadAll;
  }

  lemma InitiallyHealthy(c: Codec, cfg: Config)
    ensures Inv(c, cfg, INITIAL, map[])
  {
    NoSegments(c, map[], SegmentLimit(cfg));
    EmptyFile(c);
    assert OldestFirst(EMPTY_DISK.segments, SegmentLimit(cfg)) == [];
  }

  lemma {:induction false} NoSegments(c: Codec, segments: map<nat, seq<Byte>>, n: nat)
    requires segments == map[]
    ensures OldestFirst(segments, n) == []
  {
    if n > 0 {
      NoSegments(c, segments, n - 1);
    }
  }

  lemma LiveAfterMutation(store: Store, r: WalRecord, version: nat)
    requires ValidOperation(r.op)
    ensures Live(MutatedStore(store, r, version)) == KvLog.ApplyOne(Live(store), Mutation(r))
  {
  }

  /** Opening only touches the active log, and only by creating it. */
  lemma OpeningKeepsHealth(c: Codec, cfg: Config, d: DiskState, view: View, clock: int)
    requires Healthy(c, cfg, d, view, clock)
    ensures Healthy(c, cfg, WithActive(d, ActiveBytes(d)), view, clock)
  {
    hide ReadAll;
    assert ActiveBytes(WithActive(d, ActiveBytes(d))) == ActiveBytes(d);
  }

  lemma OpenStep(c: Codec, cfg: Config, s: System, view: View)
    requires Durable(cfg) && Inv(c, cfg, s, view) && RotationSafe(c, cfg, s, Open)
    ensures Inv(c, cfg, Exec(c, cfg, s, Open), view)
  {
    hide ReadAll;
    if s.phase.Down? {
      OpeningKeepsHealth(c, cfg, s.disk, view, s.clock);
      RecoversChronologicallyIff(c, cfg, s.disk);
    } else if s.phase.Stuck? {
      var e := WithActive(s.disk, ActiveBytes(s.disk));
      assert ActiveBytes(e) == ActiveBytes(s.disk);
      SegmentsDependOn(c, s.disk, e, BaseStore(s.disk), SegmentLimit(cfg));
    }
  }

  lemma TickStep(c: Codec, cfg: Config, s: System, view: View, now: int, crash: Option<nat>)
    requires Durable(cfg) && Inv(c, cfg, s, view) && s.phase.Up?
    requires Clocked(s, Tick(now, crash)) && RotationSafe(c, cfg, s, Tick(now, crash))
    ensures Inv(c, cfg, Exec(c, cfg, s, Tick(now, crash)), view)
  {
    hide ReadAll;
    var steps := MaybeCheckpointSteps(cfg, s.disk, s.phase.store, now, true);
    Later(c, cfg, s.disk, view, s.clock, now);
    if CheckpointDue(cfg, s.disk, true) {
      CheckpointKeepsHealth(c, cfg, s.disk, view, s.clock, s.phase.store, now, true);
    }
    AfterIsAmong(s.disk, Until(steps, crash));
    assert forall x :: x in Until(steps, crash) ==> x in steps;
  }

  lemma CloseStep(c: Codec, cfg: Config, s: System, view: View, now: int, crash: Option<nat>)
    requires Durable(cfg) && Inv(c, cfg, s, view) && s.phase.Up?
    requires Clocked(s, Close(now, crash))
    ensures Inv(c, cfg, Exec(c, cfg, s, Close(now, crash)), view)
  {
    hide ReadAll;
    var steps := CloseSteps(cfg, s.disk, s.phase.store, now);
    Later(c, cfg, s.disk, view, s.clock, now);
    CheckpointKeepsHealth(c, cfg, s.disk, view, s.clock, s.phase.store, now, false);
    AfterIsAmong(s.disk, Until(steps, crash));
    assert forall x :: x in Until(steps, crash) ==> x in steps;
  }

  lemma AfterIsAmong(d: DiskState, steps: seq<DiskState>)
    ensures After(d, steps) == d || After(d, steps) in steps
  {
  }

  /** All states of a mutation: before its record is complete they are healthy for the old view or torn,
      afterwards they are healthy for the new one. */
  lemma MutateStates(c: Codec, cfg: Config, s: System, view: View, e: Event, step: nat)
    requires e.Mutate? && Inv(c, cfg, s, view) && s.phase.Up? && ValidOperation(e.record.op)
    requires Completes(c, e.record, e.cuts)
    requires Clocked(s, e) && e.outcome.Refused? == !Encodable(e.record)
    requires RotationDue(cfg, s.disk) ==> DiscardIsHarmless(c, cfg, s.disk)
    requires var d := Logged(c, cfg, s.disk, e.record);
             CheckpointDue(cfg, d, false) ==>
               TruncationIsHarmless(c, cfg, d, Live(MutatedStore(s.phase.store, e.record, e.version)), e.cpNow)
    requires step <= |MutateSteps(c, cfg, s.disk, s.phase.store, e.record, e.version, e.cpNow, e.cuts)|
    ensures var d := After(s.disk, MutateSteps(c, cfg, s.disk, s.phase.store, e.record, e.version, e.cpNow,
              e.cuts)[..step]);
            var reached := Reached(cfg, s.disk, e.cuts, step);
            if reached == 0 then Healthy(c, cfg, d, view, e.cpNow)
            else if reached == FrameSize(e.record) then
              && Healthy(c, cfg, d, KvLog.ApplyOne(view, Mutation(e.record)), e.cpNow)
              && d.active.Some?
            else reached < FrameSize(e.record) && Recover(c, cfg, d) == Err(UnexpectedEOF)
  {
    hide ReadAll;
    hide Healthy;
    hide MutateSteps;
    hide TruncationIsHarmless;
    hide DiscardIsHarmless;
    hide Recover;
    var r := e.record;
    var rotated := Rotated(cfg, s.disk);
    var logged := Logged(c, cfg, s.disk, r);
    var next := KvLog.ApplyOne(view, Mutation(r));
    var store := MutatedStore(s.phase.store, r, e.version);
    var rotation := RotationSteps(cfg, s.disk);
    RotationKeepsHealth(c, cfg, s.disk, view, s.clock);
    AppendKeepsHealth(c, cfg, rotated, view, s.clock, r);
    MutateStateAt(c, cfg, s.disk, s.phase.store, e, step);
    if step <= |rotation| {
      AfterIsAmong(s.disk, rotation[..step]);
      Later(c, cfg, After(s.disk, rotation[..step]), view, s.clock, e.cpNow);
    } else if step <= |rotation| + |e.cuts| {
      var cut := e.cuts[step - |rotation| - 1];
      if cut == 0 {
        Later(c, cfg, rotated, view, s.clock, e.cpNow);
      } else if cut == |c.Frame(r)| {
        Later(c, cfg, logged, next, r.timestamp, e.cpNow);
      } else {
        TornAppendRefusesToOpen(c, cfg, rotated, view, s.clock, r, cut);
      }
    } else {
      LiveAfterMutation(s.phase.store, r, e.version);
      CheckpointKeepsHealth(c, cfg, logged, next, r.timestamp, store, e.cpNow, true);
    }
  }

  /** The state that a mutation has reached after some of its steps. */
  lemma MutateStateAt(c: Codec, cfg: Config, d: DiskState, store: Store, e: Event, step: nat)
    requires e.Mutate? && Completes(c, e.record, e.cuts)
    requires step <= |MutateSteps(c, cfg, d, store, e.record, e.version, e.cpNow, e.cuts)|
    ensures var rotation := RotationSteps(cfg, d);
            var rotated := Rotated(cfg, d);
            var logged := Logged(c, cfg, d, e.record);
            var checkpoint := MaybeCheckpointSteps(cfg, logged, MutatedStore(store, e.record, e.version), e.cpNow,
                false);
            var state := After(d, MutateSteps(c, cfg, d, store, e.record, e.version, e.cpNow, e.cuts)[..step]);
            if step <= |rotation| then state == After(d, rotation[..step])
            else if step <= |rotation| + |e.cuts| then
              var cut := e.cuts[step - |rotation| - 1];
              && state == WithActive(rotated, ActiveBytes(rotated) + c.Frame(e.record)[..cut])
              && (cut == 0 && rotated.active.Some? ==> state == rotated)
              && (cut == |c.Frame(e.record)| ==> state == logged)
            else checkpoint != [] && state in checkpoint && state.active.Some? && logged.active.Some?
  {
    hide ReadAll;
    hide RotationSteps;
    var rotation := RotationSteps(cfg, d);
    var rotated := Rotated(cfg, d);
    var frame := c.Frame(e.record);
    var append := AppendSteps(rotated, frame, e.cuts);
    var checkpoint := MaybeCheckpointSteps(cfg, Logged(c, cfg, d, e.record), MutatedStore(store, e.record, e.version),
        e.cpNow, false);
    assert frame[..0] == [] && frame[..|frame|] == frame;
    assert ActiveBytes(rotated) + [] == ActiveBytes(rotated);
    StepOfThree(d, rotation, append, checkpoint, step);
  }

  lemma StepOfThree(d: DiskState, a: seq<DiskState>, b: seq<DiskState>, c: seq<DiskState>, step: nat)
    requires step <= |a + b + c|
    ensures After(d, (a + b + c)[..step]) ==
            if step <= |a| then After(d, a[..step])
            else if step <= |a| + |b| then b[step - |a| - 1] else c[step - |a| - |b| - 1]
  {
    if step <= |a| {
      assert (a + b + c)[..step] == a[..step];
    } else {
      assert (a + b + c)[..step][step - 1] == (a + b + c)[step - 1];
    }
  }

  lemma AcknowledgedIsLogged(c: Codec, cfg: Config, d: DiskState, store: Store, e: Event)
    requires e.Mutate? && Completes(c, e.record, e.cuts)
    ensures Reached(cfg, d, e.cuts, |MutateSteps(c, cfg, d, store, e.record, e.version, e.cpNow, e.cuts)|) ==
              FrameSize(e.record)
  {
    hide ReadAll;
    hide RotationSteps;
  }

  lemma MutateStep(c: Codec, cfg: Config, s: System, view: View, e: Event)
    requires e.Mutate? && Inv(c, cfg, s, view) && Possible(c, cfg, s, e)
    requires Clocked(s, e) && RotationSafe(c, cfg, s, e)
    ensures Inv(c, cfg, Exec(c, cfg, s, e), if Counts(e) then KvLog.ApplyOne(view, Mutation(e.record)) else view)
  {
    hide ReadAll;
    hide Healthy;
    hide MutateSteps;
    match e.outcome
    case Refused =>
      RotationKeepsHealth(c, cfg, s.disk, view, s.clock);
      Later(c, cfg, Rotated(cfg, s.disk), view, s.clock, e.cpNow);
    case Acked =>
      var steps := MutateSteps(c, cfg, s.disk, s.phase.store, e.record, e.version, e.cpNow, e.cuts);
      MutateStates(c, cfg, s, view, e, |steps|);
      AcknowledgedIsLogged(c, cfg, s.disk, s.phase.store, e);
      assert steps[..|steps|] == steps;
      LiveAfterMutation(s.phase.store, e.record, e.version);
    case Crashed(step, reached) =>
      if Encodable(e.record) {
        MutateStates(c, cfg, s, view, e, step);
      } else {
        RotationKeepsHealth(c, cfg, s.disk, view, s.clock);
        AfterIsAmong(s.disk, RotationSteps(cfg, s.disk)[..step]);
        Later(c, cfg, After(s.disk, RotationSteps(cfg, s.disk)[..step]), view, s.clock, e.cpNow);
      }
  }

  lemma {:induction false} RunInvariant(c: Codec, cfg: Config, events: seq<Event>)
    requires ClockedRun(c, cfg, events) && RotationSafeRun(c, cfg, events)
    ensures Inv(c, cfg, Run(c, cfg, events), Promised(events))
    decreases |events|
  {
    hide ReadAll;
    if events == [] {
      InitiallyHealthy(c, cfg);
    } else {
      var before := events[..|events| - 1];
      var e := events[|events| - 1];
      var s := Run(c, cfg, before);
      RunInvariant(c, cfg, before);
      match e
      case Open => OpenStep(c, cfg, s, Promised(before));
      case PowerLoss =>
      case Tick(now, crash) => TickStep(c, cfg, s, Promised(before), now, crash);
      case Close(now, crash) => CloseStep(c, cfg, s, Promised(before), now, crash);
      case Mutate(_, _, _, _, _) => MutateStep(c, cfg, s, Promised(before), e);
    }
  }

  // ---- what is assumed of rotation is exact -----------------------------------------------------

  /** At none of the disk steps of an event, wherever the process may die, does the log stand for anything
      but what is promised, and opening the engine finds just that. */
  ghost predicate Faithful(c: Codec, cfg: Config, s: System, view: View, e: Event)
    requires Possible(c, cfg, s, e)
  {
    match e
    case PowerLoss => true
    case Close(now, _) => StandsFor(c, cfg, CloseSteps(cfg, s.disk, s.phase.store, now), view)
    case Open => s.phase.Down? ==> Recover(c, cfg, s.disk).Ok? && Live(Recover(c, cfg, s.disk).value) == view
    case Tick(now, _) => StandsFor(c, cfg, MaybeCheckpointSteps(cfg, s.disk, s.phase.store, now, true), view)
    case Mutate(r, version, cpNow, _, _) =>
      && StandsFor(c, cfg, RotationSteps(cfg, s.disk), view)
      && (Encodable(r) ==>
            StandsFor(c, cfg, MaybeCheckpointSteps(cfg, Logged(c, cfg, s.disk, r),
                MutatedStore(s.phase.store, r, version), cpNow, false),
                      KvLog.ApplyOne(view, Mutation(r))))
  }

  ghost predicate StandsFor(c: Codec, cfg: Config, steps: seq<DiskState>, view: View) {
    forall d :: d in steps ==> ChronologicalView(c, d, SegmentLimit(cfg)) == view
  }

  /** From a healthy system an event is faithful exactly when it is safe. */
  lemma SafeEventIff(c: Codec, cfg: Config, s: System, view: View, e: Event)
    requires Inv(c, cfg, s, view) && Possible(c, cfg, s, e) && Clocked(s, e)
    ensures RotationSafe(c, cfg, s, e) <==> Faithful(c, cfg, s, view, e)
  {
    hide ReadAll;
    hide TruncationIsHarmless;
    hide DiscardIsHarmless;
    hide OrderDoesNotMatter;
    match e
    case PowerLoss =>
    case Open =>
      if s.phase.Down? {
        RecoversChronologicallyIff(c, cfg, s.disk);
      }
    case Close(now, _) =>
      CheckpointKeepsHealth(c, cfg, s.disk, view, s.clock, s.phase.store, now, false);
    case Tick(now, _) =>
      CheckpointKeepsViewIff(c, cfg, s.disk, view, s.clock, s.phase.store, now);
    case Mutate(_, _, _, _, _) => SafeMutationIff(c, cfg, s, view, e);
  }

  lemma SafeMutationIff(c: Codec, cfg: Config, s: System, view: View, e: Event)
    requires e.Mutate? && Inv(c, cfg, s, view) && Possible(c, cfg, s, e) && Clocked(s, e)
    ensures RotationSafe(c, cfg, s, e) <==> Faithful(c, cfg, s, view, e)
  {
    hide ReadAll;
    hide TruncationIsHarmless;
    hide DiscardIsHarmless;
    hide RotationSteps;
    hide CheckpointSteps;
    var r := e.record;
    RotationKeepsViewIff(c, cfg, s.disk);
    if Encodable(r) && (RotationDue(cfg, s.disk) ==> DiscardIsHarmless(c, cfg, s.disk)) {
      hide Healthy;
      var store := MutatedStore(s.phase.store, r, e.version);
      RotationKeepsHealth(c, cfg, s.disk, view, s.clock);
      AppendKeepsHealth(c, cfg, Rotated(cfg, s.disk), view, s.clock, r);
      LiveAfterMutation(s.phase.store, r, e.version);
      CheckpointKeepsViewIff(c, cfg, Logged(c, cfg, s.disk, r), KvLog.ApplyOne(view, Mutation(r)), r.timestamp, store,
          e.cpNow);
    }
  }

  ghost predicate FaithfulRun(c: Codec, cfg: Config, events: seq<Event>)
    requires ClockedRun(c, cfg, events)
  {
    events == [] ||
    var before := events[..|events| - 1];
    && FaithfulRun(c, cfg, before)
    && Faithful(c, cfg, Run(c, cfg, before), Promised(before), events[|events| - 1])
  }

  /** A run with rotation is faithful throughout exactly when each of its events was safe. */
  lemma {:induction false} SafeRunIff(c: Codec, cfg: Config, events: seq<Event>)
    requires ClockedRun(c, cfg, events)
    ensures RotationSafeRun(c, cfg, events) <==> FaithfulRun(c, cfg, events)
    decreases |events|
  {
    hide ReadAll;
    hide RotationSafe;
    hide Faithful;
    if events != [] {
      var before := events[..|events| - 1];
      SafeRunIff(c, cfg, before);
      if RotationSafeRun(c, cfg, before) {
        RunInvariant(c, cfg, before);
        SafeEventIff(c, cfg, Run(c, cfg, before), Promised(before), events[|events| - 1]);
      }
    }
  }

  // ---- the main results --------------------------------------------------------------------------

  /** After every run a disk that is not torn opens, and it opens with exactly the promised view if and only
      if the replay order of its segments does not matter; a torn one refuses to open. */
  lemma EveryRunRecovers(c: Codec, cfg: Config, events: seq<Event>)
    requires ClockedRun(c, cfg, events) && RotationSafeRun(c, cfg, events)
    ensures var s := Run(c, cfg, events);
            && (s.phase.Up? ==> Live(s.phase.store) == Promised(events))
            && (s.phase.Stuck? ==> Recover(c, cfg, s.disk) == Err(UnexpectedEOF))
            && (!s.phase.Stuck? ==>
                  && Recover(c, cfg, s.disk).Ok?
                  && (Live(Recover(c, cfg, s.disk).value) == Promised(events) <==> OrderDoesNotMatter(c, cfg, s.disk)))
  {
    hide ReadAll;
    RunInvariant(c, cfg, events);
    var s := Run(c, cfg, events);
    if !s.phase.Stuck? {
      RecoversChronologicallyIff(c, cfg, s.disk);
    }
  }

  // ---- without rotation ------------------------------------------------------------------------------

  lemma NoSegmentsAreSafe(c: Codec, cfg: Config, d: DiskState, view: View, now: int)
    requires d.segments == map[]
    ensures OrderDoesNotMatter(c, cfg, d) && TruncationIsHarmless(c, cfg, d, view, now)
  {
    NoSegments(c, d.segments, SegmentLimit(cfg));
    EmptyFile(c);
    NothingUncovered(c, d, SegmentLimit(cfg));
    LaterStampIsHarmless(c, cfg, d, view, now);
  }

  lemma {:induction false} NothingUncovered(c: Codec, d: DiskState, n: nat)
    requires d.segments == map[]
    ensures forall k: Key {:trigger KvLog.LowestPart(UncoveredSegments(c, d), n, k)} ::
              KvLog.LowestPart(UncoveredSegments(c, d), n, k) == 0
  {
    if n > 0 {
      NothingUncovered(c, d, n - 1);
      EmptyFile(c);
      assert UncoveredSegments(c, d)(n) == [];
    }
  }

  lemma StepWithoutRotation(c: Codec, cfg: Config, s: System, e: Event)
    requires Possible(c, cfg, s, e) && !RotationOn(cfg) && s.disk.segments == map[]
    ensures Exec(c, cfg, s, e).disk.segments == map[]
    ensures RotationSafe(c, cfg, s, e)
  {
    hide ReadAll;
    hide OrderDoesNotMatter;
    hide TruncationIsHarmless;
    NoSegmentsAreSafe(c, cfg, s.disk, map[], s.clock);
    match e
    case Open =>
    case PowerLoss =>
    case Close(_, _) =>
    case Tick(now, _) => NoSegmentsAreSafe(c, cfg, s.disk, Live(s.phase.store), now);
    case Mutate(r, version, cpNow, cuts, outcome) =>
      assert RotationSteps(cfg, s.disk) == [];
      if Encodable(r) {
        NoSegmentsAreSafe(c, cfg, Logged(c, cfg, s.disk, r), Live(MutatedStore(s.phase.store, r, version)), cpNow);
      }
  }

  lemma {:induction false} RotationOffIsSafe(c: Codec, cfg: Config, events: seq<Event>)
    requires ClockedRun(c, cfg, events) && !RotationOn(cfg)
    ensures Run(c, cfg, events).disk.segments == map[]
    ensures RotationSafeRun(c, cfg, events)
    decreases |events|
  {
    hide ReadAll;
    hide RotationSafe;
    if events != [] {
      var before := events[..|events| - 1];
      RotationOffIsSafe(c, cfg, before);
      StepWithoutRotation(c, cfg, Run(c, cfg, before), events[|events| - 1]);
    }
  }

  /** Crash recovery without rotation: assuming only a clock that does not run backwards, every run recovers the
      map of all acknowledged mutations, plus those in flight whose record reached the log. The one
      exception is a crash inside a record, after which the engine refuses to open. */
  lemma CrashRecoveryIsExact(c: Codec, cfg: Config, events: seq<Event>)
    requires ClockedRun(c, cfg, events) && !RotationOn(cfg)
    ensures var s := Run(c, cfg, events);
            match Recover(c, cfg, s.disk)
            case Ok(store) => !s.phase.Stuck? && Live(store) == Promised(events)
            case Err(error) => s.phase.Stuck? && error == UnexpectedEOF
  {
    hide ReadAll;
    var s := Run(c, cfg, events);
    RotationOffIsSafe(c, cfg, events);
    EveryRunRecovers(c, cfg, events);
    NoSegmentsAreSafe(c, cfg, s.disk, map[], s.clock);
  }
}

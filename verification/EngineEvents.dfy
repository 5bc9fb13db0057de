/** The engine object takes the steps that runs are made of (internal/storage/memory/engine.go). */
module EngineEvents {
  import opened Common
  import opened WalCodec
  import opened Storage
  import opened DiskModel
  import opened EngineSpec
  import opened Engine
  import opened EngineRuns

  /** A Put or Delete that the engine has acknowledged is an event of a run, and so is the same call cut off
      after any number of its disk steps. */
  lemma AcknowledgedCallIsAnEvent(engine: Engine, before: DiskState, store: Store, clock: int, r: WalRecord,
                                  version: nat,
                                  cpNow: int, cuts: seq<nat>, steps: seq<DiskState>, k: nat)
    requires engine.Mutated(before, store, r, version, cpNow, Result.Ok(()), cuts, steps)
    requires Durable(engine.cfg) && r.key != [] && ValidOperation(r.op) && k <= |steps|
    ensures var s := System(before, Up(store), clock);
            var done := Mutate(r, version, cpNow, cuts, Acked);
            && Possible(engine.codec, engine.cfg, s, done)
            && Exec(engine.codec, engine.cfg, s, done) == System(engine.disk.state, Up(engine.store), cpNow)
    ensures var s := System(before, Up(store), clock);
            var cut := Mutate(r, version, cpNow, cuts, Crashed(k, Reached(engine.cfg, before, cuts, k)));
            && Possible(engine.codec, engine.cfg, s, cut)
            && Exec(engine.codec, engine.cfg, s, cut).disk == After(before, steps[..k])
  {
    hide MutateSteps;
  }

  /** A call that the encoder refused is an event too: only the rotation before it has happened, or a part of it if the
      process died there. */
  lemma RefusedCallIsAnEvent(engine: Engine, before: DiskState, store: Store, clock: int, r: WalRecord, version: nat,
                             cpNow: int, cuts: seq<nat>, steps: seq<DiskState>, k: nat)
    requires engine.Mutated(before, store, r, version, cpNow, Err(EngineError.Log(CorruptedRecord)), cuts, steps)
    requires Durable(engine.cfg) && r.key != [] && ValidOperation(r.op) && k <= |steps|
    ensures var s := System(before, Up(store), clock);
            var refused := Mutate(r, version, cpNow, cuts, Refused);
            && Possible(engine.codec, engine.cfg, s, refused)
            && Exec(engine.codec, engine.cfg, s, refused) == System(engine.disk.state, Up(engine.store), cpNow)
    ensures var s := System(before, Up(store), clock);
            var cut := Mutate(r, version, cpNow, cuts, Crashed(k, 0));
            && Possible(engine.codec, engine.cfg, s, cut)
            && Exec(engine.codec, engine.cfg, s, cut) == System(After(before, steps[..k]), Down, cpNow)
  {
  }

  /** The disk after a part of some steps is where an event with that crash leaves it. */
  lemma UntilCrash(steps: seq<DiskState>, k: nat)
    requires k <= |steps|
    ensures Until(steps, Some(k)) == steps[..k] && Until(steps, None) == steps
  {
    assert steps[..|steps|] == steps;
  }

  /** Opening a closed engine is an event. */
  method OpenIsAnEvent(engine: Engine, ghost phase: Phase, ghost clock: int) returns (result: Result<(), EngineError>)
    requires engine.Valid() && !engine.open && Durable(engine.cfg) && !phase.Up?
    modifies engine, engine.disk
    ensures engine.Valid() && engine.open == result.Ok?
    ensures Exec(engine.codec, engine.cfg, System(old(engine.disk.state), phase, clock), Open) ==
            System(engine.disk.state, if result.Ok? then Up(engine.store) else phase, clock)
    ensures engine.disk.history == old(engine.disk.history) + [engine.disk.state]
  {
    result := engine.Open();
  }

  /** The maintenance checkpoint is an event, and so is its beginning if the process dies in it. */
  method TickIsAnEvent(engine: Engine, now: int, ghost clock: int) returns (ghost steps: seq<DiskState>)
    requires engine.Valid() && engine.open && Durable(engine.cfg)
    modifies engine.Footprint()
    ensures engine.Valid() && engine.open
    ensures engine.disk.history == old(engine.disk.history) + steps
    ensures var s := System(old(engine.disk.state), Up(old(engine.store)), clock);
            && Exec(engine.codec, engine.cfg, s, Tick(now, None)) == System(engine.disk.state, Up(engine.store), now)
            && forall k :: 0 <= k <= |steps| ==>
                 Exec(engine.codec, engine.cfg, s, Tick(now, Some(k))) ==
                 System(After(old(engine.disk.state), steps[..k]), Down, now)
  {
    steps := engine.MaybeCheckpoint(true, now);
    forall k | 0 <= k <= |steps|
      ensures Until(steps, Some(k)) == steps[..k]
    {
      UntilCrash(steps, k);
    }
  }

  /** Closing is an event, and so is its beginning if the process dies in it. */
  method CloseIsAnEvent(engine: Engine, now: int, ghost clock: int) returns (ghost steps: seq<DiskState>)
    requires engine.Valid() && engine.open && Durable(engine.cfg)
    modifies engine.Footprint()
    ensures engine.Valid() && !engine.open
    ensures engine.disk.history == old(engine.disk.history) + steps
    ensures var s := System(old(engine.disk.state), Up(old(engine.store)), clock);
            && Exec(engine.codec, engine.cfg, s, Close(now, None)) == System(engine.disk.state, Down, now)
            && forall k :: 0 <= k <= |steps| ==>
                 Exec(engine.codec, engine.cfg, s, Close(now, Some(k))) ==
                 System(After(old(engine.disk.state), steps[..k]), Down, now)
  {
    steps := engine.Close(now);
    forall k | 0 <= k <= |steps|
      ensures Until(steps, Some(k)) == steps[..k]
    {
      UntilCrash(steps, k);
    }
  }
}

/** The files the engine keeps: a checkpoint slot, numbered log segments and the active log.
    Every primitive operation is one durable step, and the sequence of states the disk has
    gone through is what a crash may leave behind. */
module DiskModel {
  import opened Common
  import opened WalCodec
  import opened Storage

  datatype Snapshot = Snapshot(records: Store, timestamp: int)

  datatype DiskState = DiskState(checkpoint: Option<Snapshot>, segments: map<nat, seq<Byte>>, active: Option<seq<Byte>>)

  const EMPTY_DISK := DiskState(None, map[], None)

  function ActiveBytes(d: DiskState): seq<Byte> {
    if d.active.Some? then d.active.value else []
  }

  function SegmentBytes(d: DiskState, i: nat): seq<Byte> {
    if i in d.segments then d.segments[i] else []
  }

  /** The total size of segments 1 to n. */
  function SegmentsSize(d: DiskState, n: nat): nat {
    if n == 0 then 0 else SegmentsSize(d, n - 1) + |SegmentBytes(d, n)|
  }

  function WithActive(d: DiskState, bytes: seq<Byte>): DiskState {
    d.(active := Some(bytes))
  }

  function WithoutSegment(d: DiskState, i: nat): DiskState {
    d.(segments := d.segments - {i})
  }

  function MovedSegment(d: DiskState, from: nat, to: nat): DiskState
    requires from in d.segments
  {
    d.(segments := (d.segments - {from})[to := d.segments[from]])
  }

  function ActiveMoved(d: DiskState, to: nat): DiskState
    requires d.active.Some?
  {
    d.(segments := d.segments[to := d.active.value], active := None)
  }

  function Checkpointed(d: DiskState, store: Store, now: int): DiskState {
    d.(checkpoint := Some(Snapshot(store, now)))
  }

  /** The state after a series of steps. */
  function After(d: DiskState, steps: seq<DiskState>): DiskState {
    if steps == [] then d else steps[|steps| - 1]
  }

  class Disk {
    var state: DiskState
    ghost var history: seq<DiskState>

    constructor (d: DiskState)
      ensures state == d && history == []
    {
      state := d;
      history := [];
    }

    /** One write call on the active log: it may stop short, with or without an error. */
    method WriteActive(p: seq<Byte>) returns (n: nat, ok: bool)
      requires state.active.Some?
      modifies this
      ensures n <= |p|
      ensures state == WithActive(old(state), ActiveBytes(old(state)) + p[..n])
      ensures history == old(history) + [state]
    {
      n :| n <= |p|;
      ok := *;
      state := WithActive(state, ActiveBytes(state) + p[..n]);
      history := history + [state];
    }

    /** Opens the active log, creating it when missing. */
    method CreateActive()
      modifies this
      ensures state == WithActive(old(state), ActiveBytes(old(state)))
      ensures history == old(history) + [state]
    {
      state := WithActive(state, ActiveBytes(state));
      history := history + [state];
    }

    /** Opens the active log for truncation. */
    method TruncateActive()
      modifies this
      ensures state == WithActive(old(state), [])
      ensures history == old(history) + [state]
    {
      state := WithActive(state, []);
      history := history + [state];
    }

    method RemoveSegment(i: nat)
      modifies this
      ensures state == WithoutSegment(old(state), i)
      ensures history == old(history) + [state]
    {
      state := WithoutSegment(state, i);
      history := history + [state];
    }

    method RenameSegment(from: nat, to: nat)
      requires from in state.segments
      modifies this
      ensures state == MovedSegment(old(state), from, to)
      ensures history == old(history) + [state]
    {
      state := MovedSegment(state, from, to);
      history := history + [state];
    }

    method RenameActive(to: nat)
      requires state.active.Some?
      modifies this
      ensures state == ActiveMoved(old(state), to)
      ensures history == old(history) + [state]
    {
      state := ActiveMoved(state, to);
      history := history + [state];
    }

    /** checkpoint.Save: the slot is replaced atomically by a snapshot stamped with the current time. */
    method SaveCheckpoint(store: Store, now: int)
      modifies this
      ensures state == Checkpointed(old(state), store, now)
      ensures history == old(history) + [state]
    {
      state := Checkpointed(state, store, now);
      history := history + [state];
    }
  }
}

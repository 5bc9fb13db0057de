/** Segment rotation (internal/storage/memory/engine.go, rotateWALFilesLocked): the numbered segments
    shift up by one, the active log becomes segment 1, so segment 1 is the newest. */
module Rotation {
  import opened Common
  import opened WalCodec
  import opened DiskModel

  /** The disk states while segments index - 1 .. 1 move up one place, highest first. */
  function ShiftSteps(d: DiskState, index: nat): seq<DiskState>
    decreases index
  {
    if index < 2 then []
    else if index - 1 !in d.segments then ShiftSteps(d, index - 1)
    else
      var removed := WithoutSegment(d, index);
      var moved := MovedSegment(removed, index - 1, index);
      [removed, moved] + ShiftSteps(moved, index - 1)
  }

  function ActiveSteps(d: DiskState): seq<DiskState> {
    if d.active.Some? then [WithoutSegment(d, 1), ActiveMoved(WithoutSegment(d, 1), 1)] else []
  }

  /** All states of one rotation, ending with a new, empty active log. */
  function RotateSteps(d: DiskState, maxSegments: nat): (steps: seq<DiskState>)
    ensures steps != []
  {
    var shift := ShiftSteps(d, maxSegments);
    var active := ActiveSteps(After(d, shift));
    shift + active + [WithActive(After(After(d, shift), active), [])]
  }

  /** The segments' bytes in the order they were written: the highest number first. */
  function OldestFirst(segments: map<nat, seq<Byte>>, n: nat): seq<Byte> {
    if n == 0 then [] else (if n in segments then segments[n] else []) + OldestFirst(segments, n - 1)
  }

  /** Every logged byte in the order it was written. */
  function ChronologicalBytes(d: DiskState, n: nat): seq<Byte> {
    OldestFirst(d.segments, n) + ActiveBytes(d)
  }

  /** The one segment a rotation discards. With more than one segment allowed, that needs its
      predecessor to be present too: a gap in the numbers absorbs the shift. */
  predicate DropsOldest(d: DiskState, n: nat) {
    n == 1 || (n >= 2 && n - 1 in d.segments)
  }

  function Survivors(d: DiskState, n: nat): DiskState {
    if DropsOldest(d, n) then WithoutSegment(d, n) else d
  }

  lemma {:induction false} OldestFirstDependsOn(s: map<nat, seq<Byte>>, t: map<nat, seq<Byte>>, n: nat)
    requires forall i: nat :: 1 <= i <= n ==> Lookup(s, i) == Lookup(t, i)
    ensures OldestFirst(s, n) == OldestFirst(t, n)
  {
    if n > 0 {
      assert Lookup(s, n) == Lookup(t, n);
      OldestFirstDependsOn(s, t, n - 1);
    }
  }

  /** Moving a segment into the empty place above it keeps the chronological order. */
  lemma {:induction false} MoveKeepsOrder(d: DiskState, index: nat, n: nat)
    requires 2 <= index <= n
    requires index - 1 in d.segments && index !in d.segments
    ensures OldestFirst(MovedSegment(d, index - 1, index).segments, n) == OldestFirst(d.segments, n)
  {
    var moved := MovedSegment(d, index - 1, index).segments;
    if n == index {
      OldestFirstDependsOn(moved, d.segments, n - 2);
      assert OldestFirst(moved, n - 1) == [] + OldestFirst(moved, n - 2);
      assert OldestFirst(d.segments, n) == [] + OldestFirst(d.segments, n - 1);
    } else {
      MoveKeepsOrder(d, index, n - 1);
    }
  }

  /** What a disk state keeps of another one while files are only renamed. */
  ghost predicate SameLog(s: DiskState, d: DiskState, n: nat) {
    && s.checkpoint == d.checkpoint
    && ChronologicalBytes(s, n) == ChronologicalBytes(d, n)
    && (forall i :: i in s.segments ==> s.segments[i] in d.segments.Values + {ActiveBytes(d)})
    && (s.active.Some? ==> s.active.value in [ActiveBytes(d), []])
  }

  lemma {:induction false} ShiftKeepsLog(d: DiskState, index: nat, n: nat)
    requires index <= n
    requires index >= 2 ==> index !in d.segments || index - 1 !in d.segments
    ensures forall s :: s in ShiftSteps(d, index) ==> SameLog(s, d, n) && s.active == d.active
    ensures SameLog(After(d, ShiftSteps(d, index)), d, n) && After(d, ShiftSteps(d, index)).active == d.active
    ensures index >= 2 ==> 1 !in After(d, ShiftSteps(d, index)).segments
    decreases index
  {
    if index < 2 {
    } else if index - 1 !in d.segments {
      if index > 2 {
        ShiftKeepsLog(d, index - 1, n);
      }
    } else {
      var removed := WithoutSegment(d, index);
      var moved := MovedSegment(removed, index - 1, index);
      assert removed == d;
      MoveKeepsOrder(d, index, n);
      assert SameLog(moved, d, n);
      ShiftKeepsLog(moved, index - 1, n);
      var rest := ShiftSteps(moved, index - 1);
      assert ShiftSteps(d, index) == [removed, moved] + rest;
      assert After(d, ShiftSteps(d, index)) == After(moved, rest);
    }
  }

  lemma RotateFromSurvivors(d: DiskState, n: nat)
    requires n >= 1 && d.active.Some?
    ensures RotateSteps(d, n) == RotateSteps(Survivors(d, n), n)
  {
    if DropsOldest(d, n) {
      var kept := WithoutSegment(d, n);
      assert WithoutSegment(kept, n) == kept;
      if n >= 2 {
        assert ShiftSteps(d, n) == ShiftSteps(kept, n);
      }
    }
  }

  /** Rotation conserves the log. At every intermediate state, and at the end, the bytes in
      chronological order are those from before with nothing but the discarded segment missing. */
  lemma RotationConservesLog(d: DiskState, n: nat)
    requires n >= 1 && d.active.Some?
    ensures forall s :: s in RotateSteps(d, n) ==> SameLog(s, Survivors(d, n), n)
    ensures After(d, RotateSteps(d, n)).active == Some([])
    ensures SameLog(After(d, RotateSteps(d, n)), Survivors(d, n), n)
  {
    var k := Survivors(d, n);
    RotateFromSurvivors(d, n);
    ShiftKeepsLog(k, n, n);
    var shift := ShiftSteps(k, n);
    var shifted := After(k, shift);
    var active := ActiveSteps(shifted);
    assert 1 !in shifted.segments;
    var moved := ActiveMoved(shifted, 1);
    assert WithoutSegment(shifted, 1) == shifted;
    assert active == [shifted, moved];
    MoveActiveKeepsOrder(shifted, n);
    assert SameLog(moved, k, n);
    assert SameLog(WithActive(moved, []), k, n);
    assert RotateSteps(k, n) == shift + [shifted, moved] + [WithActive(moved, [])];
  }

  lemma {:induction false} MoveActiveKeepsOrder(d: DiskState, n: nat)
    requires n >= 1 && d.active.Some? && 1 !in d.segments
    ensures OldestFirst(ActiveMoved(d, 1).segments, n) == OldestFirst(d.segments, n) + ActiveBytes(d)
  {
    if n == 1 {
      assert OldestFirst(ActiveMoved(d, 1).segments, 0) == [];
    } else {
      MoveActiveKeepsOrder(d, n - 1);
    }
  }

  /** Everything written after the oldest segment. */
  function BytesAfterOldest(d: DiskState, n: nat): seq<Byte>
    requires n >= 1
  {
    OldestFirst(d.segments, n - 1) + ActiveBytes(d)
  }

  lemma BytesWithoutOldest(d: DiskState, n: nat)
    requires n >= 1
    ensures ChronologicalBytes(WithoutSegment(d, n), n) == BytesAfterOldest(d, n)
    ensures ChronologicalBytes(d, n) == SegmentBytes(d, n) + BytesAfterOldest(d, n)
  {
    OldestFirstDependsOn(WithoutSegment(d, n).segments, d.segments, n - 1);
  }
}

/** Appending whole records over short writes (internal/storage/wal/writer.go). */
module WalWriter {
  import opened Common
  import opened WalCodec
  import opened DiskModel

  /** The disk states that a series of writes goes through, given how far each one got. */
  function AppendSteps(d: DiskState, bytes: seq<Byte>, cuts: seq<nat>): (steps: seq<DiskState>)
    requires forall i :: 0 <= i < |cuts| ==> cuts[i] <= |bytes|
    ensures |steps| == |cuts|
  {
    seq(|cuts|, i requires 0 <= i < |cuts| => WithActive(d, ActiveBytes(d) + bytes[..cuts[i]]))
  }

  lemma AppendStepsSnoc(d: DiskState, bytes: seq<Byte>, cuts: seq<nat>, cut: nat)
    requires cut <= |bytes| && forall i :: 0 <= i < |cuts| ==> cuts[i] <= |bytes|
    ensures AppendSteps(d, bytes, cuts + [cut]) ==
            AppendSteps(d, bytes, cuts) + [WithActive(d, ActiveBytes(d) + bytes[..cut])]
  {
  }

  /** Writes only ever advance, and a completed append has written every byte. */
  ghost predicate Progress(cuts: seq<nat>, size: nat, completed: bool) {
    && (forall i :: 0 <= i < |cuts| ==> cuts[i] <= size)
    && (forall i, j :: 0 <= i < j < |cuts| ==> cuts[i] <= cuts[j])
    && (completed ==> |cuts| > 0 && cuts[|cuts| - 1] == size)
  }

  class Writer {
    const codec: Codec
    const disk: Disk
    var closed: bool

    constructor (codec: Codec, disk: Disk)
      ensures this.codec == codec && this.disk == disk && !closed
    {
      this.codec := codec;
      this.disk := disk;
      closed := false;
    }

    /** Appends one record. The encoder's verdict comes before the closed check, a success means that
        all its bytes follow what was there, and a failure may leave any prefix of them behind. */
    method Append(r: WalRecord) returns (result: Result<(), WalError>, ghost cuts: seq<nat>)
      requires disk.state.active.Some?
      modifies disk
      ensures disk.state.active.Some?
      ensures !Encodable(r) ==> result == Err(CorruptedRecord) && cuts == []
      ensures Encodable(r) && closed ==> result == Err(Closed) && cuts == []
      ensures Encodable(r) && !closed ==>
                result.Ok? || result == Err(ShortWrite) || result == Err(WriteFailed)
      ensures cuts == [] ==> result.Err? && disk.state == old(disk.state) && disk.history == old(disk.history)
      ensures Encodable(r) ==>
                && Progress(cuts, |codec.Frame(r)|, result.Ok?)
                && disk.history == old(disk.history) + AppendSteps(old(disk.state), codec.Frame(r), cuts)
                && disk.state == After(old(disk.state), AppendSteps(old(disk.state), codec.Frame(r), cuts))
    {
      cuts := [];
      var encoded := codec.Encode(r);
      if encoded.Err? {
        return Err(encoded.error), [];
      }
      if closed {
        return Err(Closed), [];
      }
      result, cuts := WriteFull(encoded.value);
    }

    method WriteFull(bytes: seq<Byte>) returns (result: Result<(), WalError>, ghost cuts: seq<nat>)
      requires disk.state.active.Some?
      requires bytes != []
      modifies disk
      ensures disk.state.active.Some?
      ensures result.Ok? || result == Err(ShortWrite) || result == Err(WriteFailed)
      ensures cuts != []
      ensures Progress(cuts, |bytes|, result.Ok?)
      ensures disk.history == old(disk.history) + AppendSteps(old(disk.state), bytes, cuts)
      ensures disk.state == After(old(disk.state), AppendSteps(old(disk.state), bytes, cuts))
    {
      hide AppendSteps;
      ghost var d := disk.state;
      ghost var done: nat := 0;
      var p := bytes;
      cuts := [];
      assert ActiveBytes(d) + bytes[..0] == ActiveBytes(d);
      while |p| > 0
        invariant done <= |bytes| && p == bytes[done..]
        invariant (cuts == [] && done == 0) || (cuts != [] && cuts[|cuts| - 1] == done)
        invariant Progress(cuts, |bytes|, false)
        invariant cuts != [] ==> disk.state == After(d, AppendSteps(d, bytes, cuts))
        invariant done == 0 ==> disk.state == d
        invariant disk.state == WithActive(d, ActiveBytes(d) + bytes[..done])
        invariant disk.history == old(disk.history) + AppendSteps(d, bytes, cuts)
        decreases |p|
      {
        var n, ok := disk.WriteActive(p);
        assert ActiveBytes(disk.state) == ActiveBytes(d) + bytes[..done + n] by {
          assert bytes[..done] + p[..n] == bytes[..done + n];
        }
        AppendStepsSnoc(d, bytes, cuts, done + n);
        assert cuts == [] ==> AppendSteps(d, bytes, cuts) == [];
        cuts := cuts + [done + n];
        done := done + n;
        p := p[n..];
        if !ok {
          return Err(WriteFailed), cuts;
        }
        if n == 0 {
          return Err(ShortWrite), cuts;
        }
      }
      result := Ok(());
    }

    method Close()
      modifies this
      ensures closed
    {
      closed := true;
    }
  }
}

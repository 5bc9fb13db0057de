/** What the durable engine's operations do to the disk and to the map, as functions
    (internal/storage/memory/engine.go). The Engine class is proved against these. */
module EngineSpec {
  import opened Common
  import opened WalCodec
  import opened WalReader
  import opened WalWriter
  import opened Storage
  import opened DiskModel
  import opened Rotation

  datatype Config = Config(walEnabled: bool, walPath: string, checkpointEnabled: bool, checkpointSize: int,
      maxSegmentSize: int, maxSegments: int)

  datatype EngineError = InvalidKey | NilValue | EngineClosed | KeyNotFound | EmptyPath | Log(wal: WalError)

  /** The engine keeps a log. Otherwise nothing reaches the disk. */
  predicate Durable(cfg: Config) {
    cfg.walEnabled && cfg.walPath != ""
  }

  function SegmentLimit(cfg: Config): nat {
    if cfg.maxSegments > 0 then cfg.maxSegments else 0
  }

  /** walSizeLocked: the active log and every segment count. */
  function WalSize(cfg: Config, d: DiskState): nat {
    |ActiveBytes(d)| + SegmentsSize(d, SegmentLimit(cfg))
  }

  predicate RotationOn(cfg: Config) {
    cfg.maxSegmentSize > 0 && cfg.maxSegments > 0
  }

  predicate RotationDue(cfg: Config, d: DiskState) {
    RotationOn(cfg) && WalSize(cfg, d) >= cfg.maxSegmentSize
  }

  function RotationSteps(cfg: Config, d: DiskState): seq<DiskState> {
    if RotationDue(cfg, d) then RotateSteps(d, SegmentLimit(cfg)) else []
  }

  predicate CheckpointDue(cfg: Config, d: DiskState, force: bool) {
    && cfg.walEnabled && cfg.checkpointEnabled
    && (force || cfg.checkpointSize <= 0 || WalSize(cfg, d) >= cfg.checkpointSize)
  }

  /** A checkpoint is saved first; the active log is truncated afterwards, and only while it is open. */
  function CheckpointSteps(d: DiskState, store: Store, now: int, walOpen: bool): seq<DiskState> {
    var saved := Checkpointed(d, store, now);
    if walOpen then [saved, WithActive(saved, [])] else [saved]
  }

  function MaybeCheckpointSteps(cfg: Config, d: DiskState, store: Store, now: int, force: bool): seq<DiskState> {
    if CheckpointDue(cfg, d, force) then CheckpointSteps(d, store, now, true) else []
  }

  // ---- whole operations --------------------------------------------------------

  function MutatedStore(store: Store, r: WalRecord, version: nat): Store {
    store[r.key := if r.op == OPERATION_PUT then PutRecord(store, r.key, r.value, version, r.timestamp)
                   else Tombstone(store, r.key, r.timestamp)]
  }

  function Rotated(cfg: Config, d: DiskState): DiskState {
    After(d, RotationSteps(cfg, d))
  }

  function Logged(c: Codec, cfg: Config, d: DiskState, r: WalRecord): DiskState
    requires Encodable(r)
  {
    WithActive(Rotated(cfg, d), ActiveBytes(Rotated(cfg, d)) + c.Frame(r))
  }

  ghost predicate Completes(c: Codec, r: WalRecord, cuts: seq<nat>) {
    Encodable(r) && Progress(cuts, |c.Frame(r)|, true)
  }

  /** The disk steps of a mutation that succeeds: rotation if due, the log record in as many writes as
      the cuts say, then a checkpoint of the new map if due. */
  ghost function MutateSteps(c: Codec, cfg: Config, d: DiskState, store: Store, r: WalRecord, version: nat, cpNow: int,
                             cuts: seq<nat>): seq<DiskState>
    requires Completes(c, r, cuts)
  {
    RotationSteps(cfg, d)
    + AppendSteps(Rotated(cfg, d), c.Frame(r), cuts)
    + MaybeCheckpointSteps(cfg, Logged(c, cfg, d, r), MutatedStore(store, r, version), cpNow, false)
  }

  lemma CompletedAppend(c: Codec, cfg: Config, d: DiskState, r: WalRecord, cuts: seq<nat>)
    requires Completes(c, r, cuts)
    ensures After(Rotated(cfg, d), AppendSteps(Rotated(cfg, d), c.Frame(r), cuts)) == Logged(c, cfg, d, r)
  {
    assert c.Frame(r)[..|c.Frame(r)|] == c.Frame(r);
  }

  lemma AfterConcat(d: DiskState, a: seq<DiskState>, b: seq<DiskState>)
    ensures After(d, a + b) == After(After(d, a), b)
  {
  }

  /** Closing saves without truncating: the log is already closed. */
  function CloseSteps(cfg: Config, d: DiskState, store: Store, now: int): seq<DiskState> {
    if cfg.walEnabled && cfg.checkpointEnabled && WalSize(cfg, d) > 0 then CheckpointSteps(d, store, now, false) else []
  }

  // ---- recovery ---------------------------------------------------------------

  /** Replays one file into a store, or reports the error that stopped the reader. */
  function ReplayFile(c: Codec, store: Store, bytes: seq<Byte>, since: Option<int>): Result<Store, WalError> {
    var reading := ReadAll(c, bytes);
    if reading.failure.Some? then Err(reading.failure.value)
    else Ok(Replay(store, reading.records, since))
  }

  /** Segments 1 to n in the order of their numbers. */
  function ReplaySegments(c: Codec, d: DiskState, store: Store, n: nat, since: Option<int>): Result<Store, WalError> {
    if n == 0 then Ok(store)
    else match ReplaySegments(c, d, store, n - 1, since)
      case Err(e) => Err(e)
      case Ok(s) => ReplayFile(c, s, SegmentBytes(d, n), since)
  }

  function BaseStore(d: DiskState): Store {
    if d.checkpoint.Some? then d.checkpoint.value.records else map[]
  }

  function Since(d: DiskState): Option<int> {
    if d.checkpoint.Some? then Some(d.checkpoint.value.timestamp) else None
  }

  /** What Open makes of a disk: checkpoint, then segments 1 to n, then the active log. */
  function Recover(c: Codec, cfg: Config, d: DiskState): Result<Store, WalError> {
    match ReplaySegments(c, d, BaseStore(d), SegmentLimit(cfg), Since(d))
    case Err(e) => Err(e)
    case Ok(s) => ReplayFile(c, s, ActiveBytes(d), Since(d))
  }
}

# Verification of the cluster database core

This project models the stateful core of a small clustered key-value and document database, and proves what
that core promises: that acknowledged writes survive crashes, that replicas of a ring and of a membership agree,
that hinted writes are neither lost nor invented, that read repair converges, and that queries over the inverted
index mean what they say. Where the code keeps such a promise only sometimes, the condition is stated exactly and
proved in both directions, and a concrete instance shows the other case.

`dafny verify dfyconfig.toml` checks everything.

## What is modelled

* **Durable engine.** `WalCodec`, `WalWriter`, `WalReader` and `WalBytes` are the framed binary log down to the byte.
  `DiskModel` is a disk with a checkpoint slot, numbered log segments and an active log; it records every state it
  goes through, so that a crash may leave any of them. `Engine` is the engine object, proved against the functions
  of `EngineSpec`; `Rotation`, `RecoveryOrder`, `Recovery` and `EngineRuns` build up to whole runs of mutations,
  checkpoints, closes, crashes and reopens. `EngineEvents` ties the object's calls to the events of a run,
  `RotationLimits` says how long a record stays in a rotating log, `CheckpointPolicy` how long the log becomes between
  checkpoints, `Metadata` which versions and times records show, and `RotationLoss` holds three runs that lose a
  value to rotation. `KvLog` is the algebra of logs that recovery and hint replay share.
* **Hash ring.** `RingSpec` says what a ring and a key's preference order are; `Ring` is the object with its binary
  search and clockwise walk; `ClusterManager` derives ownership from the membership.
* **Membership and gossip.** `ClusterNodes` and `MembershipObject` are members, elections and failure detection;
  `GossipMerge`, `GossipSpec` and `Gossip` the versioned merge, snapshots and exchanges; `FailureDetector` follows one
  node through a run of ticks and heartbeats.
* **Replication.** `Handoff` is the hint queue with its reverse replay; `Delivery` the protocol that handlers, RPCs
  and replays form; `KvHandlers` the replica loops; `ReadRepair` the vote and the repair round.
* **Documents.** `Documents`, `DocumentIndex` and `DocumentService` keep the inverted index in agreement with the
  stored documents; `StableSort` and `DocumentQuery` are the sorted and paged query.

Hash functions, the checksum and `fmt.Sprint` are parameters of which nothing is assumed. The
library's stable sort is a parameter of which only what its documentation promises is assumed. Time is an integer number
of nanoseconds handed to each operation; the log's encoder wraps it to 64 bits as the code does.

## Where the code and what is promised of it differ

* With rotation on, acknowledged writes can be lost in three ways. The code checks for none of them, and `RotationLoss`
  has a run for each. `EngineRuns.SafeRunIff` is about the log read in chronological order: at every disk step of a run
  it stands for what is promised, and each Open of the run finds just that, exactly when no discard, no truncation and no
  replay order at such an Open does harm. What one more Open after the run would find is `EngineRuns.EveryRunRecovers`:
  the promised map exactly when the replay order does not matter on that disk.
  * After a rotation segment 1 is the newest, but `Open` replays segments 1 to N; internal/storage/memory/README.md
    calls that in order. `RecoveryOrder.RecoversChronologicallyIff` says when the order is harmless;
    `RotationLoss.NewestValueIsLost` is three acknowledged writes after which an older value comes back.
  * A rotation over a full set of segments discards the oldest, whether or not a checkpoint covers it.
    `Recovery.DiscardHarmlessIff` says when that is harmless; `RotationLoss.OldestWriteIsLost` is four acknowledged
    writes of different keys after which the first is gone.
  * A checkpoint truncates only the active log; that README has it remove obsolete segments too.
    `Recovery.TruncationHarmlessIff` says when the segments left behind are harmless: always, if they are all stamped
    before the checkpoint. `RotationLoss.TruncatedValueIsLost` is two writes of one key and a checkpoint at the same
    instant, after which the older value comes back.
* The size that triggers a rotation is that of the whole log, segments included, so a large segment keeps rotations due
  until it is discarded. With N segments, N + 1 appends that rotate leave exactly their own records in the log
  (`RotationLimits.RotationForgets`); then it may well stop (`RotationLimits.RotationStopsAgain`).
* A crash in the middle of a log record leaves a log that the engine refuses to open with an unexpected end of file;
  nothing repairs the tail (`Recovery.TornAppendRefusesToOpen`).
* A hint replay looks only at the error of the call, not at the error inside the response, and removes the hint in
  that case. A write is then applied or pending exactly when it was refused less often than passed on, or got through
  once (`Delivery.KeptIff`); `Delivery.RefusedReplayLosesAWrite` is one that was not.
* Replaying hints last to first is harmless exactly when the oldest and the newest pending write of each key leave the
  same thing (`Handoff.ReverseReplayIff`); two puts of one key leave the older value (`Handoff.OlderValueSurvivesReplay`).
* `CompareVersions` is not transitive on all strings. It is exactly on versions of which none that is no number lies, as
  a string, between two numbers that do not ascend (`GossipMerge.OrderedIffUncrossed`), and exactly on those is the
  result of gossip independent of order and repetition (`GossipSpec.OrderFreeIff`). "10", "9" and "1x" are such a case
  (`GossipMerge.CompareVersionsHasCycles`, `GossipSpec.OrderMattersForMixedVersions`).
* One gossip exchange does not always make the statuses agree: `GossipMerge.OneExchangeAgreesIff` says when, and
  `GossipMerge.StatusLagsBehind` is a pair that it leaves apart.
* Virtual keys of different nodes may collide, and the sort is not stable: rings of the same nodes answer alike exactly
  when there are no collisions (`RingSpec.AnswersDeterminedIff`, `RingSpec.CollidingNodesDisagree`).
* The comment on `asyncReadRepair` promises the majority among the responses. The value read first is put in front and its
  owner is then polled again, so it has one vote more: a value held by most responders wins exactly when it is that one
  or leads it by more than that vote (`ReadRepair.MajorityOfRepliesWinsIff`). With three replicas a stale first read
  overwrites the two that agree (`ReadRepair.FirstReadOutvotesMajority`).
* The comment on `majorityValue` says that without a strict majority the first value is returned. The code returns the
  most frequent one; `ReadRepair.FirstWinsIff` says when that is the first, and `ReadRepair.PluralityBeatsFirst` is a vote
  where it is not.
* Creating a document over an existing id leaves stale index entries unless the new document is indexed wherever the
  old one was (`DocumentService.AgreesAfterCreate`, `DocumentService.CreateTwice`).
* `lessByField` is a strict weak order exactly when the values are missing or of one scalar type, or no two of them are
  ordered at all (`DocumentQuery.StrictWeakIffSortable`; `DocumentQuery.MixedTypesAreNotStrictWeak` is a text, a number
  and another text). Otherwise the library's sort may return any permutation, and that is all the query promises
  (`DocumentQuery.InOrderIsSorted`).

## Model

| member | source | states |
|---|---|---|
| WalCodec.Codec.Encode | internal/storage/wal/record.go:52-74 | fills a buffer of the exact size in place and returns the frame of the record exactly when its operation is 1 or 2 and key and value together have at most 64 MiB; otherwise refuses it as corrupted |
| WalCodec.WriteHeader | internal/storage/wal/record.go:60-68 | the 22 header bytes are written little-endian in their places and the rest of the buffer is untouched |
| WalCodec.PutLittleEndian | internal/storage/wal/record.go:62-70 | stores an integer least significant byte first, keeping every byte before and after |
| WalCodec.Codec.DecodeInvertsEncode | internal/storage/wal/record.go:52-115 | decoding an encoded record gives it back, with the timestamp wrapped to 64 bits; exactly the same record if and only if the timestamp fits |
| WalCodec.Codec.EncodeInvertsDecode | internal/storage/wal/record.go:77-115 | bytes that Decode accepts are exactly the encoding of the record it returns, for any checksum function |
| WalBytes.FrameLayout | internal/storage/wal/record.go:52-74 | every byte of a frame: magic number, version 1, operation, timestamp modulo 2^64, the two lengths, key, value, and in the last four bytes the checksum of all bytes before them, modulo 2^32 |
| WalBytes.AcceptedChecksum | internal/storage/wal/record.go:97-107 | whatever Decode accepts ends with the checksum of all bytes before |
| WalBytes.DamageIsDetectedIff | internal/storage/wal/record.go:77-115 | changing key or value bytes of a frame is answered with a checksum mismatch if and only if the checksum of the changed bytes differs; otherwise the bytes are read as they stand |
| WalBytes.HeaderErrors | internal/storage/wal/record.go:77-103 | which error a short input, a foreign magic number, another version, an unknown operation, an oversized payload, a missing or a surplus byte gets |
| WalBytes.TimestampsWrap | internal/storage/wal/record.go:66-66 | the timestamp that survives is the one a signed 64-bit count of nanoseconds wraps to |
| WalReader.Reader.Next | internal/storage/wal/reader.go:38-90 | consumes exactly one accepted record, or reports the clean end or the error of the unread bytes; a finished, failed or closed reader changes nothing more |
| WalReader.ReadingInvertsAppending | internal/storage/wal/reader.go:38-90 | reading the concatenation of any appended records yields exactly those records and a clean end |
| WalReader.ReadingAPrefix | internal/storage/wal/reader.go:52-76 | reading any byte prefix of a log yields exactly the whole records in it, ending cleanly only on a record boundary and with an unexpected end of file everywhere else |
| WalReader.WholeRecordsBound | internal/storage/wal/reader.go:52-76 | the counted whole records fit in the prefix and the next one does not |
| WalReader.AcceptedBytesAreALog | internal/storage/wal/reader.go:38-90 | whatever a reader accepts from arbitrary bytes is byte for byte the encoding of what it returned, a prefix of the input, and the whole of it if and only if the end was clean |
| WalBytes.ReadingStopsAtDamage | internal/storage/wal/reader.go:38-90 | if the checksum shows the damage to a record, reading returns exactly the records before it and stops with a checksum mismatch, whatever follows |
| WalWriter.Writer.Append | internal/storage/wal/writer.go:41-55 | the encoder's refusal comes before the closed check; success means all bytes of the frame follow what was there, failure leaves some prefix of them, and every intermediate disk state is one of those prefixes |
| WalWriter.Writer.WriteFull | internal/storage/wal/writer.go:105-119 | writes on over short writes until all bytes are down; a write of nothing is a short write, and the positions only advance |
| Storage.LiveAfterReplay | internal/storage/memory/replay.go:14-49 | through the live view, replay is the plain application of the kept mutations in order: versions, creation times and tombstones do not influence it |
| Metadata.VersionsCount | internal/storage/memory/engine.go:161-178 | each mutation of a key in a session, deletes included, counts its version up by one modulo 2^64; the record keeps the time of the first mutation and shows time, value and tombstone of the last |
| Metadata.GivenVersionsAreKept | internal/storage/memory/engine.go:161-178 | a version given by the caller is stored as it is, and the creation time is kept |
| Metadata.ReplayedMetadata | internal/storage/memory/replay.go:31-38 | a replayed key shows version 0, the time of its first put, and time and value of its last |
| Metadata.ReplayedDeleteIsGone | internal/storage/memory/replay.go:39-41 | a replayed delete leaves no tombstone |
| Metadata.ReplayOfKept | internal/storage/memory/replay.go:19-29 | the records skipped for the checkpoint leave no trace in the metadata either |
| Engine.ReplayInto | internal/storage/memory/replay.go:14-49 | the reader loop folds exactly the records not before the given time into the map, or returns the reader's error |
| DiskModel.Disk.SaveCheckpoint | internal/storage/checkpoint/checkpoint.go:35-74 | the slot is replaced in one step by a snapshot stamped with the time of the save, and nothing else on the disk changes |
| Engine.Engine.Open | internal/storage/memory/engine.go:84-104 | an enabled log without a path is an error and changes nothing; otherwise creates the active log, then opens with the recovered map or stays closed with the log's error; opening an open engine changes nothing |
| Engine.Engine.ReplayState | internal/storage/memory/engine.go:497-518 | checkpoint, then segments 1 to N in the order of their numbers, then the active log |
| Engine.Engine.Get | internal/storage/memory/engine.go:200-218 | each error in the code's order, and otherwise the value of the live view: tombstones read as missing |
| Engine.Engine.Put | internal/storage/memory/engine.go:147-196 | each error case; on success the exact new map and exactly the disk steps rotation, log record, checkpoint; a failed append leaves the map alone |
| Engine.Engine.Delete | internal/storage/memory/engine.go:243-290 | as Put, with a tombstone of the next version whether or not the key existed |
| Engine.Engine.AppendWal | internal/storage/memory/engine.go:445-461 | rotation comes before the append; success leaves the whole frame at the end of the active log, a failure only a prefix, and a refused record nothing |
| Engine.Engine.RotateIfNeeded | internal/storage/memory/engine.go:573-601 | rotates exactly when both limits are set and the active log and all segments together have reached the size limit |
| Engine.Engine.RotateFiles | internal/storage/memory/engine.go:603-635 | the loop over segment files goes through exactly the states of the specified shift, one per remove or rename |
| Engine.Engine.MaybeCheckpoint | internal/storage/memory/engine.go:520-530 | with log and checkpoints on, the slot takes the map and the active log is emptied when forced, when the limit is not positive, or when the whole log has reached it; in every other case the disk is unchanged; each checkpoint is counted |
| CheckpointPolicy.MutationBoundsTheLog | internal/storage/memory/engine.go:520-571 | after an acknowledged Put or Delete with checkpoints on, the whole log is shorter than a positive limit and the slot as before, or the active log is empty and the slot holds exactly the new map with the time of the save; without a positive limit always the latter, with checkpoints off the slot never changes |
| CheckpointPolicy.ShortLogIsNotCheckpointed | internal/storage/memory/engine.go:520-530 | a log that stays below the limit is only appended to |
| CheckpointPolicy.LogStaysShort | internal/storage/memory/engine.go:520-571 | after every acknowledged mutation of every run the active log is empty or the whole log shorter than the limit |
| Engine.Engine.CreateCheckpoint | internal/storage/memory/engine.go:532-571 | the map is saved first and the active log truncated second, the latter only while it is open |
| Engine.Engine.Close | internal/storage/memory/engine.go:107-143 | closes the log, then, if log and checkpoints are on and any log bytes exist, saves the map into the slot without truncating; otherwise, and when closed again, the disk is unchanged |
| Rotation.MoveKeepsOrder | internal/storage/memory/engine.go:608-622 | one rename into the empty place above keeps the chronological concatenation |
| Rotation.RotationConservesLog | internal/storage/memory/engine.go:603-635 | for any pattern of present segments, at every intermediate rename and at the end, segments N to 1 then active hold the same bytes with at most old segment N missing, and for N over 1 that one only if N-1 was present; a new empty active log is left |
| KvLog.SuffixReplayIsIdempotent | internal/storage/memory/replay.go:19-43 | replaying any suffix of a log over the state that log produced changes nothing |
| KvLog.InterchangeableIff | internal/storage/memory/replay.go:19-43 | two logs over the same keys lead to the same map if and only if their last mutations of every key leave the same thing |
| KvLog.ReorderIff | internal/storage/memory/engine.go:497-518 | replaying numbered parts upwards equals replaying them downwards if and only if, for every key the tail does not override, the lowest and highest part mentioning it leave the same thing |
| KvLog.DropBeginningIff | internal/storage/memory/engine.go:603-635 | the beginning of a log can be dropped if and only if, for every key the rest does not mention, it leaves what the base already holds |
| RecoveryOrder.RecoversChronologicallyIff | internal/storage/memory/engine.go:497-518 | on any clean disk, opening succeeds and gives the view of chronological replay if and only if the segment order does not matter |
| RecoveryOrder.DisjointSegmentsRecover | internal/storage/memory/engine.go:663-674 | it does give that view whenever the uncovered records of different segments touch disjoint keys |
| RecoveryOrder.OpensIffClean | internal/storage/memory/engine.go:497-518 | a disk opens if and only if every segment from 1 to N that is present and the active log read cleanly to their ends |
| Recovery.OverlapIsHarmless | internal/storage/memory/engine.go:532-571 | in a time-ordered log the records not before the checkpoint form a suffix, and replaying them over the state the log produced leaves the live view unchanged |
| Recovery.AppendKeepsHealth | internal/storage/memory/engine.go:445-461 | a completed append keeps the disk readable and ordered and changes the recoverable view by exactly its own mutation |
| Recovery.SaveKeepsHealth | internal/storage/memory/engine.go:535-541 | saving a snapshot of the live map keeps the recoverable view whether or not a truncation follows |
| Recovery.CheckpointKeepsHealth | internal/storage/memory/engine.go:532-571 | if the segments left behind are harmless, the recoverable view is the same at every state of a checkpoint, so a crash between save and truncation is harmless |
| Recovery.TruncationHarmlessIff | internal/storage/memory/engine.go:553-571 | truncating the active log after a checkpoint keeps the recoverable view if and only if replaying the rotated records that are not before the checkpoint leaves what the checkpoint holds under their keys |
| Recovery.CheckpointKeepsViewIff | internal/storage/memory/engine.go:532-571 | a checkpoint keeps the recoverable view at both of its states if and only if that holds |
| Recovery.LaterStampIsHarmless | internal/storage/memory/engine.go:532-571 | it holds in particular when the checkpoint is stamped later than every rotated record |
| Recovery.RotationKeepsHealth | internal/storage/memory/engine.go:573-635 | if what it discards is harmless, every state of a rotation reads cleanly, in order, and with the same recoverable view |
| Recovery.DiscardHarmlessIff | internal/storage/memory/engine.go:608-630 | on any clean disk, discarding the oldest segment keeps the recoverable view if and only if, for every key with an uncovered mutation in it and none later, that mutation leaves what the checkpoint holds |
| Recovery.RotationKeepsViewIff | internal/storage/memory/engine.go:573-635 | a rotation keeps the recoverable view at every one of its states if and only if that holds for what it discards |
| Recovery.CoveredDiscardIsHarmless | internal/storage/memory/engine.go:608-630 | it holds in particular when the checkpoint covers the whole segment |
| Recovery.TornAppendRefusesToOpen | internal/storage/memory/engine.go:392-441 | after a crash strictly inside a record every later Open fails with an unexpected end of file |
| EngineRuns.MutateStates | internal/storage/memory/engine.go:147-196 | of every state a mutation passes through, when what rotation discards and truncation leaves is harmless: the old view before its first byte, the new view from its last byte on, a refused open in between |
| EngineRuns.EveryRunRecovers | internal/storage/memory/engine.go:392-441 | after every safe run of an engine with a log the open engine shows exactly the acknowledged mutations plus those whose whole record reached the log, and so does recovery from an untorn disk if and only if its segment order does not matter |
| EngineRuns.SafeEventIff | internal/storage/memory/engine.go:520-635 | from a healthy system, the log stands for the promised view in chronological order at every disk step of an event, and an Open finds that view, if and only if the event's discard, its truncation or its replay order is harmless |
| EngineRuns.SafeRunIff | internal/storage/memory/engine.go:520-635 | that holds at each event of a run if and only if each event was safe, so nothing is assumed of rotation that is not needed |
| EngineRuns.CrashRecoveryIsExact | internal/storage/memory/engine.go:392-441 | with the log enabled, without rotation and with a clock that does not run backwards, every run of mutations, checkpoints, closes, crashes between any two disk steps and reopens recovers exactly that map, unless a crash cut a record, which is then reported |
| EngineRuns.RotationOffIsSafe | internal/storage/memory/engine.go:573-579 | with rotation off no segment ever appears, so nothing further has to be assumed of a run |
| EngineEvents.AcknowledgedCallIsAnEvent | internal/storage/memory/engine.go:147-290 | with the log enabled, an acknowledged Put or Delete of the engine object is an event of a run with the same disk and map, and so is the call cut off after any number of its disk steps |
| EngineEvents.RefusedCallIsAnEvent | internal/storage/memory/engine.go:445-461 | with the log enabled, a call whose record the encoder refused is an event that only rotates, and so is the call cut off inside that rotation |
| EngineEvents.OpenIsAnEvent | internal/storage/memory/engine.go:84-104 | opening a closed engine with a log is an event of a run with the same disk and map, whether it succeeds or not |
| EngineEvents.TickIsAnEvent | internal/storage/memory/engine.go:463-530 | the maintenance checkpoint is an event, and so is any beginning of its disk steps if the process dies there |
| EngineEvents.CloseIsAnEvent | internal/storage/memory/engine.go:107-143 | closing is an event, and so is any beginning of its disk steps if the process dies there |
| RotationLoss.NewestValueIsLost | internal/storage/memory/engine.go:608-630 | a safe run of three acknowledged writes, with nothing discarded, after which the recovered value of a key is the older one |
| RotationLoss.OldestWriteIsLost | internal/storage/memory/engine.go:608-630 | a run of four acknowledged writes of different keys after which the first key is missing although the replay order does not matter; only its last event was unsafe |
| RotationLoss.TruncatedValueIsLost | internal/storage/memory/engine.go:532-571 | a run of two writes of one key and a checkpoint at the same instant after which the older value comes back although the replay order does not matter |
| RotationLimits.SizeIsThatOfTheLog | internal/storage/memory/engine.go:637-650 | the size compared with the limits is the length of the whole log, segments and active, in chronological order |
| RotationLimits.RotationDueIff | internal/storage/memory/engine.go:573-601 | a rotation is due if and only if both limits are set and the whole log has reached the size |
| RotationLimits.RotationFreesTheDiscarded | internal/storage/memory/engine.go:573-635 | a rotation makes that size smaller by exactly what it discards |
| RotationLimits.RotationAges | internal/storage/memory/engine.go:603-635 | a rotation makes the active log segment 1 and moves every segment below the last one place up |
| RotationLimits.RotationForgets | internal/storage/memory/engine.go:573-635 | with N segments, after N + 1 appends that each start a file the log holds exactly their records, whatever was in it and covered or not; the next append rotates if and only if those records reach the limit |
| RotationLimits.RotationStopsAgain | internal/storage/memory/engine.go:573-601 | a log of 60 bytes under a limit of 60 makes the next two short appends rotate and the third not |
| Ring.FirstAtLeast | internal/cluster/hashring/hashring.go:75-93 | the bisection finds the first entry at or after the hash in every sorted ring |
| Ring.HashRing.constructor | internal/cluster/hashring/hashring.go:24-31 | a replica count that is not positive becomes 100 |
| Ring.HashRing.AddNode | internal/cluster/hashring/hashring.go:33-50 | the entries become a sorted ring of the old nodes and the new one, whatever the unstable sort does with ties; empty and known ids change nothing |
| Ring.HashRing.RemoveNode | internal/cluster/hashring/hashring.go:54-72 | exactly the node's own entries disappear and the others keep their order |
| Ring.HashRing.GetNode | internal/cluster/hashring/hashring.go:75-93 | the head of the key's preference order, whose entry is met no later than any other going up from the hash and around; nothing exactly for an empty key or ring |
| Ring.HashRing.ReplicaOwners | internal/cluster/hashring/hashring.go:119-153 | the first rf nodes of the key's preference order, wrap-around included |
| Ring.WalkOwners | internal/cluster/hashring/hashring.go:133-150 | the walk with its early exit collects the first rf distinct nodes of one full turn |
| RingSpec.OwnersAreDistinctNodes | internal/cluster/hashring/hashring.go:119-153 | the owners are duplicate-free, all on the ring, min(rf, nodes) many, and asking for more only extends the list |
| RingSpec.PrimaryIsNext | internal/cluster/hashring/hashring.go:75-93 | the most preferred node has an entry that is met no later than any other on the ring, going up from the hash and around |
| RingSpec.PreferenceIsClockwise | internal/cluster/hashring/hashring.go:119-153 | of two nodes the preferred one has an entry that is met no later than any entry of the other, going up from the hash and around |
| RingSpec.RemovalOnlyRemoves | internal/cluster/hashring/hashring.go:54-72 | removing a node takes exactly it out of every key's preference order, with wrap-around and key ties included and no assumption on collisions |
| RingSpec.AdditionOnlyInserts | internal/cluster/hashring/hashring.go:33-50 | without collisions a new node is inserted into every preference order and nothing else moves, so a primary changes to it or not at all |
| RingSpec.RingIsDetermined | internal/cluster/hashring/hashring.go:33-50 | without collisions a set of nodes has only one ring, however it was built |
| RingSpec.AnswersDeterminedIff | internal/cluster/hashring/hashring.go:33-50 | all rings of a set of nodes answer every lookup alike if and only if no two of its nodes collide |
| RingSpec.CollidingNodesDisagree | internal/cluster/hashring/hashring.go:33-50 | an instance: under a constant hash with one virtual node each, two nodes have two rings, which name different primaries for every key |
| ClusterManager.Manager.SyncHashRing | internal/cluster/manager.go:404-424 | the ring is rebuilt, with 100 virtual nodes each and in any order, from exactly the members that are alive and have an id |
| ClusterManager.Manager.Owners | internal/cluster/manager.go:358-382 | the member records of the first rf preferred alive nodes, all of them found; none exactly for an empty key, no replicas or nobody alive |
| ClusterManager.CompareOwners | internal/cluster/manager.go:358-424 | managers that see the same ids alive name the same owners for every key, whatever else they hold, without collisions |
| MembershipObject.Membership.SetLocalNodeID | internal/cluster/membership.go:81-85 | holds no election and keeps at most one leader |
| MembershipObject.Membership.AddNode | internal/cluster/membership.go:71-78 | flags apart, exactly the node is put; then the flag is on the least alive id other than the local one, and nowhere if there is none |
| MembershipObject.Membership.RemoveNode | internal/cluster/membership.go:163-170 | flags apart, exactly the id disappears; then as above |
| MembershipObject.Membership.UpdateHeartbeat | internal/cluster/membership.go:191-206 | a known node becomes alive with the new heartbeat and an election is held; an unknown id changes nothing |
| MembershipObject.Membership.MarkSuspect | internal/cluster/membership.go:209-222 | only the status of a known node changes, and an election is held; an unknown id changes nothing |
| MembershipObject.Membership.MarkDead | internal/cluster/membership.go:225-238 | only the status of a known node changes, and an election is held; an unknown id changes nothing |
| MembershipObject.Membership.SetLeader | internal/cluster/membership.go:273-288 | the flag moves to the given known node and to no other |
| MembershipObject.Membership.ElectLeader | internal/cluster/membership.go:338-378 | whatever flags it finds and in whatever order it visits the nodes, the flag ends up on the least candidate, or nowhere exactly when there is none, and nothing else changes |
| MembershipObject.Membership.DetectFailures | internal/cluster/membership.go:312-336 | at most one leader is kept across elections inside the loop, and the statuses are those of judging every node once by its heartbeat's age |
| ClusterNodes.ElectedIsSafe | internal/cluster/membership.go:338-378 | an elected membership has at most one leader |
| ClusterNodes.ElectedMeans | internal/cluster/membership.go:338-378 | a leader is alive, is not the local node, and has the first id of all such nodes; if there is such a node, one leads |
| ClusterNodes.SameUnled | internal/cluster/membership.go:71-78 | memberships equal apart from flags have the same ids with the same id, address, status, heartbeat and version |
| StringOrder.LessIsLexicographic | internal/cluster/membership.go:338-378 | strings compare by the first character in which they differ, a proper prefix first |
| GossipMerge.CompareVersionsAntisymmetric | internal/cluster/gossip/gossip.go:371-401 | swapping the versions negates the answer, for arbitrary strings |
| GossipMerge.CompareVersionsHasCycles | internal/cluster/gossip/gossip.go:371-401 | an instance of crossed versions: "10" is above "9", "9" above "1x" and "1x" above "10" |
| GossipMerge.RankedCompare | internal/cluster/gossip/gossip.go:371-401 | on empty and numeric versions the comparison is that of the ranks, empty lowest |
| GossipMerge.NumberedVersion | internal/cluster/gossip/gossip.go:398-401 | a number is read from its decimal digits behind "", "v", "cluster/" or "cluster/v", up to 2^63 - 1, and nothing beyond |
| GossipMerge.NegativeVersion | internal/cluster/gossip/gossip.go:398-401 | and so is a negative one, down to -2^63 |
| GossipMerge.OtherVersionsAreNotNumbers | internal/cluster/gossip/gossip.go:398-401 | a version with a character other than a digit after the first is no number |
| GossipMerge.NumberedVersionsCompare | internal/cluster/gossip/gossip.go:371-395 | numbered versions compare as numbers, however each is prefixed, and the empty version is below them |
| GossipMerge.OrderedIffUncrossed | internal/cluster/gossip/gossip.go:371-401 | the comparison is transitive on a set of versions if and only if no non-empty version that is no number lies, as a string, between two numbers of the set that do not ascend |
| GossipMerge.UniformVersionsAreUncrossed | internal/cluster/gossip/gossip.go:371-401 | that holds for versions that are all empty or numbers, and for versions of which none is a number |
| GossipMerge.RemergeIsQuiet | internal/cluster/gossip/gossip.go:325-355 | merging the state just merged never reports an update |
| GossipMerge.NoUpdateNoChange | internal/cluster/gossip/gossip.go:325-355 | a merge that reports no update has left the node untouched, so skipping the write loses nothing |
| GossipMerge.ReportIsExact | internal/cluster/gossip/gossip.go:325-355 | a merge reports an update if and only if it changes the node |
| GossipMerge.MergedFields | internal/cluster/gossip/gossip.go:325-355 | the newer version wins outright; at equal versions the later heartbeat is kept, a known address replaces the old one, and everything else but the status stays |
| GossipMerge.MergedStatus | internal/cluster/gossip/gossip.go:343-368 | at equal versions a heartbeat that is not older leaves alive if either side is alive, else suspect if either is, else dead if either is; an older heartbeat leaves the local status |
| GossipMerge.WireConversions | internal/cluster/gossip/messages.go:63-82 | a node that travels through a snapshot and back loses its leader flag, an unknown status becomes alive, and all else survives |
| GossipMerge.StatusNamesIgnoreCase | internal/cluster/gossip/messages.go:63-82 | status names are read in any case, and whatever is neither suspect nor dead is alive |
| GossipMerge.OneExchangeAgreesButStatus | internal/cluster/gossip/gossip.go:325-355 | one exchange makes both sides agree on versions, heartbeat and address at every id, for arbitrary version strings |
| GossipMerge.OneExchangeAgreesIff | internal/cluster/gossip/gossip.go:325-355 | one exchange makes the statuses agree too if and only if the stronger status does not come with the older heartbeat and no unnamed status is passed on |
| GossipMerge.StatusLagsBehind | internal/cluster/gossip/gossip.go:325-355 | a node alive with the older heartbeat on one side and dead with the newer on the other still differs in status after one exchange |
| GossipMerge.TwoExchangesAgree | internal/cluster/gossip/gossip.go:325-355 | two exchanges always make everything agree |
| Gossip.ToGossipNodeStates | internal/cluster/gossip/messages.go:63-82 | the conversion loop turns the infos into states one by one and in order |
| Gossip.GossipEngine.MergeMembership | internal/cluster/gossip/gossip.go:210-263 | flags apart, the membership becomes the sequential merge of the states: unknown ids are added, known ones merged, states without an id skipped; at most one leader is kept |
| Gossip.GossipEngine.Snapshot | internal/cluster/gossip/gossip.go:190-207 | every node of the membership is listed, exactly once, in some order |
| Gossip.GossipEngine.HandleInbound | internal/cluster/gossip/gossip.go:176-187 | the sender's nodes are merged first, and the answer lists the merged membership |
| Gossip.GossipEngine.ExchangeWith | internal/cluster/gossip/gossip.go:127-187 | one lossless request and response acts on both memberships id by id as the merge of the two states |
| Gossip.GossipEngine.ConvergeWith | internal/cluster/gossip/gossip.go:127-263 | after two exchanges both sides hold the same non-empty ids with equal versions, heartbeats, statuses and addresses |
| GossipSpec.MergeActsPerId | internal/cluster/gossip/gossip.go:210-263 | merging a list acts on each id separately |
| GossipSpec.NoNodeIsDropped | internal/cluster/gossip/gossip.go:210-263 | no merge ever drops a node |
| GossipSpec.MergeReachesMaximum | internal/cluster/gossip/gossip.go:210-263 | on versions on which the comparison is transitive, merging any list leaves a node at the lexicographic maximum of version and heartbeat over what it had and was told |
| GossipSpec.RankIgnoresOrder | internal/cluster/gossip/gossip.go:210-263 | on uncrossed versions, lists with the same states in any order and with any duplication leave the same ids, with versions that compare equal and the same heartbeats |
| GossipSpec.OrderFreeIff | internal/cluster/gossip/gossip.go:210-263 | for a set of versions, all lists of states with them leave every node at the same rank whatever their order and repetition if and only if the versions are uncrossed |
| GossipSpec.MergeTakesTheHigherRank | internal/cluster/gossip/gossip.go:325-355 | a merge ends at the higher of two ranks, for arbitrary version strings |
| GossipSpec.BestStatusWins | internal/cluster/gossip/gossip.go:210-263 | told about a node at its version with heartbeats that never go back, a membership ends with alive if the node was or was told alive, else suspect likewise, else dead |
| GossipSpec.OrderMattersForMixedVersions | internal/cluster/gossip/gossip.go:371-401 | an instance: the same three states in two orders leave two different versions |
| GossipSpec.TwoExchangesConverge | internal/cluster/gossip/gossip.go:176-263 | two exchanges converge a pair of memberships at every non-empty id, one suffices for all but the status |
| Gossip.GossipEngine.EvaluateFailureDetector | internal/cluster/gossip/gossip.go:291-322 | marking the nodes of a snapshot through the membership, elections included, comes to the same statuses as judging every node once |
| Gossip.RunBothDetectors | internal/cluster/membership.go:312-336 | with the same members, clock, timeout and local id both detectors produce identical statuses |
| FailureDetector.MembershipSteps | internal/cluster/membership.go:312-336 | a detector pass is one tick for every node but the local one, which it leaves alone, and a heartbeat is one beat |
| FailureDetector.DeathTakesTwoTicks | internal/cluster/membership.go:312-336 | over any run of ticks and heartbeats a node that starts alive is dead only after one tick suspected it and a later one, with no heartbeat in between, found that heartbeat more than twice the timeout old, after which it stayed dead |
| FailureDetector.PunctualNodesStayAlive | internal/cluster/membership.go:312-336 | a node whose heartbeat is never older than the timeout at a tick is never suspected |
| FailureDetector.SilentNodesDie | internal/cluster/membership.go:312-336 | without a heartbeat, one tick that finds it older than the timeout leaves the node suspected at least, and a later one that finds it older than twice the timeout leaves it dead for good |
| FailureDetector.HeartbeatsRevive | internal/cluster/membership.go:191-206 | a heartbeat revives a node after any run |
| Handoff.HintManager.StoreHint | internal/cluster/handoff/manager.go:37-47 | exactly one hint more at the end of the target's queue, every other queue as before |
| Handoff.HintManager.RemoveHint | internal/cluster/handoff/manager.go:63-74 | exactly the hint at the index disappears, an index out of range is ignored, no empty queue is kept |
| Handoff.HintManager.AttemptHint | internal/cluster/handoff/manager.go:81-92 | one round of the loop removes the very hint it sent, however many were stored during the call |
| Handoff.HintManager.ReplayHints | internal/cluster/handoff/manager.go:78-94 | with any hints stored in between, each snapshotted hint is attempted exactly once, last first, and exactly the failed ones in their order followed by the new ones remain |
| Handoff.ReverseReplayIff | internal/cluster/handoff/manager.go:78-94 | sending in reverse leaves a replica as stored order would if and only if the oldest and newest pending write of each key leave the same thing |
| Handoff.OlderValueSurvivesReplay | internal/cluster/handoff/manager.go:78-94 | two pending puts of one key leave the older value, where stored order would leave the newer |
| Handoff.OneHintPerKeyIsOrderFree | internal/cluster/handoff/manager.go:78-94 | with at most one hint per key the reverse order does not matter |
| KvHandlers.KvHandler.ServeReplicas | internal/server/handlers/kv.go:139-156 | every replica in the list gets exactly one serving step in order: a hint if it is not alive, the call fails or the answer carries an error |
| KvHandlers.KvHandler.HandlePut | internal/server/handlers/kv.go:91-159 | done exactly when the key is standalone or the local node is its first owner and storing and reading back succeed; then one reply per other owner, and at each node exactly one hint more for each of its servings not accepted and one application more for each that reached it, no other write touched; standalone serves nobody; in every other case no hint or replica changes, and the value is stored exactly if the local put succeeded |
| KvHandlers.KvHandler.HandleDelete | internal/server/handlers/kv.go:350-406 | the same for deletes, which are not read back |
| KvHandlers.LoopIsServeActions | internal/server/handlers/kv.go:139-156 | a handler's loop is a series of possible actions of the delivery protocol that acknowledges its request and leaves every replica as the loop does |
| KvHandlers.EveryServingCounts | internal/server/handlers/kv.go:139-156 | each serving of a node leaves a hint or an application there, and a node that is not among the other owners gets neither |
| KvHandlers.OwnersKeepTheWrite | internal/server/handlers/kv.go:91-159 | an acknowledged put or delete, in any run and however the run goes on, has at each of the other owners been applied or is a pending hint, unless replays of it there were refused as often as it was passed on and nothing ever got through |
| KvHandlers.AttemptIsAStep | internal/cluster/handoff/manager.go:78-94 | for puts and deletes, a round of the hint manager's replay loop is an attempt of the delivery protocol: the same queue is left, the same write was sent, and the same hint comes next, whatever was stored meanwhile |
| Delivery.EveryRunConserves | internal/cluster/handoff/manager.go:37-94 | in every reachable state, per replica and write and counting repetitions, what handlers passed on equals delivered plus pending plus dropped, and whatever was delivered has been applied |
| Delivery.KeptIff | internal/cluster/gossip/gossip.go:266-289 | in every reachable state of every interleaving, a write is applied at a node or pending for it if and only if fewer of the replays that sent it there were refused than handlers have passed it on, or some handler, replay or repair made the node apply it |
| Delivery.FullyKeptIff | internal/cluster/gossip/gossip.go:266-289 | every single time a write was passed on has been answered or is pending if and only if no replay of it was refused |
| Delivery.DroppedIffRefused | internal/cluster/gossip/gossip.go:266-289 | nothing at all is given up for a node if and only if no replay attempt to it was answered with an error inside the response |
| Delivery.AcknowledgedIsAppliedOrPending | internal/server/handlers/kv.go:139-156 | each acknowledged write has, for each of its replicas, been applied there or is still a pending hint if and only if replays of it to that replica were refused less often than it was passed on, or some attempt got through; in particular if no replay there was refused |
| Delivery.RefusedReplayLosesAWrite | internal/cluster/gossip/gossip.go:266-289 | after one refused replay an acknowledged write is neither applied nor pending |
| ReadRepair.Replicas.RepairRound | internal/server/handlers/kv.go:287-325 | every responder ends up with the winner, all other copies are untouched, and only responders that differ are written to |
| ReadRepair.RepairedMeans | internal/server/handlers/kv.go:287-325 | every owner that is alive, reachable and has the key ends up with the winner, and no copy changes other than at such an owner |
| ReadRepair.Replicas.RepairTwice | internal/server/handlers/kv.go:287-325 | a repeated round from the same first value sends no writes |
| ReadRepair.MajorityValue | internal/server/handlers/kv.go:327-348 | a value of maximal count, the earliest seen among those |
| ReadRepair.WinnerIsUnique | internal/server/handlers/kv.go:327-348 | there is only one such value |
| ReadRepair.StrictMajorityWins | internal/server/handlers/kv.go:327-348 | a strict majority of the votes wins, among which the value read first is counted once more than it is held by responders |
| ReadRepair.MajorityOfRepliesWinsIff | internal/server/handlers/kv.go:284-310 | a value that a strict majority of the polled replicas returned wins if and only if it is the one read first or was returned more than once more often than that one |
| ReadRepair.FirstReadOutvotesMajority | internal/server/handlers/kv.go:284-325 | three replicas of which two agree: if the third was read first, a repair round overwrites the other two with its value |
| ReadRepair.FirstWinsIff | internal/server/handlers/kv.go:327-348 | the value first read wins if and only if none is more frequent |
| ReadRepair.PluralityBeatsFirst | internal/server/handlers/kv.go:327-348 | of four votes a value held by two displaces the first one without a strict majority |
| ReadRepair.WinnerWinsAgain | internal/server/handlers/kv.go:287-348 | once all responders hold the winner it wins again, whatever the first value was |
| ReadRepair.SecondRoundIsQuiet | internal/server/handlers/kv.go:287-348 | after a repair no responder differs from the next round's winner |
| DocumentIndex.IndexManager.AddID | internal/document/index/index.go:104-118 | exactly one entry more |
| DocumentIndex.IndexManager.RemoveID | internal/document/index/index.go:120-142 | exactly that entry less, and no empty inner map remains |
| DocumentIndex.IndexManager.IndexDocument | internal/document/index/index.go:27-36 | exactly the document's indexable fields are added for its id |
| DocumentIndex.IndexManager.RemoveDocument | internal/document/index/index.go:39-48 | exactly the document's indexable fields are removed for its id |
| DocumentIndex.IndexManager.UpdateDocument | internal/document/index/index.go:51-64 | the old document's entries go, the new one's come, shared ones stay |
| DocumentIndex.IndexManager.Lookup | internal/document/index/index.go:67-89 | exactly the ids under the value's text, in their one ascending order |
| DocumentIndex.IndexManager.Fields | internal/document/index/index.go:92-102 | exactly the fields under which some document is indexed, ascending |
| DocumentIndex.AscendingIsUnique | internal/document/index/index.go:84-88 | the sorted answer is determined by its members, not by the order of the map |
| DocumentService.Service.Get | internal/document/service/service.go:67-79 | the stored document or the error for it |
| DocumentService.Service.CreateWithID | internal/document/service/service.go:43-64 | succeeds exactly for a non-empty id and a working storage, and changes nothing otherwise; a success stores the document with its id under "_id", and index and store still agree if and only if the id was fresh or the new document covers the old one's entries |
| DocumentService.Service.Update | internal/document/service/service.go:97-128 | store and index stay in agreement; a missing document or a storage failure changes no document |
| DocumentService.Service.Delete | internal/document/service/service.go:82-94 | store and index stay in agreement, also when the storage fails after the index entries were removed |
| DocumentService.Service.IndexedFields | internal/document/index/index.go:92-102 | the index's fields are exactly those that some stored document carries as non-nested fields other than the id |
| DocumentService.AgreesAfterCreate | internal/document/service/service.go:43-64 | after indexing a document over an existing id the agreement holds if and only if every entry of the old document is one of the new |
| DocumentService.CreateTwice | internal/document/service/service.go:43-64 | two creations under one id with different texts in a field leave store and index in disagreement |
| DocumentQuery.FindByField | internal/document/service/service.go:139-207 | the page from offset to offset plus limit of the found documents, in id order without a sort field and through the library's sort with one; while store and index agree every result is a stored document with the field, not "_id" and not nested, whose text is the value's; with values of one scalar type numbers, texts and bools go up, or down behind a '-', and documents without the field come last |
| DocumentQuery.LoadPage | internal/document/service/service.go:172-206 | skipping and stopping while reading gives the same page as reading everything and slicing |
| DocumentQuery.FindSorted | internal/document/service/service.go:209-239 | all documents are put through the library's sort by the named field, a leading '-' reversing the comparison, before the page is cut |
| DocumentQuery.InOrderIsSorted | internal/document/service/service.go:222-229 | what a query cuts its pages from is always a permutation of the documents found, and their one stable order by the field, in the direction the option asks for, whenever they can be sorted by it |
| DocumentQuery.PageGoesOneWay | internal/document/service/service.go:339-377 | with values of one scalar type or missing, every page goes up without and down with a leading '-', in numbers, texts and bools, and missing or null values come last |
| DocumentQuery.QueryIsAFilter | internal/document/service/service.go:139-207 | while store and index agree, looking up a text is the plain filter over the stored documents, and each id found yields its document |
| DocumentQuery.OnlyMatchesAreFound | internal/document/service/service.go:139-207 | while store and index agree the unpaged result holds exactly the stored documents that have the field, not "_id" and not nested, with the value's text, as often as they are stored |
| DocumentQuery.SurvivorsAreStored | internal/document/service/service.go:176-186 | ids without a document are passed over and the others keep their order |
| DocumentQuery.PageElements | internal/document/service/service.go:231-239 | a page starts at the offset and has as many elements as the limit allows and there are |
| DocumentQuery.OneKindIsStrictWeak | internal/document/service/service.go:339-377 | on values of one scalar type or missing ones the comparison is a strict weak order in both directions |
| DocumentQuery.StrictWeakIffSortable | internal/document/service/service.go:339-377 | in either direction the comparison is a strict weak order on some documents if and only if their values are missing or of one scalar type, or no two documents with the field are ordered |
| DocumentQuery.MissingComeLast | internal/document/service/service.go:339-347 | documents without the field come last, ascending or descending |
| DocumentQuery.MixedTypesAreNotStrictWeak | internal/document/service/service.go:339-377 | an instance: a text, a number and another text break the order |
| DocumentQuery.SortedByFieldIsStable | internal/document/service/service.go:227-229 | whenever the documents can be sorted by the field, there is one and only one stable order by it |
| DocumentQuery.ConsecutivePages | internal/document/service/service.go:139-239 | queries for two consecutive pages return together what one query for both returns, and the unpaged result if they start at the beginning and the second has no limit; on any documents, with the library's sort a function of its input |
| StableSort.SortIsStable | internal/document/service/service.go:227-229 | the sort orders its input and keeps ties in their order and number, for every strict weak order |
| StableSort.InsertionSortQualifies | internal/document/service/service.go:227-229 | insertion sort is one sort that the library may use: a permutation for every comparison, and a stable sort for every strict weak order |
| StableSort.StableSortIsUnique | internal/document/service/service.go:227-229 | any stable sort of the input gives the same sequence, so the algorithm behind the library call does not matter |

## Left out

- Engine.Engine.Open: does not model failures of file-system calls other than writes to the log; gob encoding, fsync, temporary files and directory handling are part of an atomic checkpoint save and of a returned write being durable.
- EngineRuns.CrashRecoveryIsExact: covers runs in which a write either completes or the process dies in it; an append that fails while the engine lives on leaves a prefix of its record in the log, which `Engine.Engine.Put` states but runs do not continue from.
- EngineRuns.EveryRunRecovers: assumes that the configuration stays the same along a run.
- Engine.ReplayInto: a zero checkpoint time stands for no checkpoint; a decoded record's time is never Go's zero time, so the code's special case for it is unreachable and not modelled.
- ReadRepair.Replicas.RepairRound: the repairing writes succeed on every reachable address; timeouts of single reads are addresses that are not reachable.
- Delivery.EveryRunConserves: hints live in memory only, so a restart of the process, which loses them, ends a run; two replays for one node at a time are excluded, because removal is by index.
- KvHandlers.KvHandler.HandlePut: a request forwarded to another primary is only answered as forwarded, because the receiving handler stores the value on the owner alone; a local storage failure leaves the store as it was.
- DocumentService.Service.CreateWithID: encoding and decoding a document as JSON is the identity, as it is for documents that were decoded before; index entries are not rebuilt after a restart.
- DocumentQuery.FindByField: the errors for options of a wrong type or number are not modelled; a sorted query requires a nonnegative offset and a sum with the limit that does not overflow, because the code panics or misslices otherwise; on the unsorted path a negative offset counts as zero, which the code does too unless it is so large that the capacity it computes from it overflows or cannot be allocated; reading a found document either yields it or reports it missing, so neither other storage errors nor invalid JSON occur; the library's sort is a function of the comparison and the elements.
- FailureDetector.DeathTakesTwoTicks: explicit marks by gossip or by a leave request are not events of these runs; the doubling of a timeout near the limit of 64 bits is not modelled.
- Gossip.GossipEngine.ExchangeWith: choosing the peers, lost messages and concurrent merges are left out; each method is one step under its lock.
- GossipMerge.WireConversions: lower-casing is ASCII, which is exact for the two names looked for.
- HTTP, JSON responses, middleware, RPC transport and configuration: plumbing around the modelled steps; the handlers consult only the replication factor, so quorum settings have no behaviour to model.
- Exists, Scan, GetRaw, iterators, Stats, Health and TTL: easy readers of the same map, or not enforced by the code.
- Aggregates over floating-point fields: folds over an already filtered result.
- Goroutines, tickers and mutexes: every method is one atomic step, except that hints may be stored between any two steps of a replay.
- Aliasing of Go slices and maps: stored values are immutable here, which is what the code's defensive copies achieve.

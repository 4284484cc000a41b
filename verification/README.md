# Lockstep: a verified model of its runtime, storage and judging machinery

Lockstep is a deterministic simulation framework with a replicated, versioned store on top. This
project models, in Dafny, the parts of it that everything else relies on, and proves what they
promise.

**The runtime** (`Runtime`, `RuntimeInvariant`, `RunLoop`, `RunUntil`, `WakeupMoves`, `SchedulerObject`). The
cooperative scheduler is a state machine over coroutine frames, futures, a FIFO ready queue and
virtual timers. User code is arbitrary: a behaviour maps the state at a resume to the actions the
coroutine performs until it next suspends, and a failed assertion of the source aborts the run. On
top of the machine stand the run-wide theorems: every suspended coroutine sits in exactly one place,
no wake-up is lost, every action moves exactly the coroutines it should, timers fire once and on
time, bounded runs stop where they should and compose. The class
`SchedulerObject.Scheduler` updates its fields in place as the source does and refines the machine
step by step, including the index juggling of the timer vector and the exact meaning of the step cap.

**The store** (`Codec`, `Bits`, `Crc32`, `OpLog`, `Oracle`, `Records`, `Backup`, `Pitr`, `ValueLog`,
`StateHash`, `Database`, `Durability`). One meaning runs through all of it: the state as of Seq n is the fold of
the first n operations into a map (`OpLog.Fold`, `OpLog.AsOf`). The MVCC engine, the byte formats
with their checksums, point-in-time recovery, the keyspace fingerprint and the query store with its
four read levels are each proved equal to that fold, and over every life of a durable store, with
crashes at any operation, it is said exactly when priming shows the full history. 32- and 64-bit
truncation and wrap-around are written out.

**The judges** (`Observation`, `Checkers`, `ScriptedNodes`, `ScriptedFaults`, `ScriptedRuns`,
`FaultDriver`, `Deadline`, `Shrinker`).
The conformance checkers are proved to decide the invariants they are named after over runs of any
length; scripted replicas are judged under every interleaving, and every scripted fault is
caught on whole families of schedules; the fault schedule keeps a majority
for every sequence of random draws; it is said exactly when the time budget covers every driver; the
shrinker ends in a locally minimal failing configuration.

Where the code and its own comments differ, the model follows the code:

- A disk restore is commented as rejecting a damaged backup without partial effect. It checks
  framing while already putting records (`Backup.DiskRestoreCanBePartial`,
  `Backup.RestoreFromDisk`).
- The archive validator is commented as making the early break complete. With Seqs that wrap past
  2^64 it does not (`Pitr.WrappedArchiveMissesARecord`, `Pitr.BreakIsCompleteExactly`).
- The archive validator is commented as comparing the last Seq with `to_seq`. It does so only when there
  are records (`Pitr.AdvertisedSeqHeldExactly`, `Pitr.EmptyArchiveAdvertisesAnything`).
- Recovery is commented as never seeing a torn write-set. A crash may cut an unsynced write-set
  anywhere, and priming repairs that only under the condition of `Durability.PrimeAfterCrashExactly`
  (`Durability.TornCommitNotRestored`). A commit between recovery and priming makes priming skip
  write-sets (`Durability.PrimeExactly`, `Durability.CommitBeforePrimeLoses`).
- Read-your-writes reports `max(tip, session_last_write)` as the served prefix, while the read
  itself is clamped to the tip (`Database.LevelContracts`).
- `run_until` is commented as returning true when the window finished. It returns false when the
  `max_steps`-th resume was the last one needed (`SchedulerObject.CapOnTheLastResume`,
  `SchedulerObject.Scheduler.RunUntil`).
- `compute_deadline` is commented as an upper bound on every driver. It is one exactly under the
  condition of `Deadline.DeadlineCoversExactly`; a polling stride that divides the waiting budgets is
  enough (`Deadline.EverythingFits`), and without it the bound can fail
  (`Deadline.OverrunOutlastsDeadline`).
- The fault schedule never clears its list of crashed nodes after the final cleanup, so at the last
  snapshot the list names live nodes exactly when it was not empty before (`FaultDriver.Drive`,
  `FaultDriver.ListStaysFilled`).
- The clobbering scripted node is commented as caught for every seed. It is caught exactly when both
  values were observed (`ScriptedNodes.DroppedEntryFlaggedExactly`,
  `ScriptedNodes.UnseenClobberAccepted`).
- The linearizability checker is commented as rejecting committed values no client submitted. The
  code has no such test (`Checkers.FabricatedCommandAccepted`); exactly the slots that a committed
  submit claims are protected (`Checkers.ForgeryNoticedExactly`).
- The shrinker's comment names halving first; the code tries the floor first.

## Model

| member | source | states |
|---|---|---|
| RuntimeInvariant.SpawnKeeps | core/include/lockstep/core/Scheduler.hpp:76-87 | spawning a task keeps the wake-up invariant; a Task whose handle was already released is ignored |
| RuntimeInvariant.CompleteKeeps | core/include/lockstep/core/Future.hpp:68-81 | completing a future keeps every coroutine in its one place: the waiter moves from the future to the back of the ready queue |
| RuntimeInvariant.ParkOnFutureKeeps | core/include/lockstep/core/Future.hpp:204-218 | awaiting keeps the invariant: a ready future does not suspend, a pending one gets its only waiter, a second waiter aborts |
| RuntimeInvariant.ParkOnTaskKeeps | core/include/lockstep/core/Task.hpp:134-159 | awaiting a task keeps the invariant: the child is scheduled once and holds the parent as its continuation |
| RuntimeInvariant.FinishKeeps | core/include/lockstep/core/Task.hpp:69-86 | finishing keeps the invariant: the continuation, if any, is scheduled exactly once |
| RuntimeInvariant.PopKeeps | core/include/lockstep/core/detail/ReadyQueue.hpp:40-44 | popping the front takes the coroutine out of its only place and onto the stack |
| RuntimeInvariant.ResumeKeeps | core/include/lockstep/core/Scheduler.hpp:96-101 | one whole resume, for any list of actions the coroutine performs, re-establishes both halves of the invariant unless the process aborted |
| RuntimeInvariant.ArmKeepsTimers | core/include/lockstep/core/Scheduler.hpp:203-214 | arming adds one timer behind the others and keeps the timer invariant; it is due after the given ticks, or at the present tick when they are not positive |
| RuntimeInvariant.FireKeeps | core/include/lockstep/core/Scheduler.hpp:242-289 | firing fires exactly the timers with the least due tick, in arm order, with the clock at that tick; it never aborts, never moves the clock back, and keeps the invariant |
| RunLoop.StepKeeps | core/include/lockstep/core/Scheduler.hpp:93-110 | every step of a run keeps the invariant and never decreases virtual time |
| RunLoop.ExactlyOnePlace | core/include/lockstep/core/Scheduler.hpp:76-110 | in every reachable state a coroutine handed to the runtime and not finished sits in exactly one place (queue position, waiter of one pending future, continuation of one unfinished child); any other sits nowhere |
| RunLoop.QuiescentParksOnUnfinished | core/include/lockstep/core/Future.hpp:68-89 | no lost wake-up: with an empty queue nobody is parked on a completed future or finished child; without timers nobody is parked on a delay |
| RunLoop.TimersFireExactlyOnceOnTime | core/include/lockstep/core/Scheduler.hpp:203-289 | over every run arm numbers split into pending and fired; each fired one fired once, with the clock at its due tick; no pending one is overdue; pending ones stay strictly ascending in arm number |
| RunLoop.TicketsResumeInIssueOrder | core/include/lockstep/core/detail/ReadyQueue.hpp:37-44 | over every run the k-th resume takes ticket k and waiting tickets are consecutive: strict first-in first-out |
| WakeupMoves.SetValueWakes | core/include/lockstep/core/Future.hpp:68-81 | completing a pending user future makes it ready and moves exactly its waiter to the back of the queue, nobody else and no other future; a ready, timer-owned or unknown one aborts |
| WakeupMoves.WaiterIsWoken | core/include/lockstep/core/Future.hpp:68-81 | whoever sits as the waiter of a user future sits at the back of the queue after `set_value`, and no longer at the future |
| WakeupMoves.SpawnMoves | core/include/lockstep/core/Scheduler.hpp:76-87 | spawning a held task puts it at the back of the queue and moves nobody else; any other task is left alone |
| WakeupMoves.DelayMoves | core/include/lockstep/core/Scheduler.hpp:203-214 | a delay adds one pending future and one timer for it, due after the ticks or now, and moves nobody |
| WakeupMoves.AwaitFutureMoves | core/include/lockstep/core/Future.hpp:204-218 | awaiting a pending future makes the running coroutine its waiter and moves nobody else; a ready one does not suspend; a second waiter aborts |
| WakeupMoves.AwaitTaskMoves | core/include/lockstep/core/Task.hpp:134-159 | awaiting a held child queues the child and makes the parent its continuation, and moves nobody else |
| WakeupMoves.FinishMoves | core/include/lockstep/core/Task.hpp:69-86 | finishing moves exactly the continuation, from the child to the back of the queue |
| WakeupMoves.ResumeIsABurst | core/include/lockstep/core/Scheduler.hpp:96-101 | a resume pops the front and is a sequence of states in which each next action of the script has its effect on the places, until the coroutine suspends, ends or aborts |
| WakeupMoves.FireWakes | core/include/lockstep/core/Scheduler.hpp:242-289 | advancing the clock makes the futures of the earliest timers ready and queues exactly their waiters, in arm order |
| WakeupMoves.StepMoves | core/include/lockstep/core/Scheduler.hpp:93-110 | every event of a run, on the places: an action from outside has its effect, a turn runs one burst of the front, a tick waits for an empty queue and wakes the waiters of the earliest timers |
| RunUntil.RunUntilComposes | core/include/lockstep/core/Scheduler.hpp:131-175 | for d1 <= d2 and any program, `run_until(d1)` then `run_until(d2)` halts exactly when `run_until(d2)` does, in the same state; with no later deadline this is `run` |
| RunUntil.RunsToUnique | core/include/lockstep/core/Scheduler.hpp:151-175 | the loop is deterministic: it halts in at most one state |
| RunUntil.LoopIsARun | core/include/lockstep/core/Scheduler.hpp:93-110 | every state of the driver loop is a state of a run, so the run-wide invariants hold of it |
| RunUntil.StoppedExactly | core/include/lockstep/core/Scheduler.hpp:165-170 | the loop stops exactly when the queue is empty and every pending timer is due strictly after the deadline; without a deadline, when none is pending |
| RunUntil.ClockWithinDeadline | core/include/lockstep/core/Scheduler.hpp:165-171 | no number of turns moves the clock past the deadline |
| SchedulerObject.SortByArm | core/include/lockstep/core/Scheduler.hpp:265-273 | the in-place insertion sort of indices ends sorted by arm number and is a permutation |
| SchedulerObject.TakeEarliest | core/include/lockstep/core/Scheduler.hpp:242-283 | min scan, index collection, index sort, move-out and descending erase refine: split off all timers with the least due tick in arm order, keep the rest in order |
| SchedulerObject.Scheduler.CompleteFuture | core/include/lockstep/core/Future.hpp:68-81 | the object refines the completion step of the state machine |
| SchedulerObject.Scheduler.AwaitOnFuture | core/include/lockstep/core/Future.hpp:204-218 | the object refines parking on a future |
| SchedulerObject.Scheduler.AwaitOnTask | core/include/lockstep/core/Task.hpp:134-159 | the object refines parking on a child task |
| SchedulerObject.Scheduler.FinalSuspend | core/include/lockstep/core/Task.hpp:69-86 | the object refines the end of a coroutine |
| SchedulerObject.Scheduler.RunCoroutine | core/include/lockstep/core/Scheduler.hpp:96-101 | a resumed coroutine performs its actions until it suspends, as the state machine does |
| SchedulerObject.Scheduler.FireEarliestTimers | core/include/lockstep/core/Scheduler.hpp:242-289 | the index juggling on the mutable vector refines the declarative firing step and keeps the object valid |
| SchedulerObject.Scheduler.ResumeFront | core/include/lockstep/core/Scheduler.hpp:96-101 | one turn of the loop refines one resume and keeps the object valid |
| SchedulerObject.Scheduler.RunUntil | core/include/lockstep/core/Scheduler.hpp:151-175 | true: the uncapped result was reached in fewer than `max_steps` resumes, the queue is empty and every pending timer is due strictly after the deadline; false: exactly `max_steps` resumes happened, and the uncapped loop needs at least that many; the clock never passes the deadline |
| SchedulerObject.Scheduler.Turns | core/include/lockstep/core/Scheduler.hpp:93-110 | the first turns of the uncapped loop, any number of them and also of a loop that never halts, refine the state machine |
| SchedulerObject.CapOnTheLastResume | core/include/lockstep/core/Scheduler.hpp:159-162 | a concrete run: one coroutine and a cap of one give false although nothing is left to do |
| Codec.ValOfLe | storage/include/lockstep/storage/Codec.hpp:58-81 | decoding an encoded in-range integer gives it back |
| Codec.LeDigits | storage/include/lockstep/storage/Codec.hpp:58-68 | byte i of an encoded integer is its i-th base-256 digit, lowest first |
| Codec.ValOfLeTruncates | storage/include/lockstep/storage/Codec.hpp:58-81 | a wider integer is truncated to the field: it comes back modulo 256 to the width |
| Codec.LeOfVal | storage/include/lockstep/storage/Codec.hpp:58-81 | encoding a decoded integer gives the same bytes |
| Codec.PutU32 | storage/include/lockstep/storage/Codec.hpp:58-63 | the four pushes append exactly the four little-endian bytes |
| Codec.PutU64 | storage/include/lockstep/storage/Codec.hpp:64-68 | the push loop appends exactly the eight little-endian bytes |
| Codec.LessIsLexicographic | storage/include/lockstep/storage/Oracle.hpp:184-196 | key order: a proper prefix or the smaller byte at the first difference |
| Crc32.Table | storage/include/lockstep/storage/Codec.hpp:41-54 | table entry i is byte i after eight steps of division by the reflected polynomial |
| Crc32.TableStep | storage/include/lockstep/storage/Codec.hpp:31-36 | one table step equals eight bit-at-a-time division steps, for every register and byte |
| Crc32.Compute | storage/include/lockstep/storage/Codec.hpp:29-38 | the table-driven loop computes the bit-at-a-time CRC of section 8 of RFC 1952 on every byte string |
| Crc32.CheckValue | storage/include/lockstep/storage/Codec.hpp:27-55 | the checksum of the nine digits 123456789 is 0xCBF43926 |
| Crc32.BurstDetected | storage/include/lockstep/storage/Codec.hpp:27-55 | any change confined to at most four consecutive bytes of an equal-length string changes the CRC |
| Oracle.Engine.VersionsFor | storage/include/lockstep/storage/Oracle.hpp:184-196 | the key vector stays strictly sorted and holds the same versions; the key has a slot afterwards |
| Oracle.Engine.Commit | storage/include/lockstep/storage/Oracle.hpp:116-121 | Seqs are handed out 1, 2, 3, ... with no gap or reuse, the history grows by exactly the operation, and no older snapshot changes |
| Oracle.NewestVisible | storage/include/lockstep/storage/Oracle.hpp:127-145 | wherever the ascending scan of versions stops, the last one seen decides the key in the fold of the first `at` commits |
| Oracle.Engine.Lookup | storage/include/lockstep/storage/Oracle.hpp:127-145 | the read equals the key in the fold of the first `at` commits, tombstones being absent |
| Oracle.Engine.Scan | storage/include/lockstep/storage/Oracle.hpp:151-166 | the range read is exactly that map restricted to the range, in ascending key order |
| Oracle.RangeIsHalfOpen | storage/include/lockstep/storage/Oracle.hpp:151-166 | a range has its lower end, not its upper one, and everything strictly between |
| Oracle.LaterCommitsInvisible | storage/include/lockstep/storage/Oracle.hpp:116-121 | commits never change an older snapshot |
| Records.FramesOfEncode | storage/include/lockstep/storage/Backup.hpp:96-105 | the record framing reads back every list of records that was written |
| Records.EncodeOfFrames | storage/include/lockstep/storage/Backup.hpp:96-105 | a payload accepted by the framing is the encoding of its records: framing is a bijection |
| Backup.BuildImage | storage/include/lockstep/storage/Backup.hpp:52-74 | the image holds exactly the live map as of the snapshot, in key order |
| Backup.PayloadLayout | storage/include/lockstep/storage/Backup.hpp:57-64 | a row adds its key length, value length, key and value, in that order |
| Backup.Validate | storage/include/lockstep/storage/Backup.hpp:80-107 | the framing loop with all its checks computes the verdict, including which error |
| Backup.AcceptedExactly | storage/include/lockstep/storage/Backup.hpp:80-107 | validation accepts exactly the byte strings that are the header and encoding of some record list, whatever follows |
| Backup.DamagedRejected | storage/include/lockstep/storage/Backup.hpp:93-95 | an accepted image in which up to four consecutive payload bytes are changed is corrupt, for the in-memory and the disk path |
| Backup.DamagedChecksumRejected | storage/include/lockstep/storage/Backup.hpp:88-95 | so is one whose stored checksum is changed |
| Backup.WrongVersionExactly | storage/include/lockstep/storage/Backup.hpp:81-86 | `InvalidArgument` exactly for a whole header with the magic and another version |
| Backup.OutsideImageExactly | storage/include/lockstep/storage/Backup.hpp:87-92 | the 64-bit bounds check passes a length beyond the image exactly when the advertised length is within a header of 2^64 |
| Backup.WrappedLength | storage/include/lockstep/storage/Backup.hpp:87-92 | a concrete header that advertises 2^64 - 1 bytes and passes the bounds check |
| Backup.BuiltIsValid | storage/include/lockstep/storage/Backup.hpp:52-107 | a built image validates and carries exactly its rows |
| Backup.ApplyImage | storage/include/lockstep/storage/Backup.hpp:111-131 | in-memory restore is all or nothing: an error leaves the engine untouched, success puts every record in order |
| Backup.BackupAndRestore | storage/include/lockstep/storage/Backup.hpp:52-131 | backup then apply into an empty engine reproduces the live map as of the snapshot |
| Backup.PayloadDeterminesState | storage/include/lockstep/storage/Backup.hpp:57-64 | the payload is an injective function of the live map alone |
| Backup.RestoreFromDisk | storage/include/lockstep/storage/Backup.hpp:148-193 | the disk path puts the whole records before the first malformed one, also when it then reports corruption; with the checksum in order it is all or nothing if and only if the payload is well framed or its first record is malformed |
| Backup.DiskAcceptedExactly | storage/include/lockstep/storage/Backup.hpp:148-176 | the disk path starts putting exactly on the byte strings that are the header of some payload and the payload, whatever follows |
| Backup.ShortDiskExactly | storage/include/lockstep/storage/Backup.hpp:151-172 | a read error exactly when the header or the announced payload is not there |
| Backup.NothingPutExactly | storage/include/lockstep/storage/Backup.hpp:178-190 | nothing is put exactly when there is no record or already the first one is malformed |
| Backup.DiskRestoreCanBePartial | storage/include/lockstep/storage/Backup.hpp:178-190 | a concrete checksummed image on which the disk path reports corruption after having put a record |
| Pitr.Build | storage/include/lockstep/storage/Pitr.hpp:68-93 | the push loops produce the archive image of the operation log |
| Pitr.RecordLayout | storage/include/lockstep/storage/Pitr.hpp:68-81 | a record is its Seq, 0 for a put or 1 for a delete, the two lengths, key and value; a delete has no value |
| Pitr.BuiltIsValid | storage/include/lockstep/storage/Pitr.hpp:68-142 | the archive of a gap-free slice validates and holds exactly the slice |
| Pitr.CheckRecords | storage/include/lockstep/storage/Pitr.hpp:118-138 | the validation loop accepts exactly the well-framed payloads whose Seqs are contiguous (modulo 2^64) and whose types are known |
| Pitr.Validate | storage/include/lockstep/storage/Pitr.hpp:99-142 | validation computes the verdict; `to_seq` is compared only when there are records. What the verdict accepts is said by `Pitr.AcceptedExactly`, what it rejects by `Pitr.DamagedRejected` |
| Pitr.AcceptedExactly | storage/include/lockstep/storage/Pitr.hpp:99-142 | the verdict is `Ok` exactly for the byte strings that are the header and encoding of a run of puts and deletes with consecutive Seqs (modulo 2^64) from `from_seq` on, ending at `to_seq` unless empty, whatever follows |
| Pitr.DamagedRejected | storage/include/lockstep/storage/Pitr.hpp:115-117 | an accepted archive in which up to four consecutive payload bytes are changed is corrupt |
| Pitr.DamagedChecksumRejected | storage/include/lockstep/storage/Pitr.hpp:110-117 | so is one whose stored checksum is changed |
| Pitr.WrongVersionExactly | storage/include/lockstep/storage/Pitr.hpp:99-108 | `InvalidArgument` exactly for a whole header with the magic and another version |
| Pitr.OutsideImageExactly | storage/include/lockstep/storage/Pitr.hpp:109-114 | the 64-bit bounds check passes a length beyond the image exactly when the advertised length is within a header of 2^64 |
| Pitr.WrappedLength | storage/include/lockstep/storage/Pitr.hpp:109-114 | a concrete header that advertises 2^64 - 1 bytes and passes the bounds check |
| Pitr.AdvertisedSeqHeldExactly | storage/include/lockstep/storage/Pitr.hpp:139-140 | a validated archive holds a record with the last Seq it advertises if and only if its count is positive |
| Pitr.EmptyArchiveAdvertisesAnything | storage/include/lockstep/storage/Pitr.hpp:139-160 | an archive without records validates whatever last Seq it advertises, and every target up to it is admitted and replays nothing |
| Pitr.Apply | storage/include/lockstep/storage/Pitr.hpp:149-184 | for every byte image: an error leaves the engine untouched; otherwise the records up to the first larger Seq are replayed, in order |
| Pitr.ApplyDamaged | storage/include/lockstep/storage/Pitr.hpp:149-156 | replaying an archive so damaged, to any target, reports corruption and leaves the engine as it was |
| Pitr.BreakIsCompleteExactly | storage/include/lockstep/storage/Pitr.hpp:157-181 | the early break applies exactly the records with Seq at most the target if and only if `first + count <= 2^64`, which the header decides |
| Pitr.WrappedIsMissed | storage/include/lockstep/storage/Pitr.hpp:134-140 | records whose Seqs wrap past 2^64 are replayed incompletely, for every target the archive admits |
| Pitr.WrappedArchiveMissesARecord | storage/include/lockstep/storage/Pitr.hpp:99-184 | a concrete archive that validates and whose replay up to Seq 0 misses the record with Seq 0 |
| Pitr.RestoreToTarget | storage/include/lockstep/storage/Pitr.hpp:149-184 | from the archive of a gap-free history from Seq 1, restoring to any target within it answers like the source at every snapshot up to the target |
| Pitr.RestoreInTwoParts | storage/include/lockstep/storage/Pitr.hpp:68-184 | replaying [1..m] and then [m+1..n] commits exactly what [1..n] does |
| ValueLog.PointerRoundTrip | storage/include/lockstep/storage/ValueLog.hpp:81-106 | pointers survive their 24-byte encoding |
| ValueLog.PointerBytesRoundTrip | storage/include/lockstep/storage/ValueLog.hpp:96-106 | every 24-byte string is the encoding of the pointer it decodes to |
| ValueLog.ReadsOnlyTheRecord | storage/include/lockstep/storage/ValueLog.hpp:147-178 | dereferencing depends on nothing but the bytes of the record itself |
| ValueLog.PointersStayGood | storage/include/lockstep/storage/ValueLog.hpp:119-178 | after any append sequence every pointer, also after storage, yields its own value in every extension of the image |
| ValueLog.TruncatedIsAbsent | storage/include/lockstep/storage/ValueLog.hpp:147-178 | an image cut anywhere before the end of the record yields nothing |
| ValueLog.DamagedIsAbsent | storage/include/lockstep/storage/ValueLog.hpp:147-178 | a change confined to four consecutive bytes of the record yields nothing, never another value |
| ValueLog.OutsideImageExactly | storage/include/lockstep/storage/ValueLog.hpp:150-158 | the bounds check misleads exactly for pointers whose record end passes 2^64 |
| ValueLog.WrappedEnd | storage/include/lockstep/storage/ValueLog.hpp:150-158 | a concrete pointer that passes the bounds check of an empty image |
| StateHash.OpRoundTrip | storage/include/lockstep/storage/KeyedOp.hpp:30-62 | a keyed operation survives encoding |
| StateHash.OpBytesRoundTrip | storage/include/lockstep/storage/KeyedOp.hpp:48-62 | accepted bytes are the encoding of what they decode to, so no two committed values mean the same operation |
| StateHash.OpaqueExactly | storage/include/lockstep/storage/KeyedOp.hpp:48-62 | exactly the values that no operation encodes to are opaque, and stand for an insert of themselves under themselves |
| StateHash.KeyspaceReplays | cli/lockstep_admin.cpp:90-112 | the keyspace of a longer prefix is the next committed value applied to the shorter one; a prefix beyond the end is the whole log |
| StateHash.ApplyPrefix | cli/lockstep_admin.cpp:90-112 | a committed prefix is applied as its keyed operations, opaque values as self-keyed inserts |
| StateHash.HashCommittedPrefix | cli/lockstep_admin.cpp:116-130 | the fingerprint is that of the keyspace the committed prefix stands for |
| StateHash.Hash | storage/include/lockstep/storage/StateHash.hpp:48-58 | the fingerprint reads checksum and length of the live map as of the snapshot out of the image |
| StateHash.FindDivergence | storage/include/lockstep/storage/StateHash.hpp:82-103 | reports none exactly when all fingerprints agree, otherwise the first replica that differs from replica 0 |
| StateHash.AgreeingLogsHashAlike | storage/include/lockstep/storage/StateHash.hpp:48-103 | replicas whose committed logs agree on the compared prefix never diverge, whatever their local Seqs |
| StateHash.CompareReplicas | cli/lockstep_admin.cpp:1248-1268 | for any number of replicas: no alarm if and only if the payload of every keyspace has the checksum and 64-bit length of that of replica 0; an alarm names the first that has not, and its keyspace differs; logs that agree on the compared prefix raise none |
| StateHash.DamageIsSeen | storage/include/lockstep/storage/StateHash.hpp:82-103 | keyspaces whose payloads differ within four consecutive bytes never pass the comparison |
| StateHash.AlarmMeansDifferentKeyspaces | storage/include/lockstep/storage/StateHash.hpp:48-103 | an alarm means different keyspaces, and a difference within four payload bytes always raises it |
| Database.CommitMeaning | query/include/lockstep/query/Query.hpp:64-67 | committing a write-set gives each written key its value, makes sentinel keys absent and leaves every other key alone |
| Database.LevelContracts | query/include/lockstep/query/Query.hpp:229-251 | strict: the tip; snapshot: the version when in 1..tip; bounded: behind the tip by exactly the smallest of replica lag, `max_lag` and tip; read-your-writes: covers the session exactly when its last write is within the tip |
| Database.Store.SnapFor | query/include/lockstep/query/Database.hpp:285-290 | the Seq of a prefix reads the fold of exactly that many whole write-sets, clamped to the tip |
| Database.Store.ApplyNoSync | query/include/lockstep/query/Database.hpp:411-422 | the whole write-set becomes one more prefix; nothing more is durable |
| Database.Store.Apply | query/include/lockstep/query/Database.hpp:391-406 | the whole write-set becomes one more prefix and everything is durable |
| Database.Store.CrashAndRecover | query/include/lockstep/query/Database.hpp:315-324 | a crash keeps an operation prefix containing everything synced; recovery replays it and leaves one boundary at its tip |
| Database.Store.Prime | query/include/lockstep/query/Database.hpp:568-589 | on a durable backing exactly the write-sets beyond the tip are applied |
| Database.Store.PrimeInterrupted | query/include/lockstep/query/Database.hpp:568-589 | a priming cut by a crash leaves the old log and the first operations of what it had to apply; recovery leaves one boundary at its tip |
| Database.Store.RecoverAndPrime | query/include/lockstep/query/Database.hpp:568-589 | recovery then priming leaves the surviving log followed by all, or all but the first, write-sets; over remains of the history the tip is the full history exactly when nothing survived or every operation missing from the first write-set is a delete or rewritten later |
| Database.Store.RunQuery | query/include/lockstep/query/Database.hpp:643-684 | all points and ranges are answered from the fold of one whole-write-set prefix, the one the level resolves to, clamped to the tip |
| Database.EveryStepAnswered | query/include/lockstep/query/Database.hpp:643-684 | every point and every range of a query is answered, each from that one map and in the order asked |
| Database.PrimeRestoresExactly | query/include/lockstep/query/Database.hpp:577-587 | over whatever a crash has left, priming restores the full history if and only if every operation missing from the first write-set is a delete or is rewritten later; re-applying what is present does no harm |
| Database.LostWriteNotRestored | query/include/lockstep/query/Database.hpp:315-324 | a concrete history whose first write-set is cut in two and not restored by priming |
| Durability.LivesKeep | query/include/lockstep/query/Database.hpp:258-324 | over every sequence of commits, barriers, crashes at any operation, also in the middle of priming, recoveries and primings the log is made of remains of the agreed history |
| Durability.PrimeAfterCrashExactly | query/include/lockstep/query/Database.hpp:315-324 | whatever happened before, recovery followed by priming shows the full history if and only if nothing survived or every operation missing from the first write-set is a delete or is rewritten later |
| Durability.PrimeAfterCutExactly | query/include/lockstep/query/Database.hpp:577-587 | the same after a crash that interrupts a priming at any operation |
| Durability.InterruptionIsHarmless | query/include/lockstep/query/Database.hpp:577-587 | a first write-set that could be restored before an interrupted priming can be restored after it |
| Durability.TornCommitNotRestored | query/include/lockstep/query/Database.hpp:315-324 | a concrete life: a commit of two writes, a crash that keeps one, a priming that does not bring back the other |
| Durability.CoveringCrashRestores | query/include/lockstep/query/Database.hpp:577-587 | in particular whenever nothing or the whole first write-set survives |
| Durability.StaysInStep | query/include/lockstep/query/Database.hpp:258-279 | a new store shows the full history, and one that does keeps doing so until the next crash |
| Durability.PrimeExactly | query/include/lockstep/query/Database.hpp:577-587 | in any state, also with commits between recovery and priming: priming shows the full history if and only if the log and the first `tip` write-sets agree on every key the remaining write-sets do not write |
| Durability.CommitBeforePrimeLoses | query/include/lockstep/query/Database.hpp:577-587 | a concrete life in which a commit between recovery and priming makes priming skip a lost write-set |
| Durability.Run | query/include/lockstep/query/Database.hpp:258-324 | runs of the store object are lives: its log, barrier and tip are those of the life for every event list |
| Durability.SyncedPrefixSurvives | storage/include/lockstep/storage/Engine.hpp:28-30 | however a life goes on, with crashes cutting at any operation, synced operations stay in the log and the barrier never moves back |
| Checkers.CheckElectionSafety | consensus/include/lockstep/consensus/ConformanceCheckers.hpp:84-113 | accepts a run exactly when no snapshot has two live leaders in one term |
| Checkers.CheckLogMatching | consensus/include/lockstep/consensus/ConformanceCheckers.hpp:132-168 | accepts exactly when in every snapshot two logs with equal terms at an index are equal up to it |
| Checkers.Absorb | consensus/include/lockstep/consensus/ConformanceCheckers.hpp:234-245 | the resize-and-fill loop over one node reports a conflict exactly when some slot below its commit index and log end differs from the history, fills exactly the new ones of these slots, and never leaves a gap |
| Checkers.CheckStateMachineSafety | consensus/include/lockstep/consensus/ConformanceCheckers.hpp:194-262 | accepts exactly when one sequence has every committed prefix as a prefix, and exactly when any two nodes, at any two snapshots, hold the same entry at every index below both commit indices and log ends |
| Checkers.SafetyIsSlotAgreement | consensus/include/lockstep/consensus/ConformanceCheckers.hpp:194-262 | one committed history means exactly that commonly committed slots agree |
| Checkers.PointwiseConflict | consensus/include/lockstep/consensus/ConformanceCheckers.hpp:200-229 | the pointwise half is implied: whatever it rejects the across-run half would reject |
| Checkers.CheckLeaderAppendOnly | consensus/include/lockstep/consensus/ConformanceCheckers.hpp:292-330 | accepts exactly when between consecutive snapshots a leader that stays leader in its term only appends |
| Checkers.CheckLinearizability | consensus/include/lockstep/consensus/ConformanceCheckers.hpp:392-461 | accepts exactly when the committed prefixes add up to one sequence in which every committed submit holds its slot within its time window; in terms of the nodes: commonly committed slots agree and some node has committed each committed submit where it claims to be |
| Checkers.LinearizableIsSlotAgreement | consensus/include/lockstep/consensus/ConformanceCheckers.hpp:392-461 | the two readings are the same |
| Checkers.AcceptedSubmitsAgree | consensus/include/lockstep/consensus/ConformanceCheckers.hpp:424-455 | in an accepted run committed submits at one index carry one value, and some node of some snapshot has committed it there |
| Checkers.FabricatedCommandAccepted | consensus/include/lockstep/consensus/ConformanceCheckers.hpp:424-455 | a concrete accepted run that commits a value no client submitted |
| Checkers.ForgeryNoticedExactly | consensus/include/lockstep/consensus/ConformanceCheckers.hpp:424-455 | in any accepted run, replacing the value of a committed slot by one nobody submitted is rejected if and only if some committed submit claims that slot |
| Checkers.ClaimedSlotsAreGenuine | consensus/include/lockstep/consensus/ConformanceCheckers.hpp:424-455 | a committed slot claimed by a committed submit of an accepted run holds a submitted value |
| Checkers.TotalOrderHalvesAgree | consensus/include/lockstep/consensus/ConformanceCheckers.hpp:392-422 | Linearizability accepts nothing StateMachineSafety rejects, and without committed submits they accept the same runs |
| Checkers.FinalizeCommittedLog | consensus/include/lockstep/consensus/ClusterDriver.hpp:469-487 | the reconstructed log has exactly the slots that some node has committed, each with the entry of the first node, in observation order, to have committed it |
| Checkers.FirstSeenLength | consensus/include/lockstep/consensus/ClusterDriver.hpp:469-487 | it has no gap: it is exactly as long as the longest committed prefix |
| Checkers.FirstSeenKeepsFirst | consensus/include/lockstep/consensus/ClusterDriver.hpp:469-487 | each slot holds the entry of the first prefix that reached it, whatever came later |
| Checkers.FirstSeenIsTheSequence | consensus/include/lockstep/consensus/ClusterDriver.hpp:469-487 | on a run StateMachineSafety accepts, it is the one sequence all committed prefixes add up to |
| Checkers.CrossCheck | consensus/include/lockstep/consensus/CrossCheck.hpp:50-75 | two logs agree exactly when one is a prefix of the other; the reported prefix is the longest common one |
| ScriptedNodes.ScriptedNode.Submit | consensus/include/lockstep/consensus/TrivialNodes.hpp:130-149 | only a leader accepts; the entry is appended and the scripted misbehaviour follows |
| ScriptedNodes.HonestRunsPass | consensus/include/lockstep/consensus/TrivialNodes.hpp:130-249 | for every interleaving of submits, snapshots, commit polls and liveness changes, honest single-leader runs satisfy all five checked invariants |
| ScriptedNodes.DroppedEntryFlaggedExactly | consensus/include/lockstep/consensus/TrivialNodes.hpp:223-236 | the clobbering variant is rejected exactly when node 0 was seen live with the original first entry before the clobber and live again after it |
| ScriptedNodes.UnseenClobberAccepted | consensus/include/lockstep/consensus/TrivialNodes.hpp:223-236 | in a cluster of any size: four clients submit at one tick, the committed entry is overwritten before any snapshot has shown it, and the run is accepted |
| ScriptedFaults.TwoLeadersFlaggedExactly | consensus/include/lockstep/consensus/TrivialNodes.hpp:151-155 | for every interleaving the variant in which every node leads is rejected by election safety exactly when some snapshot has two live nodes |
| ScriptedFaults.LogMismatchFlaggedExactly | consensus/include/lockstep/consensus/TrivialNodes.hpp:174-196 | for every interleaving the variant with diverging logs is rejected by log matching exactly when some snapshot has nodes 0 and 1 live |
| ScriptedFaults.TruncationFlaggedExactly | consensus/include/lockstep/consensus/TrivialNodes.hpp:212-222 | for every interleaving the truncating leader is rejected by leader append-only exactly when it is live, with at least two entries, in the last snapshot before the truncation and live in the first one after it, and has not been given the removed entries again in between |
| ScriptedFaults.DistinctTruncationFlaggedExactly | consensus/include/lockstep/consensus/TrivialNodes.hpp:212-222 | when no value is submitted twice, exactly when it is live in both snapshots with at least two entries in the first |
| ScriptedRuns.ScriptInClosedForm | consensus/include/lockstep/consensus/TrivialNodes.hpp:130-249 | every script over every sequence of submits: log, commit index and misbehaviour in closed form |
| ScriptedRuns.OthersKeepElectionSafety | consensus/include/lockstep/consensus/TrivialNodes.hpp:151-166 | no script but the two-leader one ever breaks election safety, for every interleaving |
| ScriptedRuns.TwoLeadersCaught | consensus/include/lockstep/consensus/TrivialNodes.hpp:151-155 | two leaders are caught by the first snapshot, in every cluster from two nodes |
| ScriptedRuns.LogMismatchCaught | consensus/include/lockstep/consensus/TrivialNodes.hpp:184-196 | diverging logs are caught by the first snapshot, in every cluster from two nodes |
| ScriptedRuns.TruncationCaught | consensus/include/lockstep/consensus/TrivialNodes.hpp:212-222 | a truncating leader shown with two or three entries is caught by the snapshot after its fourth, whatever the values |
| ScriptedRuns.ClobberCaught | consensus/include/lockstep/consensus/TrivialNodes.hpp:223-236 | a first entry shown and then replaced is caught by both safety checkers, however many submits follow the fourth |
| ScriptedRuns.CrossCheckHasTeeth | consensus/include/lockstep/consensus/CrossCheck.hpp:50-75 | the two honest leaders disagree whatever was submitted; the dropping leader disagrees with the honest one exactly once it has dropped an entry that was not the replacement already |
| ScriptedRuns.HonestSubmitGoesThrough | consensus/include/lockstep/consensus/ClusterDriver.hpp:227-292 | after any honest run a submit to the live leader, a wait, a poll and a response record the value at the end of the log with both times; it counts as committed exactly for the leader that does not tag values |
| FaultDriver.EpisodeKeeps | consensus/include/lockstep/consensus/ClusterDriver.hpp:304-361 | every episode, for any draws, keeps the crashed list duplicate-free, the exact complement of the liveness mirror, and a majority live |
| FaultDriver.CrashesDownToTheMajority | consensus/include/lockstep/consensus/ClusterDriver.hpp:323-346 | the bound is tight: in a cluster of any size from three nodes some draws lead to a snapshot with exactly n/2 + 1 nodes live |
| FaultDriver.RestartBringsUp | consensus/include/lockstep/consensus/ClusterDriver.hpp:311-320 | a restart brings up the picked node, which was down, and changes no other |
| FaultDriver.CrashTakesDown | consensus/include/lockstep/consensus/ClusterDriver.hpp:323-345 | a crash takes down exactly the drawn node, if it is up and a majority stays, and costs one unit of budget; otherwise nothing happens |
| FaultDriver.PartitionCosts | consensus/include/lockstep/consensus/ClusterDriver.hpp:346-360 | a partition touches no node and costs one unit of budget exactly when some node drew each side |
| FaultDriver.SideMembers | consensus/include/lockstep/consensus/ClusterDriver.hpp:349-354 | the side is exactly the nodes that drew it, in ascending order |
| FaultDriver.RunEpisode | consensus/include/lockstep/consensus/ClusterDriver.hpp:304-361 | the loop body does what the episode function says |
| FaultDriver.Drive | consensus/include/lockstep/consensus/ClusterDriver.hpp:297-372 | for every sequence of draws a strict majority is live at every snapshot; before the last one the crashed list is duplicate-free and the exact complement of the mirror; at the last one everybody is live, and list and mirror agree exactly when the list was empty before the cleanup |
| FaultDriver.ListStaysFilled | consensus/include/lockstep/consensus/ClusterDriver.hpp:363-370 | in a cluster of any size from three nodes some draws leave the list filled before the cleanup, whatever the number of episodes |
| Deadline.PollLoop | consensus/include/lockstep/consensus/ClusterDriver.hpp:211-223 | a bounded polling loop waits exactly the strides until it sees its event or the budget is used up |
| Deadline.ClientSession | consensus/include/lockstep/consensus/ClusterDriver.hpp:227-292 | a client session takes exactly the sum of its gaps, leader waits and commit waits |
| Deadline.FaultSchedule | consensus/include/lockstep/consensus/ClusterDriver.hpp:297-308 | the fault schedule takes exactly the sum of its drawn delays |
| Deadline.MembershipSchedule | consensus/include/lockstep/consensus/ClusterDriver.hpp:382-464 | the membership schedule takes exactly the sum of its leader and settle waits |
| Deadline.Settle | consensus/include/lockstep/consensus/ClusterDriver.hpp:184-195 | settling takes exactly the ticks it is given |
| Deadline.ClientFitsExactly | consensus/include/lockstep/consensus/ClusterDriver.hpp:495-534 | every client session ends by the deadline, in every world, if and only if an arithmetic condition on the configuration holds |
| Deadline.MembershipFitsExactly | consensus/include/lockstep/consensus/ClusterDriver.hpp:495-534 | every membership schedule ends by the deadline, in every world, if and only if an arithmetic condition on the configuration holds |
| Deadline.DeadlineCoversExactly | consensus/include/lockstep/consensus/ClusterDriver.hpp:495-534 | `compute_deadline` covers every driver if and only if it covers the client and membership chains at their slowest |
| Deadline.EverythingFits | consensus/include/lockstep/consensus/ClusterDriver.hpp:495-534 | `compute_deadline` covers every driver when `2 * heartbeat` divides both waiting budgets |
| Deadline.HorizonAttained | consensus/include/lockstep/consensus/ClusterDriver.hpp:495-534 | under that divisibility `compute_deadline`, short of its two margins, is the end of the longest chain: no chain ends later and some chain ends then |
| Deadline.OverrunOutlastsDeadline | consensus/include/lockstep/consensus/ClusterDriver.hpp:495-534 | a concrete configuration without the divisibility whose client session outlasts the deadline |
| Shrinker.ContainsIsSubset | harness/include/lockstep/harness/SeedBurn.hpp:121-129 | `contains` is the subset test on violation levels |
| Shrinker.ReduceCount | harness/include/lockstep/harness/SeedBurn.hpp:375-395 | a count ends where neither floor, midpoint nor v-1 still triggers; it only went down and not below its floor |
| Shrinker.Sweep | harness/include/lockstep/harness/SeedBurn.hpp:430-453 | a round either strictly shrinks a still-failing configuration or shows it minimal |
| Shrinker.FixpointMeans | harness/include/lockstep/harness/SeedBurn.hpp:375-453 | at a fixpoint neither the floor, the midpoint nor one step down of any count still triggers, nor any probability set to zero |
| Shrinker.Shrink | harness/include/lockstep/harness/SeedBurn.hpp:343-460 | ends with a configuration that still triggers if the start did, no knob above its start or pushed below its floor, so that no run loses its last operation, client, key or node; at the fixpoint no single-knob move still triggers; the 64-round cap needs at least 64 units of shrinking |

## Left out

- Raft, the WAL engine's file format, SSTables and manifests, the wire server, transactions and SQL: the
  reference MVCC engine and the crash contract of the engine interface stand in for the storage engine.
- Command-line tools, daemons, benchmarks, reports and language adapters.
- Coroutine frame memory, ownership of frames, destruction order and exceptions: a coroutine is an id with a
  suspension point, and values carried by futures live in the program memory the behaviours share.
- Trace text, witness strings and labels: only the fire events and the resume counter of the trace are kept.
- Overflow of virtual ticks, tickets, arm numbers and engine Seqs: these counters are unbounded, except where a
  byte format stores them.
- Disk and network latency and failures of `sync`: a barrier succeeds, and time passes only through timers.
- What a network partition does to messages: the fault schedule only records that one took place.
- The quality of the random source: every draw is arbitrary.
- `Snapshot` introspection fields (snapshot index, physical log size, membership) and the choice of the server to
  add or remove: only their clock is modelled.
- Backup.Validate: for a length whose 64-bit sum wraps, the source reads outside the image; the model stops with the
  verdict `OutsideImage`, and `Backup.OutsideImageExactly` says when.
- Pitr.Validate: as for backup images, a wrapped length ends in `OutsideImage` (`Pitr.OutsideImageExactly`).
- Backup.RestoreFromDisk: a failed disk read is one error, `IoFault`, and means that the bytes are not there.
- Backup.BackupAndRestore: is stated for rows whose lengths fit 32 bits and a payload that fits 64 bits, as the
  format can hold no others.
- Backup.AcceptedExactly: is stated for images of fewer than 2^64 bytes, the lengths a `size_t` can hold; so are
  `Pitr.AcceptedExactly` and the lemmas about damage.
- Backup.DamagedRejected: damage that spans the stored checksum and the payload is not claimed to be found; nor is it
  in `Pitr.DamagedRejected`.
- Pitr.RestoreToTarget: is stated for histories the archive format can hold (32-bit lengths, 64-bit Seqs).
- Database.Store.Prime: the in-memory backing, which is rebuilt from scratch, is the case of an empty store.
- Deadline.EverythingFits: is stated for positive strides and sensible ranges, without which the drivers need not end.
- SchedulerObject.Scheduler.RunUntil: a method has to end, so an uncapped call is made with the number of turns after
  which the loop halts; every turn of a loop that never halts is covered by `SchedulerObject.Scheduler.Turns`.

# Verified model of the two-server trading core

Dafny 4.11 models of the protocols by which the "iran" and "foreign" servers of the trading system keep durable
state, and proofs of what those protocols promise. `dafny verify dfyconfig.toml` checks the whole project.

| component | files |
|---|---|
| Transactional sync outbox guard: hooks on flush, savepoint, commit and rollback make sure that no write to a synced table commits without its change_log row | OutboxGuard, OutboxRuns, OutboxFlush, OutboxSession |
| Background leader lock: a Redis key with a time to live, contended by any number of API workers | LeaderLock |
| Hash-chained audit trail: backward scan, short writes, rollback by truncation | AuditTrail |
| Parity pipeline: rows, hashed records, sorted snapshots, comparison, summary, strict release gate | Parity, ParityGate, ParitySoundness |
| Versioned user sync: field authority, receiver, producer, counter events, reset ledger, and the user listeners composed with the outbox guard | UserSync, CounterLedger, UserUpdateFlush |
| Offer lifetime and the expiry worker | OfferLifecycle, OfferExpiry |
| Channel-state repair with back-off | PublicationRetry |
| Metrics registry in memory and in a shared table | Metrics, MetricsRefinement |
| Error rate limiter | ErrorLimiter, ErrorLimiterRuns |
| Canonical identity of offer-expiry commands | CommandIdentity |

State that the code changes in place is a class or a loop; each method is proved equal to a step function, and the
theorems speak about every run of those step functions. Failures of the file system, Redis, SQL and listeners, and
the clock, are inputs that the theorems quantify over. SHA-256, UUIDv5, JSON decoding, `int()`, `str.lower` and
instant parsing are function-valued parameters; the few laws relied on are the predicates `Lawful` and `Injective`,
and they are preconditions where they are used.

## What the proofs show about the code

Properties that the code does not have on every input, each with the exact condition or with the failing family:

- The backward scan takes a newline at position 0 for the start of the file, so it accepts a blank first line in
  front of a single first record. It agrees with the forward reading exactly outside that family
  (`AuditTrail.ScanAgreesExactlyWhen`, `AuditTrail.BlankLineMisread`); no run of the sink reaches it.
- A record can be in the file although the call reports it as not durable. It happens exactly when the append went
  through and the unlock failed, or when the whole line was written, a later step failed and the rollback did not
  work (`AuditTrail.TrailFile.WriteAuditRecord`, `AuditTrail.MisreportsExactlyWhen`, `AuditTrail.MisreportingFaults`).
- The settings allow a refresh period of at least the lock's TTL; then no refresh ever comes in time
  (`LeaderLock.SlowRefreshIsNeverInTime`), and a leader that oversleeps its TTL overlaps its successor
  (`LeaderLock.OversleepingOverlaps`).
- The leader token outlives the grant, so a release that timed out and reaches Redis after the same worker leads
  again deletes the new key and lets a second leader in (`LeaderLock.LateReleaseOverlaps`).
- A user update that changes no emitted field its server is authorised for, and no counter, writes no change_log row
  and is therefore aborted by the guard, together with everything else in its flush
  (`UserUpdateFlush.UpdatesSurviveExactlyWhenPermitted`).
- `ensure_ascii` writes a character outside the basic plane and its two lone surrogates the same way, so two
  different public ids can share a command id (`CommandIdentity.SurrogatesCollide`); texts agree exactly up to UTF-16.
- A null offer version resets the attempt count without replacing the stored version. The stored count differs from
  the streak of failures exactly when failures on a version follow a null failure that left that version stored, or
  null failures repeat while a version is stored (`PublicationRetry.CountExactlyWhen`, `PublicationRetry.NullVersionMiscounts`).
- The expiry sleep does not clamp overtime snapshots above ten minutes, the projection does
  (`OfferExpiry.SleepDeadlineExactlyWhen`).
- Two metric types on one name may go unnoticed for a while, but every such history has a continuation of at most one
  call, in those types, after which the back ends differ; they agree for good exactly when the name has one type
  (`MetricsRefinement.AgreeForGoodExactlyWhen`, `MetricsRefinement.MixedTypesDiverge`).
- The limit of max_events captures holds for the limiter's own windows. In an arbitrary interval of window length the
  bound is 2 * max_events - 1, and it is reached; so the limit holds for every interval exactly when max_events is 1
  (`ErrorLimiterRuns.CapturesInAnyInterval`, `ErrorLimiterRuns.BoundIsReached`, `ErrorLimiterRuns.LimitPerIntervalExactlyWhen`).
- A negative maximum of fingerprints empties the limiter's table and raises on every call that opens a window
  (`ErrorLimiter.Limiter.ShouldCapture`).

## Model

| member | source | states |
|---|---|---|
| `OutboxRuns.CommittedWritesAreCovered` | core/sync_outbox_guard.py:55-184 | In every run, each root-committed write to a synced table by a session that is not a sync session, whatever the guard collected, has in the same transaction a change_log row recorded under its own flush, of its table and operation, that names its object |
| `OutboxRuns.FlushWritesItsChanges` | core/sync_outbox_guard.py:101-115 | A flush writes every deleted, new and modified object into its level, independently of the guard |
| `OutboxRuns.CollectedIsComplete` | core/sync_outbox_guard.py:93-119 | Every change of an object of a synced table becomes an obligation |
| `OutboxRuns.WakeupsConserved` | core/sync_outbox_guard.py:179-245 | The queue moves only at a root commit; there it grows by at least the surviving rows of verified flushes, by exactly that number when no savepoint was lost; a commit and every loss of the root, a flush that fails there included, leave nothing pending |
| `OutboxRuns.StepKeeps` | core/sync_outbox_guard.py:68-245 | Every hook keeps the invariant: fresh tokens, marks of the current flush backed by rows, covered levels, wake-ups in balance |
| `OutboxRuns.RunInv` | core/sync_outbox_guard.py:276-280 | The invariant holds in every state of every run, from any pooled connection with stale marks |
| `OutboxRuns.DischargedIsCovered` | core/sync_outbox_guard.py:138-160 | If all obligations are discharged, the token on the connection is the flush's own and every open level is covered |
| `OutboxRuns.VerifyKeeps` | core/sync_outbox_guard.py:132-184 | Verification keeps the invariant on success and on failure |
| `OutboxRuns.VerifyLeavesNoMarks` | core/sync_outbox_guard.py:162-171 | After verification nothing of the flush is left on the connection, and no other mark or count is touched |
| `OutboxRuns.CollectKeeps` | core/sync_outbox_guard.py:93-129 | Collecting opens a flush whose token no mark, row or count has |
| `OutboxRuns.LogKeeps` | core/sync_outbox_guard.py:68-90 | Recording a row keeps marks, rows and counts in step |
| `OutboxRuns.RollbackKeeps` | core/sync_outbox_guard.py:239-245 | Losing a level loses the flush's writes with it and keeps wake-ups at least the surviving rows |
| `OutboxRuns.ReleaseKeeps` | core/sync_outbox_guard.py:187-197 | Releasing a savepoint merges its entries and keeps the wake-up count |
| `OutboxRuns.CommitKeeps` | core/sync_outbox_guard.py:187-236 | A root commit moves a covered level to the committed ones and clears the wake-ups |
| `OutboxFlush.FlushVerifiedExactlyWhen` | core/sync_outbox_guard.py:132-177 | A flush is verified exactly when both hooks had the connection and each obligation was recorded by a successful log_change during that flush; otherwise the innermost level is lost |
| `OutboxFlush.AbortedFlushIsLost` | core/sync_outbox_guard.py:239-245 | A flush that a listener aborts is never verified and loses the innermost level, whatever was logged |
| `OutboxFlush.DischargedExactlyWhen` | core/sync_outbox_guard.py:152-160 | Marks left by earlier or aborted flushes never discharge an obligation |
| `OutboxFlush.LogsMark` | core/sync_outbox_guard.py:68-90 | Any sequence of listener calls adds exactly the marks of its successful calls, under the connection's token, and touches only the innermost level |
| `OutboxFlush.FaithfulCallRecords` | core/sync_outbox_guard.py:357-395 | A listener that passes its object's own id (for trading_settings its key) records the identity the guard expects |
| `OutboxGuard.CollectedMembers` | core/sync_outbox_guard.py:63-119 | The obligations of a flush: deleted and new objects of tables in the registry, and dirty ones not known unmodified and neither new nor deleted |
| `OutboxGuard.MarkNamesObject` | core/sync_outbox_guard.py:357-395 | A row recorded under the expected identity names the object by its primary key up to int(), or a setting by its key |
| `OutboxSession.FindPending` | core/sync_outbox_guard.py:98-115 | The three collection loops find exactly the touched objects of the tables in the registry |
| `OutboxSession.FindMissing` | core/sync_outbox_guard.py:152-160 | The verification loop lists exactly the undischarged obligations |
| `OutboxSession.GuardedSession.constructor` | core/sync_outbox_guard.py:21-30 | A new session satisfies the initial condition of runs |
| `OutboxSession.GuardedSession.CollectPendingSyncWrites` | core/sync_outbox_guard.py:93-129 | The before_flush hook takes the Collect step, and leaves exactly those obligations pending, none for a sync session |
| `OutboxSession.GuardedSession.LogChange` | core/events.py:125-153 | The row and its mark appear together or, on failure, not at all |
| `OutboxSession.GuardedSession.VerifyPendingSyncOutbox` | core/sync_outbox_guard.py:132-184 | The after_flush hook takes the Verify step and raises exactly when an obligation is undischarged |
| `OutboxSession.GuardedSession.RollBackLevel` | core/sync_outbox_guard.py:239-245 | A rollback loses one level; only the root forgets wake-ups |
| `OutboxSession.GuardedSession.RollBack` | core/sync_outbox_guard.py:239-245 | An aborted flush, a savepoint rollback and a root rollback are the three rollback steps |
| `OutboxSession.GuardedSession.BeginNested` | core/sync_outbox_guard.py:333-347 | A savepoint opens a level |
| `OutboxSession.GuardedSession.CommitLevel` | core/sync_outbox_guard.py:187-236 | A release publishes nothing; the root commit pushes one signal per counted row |
| `LeaderLock.AtMostOneLeader` | main.py:263-345 | At every instant of every run, of the workers with running jobs at most one is within the TTL of its last acquire or refresh, unless its own late release undercut that grant and no refresh was answered since |
| `LeaderLock.UndercutExactlyWhen` | main.py:329-344 | A grant is undercut exactly when a late release of the worker's own hit its live key after its last acquire or refresh |
| `LeaderLock.TwoLeadersWereHit` | main.py:263-345 | Two timely workers with running jobs at one instant mean that such a late release hit one of them |
| `LeaderLock.OnlyTheOwnerTouchesALiveLock` | main.py:113-124 | No step of another worker extends, deletes or replaces a live lock |
| `LeaderLock.JobsStopBeforeRelease` | main.py:327-336 | Only its owner frees a live lock; by a release that does not come late, the releaser's jobs have stopped and no timely worker has jobs; a late release marks the grant it takes as undercut |
| `LeaderLock.LostLeaderStops` | main.py:307-328 | In every run a leader whose refresh is refused or raises, or that is cancelled, has stopped its jobs in some later state, or is stopping them, in every later state |
| `LeaderLock.LeavesThroughRelease` | main.py:327-344 | A granted worker leaves only through the release script, but for a lost reply or a cancelled shutdown; jobs start only under a grant |
| `LeaderLock.ScriptsWork` | main.py:113-124 | An answered release frees the caller's live key, an answered refresh extends it by the TTL, an acquire takes a key that is not live |
| `LeaderLock.StepKeeps` | main.py:270-345 | Every step keeps: a worker within its TTL is the live owner |
| `LeaderLock.RunInv` | main.py:263-345 | So in every state of every run |
| `LeaderLock.MoverKeepsGrant` | main.py:274-345 | The worker's own steps, raised and late commands included, keep its grant |
| `LeaderLock.OthersKeepGrant` | main.py:274-345 | Other workers' steps and time keep it |
| `LeaderLock.SlowRefreshIsNeverInTime` | main.py:266-306 | With a refresh setting of at least 30 and at least the TTL setting, every refresh of every run comes too late |
| `LeaderLock.FastRefreshCanBeInTime` | main.py:266-306 | Under all other settings a run exists whose refresh renews a live grant |
| `LeaderLock.OversleepingOverlaps` | main.py:298-306 | A run in which an overslept leader overlaps its successor |
| `LeaderLock.LateReleaseOverlaps` | main.py:329-344 | A run in which a late release lets two timely leaders run |
| `AuditTrail.RunKeepsTrail` | core/audit_sink.py:81-248 | Over every run of writes and failures the file is a linked chain plus at most one newline-free part of the next record, it only grows, and once torn it never changes |
| `AuditTrail.RunKeepsRecords` | core/audit_sink.py:123-248 | In every run every record, with its body, stays where it is: later chains begin with earlier ones |
| `AuditTrail.WriteKeepsTrail` | core/audit_sink.py:194-248 | One write keeps that, and leaves a torn trail alone |
| `AuditTrail.ScanAgreesExactlyWhen` | core/audit_sink.py:81-111 | The backward scan, position by position as the code moves, gives the forward reading's answer exactly outside the blank-first-line family, hence for every file that does not start with a newline; inside it, the hash of the only record |
| `AuditTrail.LastEventHash` | core/audit_sink.py:81-111 | For every file the method agrees with splitting on newlines exactly outside that family, and always when the file does not start with a newline |
| `AuditTrail.ScanLine` | core/audit_sink.py:50-68 | The byte loop returns the bytes it passes, reversed, and the position where it stops |
| `AuditTrail.ScanSplits` | core/audit_sink.py:50-68 | Those bytes are the newline-free text between the separator and the end, or the whole front of the file |
| `AuditTrail.BlankLineMisread` | core/audit_sink.py:94-97 | Every first record behind a blank line is in the misread family |
| `AuditTrail.TipOfTrail` | core/audit_sink.py:81-111 | On a trail the scan returns the last hash of the chain and refuses a torn tail |
| `AuditTrail.LinesOfTrail` | core/audit_sink.py:42-47 | Splitting a trail on newlines gives back its records |
| `AuditTrail.ValidRecord` | core/audit_sink.py:70-78 | A line is accepted exactly when it decodes, its hash has the shape of a digest and is the digest of its predecessor and body |
| `AuditTrail.BuildRecord` | core/audit_sink.py:165-191 | A built record carries the given body, links to the given hash and carries its own hash |
| `AuditTrail.ExtendChain` | core/audit_sink.py:206-218 | A record built on the tip extends the chain |
| `AuditTrail.PartlyAppended` | core/audit_sink.py:123-162 | Any part of the next line leaves a well-formed trail |
| `AuditTrail.TrailFile.AppendDurableLine` | core/audit_sink.py:123-162 | For every pattern of faults the exact new file: the line on success, the old file when the rollback works, else the bytes written; success exactly when every step works |
| `AuditTrail.TrailFile.PutBytes` | core/audit_sink.py:131-136 | The write loop puts down the bytes that the counts allow and fails exactly when some are left |
| `AuditTrail.TrailFile.WriteAuditRecord` | core/audit_sink.py:194-248 | The exact new file and durability; a durable write leaves the old lines and a last line that decodes to a record with the caller's body and the previous tip; in the file and not durable exactly under the misreporting faults; other results are unlinked failure records |
| `AuditTrail.WrittenIsRecorded` | core/audit_sink.py:206-218 | The appended line adds one line that decodes to the caller's body, linked to the tip |
| `AuditTrail.MisreportsExactlyWhen` | core/audit_sink.py:123-248 | In the file and not durable exactly when the append went through and the unlock failed, or the line was written whole, a later step failed and the rollback did not work |
| `AuditTrail.MisreportingFaults` | core/audit_sink.py:137-162 | Both kinds of faults occur, on new and existing files |
| `AuditTrail.TipDeterminesChain` | core/audit_sink.py:70-111 | Two chains with one tip hash are equal or contain a hash collision |
| `ParitySoundness.PassedGateMeansRowsAgree` | core/sync_parity_observability.py:167-229 | If the gate passes on two servers' snapshots, every table was read whole on both, has one row per object, and every row has a counterpart: same natural key or database id, and every field with the same value except local and volatile ones |
| `ParitySoundness.GatePassesExactlyWhenRowsAgree` | core/sync_parity_observability.py:118-229 | From the fields of rows to the verdict, both ways: rows that differ only in local or volatile fields never block, and no other difference passes |
| `ParitySoundness.GatePassesExactlyWhen` | core/sync_parity_observability.py:118-229 | The gate passes exactly when the evidence has an age within the limit, required metadata is there, and every table agrees: untruncated, duplicate-free, same identities, equal business hashes; never without evidence |
| `ParitySoundness.BlockedBecause` | core/sync_parity_observability.py:181-224 | Why it blocks: stale evidence, else missing metadata, else the status of the comparison; no other reason arises on built snapshots |
| `ParitySoundness.SeverityExactlyWhen` | core/sync_parity.py:501-514 | The severity of a table exactly: cut off, not comparable, or the weightiest kind of difference that occurs |
| `ParitySoundness.StatusIsWorst` | core/sync_parity.py:544-553 | The status is the worst severity among the tables |
| `ParitySoundness.ReportMeans` | core/sync_parity.py:473-486 | Each side's own truncation and duplicates, the identities a side lacks, and different numbers of records |
| `ParitySoundness.PassedTablesAgree` | core/sync_parity.py:501-553 | Soundness on hashes |
| `ParitySoundness.AgreeingTablesPass` | core/sync_parity_observability.py:181-229 | Completeness: agreeing tables are never blocked |
| `ParitySoundness.TableSymmetry` | core/sync_parity.py:485-514 | Swapping sides keeps a table's severity and swaps what is missing |
| `ParitySoundness.ComparisonSymmetry` | core/sync_parity.py:447-561 | Swapping sides keeps status and counts |
| `Parity.SnapshotIgnoresRowOrder` | core/sync_parity.py:238-285 | Any permutation of untruncated rows with distinct identity hashes gives the same snapshot |
| `Parity.RecordsHashMeans` | core/sync_parity.py:273-283 | Without collisions equal list hashes mean equal records |
| `Parity.SortedUnique` | core/sync_parity.py:252 | With distinct identities there is one sorted arrangement |
| `Parity.SortRecordsSorts` | core/sync_parity.py:252 | The sort orders by identity hash and only rearranges |
| `Parity.PartsPartitionRow` | core/sync_parity.py:199-219 | Business, local-only and volatile fields partition the row, each field in the class the policy gives it |
| `Parity.RecordMeans` | core/sync_parity.py:222-235 | Without collisions the hashes of two records tell whether their rows are of one object and agree on business, local-only and volatile fields |
| `Parity.IdentityExactlyWhen` | core/sync_parity.py:169-186 | Rows have one identity exactly when they have equal complete natural keys, or neither has one and their database ids are equal |
| `Parity.ClassExactlyWhen` | core/sync_parity.py:150-219 | A field is local by the tables, by policy, or as the id of an object with another key; else volatile by the tables; else business |
| `Parity.ClassifyFields` | core/sync_parity.py:199-219 | The classification loop puts every field into the class the policy gives it |
| `Parity.CountDuplicates` | core/sync_parity.py:253-266 | The count is the records in excess of one per identity |
| `Parity.DuplicateFree` | core/sync_parity.py:262-266 | It is zero exactly when identities are pairwise distinct |
| `Parity.ReadRecords` | core/sync_parity.py:244-250 | The reading loop hashes the rows up to the limit and reports truncation exactly |
| `Parity.BuildTableSnapshot` | core/sync_parity.py:238-285 | The builder computes the specified snapshot |
| `ParityGate.ByIdEntries` | core/sync_parity.py:402-410 | The index has the identities of the records, each with a record of its own |
| `ParityGate.FindMismatches` | core/sync_parity.py:487-499 | The identity loop sorts differences by their weightiest kind |
| `ParityGate.CompareTables` | core/sync_parity.py:468-542 | The report of two table snapshots: what is missing where, the three kinds of mismatch and the severity, which `ParitySoundness.TableSeverity` ties to agreement |
| `ParityGate.CompareAllTables` | core/sync_parity.py:468-542 | One report per table, and counts that match the reports, in any order of names |
| `ParityGate.CompareSnapshots` | core/sync_parity.py:447-561 | The comparison covers the union of both sides' tables and its status is the worst severity counted |
| `ParityGate.SumReports` | core/sync_parity_observability.py:137-145 | The totals of truncated tables and duplicates |
| `ParityGate.SummarizeComparison` | core/sync_parity_observability.py:118-164 | The summary's totals are those of the comparison's reports |
| `UserUpdateFlush.UpdatesSurviveExactlyWhenPermitted` | core/events.py:1077-1192 | Under v2 with log_change succeeding for users, a flush of any objects survives exactly when every user update in it changes an emitted authorised field or yields a ledger-accepted counter event, and on foreign no unauthorised field, and the other listeners finish and record every other obligation, on one connection; every other flush, aborted ones included, loses its level |
| `UserUpdateFlush.RowsExactlyWhenPermitted` | core/events.py:1128-1192 | The listeners finish with at least one row exactly for permitted updates; one row for a patch and one for a counter event |
| `UserUpdateFlush.VerifiedExactlyWhenLogged` | core/sync_outbox_guard.py:132-177 | When all listeners finish, the guard passes the flush exactly when every user's own listeners logged a row and the others recorded every other obligation |
| `UserUpdateFlush.UserRecordedExactlyWhenLogged` | core/sync_outbox_guard.py:152-160 | A user's obligation is recorded exactly by the user's own rows: no other user's and no other object's mark discharges it |
| `UserUpdateFlush.UserObligations` | core/sync_outbox_guard.py:98-115 | The obligations on user updates are those of the dirty users that are neither new, deleted nor known unmodified |
| `UserUpdateFlush.BumpChangesNothingElse` | core/events.py:1077-1097 | The version bump adds no patch and no counter event |
| `UserUpdateFlush.BumpsExactlyWhen` | core/events.py:1093-1097 | The version is bumped exactly on Iran and exactly when a column that Iran writes changed |
| `UserUpdateFlush.BumpRaisesVersion` | core/events.py:63-68 | By one, from 1 where it was lower, changing no other column |
| `UserUpdateFlush.IranPatchAccepted` | core/events.py:1095-1169 | What Iran sends after an authorised change carries the changed columns with their values under the next version and is accepted whole |
| `UserUpdateFlush.CounterEventAccepted` | core/user_counter_sync.py:224-234 | Every counter event of a permitted update of an identified user is accepted unchanged |
| `UserUpdateFlush.SentEventReplaysChange` | core/user_counter_sync.py:203-234 | The event as it is sent replays the change on the counters it came from |
| `UserUpdateFlush.ResetsComeFromIran` | core/events.py:1083-1091 | No permitted foreign update produces a reset |
| `UserSync.AcceptedExactlyWhen` | core/registration_sync_policy.py:139-189 | The receiver accepts a user payload exactly when source, operation, version and identity allow it; it keeps exactly the authorised fields and reports the rest as dropped |
| `UserSync.OtherTablesExactlyWhen` | core/registration_sync_policy.py:149-178 | Other versioned tables have one writer, Iran, and pass whole; unversioned tables and the time before v2 pass as they are |
| `UserSync.EventAcceptedExactlyWhen` | core/registration_sync_policy.py:207-251 | A counter event is accepted exactly with proper operation, id, epoch, instant, kind, source, deltas, fields and identity |
| `UserSync.ReceiveIdempotent` | core/registration_sync_policy.py:139-261 | Sanitizing an accepted payload of any table again accepts it unchanged |
| `UserSync.CounterEventIdempotent` | core/registration_sync_policy.py:207-261 | The same for counter events |
| `UserSync.InsertAccepted` | core/events.py:1099-1123 | Every v2 insert of a user with a natural key and version at least 1 is accepted with nothing dropped |
| `UserSync.UpdateAccepted` | core/events.py:1133-1169 | The same for update patches of either server |
| `UserSync.PatchReproducesChange` | core/events.py:1156-1169 | Setting the columns of a patch makes the peer's row equal on exactly the changed authorised columns and the metadata, and leaves the others alone |
| `UserSync.PatchCarries` | core/events.py:1018-1068 | A patch carries exactly the changed authorised columns with the row's values, the metadata and the identity |
| `UserSync.InsertCarries` | core/events.py:1018-1118 | An insert carries exactly the columns Iran is authorised for with the row's values, the metadata and the identity |
| `UserSync.OnlyIranInserts` | core/events.py:1104-1110 | Only Iran sends inserts |
| `UserSync.AuthorisedFieldsAreEmitted` | core/events.py:1018-1068 | Every field a server may write reaches the payload |
| `UserSync.AuthorityIsSeparate` | core/registration_sync_policy.py:46-136 | Shared fields have both writers, every other field one, counters and local columns none |
| `UserSync.SentIdentityExactlyWhen` | core/user_counter_sync.py:132-148 | The identity that is sent satisfies the receiver exactly for users that have or had a natural key |
| `UserSync.VersionRead` | core/events.py:1062 | A version that is missing, null or 0 is sent as 1, every other as it is |
| `UserSync.SentPayloadAccepted` | core/registration_sync_policy.py:163-189 | Any versioned, identified payload within the server's fields passes untouched |
| `UserSync.PolicyKeepsAllowed` | core/sync_field_policy.py:615-640 | The field policy removes nothing a server may send |
| `UserSync.PatchExactlyWhen` | core/events.py:1156-1163 | A patch is sent exactly when an emitted authorised column changed |
| `UserSync.EventAccepted` | core/registration_sync_policy.py:207-261 | A counter event with valid contents passes policy and receiver untouched |
| `UserSync.SanitizeSyncPayload` | core/sync_field_policy.py:615-640 | The policy loop drops, hashes and keeps field by field |
| `UserSync.FilteredValue` | core/sync_field_policy.py:626-639 | A kept field comes out with its value and a hashed one with its hash only |
| `UserSync.FilteredComes` | core/sync_field_policy.py:626-639 | Nothing else comes out: dropped fields and raw values of hashed ones do not |
| `UserSync.UsersPolicyFilters` | core/sync_field_policy.py:69-131 | For users the loop is a plain filter, whatever the key order |
| `CounterLedger.ResetsStayInSequence` | core/events.py:156-218 | Whatever is attempted and rolled back, with transactions of different users interleaved, a user's reset epochs are exactly 2..k in order at strictly increasing instants |
| `CounterLedger.NextResetExactly` | core/events.py:158-186 | The ledger accepts exactly the reset that comes next |
| `CounterLedger.RecordKeepsSequence` | core/events.py:158-218 | Recording for one user keeps every user's sequence |
| `CounterLedger.ResetsOfPrefix` | core/events.py:159-170 | An earlier ledger has a prefix of the resets |
| `CounterLedger.ResetsOfRest` | core/events.py:159-170 | A rollback that takes the last rows of the users it touches leaves every user a prefix of the resets |
| `CounterLedger.OthersDoNotMatter` | core/events.py:159-170 | The checks for a user do not depend on the rows of other users |
| `CounterLedger.Highest` | core/events.py:159-170 | The query finds a reset of the highest epoch |
| `CounterLedger.Ledger.RecordLocalEvent` | core/events.py:156-218 | Appends exactly when the checks pass and keeps all sequences |
| `CounterLedger.EventReplaysChange` | core/user_counter_sync.py:163-221 | Every legal counter change gives an event that replays it; every other change is refused |
| `OfferLifecycle.FlagsFollowIntake` | core/offer_lifecycle.py:108-242 | Acceptance flags equal receipt classification at every instant, both are off exactly at the normal deadline, expiry is due exactly after the final deadline without tail request; phase and timer follow the deadlines |
| `OfferLifecycle.OutsideLifetime` | core/offer_lifecycle.py:158-184 | Inactive offers take nothing; without a usable lifetime an offer stays automatic and is public while active |
| `OfferLifecycle.OvertimeClamped` | core/offer_lifecycle.py:74-121 | Overtime counts from 0 to 10 minutes; requests without receipt or deadlines are automatic |
| `OfferLifecycle.LifecycleOnlyAdvances` | core/offer_lifecycle.py:129-242 | Phases never go back and intake never reopens after the final deadline |
| `OfferLifecycle.OnlyFiniteOffersExpire` | core/offer_lifecycle.py:158-211 | Only active offers with a finite lifetime become due |
| `OfferLifecycle.CutoffIsFinalDeadline` | core/offer_lifecycle.py:245-256 | The stale cutoff selects the offers past their final deadline |
| `OfferExpiry.LoadLocalStaleActiveOffers` | core/offer_expiry.py:287-322 | The prefiltered load returns exactly the active offers of this server that the projection marks due |
| `OfferExpiry.SelectedOfCandidates` | core/offer_expiry.py:293-302 | The prefilter loses nothing that is due |
| `OfferExpiry.NextExpiryDelay` | core/offer_expiry.py:398-439 | The sleep is in [0.1, 2.0] s, follows the soonest deadline, oversleeps none ahead by more than 0.1 s, and ends early only for a deadline reached by then |
| `OfferExpiry.SleepDeadlineExactlyWhen` | core/offer_expiry.py:423-427 | The sleep's deadline is the projection's exactly for snapshots of at most ten minutes |
| `OfferExpiry.SleepThenScan` | core/offer_expiry.py:456-480 | A deadline inside a sleep is met by the scan behind it within 0.1 s |
| `OfferExpiry.FoundInTime` | core/offer_expiry.py:442-480 | In every run of the loop an active offer is found due by the first scan after its final deadline that does not raise; each round from there costs 0.1 s, or 2 s where the sleep could not be computed, plus scan and scheduling time |
| `OfferExpiry.FoundInTimeWithoutFailures` | core/offer_expiry.py:442-480 | Without failures: at most 0.1 s after the deadline, plus scan and scheduling time |
| `OfferExpiry.DecrementCalls` | core/offer_expiry.py:244-251 | Each user's cached count is decremented once per expired offer of that user |
| `OfferExpiry.Presentations.Remember` | core/offer_expiry.py:54-64 | The map stays within 5000 keys, remembers the offer, and loses only expired entries or the oldest |
| `OfferExpiry.Presentations.RecentlyPresented` | core/offer_expiry.py:67-74 | True exactly for entries within the TTL; only an expired entry is forgotten |
| `OfferExpiry.Evict` | core/offer_expiry.py:61-64 | The eviction loop keeps the newest entry and every other unexpired one but the first |
| `PublicationRetry.AttemptsAreTheStreak` | core/offer_publication_worker.py:558-588 | With non-null versions the stored count is the streak of failures on the current version since the last success, and the retry is due after that count's delay |
| `PublicationRetry.CountExactlyWhen` | core/offer_publication_worker.py:558-588 | For every history ending in a failure, null versions included, the stored count is the streak exactly when the history is not misled by a null version |
| `PublicationRetry.DelayBoundedAndMonotone` | core/offer_publication_worker.py:191-212 | The delay lies between base and maximum and does not shrink with attempts |
| `PublicationRetry.FirstDelay` | core/offer_publication_worker.py:208-209 | The delay starts at the base |
| `PublicationRetry.DelayDoubles` | core/offer_publication_worker.py:208-209 | It doubles with every attempt up to the eleventh, below the maximum, and stays |
| `PublicationRetry.ProviderDelay` | core/offer_publication_worker.py:210-211 | A provider that asks for more gets it, below the maximum |
| `PublicationRetry.SettingsBounded` | core/offer_publication_worker.py:109-207 | Settings are used as they are within their bounds, and the nearest bound outside |
| `PublicationRetry.NullVersionMiscounts` | core/offer_publication_worker.py:180-181 | Both ways to mislead the count occur: one failure counted too many, and repeated null failures counted as one |
| `PublicationRetry.RetryWaitsItsDelay` | core/offer_publication_worker.py:471-510 | A scheduled retry is due exactly when its delay is over or the offer changed after the attempt |
| `PublicationRetry.DriftIsDue` | core/offer_publication_worker.py:471-510 | Without a waiting retry a state is due exactly when it drifted from its offer; ineligible, unpublished and archived offers never are |
| `PublicationRetry.Cooldown` | core/offer_publication_worker.py:135-150 | The cooldown lies in [1, 300] s |
| `PublicationRetry.CooldownExactly` | core/offer_publication_worker.py:135-150 | The cooldown is what the provider asks for between 1 s and the maximum, else the setting |
| `PublicationRetry.TallyBalances` | core/offer_publication_worker.py:594-659 | processed = applied + failed, failed = retryable + remembered, visited = processed + skipped |
| `PublicationRetry.TallyCounts` | core/offer_publication_worker.py:594-659 | Every counter counts the candidates of its kind |
| `PublicationRetry.VisitedExactly` | core/offer_publication_worker.py:633-659 | Success and remembered failures clear the retry, other failures schedule the next, skipped candidates stay |
| `PublicationRetry.RunCycle` | core/offer_publication_worker.py:591-688 | Candidates are visited in order up to the first 429, the report is exactly theirs and balances, later states are untouched |
| `MetricsRefinement.BackEndsAgree` | core/metrics.py:218-295 | With one type on a name, memory and shared table write every sample of that name once with the same value, or not at all, for every history |
| `MetricsRefinement.MemoryRendersMeaning` | core/metrics.py:274-295 | The memory rendering is the abstract value: sum, last value, observations |
| `MetricsRefinement.SharedRendersMeaning` | core/metrics.py:218-258 | So is the shared rendering of all rows of the name, whichever of them comes first |
| `MetricsRefinement.BucketsCumulative` | core/metrics.py:214-216 | Buckets grow with their bound and never exceed the count |
| `MetricsRefinement.LineRefines` | core/metrics.py:184-203 | Histogram rows hold the number of observations at most the bound, the count and the sum |
| `MetricsRefinement.PlainRefines` | core/metrics.py:118-154 | The plain row is the counter's total or the gauge's last value |
| `MetricsRefinement.MemoryRefines` | core/metrics.py:170-216 | In memory every series is what its history says |
| `MetricsRefinement.UpdateAmounts` | core/metrics.py:186-187 | What one observation adds to each row |
| `MetricsRefinement.MixedTypesDiverge` | core/metrics.py:170-258 | Every history with two types on a name has a continuation of at most one call in those types after which, whichever row comes first, some sample differs |
| `MetricsRefinement.AgreeForGoodExactlyWhen` | core/metrics.py:170-295 | The back ends agree on a name after every continuation in the types it uses exactly when it uses one |
| `MetricsRefinement.GaugeOnCounter` | core/metrics.py:137-182 | For example, a gauge set to another value on a counter |
| `Metrics.MetricsRegistry.RecordCounter` | core/metrics.py:170-175 | Both representations move by the counter step that the refinement speaks about; without a shared table the rows stay |
| `Metrics.MetricsRegistry.RecordGauge` | core/metrics.py:177-182 | The same for the gauge step |
| `Metrics.MetricsRegistry.RecordObservation` | core/metrics.py:184-216 | The same for the observation step, and every histogram keeps all its buckets |
| `Metrics.CollectUpdates` | core/metrics.py:186-187 | The loop lists sum, count, +Inf and one update for each bucket that bounds the value |
| `Metrics.ApplyUpdates` | core/metrics.py:191-203 | The batch equals the fold of its upserts |
| `Metrics.AddObservation` | core/metrics.py:212-216 | The bucket loop counts the value in every bucket that bounds it |
| `ErrorLimiterRuns.NeverEvictedBalances` | core/error_tracking.py:43-66 | A fingerprint never evicted: calls = captures + reported + pending suppressions |
| `ErrorLimiterRuns.CallsConserved` | core/error_tracking.py:43-66 | In every run calls = captures + reported + pending + lost by eviction |
| `ErrorLimiterRuns.OpeningReportsAll` | core/error_tracking.py:51-57 | A call that opens a window reports all pending suppressions and leaves none; a call inside a window reports none |
| `ErrorLimiterRuns.CapturesPerWindow` | core/error_tracking.py:51-66 | Between 1 and max_events captures in the open window of a known fingerprint; windows open only when the key is unknown or its window is over |
| `ErrorLimiterRuns.CapturesInAnyInterval` | core/error_tracking.py:51-66 | On a nondecreasing clock at most 2 * max_events - 1 captures of a never evicted fingerprint in any interval of window length |
| `ErrorLimiterRuns.BoundIsReached` | core/error_tracking.py:51-66 | For all limits a run reaches that bound |
| `ErrorLimiterRuns.LimitPerIntervalExactlyWhen` | core/error_tracking.py:51-66 | At most max_events captures in every such interval exactly when max_events is 1 |
| `ErrorLimiterRuns.EvictsLeastRecentlyTouched` | core/error_tracking.py:54-65 | Only a full table evicts, and it evicts the least recently touched key |
| `ErrorLimiterRuns.RunKept` | core/error_tracking.py:55-56 | The table never exceeds its maximum |
| `ErrorLimiter.CallKeeps` | core/error_tracking.py:49-66 | A call keeps the bound and moves its key to the end |
| `ErrorLimiter.CallEvictsFront` | core/error_tracking.py:55-56 | Only a new key in a full table evicts, exactly the front entry |
| `ErrorLimiter.Trim` | core/error_tracking.py:55-56 | The eviction loop drops exactly the excess from the front, and raises exactly for a negative maximum |
| `ErrorLimiter.Limiter.ShouldCapture` | core/error_tracking.py:43-66 | The call takes the specified step for all settings, disabled limits let everything through, and a negative maximum empties the table and raises when a window opens |
| `CommandIdentity.EqualIdsEqualCommands` | core/offer_expiry_contracts.py:107-114 | Under an injective UUIDv5, two commands without lone surrogates have one id exactly when their canonical payloads are equal |
| `CommandIdentity.EqualIdsExactlyWhen` | core/offer_expiry_contracts.py:107-114 | For all commands, ids are equal exactly when the canonical payloads agree up to UTF-16 |
| `CommandIdentity.ForwardRevalidates` | core/offer_expiry_contracts.py:117-171 | Every forward payload with identity validates at the receiver to the sender's identity |
| `CommandIdentity.ValidateExactlyWhen` | core/offer_expiry_contracts.py:117-126 | The receiver accepts exactly the id and key of the command itself; a wrong id or key is a mismatch |
| `CommandIdentity.ForwardCarries` | core/offer_expiry_contracts.py:129-171 | A forward payload names the offer and repeats the command; id and key go with it exactly on request |
| `CommandIdentity.KeysAndHashes` | core/offer_expiry_contracts.py:107-114 | Keys are equal exactly when ids are; request hashes are those of the canonical texts |
| `CommandIdentity.SameTextExactlyWhen` | core/offer_expiry_contracts.py:97-104 | Two payloads have one canonical text exactly when they agree up to UTF-16 |
| `CommandIdentity.CanonicalTextInjective` | core/offer_expiry_contracts.py:97-104 | The encoding is injective on payloads without lone surrogates |
| `CommandIdentity.CanonicalTextIsJson` | core/offer_expiry_contracts.py:97-104 | The canonical text is the JSON object of the seven members without white space |
| `CommandIdentity.KeysSorted` | core/offer_expiry_contracts.py:102 | Its keys are sorted |
| `CommandIdentity.SurrogatesCollide` | core/offer_expiry_contracts.py:61-63 | Valid public ids with one text that differ by lone surrogates |
| `CommandIdentity.AbsentActorIsOwner` | core/offer_expiry_contracts.py:66-69 | An absent actor and actor = owner give the same result |
| `CommandIdentity.CanonicalIsFixed` | core/offer_expiry_contracts.py:52-94 | Payloads in normal form are exactly the fixed points of the normalisation |
| `CommandIdentity.CommandsAreCanonical` | core/offer_expiry_contracts.py:41-94 | Every accepted command is normalised to such a payload, once and for all |
| `CommandIdentity.CanonicalExactlyWhen` | core/offer_expiry_contracts.py:31-94 | Which commands are accepted, exactly, and the payload they give |
| `CommandIdentity.StripTrims` | core/offer_expiry_contracts.py:61 | Stripping takes away white space at both ends and nothing else |
| `CommandIdentity.ReadsString` | core/offer_expiry_contracts.py:99-104 | An escaped JSON string reads back to its code units |
| `CommandIdentity.ReadsDecimal` | core/offer_expiry_contracts.py:99-104 | A decimal number reads back |
| `CommandIdentity.Utf16Injective` | core/offer_expiry_contracts.py:99-104 | UTF-16 loses nothing on strings without lone surrogates |

## Left out

- Bulk and raw SQL statements: `guard_sync_bulk_or_raw_execute` refuses them before they run, by matching the statement text, which has no state and is not modelled; the coverage theorem is about writes that go through a flush.
- SQLAlchemy internals: the model assumes the order of hook calls, and that an exception in a flush rolls back the innermost level; flush tokens are counter values without the session and flush ids.
- Tables, policies and registries: the static tables are parameters, except the user field sets, which are the constructors of `UserSync.Field`.
- Sync receiver and worker, HTTP forwarding, trades, services, bot and web interfaces, redaction and logging are not part of this model.
- Floating point: metrics and retry delays are reals, so rounding and NaN are not modelled; instants are exact, integers or reals, and the projection's time stamps in whole seconds are omitted.
- AuditTrail: the trail path is configured, payloads can be encoded as UTF-8, and redaction is part of the record body.
- AuditTrail.TrailFile.WriteAuditRecord: the process lock is modelled only by its failures; writes of other processes are further steps of a run.
- LeaderLock: the leader coroutine is a step relation over its await points, not a loop; time is exact and common to Redis and the workers; a job factory that raises after an earlier job was created is not modelled, since the factories are coroutine functions.
- Parity: rows hold values that `_canonical_value` has made canonical; identity labels and the list of duplicate hashes are omitted.
- ParityGate.CompareTables: the lists of identity hashes are sets; sorting and sampling for display are omitted.
- ParityGate.SummarizeComparison: takes comparisons as `compare_parity_snapshots` makes them, without the optional totals that hand-written summaries may carry.
- CounterLedger.EventReplaysChange: the attribute histories are taken to be consistent with the changed set; event hashes and ids are omitted.
- UserSync: operations are INSERT, UPDATE and DELETE; nested values are canonical JSON.
- OfferExpiry: the stale-row retry of `expire_stale_offers`, channel presentation and the overtime sweep call services that are not part of this model.
- PublicationRetry: publication states are values, so update in place is not captured; selection and ordering of candidates in SQL, the backlog report and the spacing between edits are omitted.
- MetricsRefinement: rendering is a function from a sample to its value, not the loop that writes the text; help texts, label escaping, the order of lines and SQLite errors are omitted.
- CommandIdentity: `int()` and `str.lower` are parameters; the request hash is not claimed to be collision free.

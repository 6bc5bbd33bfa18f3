# Textify: the durable job protocol

Textify accepts transcription jobs, keeps them in PostgreSQL, announces them through a broker that may
lose, repeat, reorder or invent deliveries, and lets any number of workers and reconcilers compete for
them. This project models that protocol and what rests on it in Dafny, and proves what the protocol
promises: over every run, every interleaving of transactions, every batch size and every input.

How the pieces fit:

- **The protocol.** Module `JobProtocol` is a state machine. A `Row` is all that the tables hold about
  one job, a `Store` is all rows with the id sequence, and `Decide` says for each of the fourteen
  transactions which rows it changes and what it answers at a given clock reading. A run is a list of
  transactions with nondecreasing clock readings, in any order and with any arguments.
- **Theorems about whole runs.** `StoreInvariant` is the inductive invariant: every CHECK, UNIQUE and
  deferred constraint, the capacity bound and the facts about time. On it rest `ClaimOrder` (FIFO),
  `ClaimFencing` (single fenced execution), `Cancellation` (one first acceptance), `DispatchLeases`
  (publication), `Admission` (idempotent replay, published results) and `Retention` (deletion cannot
  be observed).
- **Promises.** `JobContracts` states on the columns what each transaction promises its callers, in both
  directions and without the decisions of `JobProtocol`; `Promises` shows that every promise is kept and
  that together they leave no answer and no column open.
- **The repository.** `JobTables` has one map per table and the SQL statements on them,
  `JobTransactions` the statements of each transaction in order, and class
  `PostgresTranscriptionJobRepository` in `JobRepository` the object that updates its tables in place.
  Each method is proved to take the step that the protocol decides, and to keep its promise.
- **The machines on top.** `Reconciler`, `Processor` and `ClaimManager` are classes that call the
  repository, or hold the registry, while other processes act in between; `NativeWork` is the hand-off
  of native permits and media between callers and finalizers.
- **Pure and algorithmic parts.** `ResultRows` (projection and storage), `Whitespace` and
  `Normalization` (transcripts), `TimeoutSearch` (exception links), `Identifiers` (UUIDs, payloads).

`dafny verify dfyconfig.toml` checks the whole project.

## Findings

Four promises do not hold as one might state them; the model keeps the code's behaviour, reaches an
instance of each, and proves exactly when they hold.

- `create_queued` replays a held key without looking at retention
  (`src/textify/jobs/repository.py:497-532`), so deletion can be observed by reusing the key of an
  expired job: `Retention.AnswersAgreeIff` is the exact condition, `Retention.ReuseExample` an instance.
- `claim` sets the drained event between dropping the pending count and registering the claim
  (`src/textify/jobs/claim_manager.py:149-158`), so shutdown can be woken while work is registered:
  `ClaimManager.WokenWithWorkIff` says exactly when, `ClaimManager.WokenExample` is an instance.
- A cancellation seen at `src/textify/transcription/acquisition.py:983-984` raises ahead of the block
  that releases the inference permit. `NativeWork.LeaksIff` says that a permit is lost there and nowhere
  else, `NativeWork.LeaksAreCounted` counts the losses of a run, `NativeWork.LeakExample` is an instance.
- `process` waits for `cleanup_complete`, which only `execute` sets. If `classify_submitted_url` refuses
  the URL (`src/textify/jobs/processor.py:157`) and the publication of that failure is refused in turn,
  the wait never ends and the claim is not given back. `Process` ends as `Waiting` if and only if
  `Processor.NeverReturns` holds: the delivery is claimed, its URL refused before `execute`, and by the
  time of the publication the job is flagged for cancellation or the claim no longer live. Admission
  applies the same classification (`src/textify/jobs/service.py:100`), so such a row has to stem from a
  version with other rules; `Processor.WaitingExample` is an instance.

The public error codes include the idempotency conflict code, which the error check of the job table does not
list (`src/textify/jobs/repository.py:117-129`); a failure published with it is refused by the database.

## Model

| member | source | states |
|---|---|---|
| ResultRows.StorageRoundTrip | src/textify/transcription/schemas.py:295-350 | for every domain result and every exclusion set: the projection exists exactly if kept segments are at hand, is then valid and reads back equal from its rows, and the database accepts those rows exactly if the kept texts fit their columns |
| ResultRows.ProjectionByField | src/textify/transcription/schemas.py:295-350 | each of the eleven fields of the response, each column of its row and each segment row holds the value of its own field of the result, or nothing if its path is excluded |
| ResultRows.ReaderAgreesWithTrigger | migrations/versions/0002_execution_attempts.py:163-210 | given the column checks and the primary key, stored rows can be read back exactly if the deferred trigger accepts them |
| ResultRows.OrdinalsHaveNoGap | migrations/versions/0002_execution_attempts.py:193-210 | count, minimum and maximum alone force every ordinal to equal its position |
| ResultRows.ReadThenWrite | src/textify/jobs/repository.py:1954-2055 | writing a response that was read gives the same rows back |
| ResultRows.WriteThenRead | src/textify/jobs/repository.py:1954-2055 | whatever response the trigger accepts can be read back, and comes back the same exactly if its segments are absent where they are excluded and nowhere else |
| StoreInvariant.ChangedRowInvariant | src/textify/jobs/repository.py:106-152 | every guarded row change keeps the lifecycle, timestamp, error pair, lease and claim checks, the result rule of the trigger, and the facts about time |
| StoreInvariant.ChangeAdvances | src/textify/jobs/repository.py:1205-1258 | no change touches the identity of a submission; status never goes back; a finished job keeps outcome, times, error and result; an accepted flag stays |
| StoreInvariant.DecideIsLawful | src/textify/jobs/repository.py:469-1618 | every transaction, whatever its arguments, changes only rows whose guard holds, deletes only expired terminal rows and inserts only distinct queued rows below capacity |
| StoreInvariant.NextKeepsInvariant | src/textify/jobs/repository.py:230-262 | every transaction keeps all constraints, uniqueness, the capacity bound and the order of ids, under a clock that does not go back |
| StoreInvariant.RunKeepsInvariant | src/textify/jobs/repository.py:460-467 | the same for every reachable store |
| StoreInvariant.SnapshotExists | src/textify/jobs/repository.py:1855-1951 | a stored row that satisfies the invariant is always readable: no translator raises |
| StoreInvariant.UnavailableOnlyForRefusedInput | src/textify/jobs/repository.py:997-1029 | a transaction answers "store unavailable" exactly for input that a constraint or validator refuses; as the statement-level transactions compare their row counts, raise the same on any other count and are proved to answer so, no count is ever unexpected |
| Promises.PromisesAreKept | src/textify/jobs/repository.py:469-1745 | every transaction, with whatever arguments, keeps its promise: a relation on the columns before and after and the answer, read without the decisions of the protocol |
| Promises.PromisesDecide | src/textify/jobs/repository.py:469-1745 | the promises leave nothing open: they admit one answer and one store, those of the protocol |
| JobContracts.ClaimContract | src/textify/jobs/repository.py:905-1035 | a delivery is claimed exactly if its job is stored with that token, queued, unflagged, before its deadline and the first such in (submitted_at, id); the answer carries its stored URL and exclusions and the row is processing under the claim; otherwise nothing changes but an overdue job |
| JobContracts.LeaseContract | src/textify/jobs/repository.py:691-784 | a dispatch is leased exactly if its job is queued, unflagged and before its deadline, due, without a running lease, and fewer than the limit of such jobs precede it; the answer lists exactly these in order |
| JobContracts.RecordContract | src/textify/jobs/repository.py:810-838 | a record matches exactly the lease owner, frees the lease, delays the next dispatch and counts |
| JobContracts.ReleaseContract | src/textify/jobs/repository.py:856-878 | a release frees exactly the listed attempts leased to the caller |
| JobContracts.AdmissionContract | src/textify/jobs/repository.py:494-594 | under a fresh key "capacity exceeded" exactly if the unfinished jobs reach the maximum, and otherwise one new row, column by column, exactly if the request is well formed and its identifiers are free; under a held key replay or conflict |
| JobContracts.ExpiryContract | src/textify/jobs/repository.py:612-660 | queue expiry fails exactly the first jobs by deadline whose deadline has been reached, and counts them |
| JobContracts.RecoveryContract | src/textify/jobs/repository.py:1158-1265 | a claim lease that has run out makes its job recoverable at once: exactly the first such jobs are finished, cancelled if flagged and otherwise interrupted, without their claims, and counted |
| JobContracts.RenewalContract | src/textify/jobs/repository.py:1080-1140 | a heartbeat renews exactly the held claims of its batch and lists them in its order with their flags |
| JobContracts.PublishCancelledContract | src/textify/jobs/repository.py:1437-1473 | committed exactly for a held claim with a requested cancellation, with the finished row |
| JobContracts.PublishSuccessContract | src/textify/jobs/repository.py:1498-1551 | committed exactly for a valid, storable response of a held claim without a cancellation, with the finished row and its result |
| JobContracts.PublishFailureContract | src/textify/jobs/repository.py:1553-1618 | committed exactly for a held claim without a cancellation and a storable code and message, with the finished row |
| JobContracts.ReadContract | src/textify/jobs/repository.py:1668-1745 | a capability reads a snapshot of the kind its columns call for, with their values, exactly until its retention has passed |
| JobContracts.CancellationContract | src/textify/jobs/repository.py:1310-1409 | accepted exactly for a retained job that did not succeed or fail, first exactly if it was queued or processing without a flag; it answers with the job as it then is |
| JobContracts.DeletionContract | src/textify/jobs/repository.py:1274-1286 | exactly the jobs whose retention has passed are removed |
| JobHistory.NextEvolves | src/textify/jobs/repository.py:538-579 | one transaction: old rows only advance, new rows are queued, carry its clock reading and take fresh ids |
| JobHistory.RunEvolves | src/textify/jobs/repository.py:538-579 | over every run, rows that are still there have only advanced and later rows have larger ids |
| JobHistory.DeletedStaysDeleted | src/textify/jobs/repository.py:1274-1282 | a deleted job never comes back under its id |
| Ordering.BatchIsEarliest | src/textify/jobs/repository.py:719-723 | a bounded ordered selection is sorted, has the size that limit and candidates allow, and precedes everything it leaves out |
| Ordering.BatchIff | src/textify/jobs/repository.py:719-723 | a candidate is selected exactly if fewer than the limit come before it |
| Ordering.OrderedListsAll | src/textify/jobs/repository.py:719-723 | the unbounded selection lists every candidate once, in (instant, id) order |
| Ordering.CountOfIds | src/textify/jobs/repository.py:651-659 | a list without duplicates has as many members as entries, which is what the row counts are compared with |
| Ordering.SortedIsUnique | src/textify/jobs/repository.py:719-723 | there is only one such list |
| ClaimOrder.ClaimPasses | src/textify/jobs/repository.py:942-998 | a claim takes the oldest eligible job and leaves only later ones eligible |
| ClaimOrder.ClaimsAreFifo | src/textify/jobs/repository.py:915-998 | in every run, whatever is delivered, duplicated, expired, cancelled or deleted, claims are strictly increasing in (submitted_at, id) and in id; so no job is claimed twice |
| ClaimFencing.FinishedAtMostOnce | src/textify/jobs/repository.py:1440-1468 | over every run a job is finished by at most one transaction, and by exactly one if it ends up finished |
| ClaimFencing.LeasePassedIsFenced | src/textify/jobs/repository.py:1084-1101 | a claim whose lease instant has passed is fenced |
| ClaimFencing.HeartbeatsAreRenewable | src/textify/jobs/repository.py:1084-1140 | the heartbeats of a batch are those of its live owned claims, each with its durable flag, and no other |
| ClaimFencing.FencedForGood | src/textify/jobs/repository.py:1084-1101 | no step of any continuation renews a fenced claim or publishes for it |
| ClaimFencing.OnlyRecoveryEndsAbandoned | src/textify/jobs/repository.py:1171-1240 | one transaction leaves an abandoned job as it is, but for its flag, or is a recovery that finishes it: cancelled if flagged, otherwise as interrupted |
| ClaimFencing.AbandonedUntilRecovered | src/textify/jobs/repository.py:1171-1240 | over every run an abandoned job is finished by some recovery of the run, by its flag at that moment, or is still there and still abandoned at the end |
| ClaimFencing.RenewedClaimIsKept | src/textify/jobs/repository.py:1084-1101 | a claim renewed at gaps shorter than its lease still holds its job, unless it published the end itself |
| ClaimFencing.ClaimedIsHeld | src/textify/jobs/repository.py:982-998 | a committed claim starts out held with its whole lease ahead |
| Cancellation.StepCounts | src/textify/jobs/repository.py:1328-1408 | in one transaction a job becomes cancelled exactly if the answer reports its first acceptance |
| Cancellation.AcceptancesCountCancellations | src/textify/jobs/repository.py:1309-1409 | over every run the first acceptances of a job number one if it went from not cancelled to cancelled, otherwise none |
| Cancellation.FirstAcceptedAtMostOnce | src/textify/jobs/repository.py:1309-1409 | the first acceptance is answered at most once, also across deletion |
| Cancellation.CancelledForGood | src/textify/jobs/repository.py:1452-1468 | after an acceptance every continuation leaves the job cancelled, and finished only as cancelled |
| Cancellation.AlreadyFinishedIff | src/textify/jobs/repository.py:1399-1409 | "already finished" is answered exactly for a retained job that succeeded or failed, and changes nothing |
| DispatchLeases.DispatchBound | src/textify/jobs/repository.py:702-758 | if every record delays by at least I, then (dispatch_count - 1) * I < queue_timeout for every dispatched attempt in every reachable store |
| DispatchLeases.LeasedDispatchesAreDue | src/textify/jobs/repository.py:705-764 | a returned dispatch was due and is leased to the caller for the asked duration |
| DispatchLeases.KeptByStrangers | src/textify/jobs/repository.py:809-832 | a record or release by anyone but the lease owner, or for another dispatch, leaves the leased attempt alone |
| DispatchLeases.LeasesExclude | src/textify/jobs/repository.py:705-763 | within its lease time a leased dispatch is returned again only after its owner recorded or released it |
| DispatchLeases.NoLeaseBeforeRedispatch | src/textify/jobs/repository.py:809-838 | after a record at t no lease of the attempt happens before t plus the delay |
| DispatchLeases.LapsedLeaseIsTakenOver | src/textify/jobs/repository.py:711-717 | after any run in which a lease is neither given up nor taken over, once its instant has passed the next lease call of any reconciler returns the dispatch if its job may still start and is within the limit |
| Admission.HeldKeyDecides | src/textify/jobs/repository.py:497-532 | a held key decides replay or conflict, whatever the capacity and the status, and nothing changes |
| Admission.AcceptedHoldsKey | src/textify/jobs/repository.py:534-594 | an accepted request holds its key and is answered with the capability and instants of its job |
| Admission.ReplayIsStable | src/textify/jobs/repository.py:494-532 | after any run the same request is answered as the first time while the job is retained, another request under the key conflicts, and neither changes anything |
| Admission.GetByCapability | src/textify/jobs/repository.py:1650-1745 | a capability reads the snapshot of its one job until its retention has passed |
| Admission.PublishedResultIsRead | src/textify/jobs/repository.py:1498-1546 | every later read of a published response returns what its rows read back as, which is the response itself exactly if its segments are absent where they are excluded and nowhere else, until retention has passed since publication and never after |
| Retention.DecisionsAgree | src/textify/jobs/repository.py:1323-1326 | a store and the same store without some expired terminal jobs decide every other transaction alike, down to the rows selected |
| Retention.DeletionIsUnobservable | src/textify/jobs/repository.py:1274-1282 | any run answers as the same run without its deletions, if no admission reuses an identifier of an expired job |
| Retention.AnswersAgreeIff | src/textify/jobs/repository.py:497-532 | the two stores answer a request alike exactly if it does not reuse the key of a deleted job |
| Retention.ReuseExample | src/textify/jobs/repository.py:497-532 | in two stores that runs from the empty store reach, with the invariant: a reused key is replayed without the deletion and makes a new job after it |
| JobTables.TablesUpdated | src/textify/jobs/repository.py:639-653 | UPDATE statements that change the selected rows of all tables as the protocol says, and no other row, are the update of the protocol |
| JobTables.SplitRecovery | src/textify/jobs/repository.py:1205-1241 | the cancelling and the interrupting update of a recovery batch are together one recovery of each row |
| JobTables.DeleteJobs | src/textify/jobs/repository.py:1277-1282 | deleting job rows with their cascades removes those jobs and nothing else |
| JobTables.InsertJob | src/textify/jobs/repository.py:544-579 | the four inserts of an admission add one whole row and move the id sequence |
| JobTransactions.ExpireQueued | src/textify/jobs/repository.py:612-660 | selection, guarded update and compared row count are the expiry of the earliest overdue jobs; the raise on another count is dead |
| JobTransactions.LeaseDue | src/textify/jobs/repository.py:691-784 | candidates, rechecked update, the check for duplicate returned rows and the reordered answer are the lease of the earliest due dispatches; the raise is dead |
| JobTransactions.LeasedKeys | src/textify/jobs/repository.py:760-778 | the rows that the lease update returns have as many keys as there are rows: no duplicate |
| JobTransactions.RecordPublished | src/textify/jobs/repository.py:810-838 | the guarded update and its returned row are the record of the lease owner |
| JobTransactions.ReleaseLeases | src/textify/jobs/repository.py:856-878 | the update releases exactly the listed leases of the owner |
| JobTransactions.Claim | src/textify/jobs/repository.py:916-1030 | late expiry, the FIFO check, the two guarded updates with their row counts and the private inputs are the claim of the protocol; every raise on a count is dead |
| JobTransactions.Heartbeat | src/textify/jobs/repository.py:1083-1140 | the guarded update and the reassembled answer are the renewal of the listed live claims, and no renewed row is ever unlisted |
| JobTransactions.RecoverExpired | src/textify/jobs/repository.py:1158-1265 | the split by flag, both updates, the cleared claims and the count are the recovery of the earliest abandoned jobs; none of the three compared row counts is ever off |
| JobTransactions.MatchedByUpdates | src/textify/jobs/repository.py:1205-1241 | the two updates of a recovery batch match exactly the jobs selected for each, and together the batch |
| JobTransactions.SortRecovered | src/textify/jobs/repository.py:1193-1203 | the loop puts each expired job in the list of its flag |
| JobTransactions.CollectHeartbeats | src/textify/jobs/repository.py:1113-1140 | the loop lists the renewed claims in the order of the batch |
| JobTransactions.LeasedInOrder | src/textify/jobs/repository.py:773-784 | the leased dispatches come back in the order of selection |
| JobTransactions.Create | src/textify/jobs/repository.py:495-594 | replay, conflict, capacity and the inserts are the admission of the protocol |
| JobTransactions.DeleteExpired | src/textify/jobs/repository.py:1275-1282 | the delete statement removes exactly the expired terminal jobs |
| JobTransactions.Cancel | src/textify/jobs/repository.py:1310-1409 | the branches by status, their updates with compared row counts and the snapshot read back are the cancellation of the protocol; no count is off and no row is missing |
| JobTransactions.Get | src/textify/jobs/repository.py:1668-1745 | lookup, retention check and translation are the read of the protocol |
| JobTransactions.FinishAsCancelled | src/textify/jobs/repository.py:1437-1473 | guard, transition and cleared claim with its row count are the cancelled publication; the raise on that count is dead |
| JobTransactions.FinishAsSucceeded | src/textify/jobs/repository.py:1498-1551 | validation, guard, transition, cleared claim with its row count and result rows are the successful publication; the raise on that count is dead |
| JobTransactions.FinishAsFailed | src/textify/jobs/repository.py:1553-1618 | validation, guard, transition and cleared claim with its row count are the failed publication; the raise on that count is dead |
| JobRepository.PostgresTranscriptionJobRepository.CreateQueued | src/textify/jobs/repository.py:469-594 | admission updates the tables in place to exactly the next store of the protocol, answers as it decides, keeps the invariant, and keeps its promise on the columns (Promised) |
| JobRepository.PostgresTranscriptionJobRepository.ExpireQueuedJobs | src/textify/jobs/repository.py:596-664 | queue expiry updates the tables in place to exactly the next store of the protocol, answers as it decides, keeps the invariant, and keeps its promise on the columns (Promised) |
| JobRepository.PostgresTranscriptionJobRepository.LeaseDueDispatches | src/textify/jobs/repository.py:666-784 | leasing updates the tables in place to exactly the next store of the protocol, answers as it decides, keeps the invariant, and keeps its promise on the columns (Promised) |
| JobRepository.PostgresTranscriptionJobRepository.RecordDispatchPublished | src/textify/jobs/repository.py:786-838 | recording updates the tables in place to exactly the next store of the protocol, answers as it decides, keeps the invariant, and keeps its promise on the columns (Promised) |
| JobRepository.PostgresTranscriptionJobRepository.ReleaseDispatchLeases | src/textify/jobs/repository.py:840-880 | releasing updates the tables in place to exactly the next store of the protocol, answers as it decides, keeps the invariant, and keeps its promise on the columns (Promised) |
| JobRepository.PostgresTranscriptionJobRepository.ClaimDispatch | src/textify/jobs/repository.py:882-1035 | claiming updates the tables in place to exactly the next store of the protocol, answers as it decides, keeps the invariant, and keeps its promise on the columns (Promised) |
| JobRepository.PostgresTranscriptionJobRepository.HeartbeatClaims | src/textify/jobs/repository.py:1037-1140 | renewal updates the tables in place to exactly the next store of the protocol, answers as it decides, keeps the invariant, and keeps its promise on the columns (Promised) |
| JobRepository.PostgresTranscriptionJobRepository.RecoverExpiredClaims | src/textify/jobs/repository.py:1142-1265 | recovery updates the tables in place to exactly the next store of the protocol, answers as it decides, keeps the invariant, and keeps its promise on the columns (Promised) |
| JobRepository.PostgresTranscriptionJobRepository.DeleteExpiredTerminalJobs | src/textify/jobs/repository.py:1267-1286 | deletion updates the tables in place to exactly the next store of the protocol, answers as it decides, keeps the invariant, and keeps its promise on the columns (Promised) |
| JobRepository.PostgresTranscriptionJobRepository.RequestCancellation | src/textify/jobs/repository.py:1288-1415 | cancellation updates the tables in place to exactly the next store of the protocol, answers as it decides, keeps the invariant, and keeps its promise on the columns (Promised) |
| JobRepository.PostgresTranscriptionJobRepository.PublishCancelled | src/textify/jobs/repository.py:1417-1473 | cancelled publication updates the tables in place to exactly the next store of the protocol, answers as it decides, keeps the invariant, and keeps its promise on the columns (Promised) |
| JobRepository.PostgresTranscriptionJobRepository.PublishSuccess | src/textify/jobs/repository.py:1475-1551 | successful publication updates the tables in place to exactly the next store of the protocol, answers as it decides, keeps the invariant, and keeps its promise on the columns (Promised) |
| JobRepository.PostgresTranscriptionJobRepository.PublishFailure | src/textify/jobs/repository.py:1553-1618 | failed publication updates the tables in place to exactly the next store of the protocol, answers as it decides, keeps the invariant, and keeps its promise on the columns (Promised) |
| JobRepository.PostgresTranscriptionJobRepository.GetJob | src/textify/jobs/repository.py:1650-1745 | reading updates the tables in place to exactly the next store of the protocol, answers as it decides, keeps the invariant, and keeps its promise on the columns (Promised) |
| JobRepository.PostgresTranscriptionJobRepository.Interleave | src/textify/jobs/repository.py:451-467 | transactions committed one after the other, by any processes, leave the final store of that run |
| PublicationPass.LeaseUnderWay | src/textify/jobs/repository.py:690-784 | in a pass under way a lease call returns the next dispatches of the one ordered list |
| PublicationPass.RecordUnderWay | src/textify/jobs/repository.py:809-838 | recording a leased dispatch leaves its attempt as if it had been recorded at once |
| PublicationPass.ReleaseUnderWay | src/textify/jobs/repository.py:858-878 | after a release whatever the pass has not recorded is due at once, in the same order |
| PublicationPass.DueThroughDrains | src/textify/jobs/reconciler.py:127-128 | recovery and expiry do not touch what is due |
| PublicationPass.RecoverBatchThenAll | src/textify/jobs/reconciler.py:164-169 | one bounded recovery and then the unbounded one are the unbounded one |
| PublicationPass.ExpireBatchThenAll | src/textify/jobs/reconciler.py:171-176 | one bounded expiry and then the unbounded one are the unbounded one |
| ReconcilerProgress.ForeignRunKeepsLeases | src/textify/jobs/repository.py:809-820 | other processes never add to the leases of one owner |
| ReconcilerProgress.RunShrinksWindows | src/textify/jobs/repository.py:702-758 | without admissions no run gives any job more time to be published, or makes a finished job unfinished |
| ReconcilerProgress.PublicationProgresses | src/textify/jobs/reconciler.py:129-162 | from its lease to its record a dispatch has less time left: recorded, gone, or a whole lease time has passed |
| ReconcilerProgress.DrainMakesProgress | src/textify/jobs/reconciler.py:164-176 | a drain call that reports transitions leaves fewer unfinished jobs |
| Reconciler.TranscriptionJobReconciler.RecoverExpiredClaims | src/textify/jobs/reconciler.py:164-169 | the loop ends, whatever others do, once nothing more is admitted; undisturbed it recovers every abandoned claim |
| Reconciler.TranscriptionJobReconciler.ExpireQueuedJobs | src/textify/jobs/reconciler.py:171-176 | the loop ends likewise; undisturbed it expires every overdue job |
| Reconciler.TranscriptionJobReconciler.PublishBatch | src/textify/jobs/reconciler.py:137-162 | the batch is published in order until the broker refuses; the rest is released and no own lease remains |
| Reconciler.TranscriptionJobReconciler.PublishDue | src/textify/jobs/reconciler.py:129-162 | the loop ends; undisturbed it publishes all due dispatches in order, or a proper prefix with the rest due at once |
| Reconciler.TranscriptionJobReconciler.ReconcileOnce | src/textify/jobs/reconciler.py:115-162 | ends however the clock moves and whatever others commit once admissions end; leaves no own lease; undisturbed it is, for every batch size, one unbounded recover, expire and publish pass |
| Processor.TranscriptionJobProcessor.Process | src/textify/jobs/processor.py:141-232 | for every executor result and every interleaving: one clause per outcome for the publication attempted, with the raised code and message or the projected result; at most one committed publication, one event exactly for it, and its outcome, error or result in the stored job; the claim given back once on every return; an error raised exactly for a cancelled task or an unavailable store; and no return exactly if the URL is refused before `execute` and the failure publication finds the job flagged or the claim not live |
| Processor.TranscriptionJobProcessor.PublishOutcome | src/textify/jobs/processor.py:156-230 | which publication each end of the execution calls for, and that only a refused publication after a refused URL waits for good |
| Processor.FirstIsCalledFor | src/textify/jobs/processor.py:156-232 | each end of a delivery chooses the publication that it calls for, told case by case |
| Processor.TranscriptionJobProcessor.PublishFailureOrCancelled | src/textify/jobs/processor.py:234-264 | failure unless cancellation is signalled, and cancellation if the failure is refused |
| Processor.TranscriptionJobProcessor.PublishCancelledAfterCleanup | src/textify/jobs/processor.py:266-280 | cancelled is published only once the last owner of the media has completed cleanup, and not at all exactly if `execute` made no owner |
| Processor.FailureRefusedIff | src/textify/jobs/repository.py:1553-1618 | a failure publication is refused exactly for a stale claim or a flagged job, unless its message is invalid |
| Processor.WaitingExample | src/textify/jobs/processor.py:156-200 | a delivery that never returns, from a store that an admission reaches: claimed, cancelled by its caller, and refused for its URL |
| Processor.CommittedIsTrue | src/textify/jobs/processor.py:32-63 | after a committed publication, and whatever follows, the stored job has its outcome, code, message and result, and the event says so |
| Processor.CancellationComesFromOthers | src/textify/jobs/processor.py:163-200 | a job cancelled meanwhile was cancelled by exactly one first acceptance, requested by another process: a local stop never cancels |
| Processor.ResultIsStorable | src/textify/jobs/processor.py:158-162 | a result with its kept segments at hand is published as a success unless stopped; the database refuses it for the state of the claim, and for its content exactly if a kept text does not fit its column |
| ClaimManager.StepKeepsRegistry | src/textify/jobs/claim_manager.py:127-176 | each step between two suspension points keeps claims plus pending within the maximum, drained exactly if both are empty, and lost claims registered |
| ClaimManager.RunKeepsRegistry | src/textify/jobs/claim_manager.py:127-176 | the same at every suspension point of every interleaving |
| ClaimManager.StepAdmits | src/textify/jobs/claim_manager.py:127-149 | a reservation counts exactly if admission is open and there is room, and only shutdown closes admission |
| ClaimManager.StepRegisters | src/textify/jobs/claim_manager.py:149-176 | a claim is registered with its control, and released, exactly by the step that says so |
| ClaimManager.StepLoses | src/textify/jobs/claim_manager.py:219-239 | a claim becomes lost exactly by a batch that leaves it out, and stays so until its release |
| ClaimManager.LostIsNotPolled | src/textify/jobs/claim_manager.py:199-205 | a lost claim is in no later heartbeat batch before its release |
| ClaimManager.MonitorTellsTheTruth | src/textify/jobs/claim_manager.py:205-239 | after a batch a claim is lost exactly if the database no longer held it, and signalled exactly if lost or cancelled |
| ClaimManager.ClosedOnlyDrains | src/textify/jobs/claim_manager.py:178-195 | once admission is closed, work only drains, and a drained worker stays drained |
| ClaimManager.WokenWithWorkIff | src/textify/jobs/claim_manager.py:149-166 | shutdown is woken with work registered exactly if the last pending claim comes back with a job while nothing else is registered |
| ClaimManager.WokenExample | src/textify/jobs/claim_manager.py:149-158 | such a wake-up, reached from an empty registry |
| ClaimManager.ExecutionClaimManager.UpdateDrainedState | src/textify/jobs/claim_manager.py:241-246 | the drained event is set exactly if nothing is registered or pending, and wakes a waiter for good |
| ClaimManager.ExecutionClaimManager.ReserveClaim | src/textify/jobs/claim_manager.py:134-149 | the second admission check and the pending count are one step |
| ClaimManager.ExecutionClaimManager.FinishClaim | src/textify/jobs/claim_manager.py:149-166 | the answer of the durable claim registers it, or only ends its pending count |
| ClaimManager.ExecutionClaimManager.ReleaseClaim | src/textify/jobs/claim_manager.py:168-176 | a claim leaves the registry and the lost set |
| ClaimManager.ExecutionClaimManager.BeginShutdown | src/textify/jobs/claim_manager.py:182-186 | shutdown closes admission and waits unless drained |
| ClaimManager.ExecutionClaimManager.CollectBatch | src/textify/jobs/claim_manager.py:199-203 | the batch is every registered claim that is not lost, once |
| ClaimManager.ExecutionClaimManager.ApplyHeartbeats | src/textify/jobs/claim_manager.py:219-239 | the loops lose and signal exactly the claims of the batch that the heartbeats call for |
| NativeWork.InferencesAreBounded | src/textify/transcription/acquisition.py:954-1030 | in every interleaving at most `transcription_concurrency` inferences happen at once, abandoned ones included |
| NativeWork.MediaIsRemovedOnce | src/textify/transcription/acquisition.py:1047-1101 | request directory or prepared audio, it is there while its inference runs; whichever `finally` or owner removes it, it is removed once, when caller and finalizer are done, and cleanup is complete exactly then |
| NativeWork.NoFinalizerNoAbandonedWork | src/textify/transcription/acquisition.py:1116-1122 | when shutdown has drained the finalizers every execution whose caller has left is over |
| NativeWork.NothingIsStuck | src/textify/transcription/acquisition.py:940-1101 | what an execution waits for takes it nearer to its end, so it gets stuck only for want of a permit |
| NativeWork.NothingGoesBack | src/textify/transcription/acquisition.py:940-1101 | no event, be it a timeout or a cancellation, takes an execution further from its end |
| NativeWork.UndisturbedEnds | src/textify/transcription/acquisition.py:946-1030 | undisturbed, the thread runs once with permit and media at hand, and everything is given back |
| NativeWork.CancellationWins | src/textify/transcription/acquisition.py:946-984 | a cancellation ahead of the thread keeps it from starting in every step, and preparation ends without waiting for a permit |
| NativeWork.CancelledNeverInfers | src/textify/transcription/acquisition.py:946-984 | over every run an execution whose cancellation was requested ahead of its inference never infers |
| NativeWork.RunKeepsWorld | src/textify/transcription/acquisition.py:940-1101 | in every run the two locals, the semaphore, the request directory, the finalizers and the ownership of every execution agree, and every permit is free or held by one execution |
| NativeWork.StepKeepsExecution | src/textify/transcription/acquisition.py:940-1101 | the two `finally` blocks, read from the two locals, and the finalizer keep the books of an execution: no permit or directory is released twice, or by the wrong owner |
| NativeWork.PermitsAreReleasedOnce | src/textify/transcription/acquisition.py:966-1066 | over every run each execution gives back at most the one permit it acquired, and an execution that is over without it never began its inference |
| NativeWork.LeaksIff | src/textify/transcription/acquisition.py:980-984 | an execution loses its permit exactly in a step in which the last check meets a requested cancellation, and a lost permit stays lost |
| NativeWork.LeaksAreCounted | src/textify/transcription/acquisition.py:980-984 | over every run as many permits are lost as there are such steps |
| NativeWork.LeakExample | src/textify/transcription/acquisition.py:980-984 | six events after which the only permit is gone while nothing runs |
| NativeWork.TranscriptionOwnership.RetainNativeWork | src/textify/transcription/acquisition.py:645-648 | the native work becomes an owner |
| NativeWork.TranscriptionOwnership.FinishCaller | src/textify/transcription/acquisition.py:650-654 | the caller is done and provider work is told to stop |
| NativeWork.TranscriptionOwnership.CompleteNativeWork | src/textify/transcription/acquisition.py:656-659 | the native work is done |
| NativeWork.TranscriptionOwnership.ReleaseWhenFinished | src/textify/transcription/acquisition.py:661-670 | media is cleaned and cleanup signalled once, when no owner is left |
| NativeWork.FinishExecution | src/textify/transcription/service.py:264-275 | without an ownership the caller cleans up and signals at once, with one it only gives up its share |
| NativeWork.WhisperAcquirer.Transcribe | src/textify/transcription/acquisition.py:980-1045 | on the real semaphore, directory and ownership objects, from the granted permit to the end: media is gone and cleanup complete unless the wait is abandoned; then permit, directory and media stay for one finalizer, untouched; and this is what the machine does from there |
| NativeWork.WhisperAcquirer.RetainAbandonedNativeWork | src/textify/transcription/acquisition.py:1047-1066 | the ownership gets a second owner and the finalizer is kept until it is done |
| NativeWork.WhisperAcquirer.FinalizeAbandonedNativeWork | src/textify/transcription/acquisition.py:1068-1103 | after a hand-over: the permit comes back, directory and prepared audio are each removed once, cleanup is complete, and the finalizer is dropped |
| Whitespace.CollapsedIff | src/textify/transcription/types.py:277-279 | a text is a fixed point of collapsing exactly if its whitespace is single spaces inside it |
| Whitespace.CollapseIsIdempotent | src/textify/transcription/types.py:277-279 | collapsing twice is collapsing once |
| Whitespace.GapsCollapse | src/textify/transcription/types.py:277-279 | of a gap between two texts only its being there matters, and of one at either end nothing |
| Whitespace.BlankIff | src/textify/transcription/types.py:277-279 | a text collapses to nothing exactly if it is blank |
| Whitespace.JoinIsCollapsed | src/textify/transcription/types.py:241 | joining nonempty collapsed texts gives a collapsed text |
| Normalization.SortIsStable | src/textify/transcription/types.py:237 | the sort is a stable permutation by start |
| Normalization.StableSortIsUnique | src/textify/transcription/types.py:237 | whatever algorithm sorts stably, there is only one result |
| Normalization.NormalizeTranscript | src/textify/transcription/types.py:198-257 | the loop checks, collapses and collects the records, and raises the first error, as the specification does |
| Normalization.AcceptableIffNoError | src/textify/transcription/types.py:221-230 | no error is raised exactly if every raw segment passes the shape, time and text checks |
| Normalization.FirstFaultDecides | src/textify/transcription/types.py:219-231 | the first segment that fails decides between the error of type and that of value |
| Normalization.RecordsComeFromVisible | src/textify/transcription/types.py:219-236 | each segment with a visible text gives one record, in order, with its own times and its collapsed text |
| Normalization.TagOfTrimmed | src/textify/transcription/types.py:260-274 | a tag is what the standard makes of the trimmed text, and `und` for none, a blank or a refused one |
| Normalization.ConstructorsAccept | src/textify/transcription/types.py:135-175 | the transcript constructors accept sorted normalized records with a normalized tag |
| Normalization.NormalizationIsCanonical | src/textify/transcription/types.py:220-257 | a transcript results exactly from acceptable segments; it is their stable sort, its text is theirs joined and collapsed, its language the normalized tag or `und` without a visible segment, and the text-only form agrees with the timed one |
| Normalization.NormalizedIsDomainResult | src/textify/transcription/types.py:243-257 | a normalized transcript is timed exactly if segments were asked for, and meets what storage needs of its segments |
| TimeoutSearch.IsTimeoutException | src/textify/transcription/inspection.py:1249-1273 | the search ends on every finite graph of links, cycles included, and finds a timeout exactly if one is reachable |
| TimeoutSearch.ClosedSetHoldsPath | src/textify/transcription/inspection.py:1253-1273 | visited exceptions that are closed under links include everything reachable |
| TimeoutSearch.LinksAre | src/textify/transcription/inspection.py:1259-1271 | an exception links to its cause, context and reason, and a download error also to the nested one |
| Identifiers.MasksAreVersion4 | src/textify/jobs/repository.py:93-97 | the byte masks hold exactly for the UUIDs whose version is 4 |
| Identifiers.ParsePrint | src/textify/identifiers.py:22-26 | parsing a printed UUID gives it back |
| Identifiers.AcceptedIff | src/textify/identifiers.py:20-28 | a text is accepted, as one UUID, exactly if it is the print of a version 4 UUID |
| Identifiers.AcceptedFormIff | src/textify/identifiers.py:20-28 | a text is accepted exactly if it has the lowercase hyphenated form with version digit 4 and variant digit 8, 9, a or b |
| Identifiers.PayloadRoundTrip | src/textify/jobs/types.py:39-83 | the two payload functions are mutual inverses between deliverable dispatches and accepted payloads |

## Left out

What members state less than one might expect of them:

- DeletionIsUnobservable: whether a late record of a publication matched a row is not counted as an answer, because a deleted row can no longer match; apart from that the condition on reused identifiers is exact for keys (AnswersAgreeIff).
- ReconcileOnce: a store failure in the middle of a pass, which propagates to the caller, is not modelled; the leases it leaves behind are those that LeasesExclude bounds in time.
- Process: whether the claim manager admits the delivery, how execution ends, whether the stop signal was set by then and whether native work was retained are inputs, and retained native work is taken to end; cancellation of the coroutine itself is modelled during execution, not inside a publication or the wait for cleanup.
- InferencesAreBounded: is an upper bound, because a permit can be lost (LeaksIff, LeaksAreCounted).
- MediaIsRemovedOnce: removals are counted, not carried out; a file system that fails to delete is not modelled.
- Transcribe: starts at the granted permit; the waits before it, which change no object but the semaphore, are steps of the machine only. That any number of executions share one semaphore is RunKeepsWorld.
- FinalizeAbandonedNativeWork: joins the end of the finalizer and its done callback, which only drops it from the set; the machine has them as two steps.
- RunKeepsRegistry: is about suspension points of one event loop; what a waiter sees in between is WokenWithWorkIff.
- NormalizeTranscript: times are reals, and the language standard is a parameter that NormalizationIsCanonical assumes to be idempotent.
- ParsePrint: what Python's integer parser accepts beyond plain hexadecimal digits is a parameter; the theorems hold for every behaviour of it.
- CreateQueued: the capability, the attempt token and gaps of the id sequence are inputs, and that generated UUIDs do not repeat is not assumed: a repetition is refused by the unique constraints.

What the repository does that the model does not:

- Transactions are atomic steps. Interleavings of statements inside one transaction (READ COMMITTED, row locks, SKIP LOCKED) are not modelled; `expire_queued_jobs` and the lease transactions do not take the lifecycle lock, so atomicity is an assumption about them.
- SQL text, connection handling, the mapping of driver exceptions, row counts that a driver cannot tell and the checks of argument types (`_require_uuid4`, booleans passed as integers) are left out; nonpositive durations and limits are modelled as refused arguments.
- Integers and instants are unbounded; overflow of bigint ids or of timestamps is left out, and so are characters that PostgreSQL text cannot hold.
- The loop of `TranscriptionJobReconciler.run`, service heartbeats, readiness, process start and signal handling: waiting and retrying without a protocol of their own.
- HTTP routing, response schemas beyond the projection, logging other than the finished event, configuration and migrations other than the deferred trigger.
- Providers (yt-dlp, captions, faster-whisper), URL classification and metadata validation: nondeterministic outcomes or long case lists.
- GPU ownership locks and worker threads: they rest on guarantees of the operating system and of PostgreSQL sessions.
- Caption acquisition inside `execute` returns before an ownership exists; only its `finally` block is modelled (`FinishExecution`).

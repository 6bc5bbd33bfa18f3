/**
 What each transaction of the repository promises its callers: a relation between the store before, the
 answer and the store after, read off the columns of the tables. Each relation says in both directions
 when the transaction does its work, what the answer then shows, and what every row holds afterwards.
 None of them uses a guard, change or decision of module JobProtocol, whose transactions are proved to
 keep these promises.
 */
module JobContracts {
  import opened Options
  import opened TranscriptTypes
  import opened ResultRows
  import opened JobTypes
  import opened Ordering
  import opened JobProtocol
  import opened StoreInvariant
  import opened JobHistory

  // ---------------------------------------------------------------- rows

  predicate SameJobs(s: Store, next: Store) {
    s.nextId == next.nextId && s.rows.Keys == next.rows.Keys
  }

  predicate RowsStay(s: Store, next: Store) {
    SameJobs(s, next) && forall id | id in s.rows :: next.rows[id] == s.rows[id]
  }

  /** No row but that of the job differs. */
  predicate OthersStay(s: Store, next: Store, id: JobId) {
    SameJobs(s, next) && forall other | other in s.rows && other != id :: next.rows[other] == s.rows[other]
  }

  /** The order of `ORDER BY instant, id`. */
  predicate Sooner(at: Instant, id: JobId, otherAt: Instant, other: JobId) {
    at < otherAt || (at == otherAt && id < other)
  }

  /** Which decision belongs to which transaction. */
  lemma DecisionOf(policy: Policy, s: Store, now: Instant, op: Operation)
    ensures op.CreateQueued? ==> Decide(policy, s, now, op) == DecideCreate(policy, s, now, op)
    ensures op.ExpireQueuedJobs? ==> Decide(policy, s, now, op) == DecideExpire(s, now, op.limit)
    ensures op.LeaseDueDispatches? ==> Decide(policy, s, now, op) == DecideLease(s, now, op)
    ensures op.ClaimDispatch? ==> Decide(policy, s, now, op) == DecideClaim(s, now, op)
    ensures op.HeartbeatClaims? ==> Decide(policy, s, now, op) == DecideHeartbeat(s, now, op)
    ensures op.RecoverExpiredClaims? ==> Decide(policy, s, now, op) == DecideRecover(s, now, op.limit)
    ensures op.RequestCancellation? ==> Decide(policy, s, now, op) == DecideCancel(policy, s, now, op.publicId)
    ensures op.GetJob? ==> Decide(policy, s, now, op) == DecideGet(policy, s, now, op.publicId)
  {
  }

  // ---------------------------------------------------------------- claims

  /** Queued, not cancelled, and before its deadline. */
  predicate MayStart(job: Job, now: Instant) {
    job.status == Queued && !job.cancellationRequested && now < job.queueDeadlineAt
  }

  /** Queued, not cancelled, and its deadline has been reached. */
  predicate TimesOut(job: Job, now: Instant) {
    job.status == Queued && !job.cancellationRequested && job.queueDeadlineAt <= now
  }

  function TimedOut(row: Row, now: Instant): Row {
    row.(job := row.job.(
      status := Finished, outcome := Some(Failed), finishedAt := Some(now),
      errorCode := Some(QueueTimeout), errorMessage := Some(QUEUE_TIMEOUT_MESSAGE)))
  }

  /** First in (submitted_at, id) of the jobs that may start. */
  predicate IsNext(rows: Rows, id: JobId, now: Instant) {
    && id in rows && MayStart(rows[id].job, now)
    && forall other | other in rows && other != id && MayStart(rows[other].job, now) ::
         Sooner(rows[id].job.submittedAt, id, rows[other].job.submittedAt, other)
  }

  predicate IsStored(rows: Rows, dispatch: JobDispatch) {
    && dispatch.internalJobId in rows
    && rows[dispatch.internalJobId].attempt.token == dispatch.executionAttemptToken
  }

  /**
   A delivery is claimed exactly if its job is stored with that token and is the next one. The answer
   then carries its private inputs, and the row is processing under the worker's claim. Otherwise
   nothing changes, except that a delivery that comes after the deadline times its job out.
   */
  predicate ClaimPromise(
    s: Store, now: Instant, dispatch: JobDispatch, workerOwner: Uuid, duration: int, answer: Answer, next: Store)
  {
    var id := dispatch.internalJobId;
    && OthersStay(s, next, id)
    && (answer.Claimed? <==> IsStored(s.rows, dispatch) && IsNext(s.rows, id, now))
    && (answer.Claimed? ==>
          && answer.claimed ==
               ClaimedJob(ExecutionClaim(dispatch, workerOwner), s.rows[id].job.submittedUrl, s.rows[id].exclusions)
          && next.rows[id] == s.rows[id].(
               job := s.rows[id].job.(status := Processing, startedAt := Some(now)),
               attempt := s.rows[id].attempt.(
                 workerOwner := Some(workerOwner),
                 lastHeartbeatAt := Some(now),
                 claimLeaseExpiresAt := Some(now + duration))))
    && (!answer.Claimed? ==>
          && answer == NotClaimed
          && (id in s.rows ==>
                next.rows[id] ==
                  if IsStored(s.rows, dispatch) && TimesOut(s.rows[id].job, now)
                  then TimedOut(s.rows[id], now) else s.rows[id]))
  }

  lemma EarliestIsNext(s: Store, now: Instant, id: JobId)
    ensures IsEarliest(EligibleStamps(s.rows, now), id) <==> IsNext(s.rows, id, now)
  {
    var stamps := EligibleStamps(s.rows, now);
    forall other ensures other in stamps <==> other in s.rows && MayStart(s.rows[other].job, now) {
    }
    assert forall other | other in stamps :: stamps[other] == s.rows[other].job.submittedAt;
    hide EligibleStamps;
    hide MayStart;
  }

  lemma ClaimDecided(policy: Policy, s: Store, now: Instant, op: Operation)
    requires op.ClaimDispatch? && op.duration > 0
    requires var id := op.dispatch.internalJobId; id in s.rows ==> RowInvariant(policy, s.rows[id], now)
    ensures var decision := DecideClaim(s, now, op);
      ClaimPromise(
        s, now, op.dispatch, op.workerOwner, op.duration, decision.answer, Perform(s, decision.effect, now))
  {
    var id := op.dispatch.internalJobId;
    EarliestIsNext(s, now, id);
    assert IsNext(s.rows, id, now) ==> id in s.rows && MayStart(s.rows[id].job, now);
    assert IsNext(s.rows, id, now) ==> s.rows[id].attempt.workerOwner.None? && s.rows[id].job.submittedUrl != "";
    hide RowInvariant;
    hide EligibleStamps;
    hide IsEarliest;
    hide IsNext;
  }

  lemma ClaimContract(
    policy: Policy, s: Store, now: Instant, dispatch: JobDispatch, workerOwner: Uuid, duration: int)
    requires Invariant(policy, s, now) && duration > 0
    ensures var op := Operation.ClaimDispatch(dispatch, workerOwner, duration);
      ClaimPromise(s, now, dispatch, workerOwner, duration, AnswerTo(policy, s, now, op), Next(policy, s, now, op))
  {
    hide Decide;
    hide ClaimPromise;
    hide Perform;
    hide DecideClaim;
    hide RowInvariant;
    var op := Operation.ClaimDispatch(dispatch, workerOwner, duration);
    DecisionOf(policy, s, now, op);
    ClaimDecided(policy, s, now, op);
  }

  // ---------------------------------------------------------------- publication

  /** May start, is due, and no reconciler's lease is running. */
  predicate MayBeLeased(row: Row, now: Instant) {
    && MayStart(row.job, now)
    && row.attempt.nextDispatchAt <= now
    && (row.attempt.leaseExpiresAt == None || row.attempt.leaseExpiresAt.value <= now)
  }

  /** The jobs that a lease call takes before this one. */
  function LeasedBefore(rows: Rows, id: JobId, now: Instant): set<JobId>
    requires id in rows
  {
    set other | other in rows && MayBeLeased(rows[other], now)
                && Sooner(rows[other].job.submittedAt, other, rows[id].job.submittedAt, id)
  }

  predicate GetsLeased(rows: Rows, id: JobId, now: Instant, limit: int) {
    id in rows && MayBeLeased(rows[id], now) && |LeasedBefore(rows, id, now)| < limit
  }

  predicate InSubmissionOrder(rows: Rows, leased: seq<JobDispatch>) {
    forall i, j | 0 <= i < j < |leased| ::
      && IsStored(rows, leased[i]) && IsStored(rows, leased[j])
      && Sooner(rows[leased[i].internalJobId].job.submittedAt, leased[i].internalJobId,
                rows[leased[j].internalJobId].job.submittedAt, leased[j].internalJobId)
  }

  /** The dispatches are those of the jobs that get leased, in order of submission. */
  predicate AreLeased(rows: Rows, now: Instant, limit: int, leased: seq<JobDispatch>) {
    && (forall dispatch | dispatch in leased ::
          IsStored(rows, dispatch) && GetsLeased(rows, dispatch.internalJobId, now, limit))
    && (forall id | id in rows && GetsLeased(rows, id, now, limit) ::
          JobDispatch(id, rows[id].attempt.token) in leased)
    && InSubmissionOrder(rows, leased)
  }

  /**
   A lease call returns a dispatch exactly if its job may start, the attempt is due, no lease is running
   on it, and fewer than `limit` such jobs come before it; in order of submission. Exactly the returned
   attempts are leased to the caller.
   */
  predicate LeasePromise(
    s: Store, now: Instant, leaseOwner: Uuid, duration: int, limit: int, answer: Answer, next: Store)
  {
    && answer.Leased? && AreLeased(s.rows, now, limit, answer.leased)
    && SameJobs(s, next)
    && forall id | id in s.rows ::
         next.rows[id] ==
           if GetsLeased(s.rows, id, now, limit)
           then s.rows[id].(attempt := s.rows[id].attempt.(
                  leaseOwner := Some(leaseOwner), leaseExpiresAt := Some(now + duration)))
           else s.rows[id]
  }

  lemma {:induction false} DispatchesAt(rows: Rows, ids: seq<JobId>)
    requires forall id | id in ids :: id in rows
    ensures |DispatchesOf(rows, ids)| == |ids|
    ensures forall i | 0 <= i < |ids| :: DispatchesOf(rows, ids)[i] == DispatchOf(rows, ids[i])
  {
    if ids != [] {
      DispatchesAt(rows, ids[..|ids| - 1]);
    }
  }

  /** The dispatches of distinct stored jobs are those with their tokens, in the order of the jobs. */
  lemma DispatchesAreOf(rows: Rows, ids: seq<JobId>)
    requires forall id | id in ids :: id in rows
    ensures var leased := DispatchesOf(rows, ids);
      && (forall dispatch | dispatch in leased :: dispatch.internalJobId in ids && IsStored(rows, dispatch))
      && (forall id | id in ids :: JobDispatch(id, rows[id].attempt.token) in leased)
      && |leased| == |ids| && forall i | 0 <= i < |ids| :: leased[i].internalJobId == ids[i]
  {
    DispatchesAt(rows, ids);
    hide DispatchesOf;
    var leased := DispatchesOf(rows, ids);
    forall id | id in ids ensures JobDispatch(id, rows[id].attempt.token) in leased {
      var i :| 0 <= i < |ids| && ids[i] == id;
      assert leased[i] == DispatchOf(rows, id);
    }
  }

  lemma DueStampsAre(policy: Policy, s: Store, now: Instant)
    requires RowsInvariant(policy, s.rows, now)
    ensures forall id :: id in DueStamps(s.rows, now) <==> id in s.rows && MayBeLeased(s.rows[id], now)
    ensures forall id | id in DueStamps(s.rows, now) :: DueStamps(s.rows, now)[id] == s.rows[id].job.submittedAt
  {
    assert forall id | id in s.rows :: RowInvariant(policy, s.rows[id], now);
  }

  lemma LeasedBeforeIs(policy: Policy, s: Store, now: Instant, id: JobId)
    requires RowsInvariant(policy, s.rows, now) && id in DueStamps(s.rows, now)
    ensures id in s.rows && Predecessors(DueStamps(s.rows, now), id) == LeasedBefore(s.rows, id, now)
  {
    DueStampsAre(policy, s, now);
    hide RowsInvariant;
    hide DueStamps;
    hide MayBeLeased;
  }

  lemma LeaseBatch(policy: Policy, s: Store, now: Instant, limit: int)
    requires RowsInvariant(policy, s.rows, now) && limit > 0
    ensures var batch := Batch(DueStamps(s.rows, now), limit);
      && (forall id :: id in batch <==> GetsLeased(s.rows, id, now, limit))
      && (forall i, j | 0 <= i < j < |batch| ::
            && batch[i] in s.rows && batch[j] in s.rows
            && Sooner(s.rows[batch[i]].job.submittedAt, batch[i], s.rows[batch[j]].job.submittedAt, batch[j]))
  {
    var stamps := DueStamps(s.rows, now);
    DueStampsAre(policy, s, now);
    BatchMembers(stamps, limit);
    BatchIsEarliest(stamps, limit);
    hide RowsInvariant;
    hide DueStamps;
    hide MayBeLeased;
    hide Batch;
    hide LeasedBefore;
    forall id | id in stamps
      ensures id in Batch(stamps, limit) <==> |LeasedBefore(s.rows, id, now)| < limit
    {
      BatchIff(stamps, limit, id);
      LeasedBeforeIs(policy, s, now, id);
    }
    assert forall i, j | 0 <= i < j < |Batch(stamps, limit)| ::
      Before(stamps, Batch(stamps, limit)[i], Batch(stamps, limit)[j]);
  }

  /** Dispatches of jobs in order of submission are in that order. */
  lemma DispatchesInOrder(rows: Rows, ids: seq<JobId>)
    requires forall id | id in ids :: id in rows
    requires forall i, j | 0 <= i < j < |ids| ::
      && ids[i] in rows && ids[j] in rows
      && Sooner(rows[ids[i]].job.submittedAt, ids[i], rows[ids[j]].job.submittedAt, ids[j])
    ensures InSubmissionOrder(rows, DispatchesOf(rows, ids))
  {
    hide Sooner;
    DispatchesAt(rows, ids);
    hide DispatchesOf;
    var leased := DispatchesOf(rows, ids);
    forall i, j | 0 <= i < j < |leased|
      ensures leased[i] == DispatchOf(rows, ids[i]) && leased[j] == DispatchOf(rows, ids[j])
      ensures Sooner(rows[ids[i]].job.submittedAt, ids[i], rows[ids[j]].job.submittedAt, ids[j])
    {
    }
  }

  lemma BatchIsLeased(policy: Policy, s: Store, now: Instant, limit: int, batch: seq<JobId>)
    requires RowsInvariant(policy, s.rows, now) && limit > 0
    requires batch == Batch(DueStamps(s.rows, now), limit)
    ensures forall id :: id in batch <==> GetsLeased(s.rows, id, now, limit)
    ensures forall id | id in batch :: id in s.rows
    ensures AreLeased(s.rows, now, limit, DispatchesOf(s.rows, batch))
  {
    LeaseBatch(policy, s, now, limit);
    assert forall id | id in batch :: id in s.rows;
    hide RowsInvariant;
    hide Batch;
    hide DueStamps;
    hide GetsLeased;
    DispatchesInOrder(s.rows, batch);
    hide Sooner;
    hide InSubmissionOrder;
    DispatchesAreOf(s.rows, batch);
    hide DispatchesOf;
  }

  lemma LeaseDecided(policy: Policy, s: Store, now: Instant, op: Operation)
    requires RowsInvariant(policy, s.rows, now) && op.LeaseDueDispatches? && op.duration > 0 && op.limit > 0
    ensures var decision := DecideLease(s, now, op);
      LeasePromise(
        s, now, op.leaseOwner, op.duration, op.limit, decision.answer, Perform(s, decision.effect, now))
  {
    hide RowsInvariant;
    hide AreLeased;
    hide GetsLeased;
    hide Batch;
    hide DueStamps;
    hide DispatchesOf;
    BatchIsLeased(policy, s, now, op.limit, Batch(DueStamps(s.rows, now), op.limit));
  }

  lemma LeaseContract(policy: Policy, s: Store, now: Instant, leaseOwner: Uuid, duration: int, limit: int)
    requires Invariant(policy, s, now) && duration > 0 && limit > 0
    ensures var op := Operation.LeaseDueDispatches(leaseOwner, duration, limit);
      LeasePromise(s, now, leaseOwner, duration, limit, AnswerTo(policy, s, now, op), Next(policy, s, now, op))
  {
    hide Decide;
    hide LeasePromise;
    hide Perform;
    hide DecideLease;
    var op := Operation.LeaseDueDispatches(leaseOwner, duration, limit);
    DecisionOf(policy, s, now, op);
    LeaseDecided(policy, s, now, op);
  }

  /** A record is matched exactly by the owner of the attempt's lease; the next dispatch is then delayed. */
  predicate RecordPromise(
    s: Store, now: Instant, dispatch: JobDispatch, leaseOwner: Uuid, redispatchAfter: int, answer: Answer,
    next: Store)
  {
    var id := dispatch.internalJobId;
    var isMatched := IsStored(s.rows, dispatch) && s.rows[id].attempt.leaseOwner == Some(leaseOwner);
    && answer == Recorded(isMatched)
    && OthersStay(s, next, id)
    && (id in s.rows ==>
          next.rows[id] ==
            if isMatched
            then s.rows[id].(attempt := s.rows[id].attempt.(
                   leaseOwner := None, leaseExpiresAt := None,
                   nextDispatchAt := now + redispatchAfter, lastDispatchedAt := Some(now),
                   dispatchCount := s.rows[id].attempt.dispatchCount + 1))
            else s.rows[id])
  }

  lemma RecordContract(
    policy: Policy, s: Store, now: Instant, dispatch: JobDispatch, leaseOwner: Uuid, redispatchAfter: int)
    requires redispatchAfter > 0
    ensures var op := Operation.RecordDispatchPublished(dispatch, leaseOwner, redispatchAfter);
      RecordPromise(
        s, now, dispatch, leaseOwner, redispatchAfter, AnswerTo(policy, s, now, op), Next(policy, s, now, op))
  {
  }

  /** A release frees exactly the listed attempts that are leased to the caller. */
  predicate ReleasePromise(
    s: Store, dispatches: seq<JobDispatch>, leaseOwner: Uuid, answer: Answer, next: Store)
  {
    && answer == Done
    && SameJobs(s, next)
    && forall id | id in s.rows ::
         next.rows[id] ==
           if (s.rows[id].attempt.leaseOwner == Some(leaseOwner)
               && JobDispatch(id, s.rows[id].attempt.token) in dispatches)
           then s.rows[id].(attempt := s.rows[id].attempt.(leaseOwner := None, leaseExpiresAt := None))
           else s.rows[id]
  }

  lemma ReleaseContract(policy: Policy, s: Store, now: Instant, dispatches: seq<JobDispatch>, leaseOwner: Uuid)
    ensures var op := Operation.ReleaseDispatchLeases(dispatches, leaseOwner);
      ReleasePromise(s, dispatches, leaseOwner, AnswerTo(policy, s, now, op), Next(policy, s, now, op))
  {
  }

  // ---------------------------------------------------------------- admission

  predicate SharesKey(rows: Rows, id: JobId, key: Uuid) {
    id in rows && rows[id].key == key
  }

  /** The request is well formed, and neither of its identifiers is in use. */
  predicate MayBeInserted(rows: Rows, op: Operation)
    requires op.CreateQueued?
  {
    && 1 <= |op.submittedUrl| <= 2048
    && (forall i, j | 0 <= i < j < |op.exclusions| :: op.exclusions[i] != op.exclusions[j])
    && (forall id | id in rows :: rows[id].job.publicId != op.publicId && rows[id].attempt.token != op.token)
  }

  function Unfinished(rows: Rows): set<JobId> {
    set id | id in rows && rows[id].job.status != Finished
  }

  /** A job as it is admitted: due at once, never dispatched, and without an owner. */
  function AdmittedRow(policy: Policy, now: Instant, op: Operation): Row
    requires op.CreateQueued?
  {
    Row(
      job := Job(
        publicId := op.publicId, submittedUrl := op.submittedUrl, status := Queued, outcome := None,
        submittedAt := now, queueDeadlineAt := now + policy.queueTimeout, startedAt := None, finishedAt := None,
        cancellationRequested := false, errorCode := None, errorMessage := None),
      attempt := Attempt(
        token := op.token, nextDispatchAt := now, leaseOwner := None, leaseExpiresAt := None,
        lastDispatchedAt := None, dispatchCount := 0, workerOwner := None, lastHeartbeatAt := None,
        claimLeaseExpiresAt := None),
      key := op.key, exclusions := (set path | path in op.exclusions), result := None)
  }

  /**
   Under a key that is held: replay of the same request, conflict for another one, and no change. Under a
   fresh key: "capacity exceeded" exactly if there are as many unfinished jobs as the maximum, and
   otherwise one new queued job exactly if the request may be inserted.
   */
  ghost predicate AdmissionPromise(
    policy: Policy, s: Store, now: Instant, op: Operation, answer: Answer, next: Store)
    requires op.CreateQueued?
  {
    && (forall id | SharesKey(s.rows, id, op.key) ::
          var job := s.rows[id].job;
          && RowsStay(s, next)
          && answer ==
               if job.submittedUrl == op.submittedUrl && s.rows[id].exclusions == (set path | path in op.exclusions)
               then Accepted(QueuedJob(id, job.publicId, job.submittedAt, job.queueDeadlineAt))
               else IdempotencyConflict)
    && ((forall id :: !SharesKey(s.rows, id, op.key)) ==>
          && (answer == CapacityExceeded <==> |Unfinished(s.rows)| >= policy.maximumOutstandingJobs)
          && (answer.Accepted? <==>
                |Unfinished(s.rows)| < policy.maximumOutstandingJobs && MayBeInserted(s.rows, op))
          && (answer.Accepted? ==>
                var id := s.nextId + op.sequenceGap;
                && answer == Accepted(QueuedJob(id, op.publicId, now, now + policy.queueTimeout))
                && next == Store(s.rows[id := AdmittedRow(policy, now, op)], id + 1))
          && (!answer.Accepted? ==> RowsStay(s, next))
          && (answer == CapacityExceeded || answer.Accepted? || answer == StoreUnavailable))
  }

  lemma MayBeInsertedIff(rows: Rows, op: Operation)
    requires op.CreateQueued?
    ensures MayBeInserted(rows, op) <==>
      && UrlLengthCheck(op.submittedUrl) && !HasDuplicates(op.exclusions)
      && !CollidesWith(rows, op.publicId, op.token)
  {
  }

  lemma OneKey(policy: Policy, s: Store, now: Instant, key: Uuid, id: JobId)
    requires Invariant(policy, s, now) && SharesKey(s.rows, id, key)
    ensures HoldsKey(s.rows, id, key)
    ensures forall other | HoldsKey(s.rows, other, key) || SharesKey(s.rows, other, key) :: other == id
  {
    assert Unique(s.rows);
    hide RowsInvariant;
    hide IdsInOrder;
  }

  lemma FreshAdmission(policy: Policy, s: Store, now: Instant, op: Operation)
    requires op.CreateQueued? && forall id :: !SharesKey(s.rows, id, op.key)
    ensures var decision := DecideCreate(policy, s, now, op);
      AdmissionPromise(policy, s, now, op, decision.answer, Perform(s, decision.effect, now))
  {
    assert forall id | HoldsKey(s.rows, id, op.key) :: SharesKey(s.rows, id, op.key);
    assert Unfinished(s.rows) == Outstanding(s.rows);
    MayBeInsertedIff(s.rows, op);
    hide MayBeInserted;
    hide UrlLengthCheck;
    hide HasDuplicates;
    hide CollidesWith;
    assert NewRow(policy, now, op) == AdmittedRow(policy, now, op);
    hide NewRow;
    hide AdmittedRow;
  }

  lemma AdmissionContract(policy: Policy, s: Store, now: Instant, op: Operation)
    requires Invariant(policy, s, now) && op.CreateQueued?
    ensures AdmissionPromise(policy, s, now, op, AnswerTo(policy, s, now, op), Next(policy, s, now, op))
  {
    hide Decide;
    DecisionOf(policy, s, now, op);
    if id :| SharesKey(s.rows, id, op.key) {
      OneKey(policy, s, now, op.key, id);
      hide Invariant;
    } else {
      FreshAdmission(policy, s, now, op);
      hide DecideCreate;
      hide Perform;
      hide AdmissionPromise;
    }
  }

  // ---------------------------------------------------------------- drains

  /** The jobs that a queue expiry takes before this one. */
  function TimedOutBefore(rows: Rows, id: JobId, now: Instant): set<JobId>
    requires id in rows
  {
    set other | other in rows && TimesOut(rows[other].job, now)
                && Sooner(rows[other].job.queueDeadlineAt, other, rows[id].job.queueDeadlineAt, id)
  }

  predicate GetsTimedOut(rows: Rows, id: JobId, now: Instant, limit: int) {
    id in rows && TimesOut(rows[id].job, now) && |TimedOutBefore(rows, id, now)| < limit
  }

  function ToTimeOut(rows: Rows, now: Instant, limit: int): set<JobId> {
    set id | id in rows && GetsTimedOut(rows, id, now, limit)
  }

  /** Queue expiry fails exactly the first `limit` jobs by deadline whose deadline has been reached. */
  predicate ExpiryPromise(s: Store, now: Instant, limit: int, answer: Answer, next: Store) {
    && answer == Counted(|ToTimeOut(s.rows, now, limit)|)
    && SameJobs(s, next)
    && forall id | id in s.rows ::
         next.rows[id] == if GetsTimedOut(s.rows, id, now, limit) then TimedOut(s.rows[id], now) else s.rows[id]
  }

  lemma ExpiryBatch(s: Store, now: Instant, limit: int)
    requires limit > 0
    ensures Ids(Batch(OverdueStamps(s.rows, now), limit)) == ToTimeOut(s.rows, now, limit)
  {
    var stamps := OverdueStamps(s.rows, now);
    assert forall id :: id in stamps <==> id in s.rows && TimesOut(s.rows[id].job, now);
    assert forall id | id in stamps :: stamps[id] == s.rows[id].job.queueDeadlineAt;
    hide OverdueStamps;
    hide TimesOut;
    BatchMembers(stamps, limit);
    hide Batch;
    forall id | id in stamps
      ensures id in Batch(stamps, limit) <==> |TimedOutBefore(s.rows, id, now)| < limit
    {
      BatchIff(stamps, limit, id);
      assert Predecessors(stamps, id) == TimedOutBefore(s.rows, id, now);
    }
    hide TimedOutBefore;
    forall id ensures id in Ids(Batch(stamps, limit)) <==> id in ToTimeOut(s.rows, now, limit) {
    }
  }

  lemma ExpiryContract(policy: Policy, s: Store, now: Instant, limit: int)
    requires limit > 0
    ensures var op := Operation.ExpireQueuedJobs(limit);
      ExpiryPromise(s, now, limit, AnswerTo(policy, s, now, op), Next(policy, s, now, op))
  {
    hide Decide;
    DecisionOf(policy, s, now, Operation.ExpireQueuedJobs(limit));
    ExpiryBatch(s, now, limit);
    hide Batch;
    hide OverdueStamps;
    hide GetsTimedOut;
  }

  /** Processing under a claim whose lease has run out. */
  predicate LostItsWorker(row: Row, now: Instant) {
    && row.job.status == Processing
    && row.attempt.claimLeaseExpiresAt.Some? && row.attempt.claimLeaseExpiresAt.value <= now
  }

  /** The jobs that a recovery takes before this one. */
  function RecoveredBefore(rows: Rows, id: JobId, now: Instant): set<JobId>
    requires id in rows && rows[id].attempt.claimLeaseExpiresAt.Some?
  {
    set other | other in rows && LostItsWorker(rows[other], now)
                && Sooner(rows[other].attempt.claimLeaseExpiresAt.value, other,
                          rows[id].attempt.claimLeaseExpiresAt.value, id)
  }

  predicate GetsRecovered(rows: Rows, id: JobId, now: Instant, limit: int) {
    id in rows && LostItsWorker(rows[id], now) && |RecoveredBefore(rows, id, now)| < limit
  }

  function ToRecover(rows: Rows, now: Instant, limit: int): set<JobId> {
    set id | id in rows && GetsRecovered(rows, id, now, limit)
  }

  /** Finished as cancelled if that was requested, otherwise failed as interrupted; without its claim. */
  function Recovered(row: Row, now: Instant): Row {
    var attempt := row.attempt.(workerOwner := None, lastHeartbeatAt := None, claimLeaseExpiresAt := None);
    if row.job.cancellationRequested then
      row.(attempt := attempt,
           job := row.job.(status := Finished, outcome := Some(Cancelled), finishedAt := Some(now)))
    else
      row.(attempt := attempt,
           job := row.job.(
             status := Finished, outcome := Some(Failed), finishedAt := Some(now),
             errorCode := Some(WorkerInterrupted), errorMessage := Some(WORKER_INTERRUPTED_MESSAGE)))
  }

  /** Recovery finishes exactly the first `limit` jobs by claim lease whose lease has run out. */
  predicate RecoveryPromise(s: Store, now: Instant, limit: int, answer: Answer, next: Store) {
    && answer == Counted(|ToRecover(s.rows, now, limit)|)
    && SameJobs(s, next)
    && forall id | id in s.rows ::
         next.rows[id] == if GetsRecovered(s.rows, id, now, limit) then Recovered(s.rows[id], now) else s.rows[id]
  }

  lemma RecoveryBatch(s: Store, now: Instant, limit: int)
    requires limit > 0
    ensures Ids(Batch(AbandonedStamps(s.rows, now), limit)) == ToRecover(s.rows, now, limit)
  {
    var stamps := AbandonedStamps(s.rows, now);
    assert forall id :: id in stamps <==> id in s.rows && LostItsWorker(s.rows[id], now);
    assert forall id | id in stamps ::
      s.rows[id].attempt.claimLeaseExpiresAt.Some? && stamps[id] == s.rows[id].attempt.claimLeaseExpiresAt.value;
    hide AbandonedStamps;
    hide LostItsWorker;
    BatchMembers(stamps, limit);
    hide Batch;
    forall id | id in stamps
      ensures id in Batch(stamps, limit) <==> |RecoveredBefore(s.rows, id, now)| < limit
    {
      BatchIff(stamps, limit, id);
      assert Predecessors(stamps, id) == RecoveredBefore(s.rows, id, now);
    }
    hide RecoveredBefore;
    forall id ensures id in Ids(Batch(stamps, limit)) <==> id in ToRecover(s.rows, now, limit) {
    }
  }

  lemma RecoveredRow(row: Row, now: Instant)
    ensures Changed(row, RecoverClaim, now) == Recovered(row, now)
  {
  }

  lemma RecoveryContract(policy: Policy, s: Store, now: Instant, limit: int)
    requires limit > 0
    ensures var op := Operation.RecoverExpiredClaims(limit);
      RecoveryPromise(s, now, limit, AnswerTo(policy, s, now, op), Next(policy, s, now, op))
  {
    hide Decide;
    DecisionOf(policy, s, now, Operation.RecoverExpiredClaims(limit));
    RecoveryBatch(s, now, limit);
    hide Batch;
    hide AbandonedStamps;
    hide GetsRecovered;
    forall id | id in s.rows ensures Changed(s.rows[id], RecoverClaim, now) == Recovered(s.rows[id], now) {
      RecoveredRow(s.rows[id], now);
    }
    hide Changed;
    hide Recovered;
  }

  // ---------------------------------------------------------------- live claims

  /** The claim is the stored one of a processing job, and its lease is running. */
  predicate HoldsClaim(rows: Rows, claim: ExecutionClaim, now: Instant) {
    var id := claim.dispatch.internalJobId;
    && IsStored(rows, claim.dispatch)
    && rows[id].job.status == Processing
    && rows[id].attempt.workerOwner == Some(claim.workerOwner)
    && rows[id].attempt.claimLeaseExpiresAt.Some? && now < rows[id].attempt.claimLeaseExpiresAt.value
  }

  /** The held claims of a batch in its order, each with its durable cancellation flag. */
  function HeldClaims(rows: Rows, claims: seq<ExecutionClaim>, now: Instant): seq<ClaimHeartbeat> {
    if claims == [] then []
    else
      var last := claims[|claims| - 1];
      HeldClaims(rows, claims[..|claims| - 1], now)
      + if HoldsClaim(rows, last, now)
        then [ClaimHeartbeat(last, rows[last.dispatch.internalJobId].job.cancellationRequested)] else []
  }

  /** A heartbeat renews exactly the held claims of its batch, and reports them with their flags. */
  predicate RenewalPromise(
    s: Store, now: Instant, claims: seq<ExecutionClaim>, duration: int, answer: Answer, next: Store)
  {
    && answer == Renewed(HeldClaims(s.rows, claims, now))
    && SameJobs(s, next)
    && forall id | id in s.rows ::
         next.rows[id] ==
           if exists claim :: claim in claims && claim.dispatch.internalJobId == id && HoldsClaim(s.rows, claim, now)
           then s.rows[id].(attempt := s.rows[id].attempt.(
                  lastHeartbeatAt := Some(now), claimLeaseExpiresAt := Some(now + duration)))
           else s.rows[id]
  }

  lemma {:induction false} HeartbeatsAppend(rows: Rows, claims: seq<ExecutionClaim>, last: ExecutionClaim, now: Instant)
    ensures Heartbeats(rows, claims + [last], now) == Heartbeats(rows, claims, now) + Heartbeats(rows, [last], now)
  {
    if claims == [] {
      assert claims + [last] == [last];
    } else {
      assert (claims + [last])[1..] == claims[1..] + [last];
      HeartbeatsAppend(rows, claims[1..], last, now);
    }
  }

  lemma {:induction false} HeartbeatsAreHeld(rows: Rows, claims: seq<ExecutionClaim>, now: Instant)
    ensures Heartbeats(rows, claims, now) == HeldClaims(rows, claims, now)
  {
    if claims != [] {
      var rest, last := claims[..|claims| - 1], claims[|claims| - 1];
      HeartbeatsAreHeld(rows, rest, now);
      HeartbeatsAppend(rows, rest, last, now);
      assert claims == rest + [last];
    }
  }

  lemma RenewalContract(policy: Policy, s: Store, now: Instant, claims: seq<ExecutionClaim>, duration: int)
    requires duration > 0
    ensures var op := Operation.HeartbeatClaims(claims, duration);
      RenewalPromise(s, now, claims, duration, AnswerTo(policy, s, now, op), Next(policy, s, now, op))
  {
    hide Decide;
    DecisionOf(policy, s, now, Operation.HeartbeatClaims(claims, duration));
    HeartbeatsAreHeld(s.rows, claims, now);
    hide Heartbeats;
    hide HeldClaims;
    forall id
      ensures id in RenewedJobs(s.rows, claims, now) <==>
        exists claim :: claim in claims && claim.dispatch.internalJobId == id && HoldsClaim(s.rows, claim, now)
    {
      assert forall claim :: HoldsClaim(s.rows, claim, now) <==> Renewable(s.rows, claim, now);
    }
    hide RenewedJobs;
  }

  // ---------------------------------------------------------------- terminal publication

  /** The claim is held, and cancellation has been requested or not as the publication needs it. */
  predicate MayFinish(rows: Rows, claim: ExecutionClaim, isCancelled: bool, now: Instant) {
    HoldsClaim(rows, claim, now) && rows[claim.dispatch.internalJobId].job.cancellationRequested == isCancelled
  }

  function Unclaimed(attempt: Attempt): Attempt {
    attempt.(workerOwner := None, lastHeartbeatAt := None, claimLeaseExpiresAt := None)
  }

  /** The job of the claim becomes this one exactly if the answer says that the publication committed. */
  predicate Publishes(s: Store, claim: ExecutionClaim, answer: Answer, next: Store, finished: Row) {
    var id := claim.dispatch.internalJobId;
    && OthersStay(s, next, id)
    && (id in s.rows ==> next.rows[id] == if answer == Published(true) then finished else s.rows[id])
  }

  predicate PublishCancelledPromise(s: Store, now: Instant, claim: ExecutionClaim, answer: Answer, next: Store) {
    && answer == Published(MayFinish(s.rows, claim, true, now))
    && (IsStored(s.rows, claim.dispatch) ==>
          var row := s.rows[claim.dispatch.internalJobId];
          Publishes(s, claim, answer, next, row.(
            attempt := Unclaimed(row.attempt),
            job := row.job.(status := Finished, outcome := Some(Cancelled), finishedAt := Some(now)))))
    && (!IsStored(s.rows, claim.dispatch) ==> RowsStay(s, next))
  }

  lemma PublishCancelledContract(policy: Policy, s: Store, now: Instant, claim: ExecutionClaim)
    ensures var op := Operation.PublishCancelled(claim);
      PublishCancelledPromise(s, now, claim, AnswerTo(policy, s, now, op), Next(policy, s, now, op))
  {
  }

  /** A failure with a message is published exactly for a held claim without a cancellation. */
  predicate PublishFailurePromise(
    s: Store, now: Instant, claim: ExecutionClaim, code: ErrorCode, message: string, answer: Answer, next: Store)
  {
    && answer ==
         (if message == "" then StoreUnavailable
          else if !MayFinish(s.rows, claim, false, now) then Published(false)
          else if code == IdempotencyConflictCode then StoreUnavailable
          else Published(true))
    && (IsStored(s.rows, claim.dispatch) ==>
          var row := s.rows[claim.dispatch.internalJobId];
          Publishes(s, claim, answer, next, row.(
            attempt := Unclaimed(row.attempt),
            job := row.job.(
              status := Finished, outcome := Some(Failed), finishedAt := Some(now),
              errorCode := Some(code), errorMessage := Some(message)))))
    && (!IsStored(s.rows, claim.dispatch) ==> RowsStay(s, next))
  }

  lemma PublishFailureContract(
    policy: Policy, s: Store, now: Instant, claim: ExecutionClaim, code: ErrorCode, message: string)
    ensures var op := Operation.PublishFailure(claim, code, message);
      PublishFailurePromise(s, now, claim, code, message, AnswerTo(policy, s, now, op), Next(policy, s, now, op))
  {
  }

  /** A valid response that the database accepts is published exactly for a held claim without a cancellation. */
  predicate PublishSuccessPromise(
    s: Store, now: Instant, claim: ExecutionClaim, response: TranscriptionResponse, answer: Answer, next: Store)
  {
    && answer ==
         (if !IsValidResponse(response) then StoreUnavailable
          else if !MayFinish(s.rows, claim, false, now) then Published(false)
          else if !ResultAccepted(Stored(response), s.rows[claim.dispatch.internalJobId].exclusions)
          then StoreUnavailable
          else Published(true))
    && (IsStored(s.rows, claim.dispatch) ==>
          var row := s.rows[claim.dispatch.internalJobId];
          Publishes(s, claim, answer, next, row.(
            attempt := Unclaimed(row.attempt),
            job := row.job.(status := Finished, outcome := Some(Succeeded), finishedAt := Some(now)),
            result := Some(Stored(response)))))
    && (!IsStored(s.rows, claim.dispatch) ==> RowsStay(s, next))
  }

  lemma PublishSuccessContract(
    policy: Policy, s: Store, now: Instant, claim: ExecutionClaim, response: TranscriptionResponse)
    ensures var op := Operation.PublishSuccess(claim, response);
      PublishSuccessPromise(s, now, claim, response, AnswerTo(policy, s, now, op), Next(policy, s, now, op))
  {
    hide IsValidResponse;
    hide ResultAccepted;
    hide Stored;
  }

  // ---------------------------------------------------------------- callers

  /** Finished at least the retention time ago. */
  predicate IsOutOfRetention(policy: Policy, job: Job, now: Instant) {
    job.status == Finished && job.finishedAt.Some? && job.finishedAt.value + policy.terminalRetention <= now
  }

  /** The snapshot is of the kind that the columns call for, and shows them. */
  predicate Shows(snapshot: Snapshot, id: JobId, row: Row) {
    var job := row.job;
    && snapshot.publicId == job.publicId && snapshot.submittedAt == job.submittedAt
    && match snapshot
       case QueuedJob(shown, _, _, deadline) =>
         job.status == Queued && shown == id && deadline == job.queueDeadlineAt
       case ProcessingJob(_, _, since, requested) =>
         job.status == Processing && Some(since) == job.startedAt && requested == job.cancellationRequested
       case SucceededJob(_, _, since, at, result) =>
         && job.status == Finished && job.outcome == Some(Succeeded)
         && Some(since) == job.startedAt && Some(at) == job.finishedAt
         && row.result == Some(Stored(result)) && IsProjected(result, row.exclusions)
       case FailedJob(_, _, started, at, code, message) =>
         && job.status == Finished && job.outcome == Some(Failed)
         && started == job.startedAt && Some(at) == job.finishedAt
         && Some(code) == job.errorCode && Some(message) == job.errorMessage
       case CancelledJob(_, _, started, at) =>
         && job.status == Finished && job.outcome == Some(Cancelled)
         && started == job.startedAt && Some(at) == job.finishedAt
  }

  lemma SnapshotShows(policy: Policy, id: JobId, row: Row, now: Instant)
    requires RowInvariant(policy, row, now)
    ensures SnapshotOf(id, row).Some? && Shows(SnapshotOf(id, row).value, id, row)
  {
    SnapshotExists(policy, id, row, now);
    if row.result.Some? {
      ReadThenWrite(row.result.value, row.exclusions);
    }
    hide ResponseFromResultRows;
  }

  predicate HasCapability(rows: Rows, id: JobId, publicId: Uuid) {
    id in rows && rows[id].job.publicId == publicId
  }

  /** A capability reads what its one job holds, until its retention has passed. */
  ghost predicate ReadPromise(policy: Policy, s: Store, now: Instant, publicId: Uuid, answer: Answer, next: Store) {
    && RowsStay(s, next)
    && ((forall id :: !HasCapability(s.rows, id, publicId)) ==> answer == Unknown)
    && forall id | HasCapability(s.rows, id, publicId) ::
         if IsOutOfRetention(policy, s.rows[id].job, now) then answer == Unknown
         else answer.Found? && Shows(answer.found, id, s.rows[id])
  }

  lemma ReadContract(policy: Policy, s: Store, now: Instant, publicId: Uuid)
    requires Invariant(policy, s, now)
    ensures ReadPromise(
      policy, s, now, publicId, AnswerTo(policy, s, now, GetJob(publicId)), Next(policy, s, now, GetJob(publicId)))
  {
    hide Decide;
    DecisionOf(policy, s, now, GetJob(publicId));
    if id :| HasCapability(s.rows, id, publicId) {
      assert HoldsPublicId(s.rows, id, publicId);
      OneCapability(policy, s, now, publicId, id);
      SnapshotShows(policy, id, s.rows[id], now);
      hide Invariant;
      hide SnapshotOf;
      hide Shows;
    } else {
      assert forall id | HoldsPublicId(s.rows, id, publicId) :: HasCapability(s.rows, id, publicId);
    }
  }

  lemma OneCapability(policy: Policy, s: Store, now: Instant, publicId: Uuid, id: JobId)
    requires Invariant(policy, s, now) && HasCapability(s.rows, id, publicId)
    ensures RowInvariant(policy, s.rows[id], now)
    ensures forall other | HoldsPublicId(s.rows, other, publicId) || HasCapability(s.rows, other, publicId) ::
      other == id
  {
    assert Unique(s.rows);
    hide RowsInvariant;
    hide IdsInOrder;
  }

  /** What an accepted cancellation makes of a job: finished while queued, flagged while processing. */
  function CancelledRow(row: Row, now: Instant): Row {
    match row.job.status
    case Queued =>
      row.(job := row.job.(status := Finished, outcome := Some(Cancelled), finishedAt := Some(now)))
    case Processing => row.(job := row.job.(cancellationRequested := true))
    case Finished => row
  }

  /**
   Cancellation is accepted exactly for a retained job that did not succeed or fail, for the first time
   exactly if it was queued or processing without a flag; and it answers with the job as it then is.
   */
  ghost predicate CancellationPromise(
    policy: Policy, s: Store, now: Instant, publicId: Uuid, answer: Answer, next: Store)
  {
    && ((forall id :: !HasCapability(s.rows, id, publicId)) ==> answer == Unknown && RowsStay(s, next))
    && forall id | HasCapability(s.rows, id, publicId) ::
         var job := s.rows[id].job;
         && OthersStay(s, next, id)
         && if IsOutOfRetention(policy, job, now) then answer == Unknown && next.rows[id] == s.rows[id]
            else if job.status == Finished && job.outcome != Some(Cancelled) then
              answer == AlreadyFinished && next.rows[id] == s.rows[id]
            else
              && answer.Cancellation? && answer.id == id
              && next.rows[id] == CancelledRow(s.rows[id], now) && Shows(answer.cancelling, id, next.rows[id])
              && (answer.firstAccepted <==>
                    job.status == Queued || (job.status == Processing && !job.cancellationRequested))
  }

  lemma CancellationDecided(policy: Policy, s: Store, now: Instant, publicId: Uuid, id: JobId)
    requires Invariant(policy, s, now) && HasCapability(s.rows, id, publicId)
    ensures var decision := DecideCancel(policy, s, now, publicId);
      CancellationPromise(policy, s, now, publicId, decision.answer, Perform(s, decision.effect, now))
  {
    var row := s.rows[id];
    assert HoldsPublicId(s.rows, id, publicId);
    OneCapability(policy, s, now, publicId, id);
    SnapshotShows(policy, id, row, now);
    if row.job.status.Queued? {
      ChangedRowInvariant(policy, row, CancelQueued, now);
      SnapshotShows(policy, id, Changed(row, CancelQueued, now), now);
    } else if row.job.status.Processing? {
      if row.job.cancellationRequested {
        assert Changed(row, FlagCancellation, now) == row;
      } else {
        ChangedRowInvariant(policy, row, FlagCancellation, now);
      }
      SnapshotShows(policy, id, Changed(row, FlagCancellation, now), now);
    }
    hide Invariant;
    hide SnapshotOf;
    hide Shows;
  }

  lemma CancellationContract(policy: Policy, s: Store, now: Instant, publicId: Uuid)
    requires Invariant(policy, s, now)
    ensures var op := Operation.RequestCancellation(publicId);
      CancellationPromise(policy, s, now, publicId, AnswerTo(policy, s, now, op), Next(policy, s, now, op))
  {
    hide Decide;
    hide Invariant;
    DecisionOf(policy, s, now, RequestCancellation(publicId));
    if id :| HasCapability(s.rows, id, publicId) {
      hide DecideCancel;
      CancellationDecided(policy, s, now, publicId, id);
    } else {
      assert forall id | HoldsPublicId(s.rows, id, publicId) :: HasCapability(s.rows, id, publicId);
    }
  }

  // ---------------------------------------------------------------- retention

  /** Deletion removes exactly the jobs whose retention has passed. */
  predicate DeletionPromise(policy: Policy, s: Store, now: Instant, answer: Answer, next: Store) {
    && answer == Done
    && next.nextId == s.nextId
    && next.rows.Keys == (set id | id in s.rows && !IsOutOfRetention(policy, s.rows[id].job, now))
    && forall id | id in next.rows :: id in s.rows && next.rows[id] == s.rows[id]
  }

  lemma DeletionContract(policy: Policy, s: Store, now: Instant)
    ensures DeletionPromise(
      policy, s, now, AnswerTo(policy, s, now, DeleteExpiredTerminalJobs),
      Next(policy, s, now, DeleteExpiredTerminalJobs))
  {
    var next := Next(policy, s, now, DeleteExpiredTerminalJobs);
    forall id
      ensures id in next.rows.Keys <==> id in s.rows && !IsOutOfRetention(policy, s.rows[id].job, now)
    {
    }
  }
}

/**
 The inductive invariant of the job tables: every CHECK, UNIQUE and deferred storage constraint,
 the capacity bound, and the facts about time that make the defensive branches unreachable.
 */
module StoreInvariant {
  import opened Options
  import opened TranscriptTypes
  import opened ResultRows
  import opened JobTypes
  import opened Ordering
  import opened JobProtocol

  // ---------------------------------------------------------------- CHECK constraints

  /** `transcription_job_timestamp_order_check`. */
  predicate TimestampOrderCheck(job: Job) {
    && job.queueDeadlineAt > job.submittedAt
    && (job.startedAt.Some? ==> job.startedAt.value >= job.submittedAt)
    && (job.finishedAt.Some? ==>
          job.finishedAt.value >= (if job.startedAt.Some? then job.startedAt.value else job.submittedAt))
  }

  /** `transcription_job_error_pair_check`; its list lacks the idempotency conflict code. */
  predicate ErrorPairCheck(job: Job) {
    || (job.errorCode.None? && job.errorMessage.None?)
    || (job.errorCode.Some? && !job.errorCode.value.IdempotencyConflictCode?
        && job.errorMessage.Some? && |job.errorMessage.value| > 0)
  }

  /** `transcription_job_lifecycle_check`. */
  predicate LifecycleCheck(job: Job) {
    || (job.status.Queued? && job.outcome.None? && job.startedAt.None? && job.finishedAt.None?
        && !job.cancellationRequested && job.errorCode.None? && job.errorMessage.None?)
    || (job.status.Processing? && job.startedAt.Some? && job.outcome.None? && job.finishedAt.None?
        && job.errorCode.None? && job.errorMessage.None?)
    || (job.status.Finished? && job.outcome.Some? && job.finishedAt.Some?
        && match job.outcome.value
           case Succeeded =>
             job.startedAt.Some? && !job.cancellationRequested && job.errorCode.None? && job.errorMessage.None?
           case Failed =>
             && !job.cancellationRequested && job.errorCode.Some? && job.errorMessage.Some?
             && (job.startedAt.Some? || job.errorCode.value.QueueTimeout?)
           case Cancelled =>
             && job.errorCode.None? && job.errorMessage.None?
             && (job.startedAt.Some? <==> job.cancellationRequested))
  }

  /** The five CHECK constraints of the attempt table that are not about UUID versions. */
  predicate AttemptChecks(attempt: Attempt) {
    && (attempt.leaseOwner.None? <==> attempt.leaseExpiresAt.None?)
    && attempt.dispatchCount >= 0
    && (attempt.dispatchCount == 0 <==> attempt.lastDispatchedAt.None?)
    && (attempt.workerOwner.None? <==> attempt.lastHeartbeatAt.None?)
    && (attempt.workerOwner.None? <==> attempt.claimLeaseExpiresAt.None?)
    && (attempt.lastHeartbeatAt.Some? && attempt.claimLeaseExpiresAt.Some? ==>
          attempt.lastHeartbeatAt.value <= attempt.claimLeaseExpiresAt.value)
  }

  /** The deferred trigger: a result exactly for succeeded jobs, stored as the exclusions demand. */
  predicate ResultCheck(row: Row) {
    && (row.result.Some? <==> row.job.outcome == Some(Succeeded))
    && (row.result.Some? ==> ResultAccepted(row.result.value, row.exclusions))
  }

  /** Facts no constraint states: ownership is for processing jobs, nothing lies ahead of
   the clock, and what is leased for publication is due. */
  predicate History(policy: Policy, row: Row, now: Instant) {
    && (row.attempt.workerOwner.Some? <==> row.job.status.Processing?)
    && row.job.queueDeadlineAt == row.job.submittedAt + policy.queueTimeout
    && row.job.submittedAt <= now
    && (row.job.startedAt.Some? ==> row.job.startedAt.value <= now && row.job.startedAt.value < row.job.queueDeadlineAt)
    && (row.job.finishedAt.Some? ==> row.job.finishedAt.value <= now)
    && (row.attempt.lastHeartbeatAt.Some? ==> row.attempt.lastHeartbeatAt.value <= now)
    && (row.attempt.lastDispatchedAt.Some? ==> row.attempt.lastDispatchedAt.value <= now)
    && row.attempt.nextDispatchAt >= row.job.submittedAt
    && (row.attempt.leaseOwner.Some? ==> row.attempt.nextDispatchAt <= now)
  }

  predicate RowInvariant(policy: Policy, row: Row, now: Instant) {
    && UrlLengthCheck(row.job.submittedUrl)
    && TimestampOrderCheck(row.job)
    && ErrorPairCheck(row.job)
    && LifecycleCheck(row.job)
    && AttemptChecks(row.attempt)
    && ResultCheck(row)
    && History(policy, row, now)
  }

  /** UNIQUE(public_id), UNIQUE(execution_attempt_token) and UNIQUE(idempotency_key). */
  predicate Distinct(a: Row, b: Row) {
    a.job.publicId != b.job.publicId && a.attempt.token != b.attempt.token && a.key != b.key
  }

  predicate Unique(rows: Rows) {
    forall a, b | a in rows && b in rows && a != b :: Distinct(rows[a], rows[b])
  }

  predicate RowsInvariant(policy: Policy, rows: Rows, now: Instant) {
    forall id | id in rows :: RowInvariant(policy, rows[id], now)
  }

  /** Ids were handed out in order of submission, and none is ahead of the sequence. */
  predicate IdsInOrder(s: Store) {
    && s.nextId > 0
    && (forall id | id in s.rows :: 0 < id < s.nextId)
    && (forall a, b | a in s.rows && b in s.rows && a < b :: s.rows[a].job.submittedAt <= s.rows[b].job.submittedAt)
  }

  predicate Invariant(policy: Policy, s: Store, now: Instant) {
    && ValidPolicy(policy)
    && RowsInvariant(policy, s.rows, now)
    && Unique(s.rows)
    && IdsInOrder(s)
    && |Outstanding(s.rows)| <= policy.maximumOutstandingJobs
  }

  lemma EmptyStoreInvariant(policy: Policy, now: Instant)
    requires ValidPolicy(policy)
    ensures Invariant(policy, EMPTY_STORE, now)
  {
    assert Outstanding(EMPTY_STORE.rows) == {};
  }

  // ---------------------------------------------------------------- one row changes

  /** The guard under which a transaction makes a change to a row. */
  predicate Enabled(row: Row, change: Change, now: Instant) {
    match change
    case ExpireQueue => IsOverdue(row.job, now)
    case LeasePublication(_, duration) => IsDue(row, now) && duration > 0
    case RecordPublication(delay) => row.attempt.leaseOwner.Some? && delay > 0
    case ReleasePublication => row.attempt.leaseOwner.Some?
    case StartProcessing(_, lease) => IsEligible(row.job, now) && row.attempt.workerOwner.None? && lease > 0
    case RenewClaim(lease) => IsLive(row, now) && lease > 0
    case RecoverClaim => IsAbandoned(row, now)
    case CancelQueued => row.job.status.Queued?
    case FlagCancellation => row.job.status.Processing? && !row.job.cancellationRequested
    case FinishCancelled => IsLive(row, now) && row.job.cancellationRequested
    case FinishSucceeded(stored) =>
      IsLive(row, now) && !row.job.cancellationRequested && ResultAccepted(stored, row.exclusions)
    case FinishFailed(code, message) =>
      IsLive(row, now) && !row.job.cancellationRequested && |message| > 0 && !code.IdempotencyConflictCode?
  }

  lemma RowInvariantLater(policy: Policy, row: Row, earlier: Instant, now: Instant)
    requires RowInvariant(policy, row, earlier) && earlier <= now
    ensures RowInvariant(policy, row, now)
  {
  }

  lemma ChangedRowInvariant(policy: Policy, row: Row, change: Change, now: Instant)
    requires RowInvariant(policy, row, now) && Enabled(row, change, now)
    ensures RowInvariant(policy, Changed(row, change, now), now)
  {
    assert |QUEUE_TIMEOUT_MESSAGE| > 0 && |WORKER_INTERRUPTED_MESSAGE| > 0;
  }

  /** What no change touches: the submission and its capability, and whatever a finished job shows. */
  predicate SameIdentity(before: Row, after: Row) {
    && after.job.publicId == before.job.publicId
    && after.job.submittedUrl == before.job.submittedUrl
    && after.job.submittedAt == before.job.submittedAt
    && after.job.queueDeadlineAt == before.job.queueDeadlineAt
    && after.attempt.token == before.attempt.token
    && after.key == before.key
    && after.exclusions == before.exclusions
  }

  /** Status never goes back, and a finished job keeps its outcome, times, error and result. */
  predicate Advances(before: Row, after: Row) {
    && SameIdentity(before, after)
    && (before.job.status.Finished? ==> after.job == before.job && after.result == before.result)
    && (before.job.status.Processing? ==>
          && !after.job.status.Queued?
          && after.job.startedAt == before.job.startedAt
          && (before.job.cancellationRequested ==> after.job.cancellationRequested))
  }

  lemma ChangeAdvances(policy: Policy, row: Row, change: Change, now: Instant)
    requires RowInvariant(policy, row, now) && Enabled(row, change, now)
    ensures Advances(row, Changed(row, change, now))
  {
  }

  // ---------------------------------------------------------------- decisions

  /** An effect that a transaction may have: it changes only rows whose guard holds. */
  predicate Lawful(policy: Policy, s: Store, effect: Effect, now: Instant) {
    match effect
    case Nothing => true
    case Insert(id, row) =>
      && id >= s.nextId
      && RowInvariant(policy, row, now)
      && row.job.submittedAt == now
      && row.job.status.Queued?
      && (forall other | other in s.rows :: Distinct(row, s.rows[other]))
      && |Outstanding(s.rows)| < policy.maximumOutstandingJobs
    case Remove(removed) =>
      forall id | id in removed :: id in s.rows && IsExpiredTerminal(s.rows[id], now, policy)
    case Update(updated, change) =>
      forall id | id in updated :: id in s.rows && Enabled(s.rows[id], change, now)
  }

  lemma CreateIsLawful(policy: Policy, s: Store, now: Instant, op: Operation)
    requires Invariant(policy, s, now) && op.CreateQueued?
    ensures Lawful(policy, s, DecideCreate(policy, s, now, op).effect, now)
  {
    if forall id :: !HoldsKey(s.rows, id, op.key) {
      forall other | other in s.rows && !CollidesWith(s.rows, op.publicId, op.token)
        ensures Distinct(NewRow(policy, now, op), s.rows[other])
      {
        assert !HoldsKey(s.rows, other, op.key);
      }
    }
  }

  lemma ExpireIsLawful(policy: Policy, s: Store, now: Instant, op: Operation)
    requires op.ExpireQueuedJobs?
    ensures Lawful(policy, s, DecideExpire(s, now, op.limit).effect, now)
  {
    if op.limit > 0 {
      BatchMembers(OverdueStamps(s.rows, now), op.limit);
    }
  }

  lemma LeaseIsLawful(policy: Policy, s: Store, now: Instant, op: Operation)
    requires op.LeaseDueDispatches?
    ensures Lawful(policy, s, DecideLease(s, now, op).effect, now)
  {
    if op.duration > 0 && op.limit > 0 {
      BatchMembers(DueStamps(s.rows, now), op.limit);
    }
  }

  lemma RecordIsLawful(policy: Policy, s: Store, now: Instant, op: Operation)
    requires op.RecordDispatchPublished?
    ensures Lawful(policy, s, DecideRecord(s, now, op).effect, now)
  {
  }

  lemma ReleaseIsLawful(policy: Policy, s: Store, now: Instant, op: Operation)
    requires op.ReleaseDispatchLeases?
    ensures Lawful(policy, s, DecideRelease(s, op).effect, now)
  {
  }

  lemma ClaimIsLawful(policy: Policy, s: Store, now: Instant, op: Operation)
    requires op.ClaimDispatch?
    ensures Lawful(policy, s, DecideClaim(s, now, op).effect, now)
  {
    var id := op.dispatch.internalJobId;
    assert IsEarliest(EligibleStamps(s.rows, now), id) ==> id in s.rows && IsEligible(s.rows[id].job, now);
  }

  lemma HeartbeatIsLawful(policy: Policy, s: Store, now: Instant, op: Operation)
    requires op.HeartbeatClaims?
    ensures Lawful(policy, s, DecideHeartbeat(s, now, op).effect, now)
  {
  }

  lemma RecoverIsLawful(policy: Policy, s: Store, now: Instant, op: Operation)
    requires op.RecoverExpiredClaims?
    ensures Lawful(policy, s, DecideRecover(s, now, op.limit).effect, now)
  {
    if op.limit > 0 {
      BatchMembers(AbandonedStamps(s.rows, now), op.limit);
    }
  }

  lemma CancelIsLawful(policy: Policy, s: Store, now: Instant, op: Operation)
    requires op.RequestCancellation?
    ensures Lawful(policy, s, DecideCancel(policy, s, now, op.publicId).effect, now)
  {
  }

  lemma PublishIsLawful(policy: Policy, s: Store, now: Instant, op: Operation)
    requires op.PublishCancelled? || op.PublishSuccess? || op.PublishFailure?
    ensures Lawful(policy, s, Decide(policy, s, now, op).effect, now)
  {
  }

  /** Every transaction, whatever its arguments, changes only rows whose guard holds. */
  lemma DecideIsLawful(policy: Policy, s: Store, now: Instant, op: Operation)
    requires Invariant(policy, s, now)
    ensures Lawful(policy, s, Decide(policy, s, now, op).effect, now)
  {
    match op
    case CreateQueued(_, _, _, _, _, _) => CreateIsLawful(policy, s, now, op);
    case ExpireQueuedJobs(_) => ExpireIsLawful(policy, s, now, op);
    case LeaseDueDispatches(_, _, _) => LeaseIsLawful(policy, s, now, op);
    case RecordDispatchPublished(_, _, _) => RecordIsLawful(policy, s, now, op);
    case ReleaseDispatchLeases(_, _) => ReleaseIsLawful(policy, s, now, op);
    case ClaimDispatch(_, _, _) => ClaimIsLawful(policy, s, now, op);
    case HeartbeatClaims(_, _) => HeartbeatIsLawful(policy, s, now, op);
    case RecoverExpiredClaims(_) => RecoverIsLawful(policy, s, now, op);
    case DeleteExpiredTerminalJobs =>
    case RequestCancellation(_) => CancelIsLawful(policy, s, now, op);
    case GetJob(_) =>
    case _ => PublishIsLawful(policy, s, now, op);
  }

  lemma {:induction false} SubsetIsSmaller<T>(small: set<T>, big: set<T>)
    requires small <= big
    ensures |small| <= |big|
  {
    if small != {} {
      var member :| member in small;
      SubsetIsSmaller(small - {member}, big - {member});
    }
  }

  lemma InvariantLater(policy: Policy, s: Store, earlier: Instant, now: Instant)
    requires Invariant(policy, s, earlier) && earlier <= now
    ensures Invariant(policy, s, now)
  {
    forall id | id in s.rows ensures RowInvariant(policy, s.rows[id], now) {
      RowInvariantLater(policy, s.rows[id], earlier, now);
    }
  }

  lemma UpdateKeepsInvariant(policy: Policy, s: Store, effect: Effect, now: Instant)
    requires Invariant(policy, s, now) && effect.Update? && Lawful(policy, s, effect, now)
    ensures Invariant(policy, Perform(s, effect, now), now)
  {
    var rows := Perform(s, effect, now).rows;
    forall id | id in rows
      ensures RowInvariant(policy, rows[id], now) && Advances(s.rows[id], rows[id])
    {
      if id in effect.updated {
        ChangedRowInvariant(policy, s.rows[id], effect.change, now);
        ChangeAdvances(policy, s.rows[id], effect.change, now);
      }
    }
    SubsetIsSmaller(Outstanding(rows), Outstanding(s.rows));
  }

  lemma RemoveKeepsInvariant(policy: Policy, s: Store, effect: Effect, now: Instant)
    requires Invariant(policy, s, now) && effect.Remove? && Lawful(policy, s, effect, now)
    ensures Invariant(policy, Perform(s, effect, now), now)
  {
    SubsetIsSmaller(Outstanding(Perform(s, effect, now).rows), Outstanding(s.rows));
  }

  lemma InsertKeepsInvariant(policy: Policy, s: Store, effect: Effect, now: Instant)
    requires Invariant(policy, s, now) && effect.Insert? && Lawful(policy, s, effect, now)
    ensures Invariant(policy, Perform(s, effect, now), now)
  {
    var rows := Perform(s, effect, now).rows;
    assert Outstanding(rows) == Outstanding(s.rows) + {effect.id};
    forall a, b | a in rows && b in rows && a != b ensures Distinct(rows[a], rows[b]) {
    }
  }

  /** Every transaction keeps the invariant, under a clock that does not go back. */
  lemma NextKeepsInvariant(policy: Policy, s: Store, earlier: Instant, now: Instant, op: Operation)
    requires Invariant(policy, s, earlier) && earlier <= now
    ensures Invariant(policy, Next(policy, s, now, op), now)
  {
    InvariantLater(policy, s, earlier, now);
    DecideIsLawful(policy, s, now, op);
    var effect := Decide(policy, s, now, op).effect;
    match effect
    case Nothing =>
    case Insert(_, _) => InsertKeepsInvariant(policy, s, effect, now);
    case Remove(_) => RemoveKeepsInvariant(policy, s, effect, now);
    case Update(_, _) => UpdateKeepsInvariant(policy, s, effect, now);
  }

  function LastInstant(start: Instant, run: seq<Step>): Instant {
    if run == [] then start else run[|run| - 1].now
  }

  /** Every reachable store satisfies the invariant. */
  lemma {:induction false} RunKeepsInvariant(policy: Policy, s: Store, start: Instant, run: seq<Step>)
    requires Invariant(policy, s, start) && Timely(start, run)
    ensures Invariant(policy, Final(policy, s, run), LastInstant(start, run))
    decreases run
  {
    if run != [] {
      NextKeepsInvariant(policy, s, start, run[0].now, run[0].op);
      RunKeepsInvariant(policy, Next(policy, s, run[0].now, run[0].op), run[0].now, run[1..]);
    }
  }

  // ---------------------------------------------------------------- unreachable failures

  lemma SnapshotExists(policy: Policy, id: JobId, row: Row, now: Instant)
    requires RowInvariant(policy, row, now)
    ensures SnapshotOf(id, row).Some?
  {
    if row.result.Some? {
      ReaderAgreesWithTrigger(row.result.value, row.exclusions);
    }
  }

  /** The requests that the database or a validator refuses for what the caller sent. */
  ghost predicate RefusedInput(policy: Policy, s: Store, now: Instant, op: Operation) {
    match op
    case CreateQueued(key, url, exclusions, publicId, token, _) =>
      && (forall id :: !HoldsKey(s.rows, id, key))
      && |Outstanding(s.rows)| < policy.maximumOutstandingJobs
      && (!UrlLengthCheck(url) || HasDuplicates(exclusions) || CollidesWith(s.rows, publicId, token))
    case PublishSuccess(claim, response) =>
      || !IsValidResponse(response)
      || (MayPublish(s.rows, claim, false, now)
          && !ResultAccepted(Stored(response), s.rows[claim.dispatch.internalJobId].exclusions))
    case PublishFailure(claim, code, message) =>
      message == "" || (MayPublish(s.rows, claim, false, now) && code.IdempotencyConflictCode?)
    case _ => false
  }

  /**
   A transaction answers "store unavailable" exactly for refused input, and no stored row is ever
   unreadable. The transactions of module JobTransactions compare their row counts as the repository
   does, raise "store unavailable" on any other count, and answer as decided here: so no count is ever
   unexpected, and those branches never happen.
   */
  lemma UnavailableOnlyForRefusedInput(policy: Policy, s: Store, now: Instant, op: Operation)
    requires Invariant(policy, s, now)
    ensures AnswerTo(policy, s, now, op).StoreUnavailable? <==> RefusedInput(policy, s, now, op)
  {
    match op
    case RequestCancellation(publicId) =>
      if exists id :: HoldsPublicId(s.rows, id, publicId) {
        var id :| HoldsPublicId(s.rows, id, publicId);
        CancellationReadable(policy, s, now, publicId);
      }
    case GetJob(publicId) =>
      forall id | HoldsPublicId(s.rows, id, publicId) ensures SnapshotOf(id, s.rows[id]).Some? {
        SnapshotExists(policy, id, s.rows[id], now);
      }
    case _ =>
  }

  lemma CancellationReadable(policy: Policy, s: Store, now: Instant, publicId: Uuid)
    requires Invariant(policy, s, now)
    ensures !DecideCancel(policy, s, now, publicId).answer.StoreUnavailable?
  {
    forall id | HoldsPublicId(s.rows, id, publicId)
      ensures SnapshotOf(id, s.rows[id]).Some?
      ensures forall change | Enabled(s.rows[id], change, now) :: SnapshotOf(id, Changed(s.rows[id], change, now)).Some?
    {
      SnapshotExists(policy, id, s.rows[id], now);
      forall change | Enabled(s.rows[id], change, now)
        ensures SnapshotOf(id, Changed(s.rows[id], change, now)).Some?
      {
        ChangedRowInvariant(policy, s.rows[id], change, now);
        SnapshotExists(policy, id, Changed(s.rows[id], change, now), now);
      }
    }
  }
}

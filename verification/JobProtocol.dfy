/**
 The transactions of `PostgresTranscriptionJobRepository` as one state machine.

 A `Row` gathers what the tables hold about one job, and a `Store` is all rows with the identity
 sequence. A transaction decides from the store and the clock what it changes (`Effect`) and what
 it answers (`Answer`). Module JobTransactions carries the same transactions out statement by
 statement on separate tables, and is proved to follow `Decide`.
 */
module JobProtocol {
  import opened Options
  import opened TranscriptTypes
  import opened ResultRows
  import opened JobTypes
  import opened Ordering

  datatype Policy = Policy(maximumOutstandingJobs: int, queueTimeout: int, terminalRetention: int)

  predicate ValidPolicy(policy: Policy) {
    policy.maximumOutstandingJobs > 0 && policy.queueTimeout > 0 && policy.terminalRetention > 0
  }

  datatype Row = Row(
    job: Job,
    attempt: Attempt,
    key: Uuid,
    exclusions: set<FieldPath>,
    result: Option<StoredResult>)

  type Rows = map<JobId, Row>

  datatype Store = Store(rows: Rows, nextId: JobId)

  const EMPTY_STORE := Store(map[], 1)

  datatype Operation =
    | CreateQueued(key: Uuid, submittedUrl: string, exclusions: seq<FieldPath>,
                   publicId: Uuid, token: Uuid, sequenceGap: nat)
    | ExpireQueuedJobs(limit: int)
    | LeaseDueDispatches(leaseOwner: Uuid, duration: int, limit: int)
    | RecordDispatchPublished(dispatch: JobDispatch, leaseOwner: Uuid, redispatchAfter: int)
    | ReleaseDispatchLeases(dispatches: seq<JobDispatch>, leaseOwner: Uuid)
    | ClaimDispatch(dispatch: JobDispatch, workerOwner: Uuid, duration: int)
    | HeartbeatClaims(claims: seq<ExecutionClaim>, duration: int)
    | RecoverExpiredClaims(limit: int)
    | DeleteExpiredTerminalJobs
    | RequestCancellation(publicId: Uuid)
    | PublishCancelled(claim: ExecutionClaim)
    | PublishSuccess(claim: ExecutionClaim, response: TranscriptionResponse)
    | PublishFailure(claim: ExecutionClaim, code: ErrorCode, message: string)
    | GetJob(publicId: Uuid)

  datatype Answer =
    | InvalidArgument                       // ValueError
    | StoreUnavailable                      // TranscriptionJobStoreUnavailableError, rolled back
    | CapacityExceeded                      // TranscriptionJobCapacityError
    | IdempotencyConflict                   // TranscriptionJobIdempotencyConflictError
    | AlreadyFinished                       // TranscriptionJobAlreadyFinishedError
    | Unknown                               // None: no such capability
    | Accepted(job: Snapshot)
    | Counted(count: nat)
    | Leased(leased: seq<JobDispatch>)
    | Recorded(matched: bool)
    | Done
    | NotClaimed                            // None: stale delivery
    | Claimed(claimed: ClaimedJob)
    | Renewed(heartbeats: seq<ClaimHeartbeat>)
    | Cancellation(id: JobId, cancelling: Snapshot, firstAccepted: bool)
    | Published(committed: bool)
    | Found(found: Snapshot)

  // ---------------------------------------------------------------- one row

  /** The updates a transaction makes to the rows of one job. */
  datatype Change =
    | ExpireQueue
    | LeasePublication(leaseOwner: Uuid, duration: int)
    | RecordPublication(redispatchAfter: int)
    | ReleasePublication
    | StartProcessing(workerOwner: Uuid, lease: int)
    | RenewClaim(lease: int)
    | RecoverClaim
    | CancelQueued
    | FlagCancellation
    | FinishCancelled
    | FinishSucceeded(stored: StoredResult)
    | FinishFailed(code: ErrorCode, message: string)

  function FinishedJob(job: Job, outcome: JobOutcome, now: Instant): Job {
    job.(status := Finished, outcome := Some(outcome), finishedAt := Some(now))
  }

  function FailedWith(job: Job, code: ErrorCode, message: string, now: Instant): Job {
    FinishedJob(job, Failed, now).(errorCode := Some(code), errorMessage := Some(message))
  }

  function WithoutClaim(attempt: Attempt): Attempt {
    attempt.(workerOwner := None, lastHeartbeatAt := None, claimLeaseExpiresAt := None)
  }

  function WithoutLease(attempt: Attempt): Attempt {
    attempt.(leaseOwner := None, leaseExpiresAt := None)
  }

  function LeasedAttempt(attempt: Attempt, owner: Uuid, expiresAt: Instant): Attempt {
    attempt.(leaseOwner := Some(owner), leaseExpiresAt := Some(expiresAt))
  }

  function RecordedAttempt(attempt: Attempt, now: Instant, nextAt: Instant): Attempt {
    WithoutLease(attempt).(
      nextDispatchAt := nextAt, lastDispatchedAt := Some(now), dispatchCount := attempt.dispatchCount + 1)
  }

  function RenewedAttempt(attempt: Attempt, now: Instant, expiresAt: Instant): Attempt {
    attempt.(lastHeartbeatAt := Some(now), claimLeaseExpiresAt := Some(expiresAt))
  }

  function OwnedAttempt(attempt: Attempt, owner: Uuid, now: Instant, expiresAt: Instant): Attempt {
    RenewedAttempt(attempt, now, expiresAt).(workerOwner := Some(owner))
  }

  function StartedJob(job: Job, now: Instant): Job {
    job.(status := Processing, startedAt := Some(now))
  }

  function InterruptedJob(job: Job, now: Instant): Job {
    FailedWith(job, WorkerInterrupted, WORKER_INTERRUPTED_MESSAGE, now)
  }

  function RecoveredJob(job: Job, now: Instant): Job {
    if job.cancellationRequested then FinishedJob(job, Cancelled, now)
    else InterruptedJob(job, now)
  }

  function CancelledQueuedJob(job: Job, now: Instant): Job {
    FinishedJob(job, Cancelled, now).(startedAt := None, cancellationRequested := false)
  }

  function FlaggedJob(job: Job): Job {
    job.(cancellationRequested := true)
  }

  function Changed(row: Row, change: Change, now: Instant): Row {
    match change
    case ExpireQueue =>
      row.(job := FailedWith(row.job, QueueTimeout, QUEUE_TIMEOUT_MESSAGE, now))
    case LeasePublication(owner, duration) =>
      row.(attempt := LeasedAttempt(row.attempt, owner, now + duration))
    case RecordPublication(delay) =>
      row.(attempt := RecordedAttempt(row.attempt, now, now + delay))
    case ReleasePublication =>
      row.(attempt := WithoutLease(row.attempt))
    case StartProcessing(owner, lease) =>
      row.(job := StartedJob(row.job, now), attempt := OwnedAttempt(row.attempt, owner, now, now + lease))
    case RenewClaim(lease) =>
      row.(attempt := RenewedAttempt(row.attempt, now, now + lease))
    case RecoverClaim =>
      row.(job := RecoveredJob(row.job, now), attempt := WithoutClaim(row.attempt))
    case CancelQueued =>
      row.(job := CancelledQueuedJob(row.job, now))
    case FlagCancellation =>
      row.(job := FlaggedJob(row.job))
    case FinishCancelled =>
      row.(job := FinishedJob(row.job, Cancelled, now), attempt := WithoutClaim(row.attempt))
    case FinishSucceeded(stored) =>
      row.(job := FinishedJob(row.job, Succeeded, now), attempt := WithoutClaim(row.attempt), result := Some(stored))
    case FinishFailed(code, message) =>
      row.(job := FailedWith(row.job, code, message, now), attempt := WithoutClaim(row.attempt))
  }

  /** `queued`, not cancelled, deadline ahead: the guard shared by leasing and claiming. */
  predicate IsEligible(job: Job, now: Instant) {
    job.status.Queued? && !job.cancellationRequested && job.queueDeadlineAt > now
  }

  predicate IsOverdue(job: Job, now: Instant) {
    job.status.Queued? && !job.cancellationRequested && job.queueDeadlineAt <= now
  }

  /** Comparing with NULL selects no row. */
  predicate AtOrBefore(column: Option<Instant>, now: Instant) {
    column.Some? && column.value <= now
  }

  predicate After(column: Option<Instant>, now: Instant) {
    column.Some? && column.value > now
  }

  predicate LeaseIsFree(attempt: Attempt, now: Instant) {
    attempt.leaseOwner.None? || AtOrBefore(attempt.leaseExpiresAt, now)
  }

  predicate IsDue(row: Row, now: Instant) {
    IsEligible(row.job, now) && row.attempt.nextDispatchAt <= now && LeaseIsFree(row.attempt, now)
  }

  predicate IsAbandoned(row: Row, now: Instant) {
    row.job.status.Processing? && AtOrBefore(row.attempt.claimLeaseExpiresAt, now)
  }

  predicate IsLive(row: Row, now: Instant) {
    row.job.status.Processing? && After(row.attempt.claimLeaseExpiresAt, now)
  }

  predicate IsExpiredTerminal(row: Row, now: Instant, policy: Policy) {
    row.job.status.Finished? && AtOrBefore(row.job.finishedAt, now - policy.terminalRetention)
  }

  predicate Matches(id: JobId, row: Row, dispatch: JobDispatch) {
    dispatch == JobDispatch(id, row.attempt.token)
  }

  predicate OwnedBy(id: JobId, row: Row, claim: ExecutionClaim) {
    Matches(id, row, claim.dispatch) && row.attempt.workerOwner == Some(claim.workerOwner)
  }

  // ---------------------------------------------------------------- effects

  datatype Effect =
    | Nothing
    | Insert(id: JobId, row: Row)
    | Remove(removed: set<JobId>)
    | Update(updated: set<JobId>, change: Change)

  datatype Decision = Decision(effect: Effect, answer: Answer)

  function UpdatedRow(row: Row, selected: bool, change: Change, now: Instant): Row {
    if selected then Changed(row, change, now) else row
  }

  function Perform(s: Store, effect: Effect, now: Instant): Store {
    match effect
    case Nothing => s
    case Insert(id, row) => Store(s.rows[id := row], id + 1)
    case Remove(removed) => s.(rows := map id | id in s.rows && id !in removed :: s.rows[id])
    case Update(updated, change) =>
      s.(rows := map id | id in s.rows :: UpdatedRow(s.rows[id], id in updated, change, now))
  }

  function Refuse(answer: Answer): Decision { Decision(Nothing, answer) }

  // ---------------------------------------------------------------- admission

  function Outstanding(rows: Rows): set<JobId> {
    set id | id in rows && !rows[id].job.status.Finished?
  }

  ghost predicate HoldsKey(rows: Rows, id: JobId, key: Uuid) { id in rows && rows[id].key == key }

  ghost predicate HoldsPublicId(rows: Rows, id: JobId, publicId: Uuid) {
    id in rows && rows[id].job.publicId == publicId
  }

  /** A unique constraint of the job or attempt table would reject the new row. */
  ghost predicate CollidesWith(rows: Rows, publicId: Uuid, token: Uuid) {
    exists id :: id in rows && (rows[id].job.publicId == publicId || rows[id].attempt.token == token)
  }

  predicate HasDuplicates(paths: seq<FieldPath>) {
    exists i, j :: 0 <= i < j < |paths| && paths[i] == paths[j]
  }

  predicate UrlLengthCheck(url: string) { 1 <= |url| <= 2048 }

  function Paths(paths: seq<FieldPath>): set<FieldPath> { set path | path in paths }

  function QueuedSnapshot(id: JobId, job: Job): Snapshot {
    QueuedJob(id, job.publicId, job.submittedAt, job.queueDeadlineAt)
  }

  function NewRow(policy: Policy, now: Instant, op: Operation): Row
    requires op.CreateQueued?
  {
    Row(
      Job(op.publicId, op.submittedUrl, Queued, None, now, now + policy.queueTimeout, None, None, false, None, None),
      Attempt(op.token, now, None, None, None, 0, None, None, None),
      op.key,
      Paths(op.exclusions),
      None)
  }

  ghost function DecideCreate(policy: Policy, s: Store, now: Instant, op: Operation): Decision
    requires op.CreateQueued?
  {
    if exists id :: HoldsKey(s.rows, id, op.key) then
      var id :| HoldsKey(s.rows, id, op.key);
      var held := s.rows[id];
      if held.job.submittedUrl != op.submittedUrl || held.exclusions != Paths(op.exclusions)
      then Refuse(IdempotencyConflict)
      else Refuse(Accepted(QueuedSnapshot(id, held.job)))
    else if |Outstanding(s.rows)| >= policy.maximumOutstandingJobs then Refuse(CapacityExceeded)
    else if !UrlLengthCheck(op.submittedUrl) || HasDuplicates(op.exclusions)
            || CollidesWith(s.rows, op.publicId, op.token) then Refuse(StoreUnavailable)
    else
      var id := s.nextId + op.sequenceGap;
      var row := NewRow(policy, now, op);
      Decision(Insert(id, row), Accepted(QueuedSnapshot(id, row.job)))
  }

  // ---------------------------------------------------------------- queue expiry and publication

  function OverdueStamps(rows: Rows, now: Instant): Stamps {
    map id | id in rows && IsOverdue(rows[id].job, now) :: rows[id].job.queueDeadlineAt
  }

  function DueStamps(rows: Rows, now: Instant): Stamps {
    map id | id in rows && IsDue(rows[id], now) :: rows[id].job.submittedAt
  }

  function EligibleStamps(rows: Rows, now: Instant): Stamps {
    map id | id in rows && IsEligible(rows[id].job, now) :: rows[id].job.submittedAt
  }

  function AbandonedStamps(rows: Rows, now: Instant): Stamps {
    map id | id in rows && IsAbandoned(rows[id], now) :: rows[id].attempt.claimLeaseExpiresAt.value
  }

  function DecideExpire(s: Store, now: Instant, limit: int): Decision {
    if limit <= 0 then Refuse(InvalidArgument)
    else
      var ids := Ids(Batch(OverdueStamps(s.rows, now), limit));
      Decision(Update(ids, ExpireQueue), Counted(|ids|))
  }

  function DispatchOf(rows: Rows, id: JobId): JobDispatch
    requires id in rows
  {
    JobDispatch(id, rows[id].attempt.token)
  }

  function DispatchesOf(rows: Rows, ids: seq<JobId>): seq<JobDispatch>
    requires forall id | id in ids :: id in rows
  {
    if ids == [] then [] else DispatchesOf(rows, ids[..|ids| - 1]) + [DispatchOf(rows, ids[|ids| - 1])]
  }

  function DecideLease(s: Store, now: Instant, op: Operation): Decision
    requires op.LeaseDueDispatches?
  {
    if op.duration <= 0 || op.limit <= 0 then Refuse(InvalidArgument)
    else
      var batch := Batch(DueStamps(s.rows, now), op.limit);
      BatchMembers(DueStamps(s.rows, now), op.limit);
      Decision(Update(Ids(batch), LeasePublication(op.leaseOwner, op.duration)), Leased(DispatchesOf(s.rows, batch)))
  }

  predicate HoldsLease(rows: Rows, dispatch: JobDispatch, owner: Uuid) {
    && dispatch.internalJobId in rows
    && Matches(dispatch.internalJobId, rows[dispatch.internalJobId], dispatch)
    && rows[dispatch.internalJobId].attempt.leaseOwner == Some(owner)
  }

  function DecideRecord(s: Store, now: Instant, op: Operation): Decision
    requires op.RecordDispatchPublished?
  {
    if op.redispatchAfter <= 0 then Refuse(InvalidArgument)
    else if HoldsLease(s.rows, op.dispatch, op.leaseOwner) then
      Decision(Update({op.dispatch.internalJobId}, RecordPublication(op.redispatchAfter)), Recorded(true))
    else Refuse(Recorded(false))
  }

  function LeasesHeld(rows: Rows, dispatches: seq<JobDispatch>, owner: Uuid): set<JobId> {
    set id | id in rows && rows[id].attempt.leaseOwner == Some(owner) && DispatchOf(rows, id) in dispatches
  }

  function DecideRelease(s: Store, op: Operation): Decision
    requires op.ReleaseDispatchLeases?
  {
    Decision(Update(LeasesHeld(s.rows, op.dispatches, op.leaseOwner), ReleasePublication), Done)
  }

  // ---------------------------------------------------------------- claims

  function DecideClaim(s: Store, now: Instant, op: Operation): Decision
    requires op.ClaimDispatch?
  {
    var id := op.dispatch.internalJobId;
    var known := id in s.rows && Matches(id, s.rows[id], op.dispatch);
    if op.duration <= 0 then Refuse(InvalidArgument)
    else if known && IsOverdue(s.rows[id].job, now) then Decision(Update({id}, ExpireQueue), NotClaimed)
    else if !IsEarliest(EligibleStamps(s.rows, now), id) || !known then Refuse(NotClaimed)
    else if s.rows[id].attempt.workerOwner.Some? || s.rows[id].job.submittedUrl == "" then Refuse(StoreUnavailable)
    else Decision(
      Update({id}, StartProcessing(op.workerOwner, op.duration)),
      Claimed(ClaimedJob(ExecutionClaim(op.dispatch, op.workerOwner), s.rows[id].job.submittedUrl,
          s.rows[id].exclusions)))
  }

  predicate Renewable(rows: Rows, claim: ExecutionClaim, now: Instant) {
    var id := claim.dispatch.internalJobId;
    id in rows && IsLive(rows[id], now) && OwnedBy(id, rows[id], claim)
  }

  function Heartbeats(rows: Rows, claims: seq<ExecutionClaim>, now: Instant): seq<ClaimHeartbeat> {
    if claims == [] then []
    else
      var rest := Heartbeats(rows, claims[1..], now);
      if Renewable(rows, claims[0], now)
      then [ClaimHeartbeat(claims[0], rows[claims[0].dispatch.internalJobId].job.cancellationRequested)] + rest
      else rest
  }

  function RenewedJobs(rows: Rows, claims: seq<ExecutionClaim>, now: Instant): set<JobId> {
    set claim | claim in claims && Renewable(rows, claim, now) :: claim.dispatch.internalJobId
  }

  function DecideHeartbeat(s: Store, now: Instant, op: Operation): Decision
    requires op.HeartbeatClaims?
  {
    if op.duration <= 0 then Refuse(InvalidArgument)
    else Decision(
      Update(RenewedJobs(s.rows, op.claims, now), RenewClaim(op.duration)),
      Renewed(Heartbeats(s.rows, op.claims, now)))
  }

  function DecideRecover(s: Store, now: Instant, limit: int): Decision {
    if limit <= 0 then Refuse(InvalidArgument)
    else
      var ids := Ids(Batch(AbandonedStamps(s.rows, now), limit));
      Decision(Update(ids, RecoverClaim), Counted(|ids|))
  }

  // ---------------------------------------------------------------- retention and cancellation

  function DecideDelete(policy: Policy, s: Store, now: Instant): Decision {
    Decision(Remove(set id | id in s.rows && IsExpiredTerminal(s.rows[id], now, policy)), Done)
  }

  /** The row translators: None where one of them finds an inconsistent row. */
  function SnapshotOf(id: JobId, row: Row): Option<Snapshot> {
    var job := row.job;
    match job.status
    case Queued => Some(QueuedSnapshot(id, job))
    case Processing =>
      if job.startedAt.None? then None
      else Some(ProcessingJob(job.publicId, job.submittedAt, job.startedAt.value, job.cancellationRequested))
    case Finished =>
      if job.finishedAt.None? || job.outcome.None? then None
      else match job.outcome.value
        case Failed =>
          if job.cancellationRequested || job.errorCode.None? || job.errorMessage.None? || job.errorMessage.value == ""
          then None
          else Some(FailedJob(job.publicId, job.submittedAt, job.startedAt, job.finishedAt.value,
                              job.errorCode.value, job.errorMessage.value))
        case Cancelled =>
          if job.errorCode.Some? || job.errorMessage.Some? || (job.startedAt.Some? != job.cancellationRequested)
          then None
          else Some(CancelledJob(job.publicId, job.submittedAt, job.startedAt, job.finishedAt.value))
        case Succeeded =>
          if job.cancellationRequested || job.startedAt.None? || row.result.None? then None
          else match ResponseFromResultRows(row.result.value, row.exclusions)
            case None => None
            case Some(response) =>
              Some(SucceededJob(job.publicId, job.submittedAt, job.startedAt.value, job.finishedAt.value, response))
  }

  function CancellationAnswer(id: JobId, row: Row, first: bool, effect: Effect): Decision {
    match SnapshotOf(id, row)
    case None => Refuse(StoreUnavailable)
    case Some(snapshot) => Decision(effect, Cancellation(id, snapshot, first))
  }

  ghost function DecideCancel(policy: Policy, s: Store, now: Instant, publicId: Uuid): Decision {
    if !(exists id :: HoldsPublicId(s.rows, id, publicId)) then Refuse(Unknown)
    else
      var id :| HoldsPublicId(s.rows, id, publicId);
      var row := s.rows[id];
      if IsExpiredTerminal(row, now, policy) then Refuse(Unknown)
      else match row.job.status
        case Queued =>
          CancellationAnswer(id, Changed(row, CancelQueued, now), true, Update({id}, CancelQueued))
        case Processing =>
          CancellationAnswer(id, Changed(row, FlagCancellation, now), !row.job.cancellationRequested,
                             if row.job.cancellationRequested then Nothing else Update({id}, FlagCancellation))
        case Finished =>
          if row.job.outcome == Some(Cancelled) then CancellationAnswer(id, row, false, Nothing)
          else if row.job.outcome.Some? then Refuse(AlreadyFinished)
          else Refuse(StoreUnavailable)
  }

  ghost function DecideGet(policy: Policy, s: Store, now: Instant, publicId: Uuid): Decision {
    if !(exists id :: HoldsPublicId(s.rows, id, publicId)) then Refuse(Unknown)
    else
      var id :| HoldsPublicId(s.rows, id, publicId);
      if IsExpiredTerminal(s.rows[id], now, policy) then Refuse(Unknown)
      else match SnapshotOf(id, s.rows[id])
        case None => Refuse(StoreUnavailable)
        case Some(snapshot) => Refuse(Found(snapshot))
  }

  // ---------------------------------------------------------------- terminal publication

  /** The claim is live and its cancellation flag is as the publication needs it. */
  predicate MayPublish(rows: Rows, claim: ExecutionClaim, cancelled: bool, now: Instant) {
    Renewable(rows, claim, now) && rows[claim.dispatch.internalJobId].job.cancellationRequested == cancelled
  }

  function DecidePublishCancelled(s: Store, now: Instant, claim: ExecutionClaim): Decision {
    if !MayPublish(s.rows, claim, true, now) then Refuse(Published(false))
    else Decision(Update({claim.dispatch.internalJobId}, FinishCancelled), Published(true))
  }

  function DecidePublishSuccess(s: Store, now: Instant, op: Operation): Decision
    requires op.PublishSuccess?
  {
    var id := op.claim.dispatch.internalJobId;
    if !IsValidResponse(op.response) then Refuse(StoreUnavailable)
    else if !MayPublish(s.rows, op.claim, false, now) then Refuse(Published(false))
    else if !ResultAccepted(Stored(op.response), s.rows[id].exclusions) then Refuse(StoreUnavailable)
    else Decision(Update({id}, FinishSucceeded(Stored(op.response))), Published(true))
  }

  /** The public codes include one that the error CHECK of the job table does not list. */
  function DecidePublishFailure(s: Store, now: Instant, op: Operation): Decision
    requires op.PublishFailure?
  {
    if op.message == "" then Refuse(StoreUnavailable)
    else if !MayPublish(s.rows, op.claim, false, now) then Refuse(Published(false))
    else if op.code.IdempotencyConflictCode? then Refuse(StoreUnavailable)
    else Decision(Update({op.claim.dispatch.internalJobId}, FinishFailed(op.code, op.message)), Published(true))
  }

  // ---------------------------------------------------------------- the machine

  ghost function Decide(policy: Policy, s: Store, now: Instant, op: Operation): Decision {
    match op
    case CreateQueued(_, _, _, _, _, _) => DecideCreate(policy, s, now, op)
    case ExpireQueuedJobs(limit) => DecideExpire(s, now, limit)
    case LeaseDueDispatches(_, _, _) => DecideLease(s, now, op)
    case RecordDispatchPublished(_, _, _) => DecideRecord(s, now, op)
    case ReleaseDispatchLeases(_, _) => DecideRelease(s, op)
    case ClaimDispatch(_, _, _) => DecideClaim(s, now, op)
    case HeartbeatClaims(_, _) => DecideHeartbeat(s, now, op)
    case RecoverExpiredClaims(limit) => DecideRecover(s, now, limit)
    case DeleteExpiredTerminalJobs => DecideDelete(policy, s, now)
    case RequestCancellation(publicId) => DecideCancel(policy, s, now, publicId)
    case PublishCancelled(claim) => DecidePublishCancelled(s, now, claim)
    case PublishSuccess(_, _) => DecidePublishSuccess(s, now, op)
    case PublishFailure(_, _, _) => DecidePublishFailure(s, now, op)
    case GetJob(publicId) => DecideGet(policy, s, now, publicId)
  }

  ghost function Next(policy: Policy, s: Store, now: Instant, op: Operation): Store {
    Perform(s, Decide(policy, s, now, op).effect, now)
  }

  ghost function AnswerTo(policy: Policy, s: Store, now: Instant, op: Operation): Answer {
    Decide(policy, s, now, op).answer
  }

  /** Two stores with the same rows are the same store. */
  lemma SameStore(a: Store, b: Store)
    requires a.nextId == b.nextId
    requires forall id :: id in a.rows <==> id in b.rows
    requires forall id | id in a.rows :: a.rows[id] == b.rows[id]
    ensures a == b
  {
    SameRows(a.rows, b.rows);
  }

  lemma SameRows(a: Rows, b: Rows)
    requires forall id :: id in a <==> id in b
    requires forall id | id in a :: a[id] == b[id]
    ensures a == b
  {
    assert forall id :: id in a.Keys <==> id in b.Keys;
    assert a.Keys == b.Keys;
    assert forall id | id in a.Keys :: a[id] == b[id];
    var x, y := map id | id in a :: a[id], map id | id in b :: b[id];
    assert x == y;
    assert a == x;
  }

  /** One transaction of a run, with the clock reading it makes. */
  datatype Step = Step(now: Instant, op: Operation)

  ghost function Final(policy: Policy, s: Store, run: seq<Step>): Store
    decreases run
  {
    if run == [] then s else Final(policy, Next(policy, s, run[0].now, run[0].op), run[1..])
  }

  /** The clock starts at `start` or later and never goes back. */
  predicate Timely(start: Instant, run: seq<Step>)
    decreases run
  {
    run == [] || (start <= run[0].now && Timely(run[0].now, run[1..]))
  }
}

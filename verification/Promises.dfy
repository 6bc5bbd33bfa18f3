/**
 All promises of module JobContracts as one relation: every transaction keeps its promise, and no
 promise leaves the answer or the tables open.
 */
module Promises {
  import opened Options
  import opened TranscriptTypes
  import opened ResultRows
  import opened JobTypes
  import opened Ordering
  import opened JobProtocol
  import opened StoreInvariant
  import opened JobContracts

  /** `ValueError`: a duration, delay or limit is not positive. */
  predicate IsMisused(op: Operation) {
    match op
    case ExpireQueuedJobs(limit) => limit <= 0
    case LeaseDueDispatches(_, duration, limit) => duration <= 0 || limit <= 0
    case RecordDispatchPublished(_, _, delay) => delay <= 0
    case ClaimDispatch(_, _, duration) => duration <= 0
    case HeartbeatClaims(_, duration) => duration <= 0
    case RecoverExpiredClaims(limit) => limit <= 0
    case _ => false
  }

  /** What the transaction promises of its answer and of the store that it leaves. */
  ghost predicate Promised(policy: Policy, s: Store, now: Instant, op: Operation, answer: Answer, next: Store) {
    if IsMisused(op) then answer == InvalidArgument && RowsStay(s, next)
    else match op
      case CreateQueued(_, _, _, _, _, _) => AdmissionPromise(policy, s, now, op, answer, next)
      case ExpireQueuedJobs(limit) => ExpiryPromise(s, now, limit, answer, next)
      case LeaseDueDispatches(owner, duration, limit) => LeasePromise(s, now, owner, duration, limit, answer, next)
      case RecordDispatchPublished(dispatch, owner, delay) =>
        RecordPromise(s, now, dispatch, owner, delay, answer, next)
      case ReleaseDispatchLeases(dispatches, owner) => ReleasePromise(s, dispatches, owner, answer, next)
      case ClaimDispatch(dispatch, owner, duration) => ClaimPromise(s, now, dispatch, owner, duration, answer, next)
      case HeartbeatClaims(claims, duration) => RenewalPromise(s, now, claims, duration, answer, next)
      case RecoverExpiredClaims(limit) => RecoveryPromise(s, now, limit, answer, next)
      case DeleteExpiredTerminalJobs => DeletionPromise(policy, s, now, answer, next)
      case RequestCancellation(publicId) => CancellationPromise(policy, s, now, publicId, answer, next)
      case PublishCancelled(claim) => PublishCancelledPromise(s, now, claim, answer, next)
      case PublishSuccess(claim, response) => PublishSuccessPromise(s, now, claim, response, answer, next)
      case PublishFailure(claim, code, message) => PublishFailurePromise(s, now, claim, code, message, answer, next)
      case GetJob(publicId) => ReadPromise(policy, s, now, publicId, answer, next)
  }

  lemma MisuseIsRefused(policy: Policy, s: Store, now: Instant, op: Operation)
    requires IsMisused(op)
    ensures AnswerTo(policy, s, now, op) == InvalidArgument && RowsStay(s, Next(policy, s, now, op))
  {
  }

  /** Every transaction, with whatever arguments, keeps its promise in every store that the invariant allows. */
  lemma PromisesAreKept(policy: Policy, s: Store, now: Instant, op: Operation)
    requires Invariant(policy, s, now)
    ensures Promised(policy, s, now, op, AnswerTo(policy, s, now, op), Next(policy, s, now, op))
  {
    hide Decide;
    hide Invariant;
    hide AdmissionPromise;
    hide ExpiryPromise;
    hide LeasePromise;
    hide RecordPromise;
    hide ReleasePromise;
    hide ClaimPromise;
    hide RenewalPromise;
    hide RecoveryPromise;
    hide DeletionPromise;
    hide CancellationPromise;
    hide PublishCancelledPromise;
    hide PublishSuccessPromise;
    hide PublishFailurePromise;
    hide ReadPromise;
    hide RowsStay;
    if IsMisused(op) {
      MisuseIsRefused(policy, s, now, op);
      return;
    }
    match op
    case CreateQueued(_, _, _, _, _, _) => AdmissionContract(policy, s, now, op);
    case ExpireQueuedJobs(limit) => ExpiryContract(policy, s, now, limit);
    case LeaseDueDispatches(owner, duration, limit) => LeaseContract(policy, s, now, owner, duration, limit);
    case RecordDispatchPublished(dispatch, owner, delay) => RecordContract(policy, s, now, dispatch, owner, delay);
    case ReleaseDispatchLeases(dispatches, owner) => ReleaseContract(policy, s, now, dispatches, owner);
    case ClaimDispatch(dispatch, owner, duration) => ClaimContract(policy, s, now, dispatch, owner, duration);
    case HeartbeatClaims(claims, duration) => RenewalContract(policy, s, now, claims, duration);
    case RecoverExpiredClaims(limit) => RecoveryContract(policy, s, now, limit);
    case DeleteExpiredTerminalJobs => DeletionContract(policy, s, now);
    case RequestCancellation(publicId) => CancellationContract(policy, s, now, publicId);
    case PublishCancelled(claim) => PublishCancelledContract(policy, s, now, claim);
    case PublishSuccess(claim, response) => PublishSuccessContract(policy, s, now, claim, response);
    case PublishFailure(claim, code, message) => PublishFailureContract(policy, s, now, claim, code, message);
    case GetJob(publicId) => ReadContract(policy, s, now, publicId);
  }

  // ---------------------------------------------------------------- nothing is left open

  /** Both list the same dispatches in order of submission. */
  lemma {:induction false} SameLeases(rows: Rows, a: seq<JobDispatch>, b: seq<JobDispatch>)
    requires InSubmissionOrder(rows, a) && InSubmissionOrder(rows, b)
    requires forall dispatch :: dispatch in a <==> dispatch in b
    ensures a == b
  {
    assert a != [] ==> a[0] in b;
    assert b != [] ==> b[0] in a;
    if a != [] {
      var i :| 0 <= i < |b| && b[i] == a[0];
      var j :| 0 <= j < |a| && a[j] == b[0];
      assert i == 0 && j == 0;
      forall dispatch ensures dispatch in a[1..] <==> dispatch in b[1..] {
        assert dispatch in a[1..] ==> dispatch != a[0] && dispatch in b;
        assert dispatch in b[1..] ==> dispatch != b[0] && dispatch in a;
      }
      SameLeases(rows, a[1..], b[1..]);
    }
  }

  /** A projected response is known by its stored rows. */
  lemma SameResult(a: TranscriptionResponse, b: TranscriptionResponse, excluded: set<FieldPath>)
    requires Stored(a) == Stored(b) && IsProjected(a, excluded) && IsProjected(b, excluded)
    ensures a == b
  {
    var x, y := a.transcript.segments, b.transcript.segments;
    if x.Some? {
      assert SegmentsOfRows(SegmentValues(a)) == x.value;
      assert SegmentsOfRows(SegmentValues(b)) == y.value;
    }
  }

  lemma SameSnapshot(id: JobId, row: Row, a: Snapshot, b: Snapshot)
    requires Shows(a, id, row) && Shows(b, id, row)
    ensures a == b
  {
    if a.SucceededJob? {
      SameResult(a.result, b.result, row.exclusions);
    }
  }

  lemma SameAdmission(policy: Policy, s: Store, now: Instant, op: Operation, a: Answer, b: Answer, x: Store, y: Store)
    requires op.CreateQueued?
    requires AdmissionPromise(policy, s, now, op, a, x) && AdmissionPromise(policy, s, now, op, b, y)
    ensures a == b && x == y
  {
    if RowsStay(s, x) && RowsStay(s, y) {
      SameStore(x, y);
    }
    if id :| SharesKey(s.rows, id, op.key) {
      assert SharesKey(s.rows, id, op.key);
    }
  }

  lemma SameLeasing(
    s: Store, now: Instant, owner: Uuid, duration: int, limit: int, a: Answer, b: Answer, x: Store, y: Store)
    requires LeasePromise(s, now, owner, duration, limit, a, x) && LeasePromise(s, now, owner, duration, limit, b, y)
    ensures a == b && x == y
  {
    SameStore(x, y);
    hide GetsLeased;
    forall dispatch ensures dispatch in a.leased <==> dispatch in b.leased {
      if dispatch in a.leased || dispatch in b.leased {
        assert dispatch == JobDispatch(dispatch.internalJobId, s.rows[dispatch.internalJobId].attempt.token);
      }
    }
    SameLeases(s.rows, a.leased, b.leased);
  }

  lemma SameCancellation(
    policy: Policy, s: Store, now: Instant, publicId: Uuid, a: Answer, b: Answer, x: Store, y: Store)
    requires CancellationPromise(policy, s, now, publicId, a, x) && CancellationPromise(policy, s, now, publicId, b, y)
    ensures a == b && x == y
  {
    if id :| HasCapability(s.rows, id, publicId) {
      SameStore(x, y);
      if a.Cancellation? {
        SameSnapshot(id, x.rows[id], a.cancelling, b.cancelling);
      }
    } else {
      SameStore(x, y);
    }
  }

  lemma SameRead(policy: Policy, s: Store, now: Instant, publicId: Uuid, a: Answer, b: Answer, x: Store, y: Store)
    requires ReadPromise(policy, s, now, publicId, a, x) && ReadPromise(policy, s, now, publicId, b, y)
    ensures a == b && x == y
  {
    SameStore(x, y);
    if id :| HasCapability(s.rows, id, publicId) {
      if a.Found? {
        SameSnapshot(id, s.rows[id], a.found, b.found);
      }
    }
  }

  lemma SameClaim(
    s: Store, now: Instant, dispatch: JobDispatch, owner: Uuid, duration: int, a: Answer, b: Answer, x: Store, y: Store)
    requires ClaimPromise(s, now, dispatch, owner, duration, a, x)
    requires ClaimPromise(s, now, dispatch, owner, duration, b, y)
    ensures a == b && x == y
  {
    hide IsNext;
    SameStore(x, y);
  }

  lemma SamePublication(policy: Policy, s: Store, now: Instant, op: Operation, a: Answer, b: Answer, x: Store, y: Store)
    requires op.PublishCancelled? || op.PublishSuccess? || op.PublishFailure?
    requires Promised(policy, s, now, op, a, x) && Promised(policy, s, now, op, b, y)
    ensures a == b && x == y
  {
    hide MayFinish;
    hide ResultAccepted;
    SameStore(x, y);
  }

  lemma SameDrain(policy: Policy, s: Store, now: Instant, op: Operation, a: Answer, b: Answer, x: Store, y: Store)
    requires op.ExpireQueuedJobs? || op.RecoverExpiredClaims? || op.HeartbeatClaims?
    requires Promised(policy, s, now, op, a, x) && Promised(policy, s, now, op, b, y)
    ensures a == b && x == y
  {
    hide GetsTimedOut;
    hide GetsRecovered;
    hide HoldsClaim;
    SameStore(x, y);
  }

  lemma SameUpkeep(policy: Policy, s: Store, now: Instant, op: Operation, a: Answer, b: Answer, x: Store, y: Store)
    requires op.RecordDispatchPublished? || op.ReleaseDispatchLeases? || op.DeleteExpiredTerminalJobs?
    requires Promised(policy, s, now, op, a, x) && Promised(policy, s, now, op, b, y)
    ensures a == b && x == y
  {
    SameStore(x, y);
  }

  /** The promises leave nothing open: they admit one answer and one store. */
  lemma PromisesDecide(policy: Policy, s: Store, now: Instant, op: Operation, answer: Answer, next: Store)
    requires Invariant(policy, s, now)
    requires Promised(policy, s, now, op, answer, next)
    ensures answer == AnswerTo(policy, s, now, op) && next == Next(policy, s, now, op)
  {
    hide Invariant;
    hide AdmissionPromise;
    hide ExpiryPromise;
    hide LeasePromise;
    hide RecordPromise;
    hide ReleasePromise;
    hide ClaimPromise;
    hide RenewalPromise;
    hide RecoveryPromise;
    hide DeletionPromise;
    hide CancellationPromise;
    hide PublishCancelledPromise;
    hide PublishSuccessPromise;
    hide PublishFailurePromise;
    hide ReadPromise;
    hide Decide;
    PromisesAreKept(policy, s, now, op);
    var a, b, x, y := answer, AnswerTo(policy, s, now, op), next, Next(policy, s, now, op);
    if IsMisused(op) {
      SameStore(x, y);
      return;
    }
    match op
    case CreateQueued(_, _, _, _, _, _) => SameAdmission(policy, s, now, op, a, b, x, y);
    case LeaseDueDispatches(owner, duration, limit) => SameLeasing(s, now, owner, duration, limit, a, b, x, y);
    case ClaimDispatch(dispatch, owner, duration) => SameClaim(s, now, dispatch, owner, duration, a, b, x, y);
    case RequestCancellation(publicId) => SameCancellation(policy, s, now, publicId, a, b, x, y);
    case GetJob(publicId) => SameRead(policy, s, now, publicId, a, b, x, y);
    case PublishCancelled(_) => SamePublication(policy, s, now, op, a, b, x, y);
    case PublishSuccess(_, _) => SamePublication(policy, s, now, op, a, b, x, y);
    case PublishFailure(_, _, _) => SamePublication(policy, s, now, op, a, b, x, y);
    case RecordDispatchPublished(_, _, _) => SameUpkeep(policy, s, now, op, a, b, x, y);
    case ReleaseDispatchLeases(_, _) => SameUpkeep(policy, s, now, op, a, b, x, y);
    case DeleteExpiredTerminalJobs => SameUpkeep(policy, s, now, op, a, b, x, y);
    case _ => SameDrain(policy, s, now, op, a, b, x, y);
  }
}

/**
 `TranscriptionJobProcessor.process` composed with the repository: one delivered dispatch is claimed,
 executed and published, while other processes commit whatever they like in between.
 */
module Processor {
  import opened Options
  import opened TranscriptTypes
  import opened ResultRows
  import opened JobTypes
  import opened Ordering
  import opened JobProtocol
  import opened StoreInvariant
  import opened JobHistory
  import opened Cancellation
  import opened JobRepository
  import opened ExecutionControl
  import C = JobContracts
  import N = NativeWork
  import R = Retention

  /** How `process` gets past its `try`: the URL is refused before `execute`, or `execute` ends. */
  datatype ExecutorOutcome =
    | UrlRefused(code: ErrorCode, message: string)        // classify_submitted_url raises; InternalError if unexpected
    | CancellationRaised                                  // TranscriptionCancellationRequestedError
    | ErrorRaised(code: ErrorCode, message: string)       // another TranscriptionError of execute
    | UnexpectedRaised                                    // any other Exception
    | TaskCancelled                                       // asyncio.CancelledError
    | Produced(result: TranscriptionResult)

  /**
   What one delivery meets: the clock and the other processes by the number of its own transactions,
   whether the claim manager admits it, how execution ends, whether the local cancellation signal
   was set by the end of `execute` (for a durable flag, or for lost ownership), and whether native work
   was retained then. Nothing is suspended between the claim and a refused URL, so the signal is not set
   there.
   */
  datatype Environment = Environment(
    clock: nat -> Instant,
    others: nat -> seq<Step>,
    isAdmitted: bool,
    outcome: ExecutorOutcome,
    isStopped: bool,
    isRetained: bool)

  ghost predicate Orderly(env: Environment) {
    forall k: nat :: Timely(env.clock(k), env.others(k)) && LastInstant(env.clock(k), env.others(k)) <= env.clock(k + 1)
  }

  datatype FinishedEvent = FinishedEvent(internalJobId: JobId, outcome: JobOutcome, code: Option<ErrorCode>)

  datatype Ending = Returned | Raised | Waiting

  /** What one call did: its claim, its own transactions in order, and the publication that committed. */
  datatype Report = Report(claimed: Option<ClaimedJob>, own: seq<Step>, committed: Option<Operation>, ending: Ending)

  // ---------------------------------------------------------------- interleaving

  /** The store after own transactions and what others did after each of them. */
  ghost function StoreAfter(policy: Policy, s: Store, env: Environment, own: seq<Step>): Store {
    if own == [] then s
    else
      var last := own[|own| - 1];
      var before := StoreAfter(policy, s, env, own[..|own| - 1]);
      Final(policy, Next(policy, before, last.now, last.op), env.others(|own| - 1))
  }

  /** The own publications that were answered as committed. */
  ghost function CommittedBy(policy: Policy, s: Store, env: Environment, own: seq<Step>): seq<Operation> {
    if own == [] then []
    else
      var rest, last := own[..|own| - 1], own[|own| - 1];
      CommittedBy(policy, s, env, rest)
      + var answer := AnswerTo(policy, StoreAfter(policy, s, env, rest), last.now, last.op);
        if answer == Published(true) then [last.op] else []
  }

  /** The whole run: own transactions, each followed by those of the others. */
  function Woven(env: Environment, own: seq<Step>): seq<Step> {
    if own == [] then []
    else Woven(env, own[..|own| - 1]) + [own[|own| - 1]] + env.others(|own| - 1)
  }

  lemma {:induction false} FinalAppends(policy: Policy, s: Store, a: seq<Step>, b: seq<Step>)
    ensures Final(policy, s, a + b) == Final(policy, Final(policy, s, a), b)
    decreases a
  {
    hide Decide;
    if a == [] {
      assert a + b == b;
    } else {
      assert (a + b)[0] == a[0] && (a + b)[1..] == a[1..] + b;
      FinalAppends(policy, Next(policy, s, a[0].now, a[0].op), a[1..], b);
    }
  }

  lemma {:induction false} AfterIsFinal(policy: Policy, s: Store, env: Environment, own: seq<Step>)
    ensures StoreAfter(policy, s, env, own) == Final(policy, s, Woven(env, own))
  {
    hide Decide;
    if own != [] {
      var rest, last := own[..|own| - 1], own[|own| - 1];
      AfterIsFinal(policy, s, env, rest);
      FinalAppends(policy, s, Woven(env, rest) + [last], env.others(|own| - 1));
      FinalAppends(policy, s, Woven(env, rest), [last]);
      var before := StoreAfter(policy, s, env, rest);
      assert [last][1..] == [];
      assert Final(policy, before, [last]) == Next(policy, before, last.now, last.op);
    }
  }

  lemma AfterOneMore(policy: Policy, s: Store, env: Environment, own: seq<Step>, step: Step)
    ensures StoreAfter(policy, s, env, own + [step])
      == Final(policy, Next(policy, StoreAfter(policy, s, env, own), step.now, step.op), env.others(|own|))
    ensures CommittedBy(policy, s, env, own + [step]) == CommittedBy(policy, s, env, own)
      + var answer := AnswerTo(policy, StoreAfter(policy, s, env, own), step.now, step.op);
        if answer == Published(true) then [step.op] else []
  {
    assert (own + [step])[..|own|] == own;
  }

  // ---------------------------------------------------------------- the choice of a publication

  function FailureOrCancelled(claim: ExecutionClaim, isStopped: bool, code: ErrorCode, message: string): Operation {
    if isStopped then Operation.PublishCancelled(claim) else Operation.PublishFailure(claim, code, message)
  }

  /** The first publication that a claimed delivery attempts; none if its task was cancelled. */
  function FirstPublication(claimed: ClaimedJob, outcome: ExecutorOutcome, isStopped: bool): Option<Operation> {
    var claim := claimed.claim;
    match outcome
    case TaskCancelled => None
    case UrlRefused(code, message) => Some(Operation.PublishFailure(claim, code, message))
    case CancellationRaised => Some(Operation.PublishCancelled(claim))
    case ErrorRaised(code, message) => Some(FailureOrCancelled(claim, isStopped, code, message))
    case UnexpectedRaised => Some(FailureOrCancelled(claim, isStopped, InternalError, INTERNAL_ERROR_MESSAGE))
    case Produced(result) =>
      if isStopped then Some(Operation.PublishCancelled(claim))
      else match BuildTranscriptionResponse(result, claimed.exclusions)
        case None => Some(FailureOrCancelled(claim, isStopped, InternalError, INTERNAL_ERROR_MESSAGE))
        case Some(response) => Some(Operation.PublishSuccess(claim, response))
  }

  predicate Publishes(op: Operation) {
    op.PublishCancelled? || op.PublishSuccess? || op.PublishFailure?
  }

  predicate IsPublicationFor(op: Operation, claim: ExecutionClaim) {
    Publishes(op) && op.claim == claim
  }

  /** The event that reports a committed publication. */
  function EventOf(op: Operation): FinishedEvent
    requires Publishes(op)
  {
    var id := op.claim.dispatch.internalJobId;
    match op
    case PublishCancelled(_) => FinishedEvent(id, Cancelled, None)
    case PublishSuccess(_, _) => FinishedEvent(id, Succeeded, None)
    case PublishFailure(_, code, _) => FinishedEvent(id, Failed, Some(code))
  }

  /** The stored job says what the event says, unless retention has removed it. */
  predicate IsTrueOf(event: FinishedEvent, s: Store) {
    var id := event.internalJobId;
    id in s.rows ==>
      && s.rows[id].job.status.Finished?
      && s.rows[id].job.outcome == Some(event.outcome)
      && s.rows[id].job.errorCode == event.code
  }

  /** The stored job has the outcome, error and result of the publication, unless retention has removed it. */
  predicate Stands(op: Operation, s: Store)
    requires Publishes(op)
  {
    var id := op.claim.dispatch.internalJobId;
    && IsTrueOf(EventOf(op), s)
    && (id in s.rows ==>
          match op
          case PublishCancelled(_) => s.rows[id].job.outcome == Some(Cancelled)
          case PublishSuccess(_, response) =>
            s.rows[id].job.outcome == Some(Succeeded) && s.rows[id].result == Some(Stored(response))
          case PublishFailure(_, code, message) =>
            && s.rows[id].job.outcome == Some(Failed)
            && s.rows[id].job.errorCode == Some(code) && s.rows[id].job.errorMessage == Some(message))
  }

  lemma CommittedStands(policy: Policy, s: Store, now: Instant, op: Operation)
    requires Invariant(policy, s, now)
    requires Publishes(op) && AnswerTo(policy, s, now, op) == Published(true)
    ensures op.claim.dispatch.internalJobId in Next(policy, s, now, op).rows
    ensures Stands(op, Next(policy, s, now, op))
  {
    match op {
      case PublishCancelled(claim) => C.PublishCancelledContract(policy, s, now, claim);
      case PublishSuccess(claim, response) => C.PublishSuccessContract(policy, s, now, claim, response);
      case PublishFailure(claim, code, message) => C.PublishFailureContract(policy, s, now, claim, code, message);
    }
    hide Decide;
    assert RowInvariant(policy, s.rows[op.claim.dispatch.internalJobId], now);
    hide Stored;
    hide RowInvariant;
  }

  /** A committed publication makes its event true, and nothing that follows makes it false. */
  lemma CommittedIsTrue(policy: Policy, s: Store, earlier: Instant, now: Instant, op: Operation, claim: ExecutionClaim,
                        others: seq<Step>)
    requires Invariant(policy, s, earlier) && earlier <= now && Timely(now, others)
    requires IsPublicationFor(op, claim) && AnswerTo(policy, s, now, op) == Published(true)
    ensures Stands(op, Final(policy, Next(policy, s, now, op), others))
  {
    hide Decide;
    InvariantLater(policy, s, earlier, now);
    CommittedStands(policy, s, now, op);
    NextKeepsInvariant(policy, s, earlier, now, op);
    RunEvolves(policy, Next(policy, s, now, op), now, others);
    hide Invariant;
  }

  // ---------------------------------------------------------------- own transactions

  lemma PublicationAnswers(policy: Policy, s: Store, now: Instant, op: Operation)
    requires Publishes(op)
    ensures AnswerTo(policy, s, now, op).Published? || AnswerTo(policy, s, now, op).StoreUnavailable?
    ensures op.PublishCancelled? ==> AnswerTo(policy, s, now, op).Published?
  {
  }

  lemma ClaimAnswers(policy: Policy, s: Store, now: Instant, dispatch: JobDispatch, workerOwner: Uuid, duration: int)
    requires Invariant(policy, s, now) && duration > 0
    ensures var answer := AnswerTo(policy, s, now, Operation.ClaimDispatch(dispatch, workerOwner, duration));
      answer == NotClaimed || (answer.Claimed? && answer.claimed.claim == ExecutionClaim(dispatch, workerOwner))
  {
    C.ClaimContract(policy, s, now, dispatch, workerOwner, duration);
    hide Decide;
    hide Invariant;
  }

  /** `publish_failure` is refused, other than by a validator, exactly for a claim that may not fail its job. */
  lemma FailureRefusedIff(policy: Policy, s: Store, now: Instant, claim: ExecutionClaim, code: ErrorCode,
      message: string)
    ensures AnswerTo(policy, s, now, Operation.PublishFailure(claim, code, message)) == Published(false)
       <==> message != "" && !MayPublish(s.rows, claim, false, now)
  {
  }

  function OptionalEvent(committed: Option<Operation>): seq<FinishedEvent>
    requires committed.Some? ==> Publishes(committed.value)
  {
    if committed.None? then [] else [EventOf(committed.value)]
  }

  /** `execute` has been called, so an ownership sets the cleanup signal sooner or later. */
  predicate HasRun(env: Environment) { !env.outcome.UrlRefused? }

  /** Cleanup is complete, or waits for retained native work, exactly if `execute` has been called. */
  ghost predicate HasCleanup(
    env: Environment, control: TranscriptionExecutionControl, ownership: N.TranscriptionOwnership?)
    reads control, ownership
  {
    && (ownership != null <==> HasRun(env))
    && (ownership == null ==> !control.cleanupComplete)
    && (ownership != null ==>
          && ownership.control == control && ownership.preparedAudio == null
          && ownership.callerFinished
          && (!control.cleanupComplete ==>
                ownership.nativeRetained && !ownership.nativeCompleted && !ownership.released))
  }

  /** The response shows of the result what is not excluded, and nothing else. */
  predicate IsProjectionOf(
    response: TranscriptionResponse, result: TranscriptionResult, excluded: set<FieldPath>)
  {
    && HasKeptSegments(result, excluded)
    && ShowsSource(response, result, excluded) && ShowsTranscript(response, result, excluded)
  }

  /**
   The publication that each end calls for: the raised code and message, the internal error for whatever
   is unexpected, the projected result, or cancellation once the delivery was stopped in `execute`.
   */
  predicate CallsFor(claimed: ClaimedJob, outcome: ExecutorOutcome, isStopped: bool, op: Operation) {
    var claim, internal :=
      claimed.claim, Operation.PublishFailure(claimed.claim, InternalError, INTERNAL_ERROR_MESSAGE);
    match outcome
    case TaskCancelled => false
    case UrlRefused(code, message) => op == Operation.PublishFailure(claim, code, message)
    case CancellationRaised => op == Operation.PublishCancelled(claim)
    case ErrorRaised(code, message) =>
      op == if isStopped then Operation.PublishCancelled(claim) else Operation.PublishFailure(claim, code, message)
    case UnexpectedRaised => op == if isStopped then Operation.PublishCancelled(claim) else internal
    case Produced(result) =>
      if isStopped then op == Operation.PublishCancelled(claim)
      else if !HasKeptSegments(result, claimed.exclusions) then op == internal
      else op.PublishSuccess? && op.claim == claim && IsProjectionOf(op.response, result, claimed.exclusions)
  }

  /**
   The transactions after the claim: none for a cancelled task, otherwise the publication called for,
   and after it a cancelled one at most.
   */
  predicate PublishesAsCalled(claimed: ClaimedJob, outcome: ExecutorOutcome, isStopped: bool, own: seq<Step>) {
    && |own| <= 3
    && (outcome.TaskCancelled? ==> |own| == 1)
    && (!outcome.TaskCancelled? ==> |own| > 1)
    && (|own| > 1 ==> CallsFor(claimed, outcome, isStopped, own[1].op))
    && (|own| > 2 ==> !own[1].op.PublishCancelled? && own[2].op == Operation.PublishCancelled(claimed.claim))
  }

  lemma FirstIsCalledFor(claimed: ClaimedJob, outcome: ExecutorOutcome, isStopped: bool)
    ensures var first := FirstPublication(claimed, outcome, isStopped);
      && (first.None? <==> outcome.TaskCancelled?)
      && (first.Some? ==> CallsFor(claimed, outcome, isStopped, first.value))
  {
    if outcome.Produced? && HasKeptSegments(outcome.result, claimed.exclusions) {
      ProjectionByField(outcome.result, claimed.exclusions);
    }
  }

  class TranscriptionJobProcessor {
    const repository: PostgresTranscriptionJobRepository
    const workerOwner: Uuid
    const claimLeaseDuration: int

    /** The claims given back to the claim manager, and the finished events emitted, in order. */
    var released: seq<ExecutionClaim>
    var events: seq<FinishedEvent>

    constructor (repository: PostgresTranscriptionJobRepository, workerOwner: Uuid, claimLeaseDuration: int)
      ensures this.repository == repository && this.workerOwner == workerOwner
      ensures this.claimLeaseDuration == claimLeaseDuration && released == [] && events == []
    {
      this.repository := repository;
      this.workerOwner := workerOwner;
      this.claimLeaseDuration := claimLeaseDuration;
      released, events := [], [];
    }

    /** The database is what the own transactions so far, and the others, have made of `start`. */
    ghost predicate Traced(env: Environment, start: Store, own: seq<Step>)
      reads repository
    {
      && repository.Valid()
      && Orderly(env)
      && repository.asOf <= env.clock(|own|)
      && repository.Db() == StoreAfter(repository.policy, start, env, own)
      && OwnOnly(env, own)
    }

    /** One publication transaction, and what others do after it; cancellation waits for cleanup. */
    method Publish(
      env: Environment, control: TranscriptionExecutionControl, ghost start: Store, own: seq<Step>, op: Operation)
      returns (answer: Answer, own': seq<Step>)
      requires Traced(env, start, own) && Publishes(op)
      requires op.PublishCancelled? ==> control.cleanupComplete
      modifies repository
      ensures own' == own + [Step(env.clock(|own|), op)] && Traced(env, start, own')
      ensures answer == AnswerTo(repository.policy, old(repository.Db()), env.clock(|own|), op)
      ensures CommittedBy(repository.policy, start, env, own')
        == CommittedBy(repository.policy, start, env, own) + if answer == Published(true) then [op] else []
      ensures answer.Published? || (answer.StoreUnavailable? && !op.PublishCancelled?)
      ensures answer == Published(true) ==> Stands(op, repository.Db())
    {
      hide Invariant;
      hide Decide;
      hide Stands;
      var now := env.clock(|own|);
      ghost var db, asOf := repository.Db(), repository.asOf;
      match op {
        case PublishCancelled(claim) => answer := repository.PublishCancelled(claim, now);
        case PublishSuccess(claim, response) => answer := repository.PublishSuccess(claim, response, now);
        case PublishFailure(claim, code, message) => answer := repository.PublishFailure(claim, code, message, now);
      }
      PublicationAnswers(repository.policy, db, now, op);
      if answer == Published(true) {
        CommittedIsTrue(repository.policy, db, asOf, now, op, op.claim, env.others(|own|));
      }
      own' := own + [Step(now, op)];
      AfterOneMore(repository.policy, start, env, own, Step(now, op));
      repository.Interleave(env.others(|own|));
    }

    /** `_publish_cancelled_after_cleanup`: it waits for the last owner, and for good if `execute` made none. */
    method PublishCancelledAfterCleanup(
      env: Environment, claim: ExecutionClaim, control: TranscriptionExecutionControl,
      ownership: N.TranscriptionOwnership?, ghost start: Store, own: seq<Step>)
      returns (own': seq<Step>, committed: Option<Operation>, ending: Ending)
      requires Traced(env, start, own)
      requires HasCleanup(env, control, ownership)
      modifies this`events, repository, control, ownership
      ensures Traced(env, start, own')
      ensures own' == if !HasRun(env) then own else own + [Step(env.clock(|own|), Operation.PublishCancelled(claim))]
      ensures ending == if !HasRun(env) then Waiting else Returned
      ensures committed.Some? ==> committed.value == Operation.PublishCancelled(claim) && control.cleanupComplete
      ensures committed.Some? ==> Stands(committed.value, repository.Db())
      ensures CommittedBy(repository.policy, start, env, own')
        == CommittedBy(repository.policy, start, env, own) + if committed.Some? then [committed.value] else []
      ensures events == old(events) + OptionalEvent(committed)
    {
      hide Invariant;
      hide Decide;
      hide Stands;
      hide StoreAfter;
      hide CommittedBy;
      if !control.cleanupComplete {
        if ownership == null {
          return own, None, Waiting;
        }
        // The finalizer of the retained native work sets the signal when that work has ended.
        ownership.CompleteNativeWork();
      }
      var answer;
      answer, own' := Publish(env, control, start, own, Operation.PublishCancelled(claim));
      committed, ending := None, Returned;
      if answer.committed {
        committed := Some(Operation.PublishCancelled(claim));
        events := events + [EventOf(Operation.PublishCancelled(claim))];
      }
    }

    /** The transactions of a publication: the first attempt, and cancellation if that was refused. */
    ghost predicate Attempted(env: Environment, start: Store, own: seq<Step>, op: Operation, own': seq<Step>)
    {
      && own <= own'
      && if op.PublishCancelled? then
           if !HasRun(env) then own' == own else |own'| == |own| + 1 && own'[|own|].op == op
         else
           && |own'| > |own| && own'[|own|].op == op && Publishes(op)
           && (if IsRefused(env, start, own, op) && HasRun(env)
               then |own'| == |own| + 2 && own'[|own| + 1].op == Operation.PublishCancelled(op.claim)
               else |own'| == |own| + 1)
    }

    /** The publication finds its claim stale, or the cancellation flag against it. */
    ghost predicate IsRefused(env: Environment, start: Store, own: seq<Step>, op: Operation) {
      var db := StoreAfter(repository.policy, start, env, own);
      AnswerTo(repository.policy, db, env.clock(|own|), op) == Published(false)
    }

    /** The publication finds the store unavailable, or its content refused. */
    ghost predicate IsUnavailable(env: Environment, start: Store, own: seq<Step>, op: Operation) {
      var db := StoreAfter(repository.policy, start, env, own);
      AnswerTo(repository.policy, db, env.clock(|own|), op) == StoreUnavailable
    }

    /** After its claim a delivery makes the transactions of the publication that its outcome calls for. */
    ghost predicate Prescribed(env: Environment, start: Store, own: seq<Step>, claimed: ClaimedJob, own': seq<Step>) {
      match FirstPublication(claimed, env.outcome, env.isStopped)
      case None => own' == own
      case Some(first) => Attempted(env, start, own, first, own')
    }

    lemma PrescribedIsCalledFor(env: Environment, start: Store, own: seq<Step>, claimed: ClaimedJob, own': seq<Step>)
      requires |own| == 1 && Prescribed(env, start, own, claimed, own')
      ensures PublishesAsCalled(claimed, env.outcome, env.isStopped, own')
    {
      FirstIsCalledFor(claimed, env.outcome, env.isStopped);
      hide FirstPublication;
      hide CallsFor;
      hide IsRefused;
    }

    /** `_publish_failure_or_cancelled`. */
    method PublishFailureOrCancelled(
      env: Environment, claim: ExecutionClaim, control: TranscriptionExecutionControl,
      ownership: N.TranscriptionOwnership?, code: ErrorCode, message: string, ghost start: Store, own: seq<Step>)
      returns (own': seq<Step>, committed: Option<Operation>, ending: Ending)
      requires Traced(env, start, own)
      requires HasCleanup(env, control, ownership)
      modifies this`events, repository, control, ownership
      ensures Traced(env, start, own')
      ensures Attempted(env, start, own, FailureOrCancelled(claim, old(control.cancellationRequested), code, message),
          own')
      ensures ending.Waiting? <==>
        (!HasRun(env) && (old(control.cancellationRequested)
                          || IsRefused(env, start, own, Operation.PublishFailure(claim, code, message))))
      ensures ending.Raised? <==>
        !old(control.cancellationRequested)
        && IsUnavailable(env, start, own, Operation.PublishFailure(claim, code, message))
      ensures committed.Some? ==>
          IsPublicationFor(committed.value, claim) && Stands(committed.value, repository.Db())
      ensures CommittedBy(repository.policy, start, env, own')
        == CommittedBy(repository.policy, start, env, own) + if committed.Some? then [committed.value] else []
      ensures events == old(events) + OptionalEvent(committed)
    {
      hide Invariant;
      hide Decide;
      hide Stands;
      hide StoreAfter;
      hide CommittedBy;
      if control.cancellationRequested {
        own', committed, ending := PublishCancelledAfterCleanup(env, claim, control, ownership, start, own);
        return;
      }
      own', committed, ending := PublishOr(env, control, ownership, start, own,
          Operation.PublishFailure(claim, code, message));
    }

    /** Publishes, and falls back to cancellation if the publication is refused. */
    method PublishOr(
      env: Environment, control: TranscriptionExecutionControl,
      ownership: N.TranscriptionOwnership?, ghost start: Store, own: seq<Step>, op: Operation)
      returns (own': seq<Step>, committed: Option<Operation>, ending: Ending)
      requires Traced(env, start, own) && Publishes(op) && !op.PublishCancelled?
      requires HasCleanup(env, control, ownership)
      modifies this`events, repository, control, ownership
      ensures Traced(env, start, own')
      ensures Attempted(env, start, own, op, own')
      ensures ending.Waiting? <==> !HasRun(env) && IsRefused(env, start, own, op)
      ensures ending.Raised? <==> IsUnavailable(env, start, own, op)
      ensures committed.Some? ==>
          IsPublicationFor(committed.value, op.claim) && Stands(committed.value, repository.Db())
      ensures CommittedBy(repository.policy, start, env, own')
        == CommittedBy(repository.policy, start, env, own) + if committed.Some? then [committed.value] else []
      ensures events == old(events) + OptionalEvent(committed)
    {
      hide Invariant;
      hide Decide;
      hide Stands;
      hide StoreAfter;
      hide CommittedBy;
      var answer;
      answer, own' := Publish(env, control, start, own, op);
      assert own'[..|own|] == own;
      committed, ending := None, Returned;
      if answer.StoreUnavailable? {
        ending := Raised;
      } else if answer.committed {
        committed := Some(op);
        events := events + [EventOf(op)];
      } else {
        ghost var first := own';
        own', committed, ending := PublishCancelledAfterCleanup(env, op.claim, control, ownership, start, own');
        assert own'[..|own|] == first[..|own|];
      }
    }

    /** The `except` and `else` branches: which publication the end of the execution calls for. */
    method PublishOutcome(
      env: Environment, claimed: ClaimedJob, control: TranscriptionExecutionControl,
      ownership: N.TranscriptionOwnership?, ghost start: Store, own: seq<Step>)
      returns (own': seq<Step>, committed: Option<Operation>, ending: Ending)
      requires Traced(env, start, own)
      requires HasCleanup(env, control, ownership)
      requires control.cancellationRequested == (HasRun(env) && env.isStopped)
      modifies this`events, repository, control, ownership
      ensures Traced(env, start, own')
      ensures Prescribed(env, start, own, claimed, own')
      ensures ending.Waiting? <==> env.outcome.UrlRefused? && IsRefused(
        env, start, own, Operation.PublishFailure(claimed.claim, env.outcome.code, env.outcome.message))
      ensures ending.Raised? <==>
        env.outcome.TaskCancelled?
        || (|own'| > |own| && !own'[|own|].op.PublishCancelled? && IsUnavailable(env, start, own, own'[|own|].op))
      ensures committed.Some? ==>
        IsPublicationFor(committed.value, claimed.claim) && Stands(committed.value, repository.Db())
      ensures CommittedBy(repository.policy, start, env, own')
        == CommittedBy(repository.policy, start, env, own) + if committed.Some? then [committed.value] else []
      ensures events == old(events) + OptionalEvent(committed)
    {
      hide Invariant;
      hide Decide;
      hide Stands;
      hide StoreAfter;
      hide CommittedBy;
      hide IsRefused;
      hide IsUnavailable;
      hide MayPublish;
      hide BuildTranscriptionResponse;
      hide Orderly;
      hide OwnOnly;
      own', committed, ending := own, None, Raised;
      match env.outcome {
        case TaskCancelled =>
        case CancellationRaised =>
          own', committed, ending := PublishCancelledAfterCleanup(env, claimed.claim, control, ownership, start, own);
        case UrlRefused(code, message) =>
          own', committed, ending := PublishFailureOrCancelled(env, claimed.claim, control, ownership, code, message,
              start, own);
        case ErrorRaised(code, message) =>
          if control.cancellationRequested {
            own', committed, ending := PublishCancelledAfterCleanup(env, claimed.claim, control, ownership, start, own);
          } else {
            own', committed, ending := PublishFailureOrCancelled(env, claimed.claim, control, ownership, code, message,
                start, own);
          }
        case UnexpectedRaised =>
          if control.cancellationRequested {
            own', committed, ending := PublishCancelledAfterCleanup(env, claimed.claim, control, ownership, start, own);
          } else {
            own', committed, ending :=
              PublishFailureOrCancelled(env, claimed.claim, control, ownership, InternalError, INTERNAL_ERROR_MESSAGE,
                  start, own);
          }
        case Produced(result) =>
          if control.cancellationRequested {
            own', committed, ending := PublishCancelledAfterCleanup(env, claimed.claim, control, ownership, start, own);
          } else {
            var projected := BuildTranscriptionResponse(result, claimed.exclusions);
            if projected.None? {
              own', committed, ending :=
                PublishFailureOrCancelled(env, claimed.claim, control, ownership, InternalError,
                    INTERNAL_ERROR_MESSAGE, start, own);
            } else {
              own', committed, ending :=
                PublishOr(env, control, ownership, start, own,
                    Operation.PublishSuccess(claimed.claim, projected.value));
            }
          }
      }
    }

    /** `process`. */
    method Process(env: Environment, dispatch: JobDispatch) returns (report: Report)
      requires repository.Valid() && Orderly(env) && repository.asOf <= env.clock(0) && claimLeaseDuration > 0
      modifies this, repository
      ensures Traced(env, old(repository.Db()), report.own)
      ensures report.own != [] <==> env.isAdmitted
      ensures report.own != [] ==> var claiming := Operation.ClaimDispatch(dispatch, workerOwner, claimLeaseDuration);
        && report.own[0] == Step(env.clock(0), claiming)
        && (report.claimed.Some? <==>
            AnswerTo(repository.policy, old(repository.Db()), env.clock(0), claiming).Claimed?)
        && (report.claimed.Some? ==>
              && report.claimed.value.claim == ExecutionClaim(dispatch, workerOwner)
              && Prescribed(env, old(repository.Db()), [report.own[0]], report.claimed.value, report.own)
              && PublishesAsCalled(report.claimed.value, env.outcome, env.isStopped, report.own))
      ensures report.claimed.None? ==> |report.own| <= 1
      ensures CommittedBy(repository.policy, old(repository.Db()), env, report.own)
        == if report.committed.Some? then [report.committed.value] else []
      ensures report.committed.Some? ==>
        && report.claimed.Some? && IsPublicationFor(report.committed.value, report.claimed.value.claim)
        && Stands(report.committed.value, repository.Db())
      ensures events == old(events) + OptionalEvent(report.committed)
      ensures report.ending.Waiting? <==>
        NeverReturns(repository.policy, old(repository.Db()), env, dispatch, workerOwner, claimLeaseDuration)
      ensures report.ending.Raised? <==>
        report.claimed.Some?
        && (env.outcome.TaskCancelled?
            || (|report.own| > 1 && !report.own[1].op.PublishCancelled?
                && IsUnavailable(env, old(repository.Db()), [report.own[0]], report.own[1].op)))
      ensures released == old(released)
        + if report.claimed.Some? && !report.ending.Waiting? then [report.claimed.value.claim] else []
    {
      hide Invariant;
      hide Decide;
      hide Stands;
      hide StoreAfter;
      hide CommittedBy;
      ghost var start := repository.Db();
      var control := new TranscriptionExecutionControl();
      NothingYet(repository.policy, start, env);
      if !env.isAdmitted {
        return Report(None, [], None, Returned);
      }
      var answer, own := Claim(env, dispatch);
      if !answer.Claimed? {
        return Report(None, own, None, if answer.NotClaimed? then Returned else Raised);
      }
      var claimed := answer.claimed;
      var ownership: N.TranscriptionOwnership? := null;
      if HasRun(env) {
        ownership := Execute(env, control);
      }
      if env.outcome.UrlRefused? {
        FailureRefusedIff(repository.policy, StoreAfter(repository.policy, start, env, own), env.clock(1),
                          claimed.claim, env.outcome.code, env.outcome.message);
      }
      hide FirstPublication;
      hide PublishesAsCalled;
      ghost var claiming := own;
      var committed, ending;
      own, committed, ending := PublishOutcome(env, claimed, control, ownership, start, own);
      PrescribedIsCalledFor(env, start, claiming, claimed, own);
      if !ending.Waiting? {
        released := released + [claimed.claim];
      }
      report := Report(Some(claimed), own, committed, ending);
    }

    /** `claim_manager.claim`, once it admits the dispatch. */
    method Claim(env: Environment, dispatch: JobDispatch) returns (answer: Answer, own: seq<Step>)
      requires repository.Valid() && Orderly(env) && repository.asOf <= env.clock(0) && claimLeaseDuration > 0
      modifies repository
      ensures own == [Step(env.clock(0), Operation.ClaimDispatch(dispatch, workerOwner, claimLeaseDuration))]
      ensures Traced(env, old(repository.Db()), own)
      ensures answer == AnswerTo(repository.policy, old(repository.Db()), env.clock(0), own[0].op)
      ensures answer == NotClaimed
           || (answer.Claimed? && answer.claimed.claim == ExecutionClaim(dispatch, workerOwner))
      ensures CommittedBy(repository.policy, old(repository.Db()), env, own) == []
    {
      hide Invariant;
      hide Decide;
      ghost var start, asOf := repository.Db(), repository.asOf;
      answer := repository.ClaimDispatch(dispatch, workerOwner, claimLeaseDuration, env.clock(0));
      InvariantLater(repository.policy, start, asOf, env.clock(0));
      ClaimAnswers(repository.policy, start, env.clock(0), dispatch, workerOwner, claimLeaseDuration);
      own := [Step(env.clock(0), Operation.ClaimDispatch(dispatch, workerOwner, claimLeaseDuration))];
      AfterOneMore(repository.policy, start, env, [], own[0]);
      assert [] + [own[0]] == own;
      repository.Interleave(env.others(0));
    }

    /** The executor's run: the signals and the ownership as they stand when it has returned or raised. */
    method Execute(env: Environment, control: TranscriptionExecutionControl)
        returns (ownership: N.TranscriptionOwnership)
      requires HasRun(env) && !control.cancellationRequested && !control.cleanupComplete
      modifies control
      ensures fresh(ownership) && HasCleanup(env, control, ownership)
      ensures control.cancellationRequested == env.isStopped
      ensures control.cleanupComplete <==> !env.isRetained
    {
      if env.isStopped {
        control.RequestCancellation();
      }
      ownership := new N.TranscriptionOwnership(null, control);
      if env.isRetained {
        ownership.RetainNativeWork();
      }
      N.FinishExecution(ownership, null, control);
    }
  }

  /**
   When `process` waits for good, and its claim is not given back: the delivery is claimed, its URL is
   refused before `execute`, and by the time of the failure publication the job is flagged or the claim
   is no longer live.
   */
  ghost predicate NeverReturns(
    policy: Policy, start: Store, env: Environment, dispatch: JobDispatch, workerOwner: Uuid, duration: int)
  {
    var claiming := Step(env.clock(0), Operation.ClaimDispatch(dispatch, workerOwner, duration));
    && env.isAdmitted && env.outcome.UrlRefused? && env.outcome.message != ""
    && AnswerTo(policy, start, env.clock(0), claiming.op).Claimed?
    && !MayPublish(
          StoreAfter(policy, start, env, [claiming]).rows, ExecutionClaim(dispatch, workerOwner), false, env.clock(1))
  }

  lemma NothingYet(policy: Policy, start: Store, env: Environment)
    ensures StoreAfter(policy, start, env, []) == start && CommittedBy(policy, start, env, []) == []
  {
  }

  // ---------------------------------------------------------------- what a delivery cannot do

  /** Own transactions are a claim and publications, and read the clock as the environment provides it. */
  predicate OwnOnly(env: Environment, own: seq<Step>) {
    forall k | 0 <= k < |own| :: own[k].now == env.clock(k) && (own[k].op.ClaimDispatch? || Publishes(own[k].op))
  }

  lemma {:induction false} TimelyAppends(start: Instant, a: seq<Step>, b: seq<Step>)
    requires Timely(start, a) && Timely(LastInstant(start, a), b)
    ensures Timely(start, a + b) && LastInstant(start, a + b) == LastInstant(LastInstant(start, a), b)
    decreases a
  {
    if a == [] {
      assert a + b == b;
    } else {
      assert (a + b)[1..] == a[1..] + b;
      TimelyAppends(a[0].now, a[1..], b);
    }
  }

  lemma {:induction false} WovenIsTimely(start: Instant, env: Environment, own: seq<Step>)
    requires Orderly(env) && start <= env.clock(0) && OwnOnly(env, own)
    ensures Timely(start, Woven(env, own)) && LastInstant(start, Woven(env, own)) <= env.clock(|own|)
  {
    if own != [] {
      var k := |own| - 1;
      var rest, last := own[..k], own[k];
      WovenIsTimely(start, env, rest);
      assert Timely(LastInstant(start, Woven(env, rest)), [last]) by {
        assert [last][1..] == [];
      }
      TimelyAppends(start, Woven(env, rest), [last]);
      TimelyAppends(start, Woven(env, rest) + [last], env.others(k));
    }
  }

  lemma {:induction false} AcceptanceNeedsRequest(policy: Policy, s: Store, run: seq<Step>, id: JobId)
    requires FirstAcceptances(policy, s, run, id) > 0
    ensures exists step :: step in run && step.op.RequestCancellation?
    decreases run
  {
    var now, op := run[0].now, run[0].op;
    if op.RequestCancellation? {
      assert run[0] in run;
    } else {
      OnlyCancellationCancels(policy, s, now, op);
      hide Decide;
      AcceptanceNeedsRequest(policy, Next(policy, s, now, op), run[1..], id);
      var step :| step in run[1..] && step.op.RequestCancellation?;
      assert step in run;
    }
  }

  lemma {:induction false} WovenSteps(env: Environment, own: seq<Step>, step: Step)
    requires step in Woven(env, own) && step !in own
    ensures exists k :: 0 <= k < |own| && step in env.others(k)
  {
    var k := |own| - 1;
    if step !in env.others(k) {
      assert step != own[k];
      WovenSteps(env, own[..k], step);
    }
  }

  /**
   A delivery never cancels a job by itself. Whatever made the processor stop, and whatever it
   published: a job cancelled in the meantime was cancelled by exactly one first acceptance, and the
   request for it came from another process.
   */
  lemma CancellationComesFromOthers(
    policy: Policy, start: Store, earlier: Instant, env: Environment, own: seq<Step>, id: JobId)
    requires Invariant(policy, start, earlier) && earlier <= env.clock(0) && Orderly(env) && OwnOnly(env, own)
    requires id in StoreAfter(policy, start, env, own).rows
    requires IsCancelled(StoreAfter(policy, start, env, own).rows[id].job)
    requires id in start.rows && !IsCancelled(start.rows[id].job)
    ensures FirstAcceptances(policy, start, Woven(env, own), id) == 1
    ensures exists k, step :: 0 <= k < |own| && step in env.others(k) && step.op.RequestCancellation?
  {
    hide Decide;
    hide Invariant;
    AfterIsFinal(policy, start, env, own);
    WovenIsTimely(earlier, env, own);
    AcceptancesCountCancellations(policy, start, earlier, Woven(env, own), id);
    AcceptanceNeedsRequest(policy, start, Woven(env, own), id);
    var step :| step in Woven(env, own) && step.op.RequestCancellation?;
    WovenSteps(env, own, step);
  }

  /**
   When the executor keeps segments where they are not excluded, a result is always published as a
   success unless the delivery was stopped. The database then refuses it for a claim that is no longer
   live or for a cancellation, and for its content exactly if a kept value does not fit its column.
   */
  lemma ResultIsStorable(policy: Policy, s: Store, now: Instant, claimed: ClaimedJob, result: TranscriptionResult)
    requires IsDomainResult(result) && HasKeptSegments(result, claimed.exclusions)
    requires claimed.claim.dispatch.internalJobId in s.rows ==>
      s.rows[claimed.claim.dispatch.internalJobId].exclusions == claimed.exclusions
    ensures var first := FirstPublication(claimed, Produced(result), false);
      && first.Some? && first.value.PublishSuccess?
      && AnswerTo(policy, s, now, first.value) ==
           if !MayPublish(s.rows, claimed.claim, false, now) then Published(false)
           else if FitsColumns(result, claimed.exclusions) then Published(true)
           else StoreUnavailable
  {
    StorageRoundTrip(result, claimed.exclusions);
  }

  // ---------------------------------------------------------------- a delivery that never returns

  /** A caller cancels job 1 right after it was claimed; its stored URL is one that the worker refuses. */
  function ExampleOthers(k: nat): seq<Step> {
    if k == 0 then [Step(1, RequestCancellation(11))] else []
  }

  function ExampleClock(k: nat): Instant { k + 1 }

  function ExampleEnvironment(): Environment {
    Environment(ExampleClock, ExampleOthers, true, UrlRefused(UnsupportedPlatform, "refused"), false, false)
  }

  lemma ExampleIsOrderly()
    ensures Orderly(ExampleEnvironment())
  {
    var env := ExampleEnvironment();
    forall k: nat
      ensures Timely(env.clock(k), env.others(k)) && LastInstant(env.clock(k), env.others(k)) <= env.clock(k + 1)
    {
      var run := ExampleOthers(k);
      assert run == [] || run[1..] == [];
    }
  }

  function ExampleClaimed(): Row {
    var row := NewRow(R.EXAMPLE_POLICY, 0, R.EXAMPLE_CREATE);
    Changed(row, StartProcessing(31, 5), 1)
  }

  lemma ExampleIsClaimed()
    ensures var s := Store(map[1 := NewRow(R.EXAMPLE_POLICY, 0, R.EXAMPLE_CREATE)], 2);
      var op := Operation.ClaimDispatch(JobDispatch(1, 12), 31, 5);
      && AnswerTo(R.EXAMPLE_POLICY, s, 1, op).Claimed?
      && Next(R.EXAMPLE_POLICY, s, 1, op) == Store(map[1 := ExampleClaimed()], 2)
  {
    var s := Store(map[1 := NewRow(R.EXAMPLE_POLICY, 0, R.EXAMPLE_CREATE)], 2);
    var op := Operation.ClaimDispatch(JobDispatch(1, 12), 31, 5);
    assert IsEarliest(EligibleStamps(s.rows, 1), 1);
    assert Perform(s, Update({1}, StartProcessing(31, 5)), 1).rows == map[1 := ExampleClaimed()];
  }

  lemma ExampleIsFlagged()
    ensures var s := Store(map[1 := ExampleClaimed()], 2);
      var next := Next(R.EXAMPLE_POLICY, s, 1, RequestCancellation(11));
      next.rows == map[1 := Changed(ExampleClaimed(), FlagCancellation, 1)]
  {
    var s := Store(map[1 := ExampleClaimed()], 2);
    assert HoldsPublicId(s.rows, 1, 11);
    assert forall id | HoldsPublicId(s.rows, id, 11) :: id == 1;
    var flagged := map[1 := Changed(ExampleClaimed(), FlagCancellation, 1)];
    assert Perform(s, Update({1}, FlagCancellation), 1).rows == flagged;
  }

  /**
   One such delivery, from a store that one admission reaches: the job is claimed, cancelled by its
   caller, and refused by the worker for its URL. Admission refuses such a URL as well, so the stored row
   has to stem from a version with other rules.
   */
  lemma WaitingExample()
    ensures var start := Next(R.EXAMPLE_POLICY, EMPTY_STORE, 0, R.EXAMPLE_CREATE);
      && Invariant(R.EXAMPLE_POLICY, start, 0) && Orderly(ExampleEnvironment())
      && NeverReturns(R.EXAMPLE_POLICY, start, ExampleEnvironment(), JobDispatch(1, 12), 31, 5)
  {
    var policy, env := R.EXAMPLE_POLICY, ExampleEnvironment();
    var start := Next(policy, EMPTY_STORE, 0, R.EXAMPLE_CREATE);
    EmptyStoreInvariant(policy, 0);
    NextKeepsInvariant(policy, EMPTY_STORE, 0, 0, R.EXAMPLE_CREATE);
    R.ExampleIsCreated();
    ExampleIsOrderly();
    ExampleIsClaimed();
    ExampleIsFlagged();
    var claiming := Step(1, Operation.ClaimDispatch(JobDispatch(1, 12), 31, 5));
    var cancelling := Step(1, RequestCancellation(11));
    hide Decide;
    hide Invariant;
    assert env.others(0) == [cancelling] && [cancelling][1..] == [];
    assert [claiming][..0] == [] && StoreAfter(policy, start, env, []) == start;
    var claimed := Next(policy, start, 1, claiming.op);
    var flagged := Next(policy, claimed, 1, cancelling.op);
    assert Final(policy, claimed, [cancelling]) == Final(policy, flagged, []);
    assert StoreAfter(policy, start, env, [claiming]) == flagged;
  }
}

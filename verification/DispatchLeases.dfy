/**
 Publication: how often an attempt can be dispatched before its queue deadline, and how the leases
 of any number of reconcilers exclude each other.
 */
module DispatchLeases {
  import opened Options
  import opened TranscriptTypes
  import opened ResultRows
  import opened JobTypes
  import opened Ordering
  import opened JobProtocol
  import opened StoreInvariant
  import opened JobHistory
  import opened JobContracts

  // ---------------------------------------------------------------- dispatch bound

  /** Every publication pushed the next one at least `interval` further from submission. */
  predicate DispatchPace(policy: Policy, row: Row, interval: int) {
    && row.attempt.nextDispatchAt >= row.job.submittedAt + row.attempt.dispatchCount * interval
    && (row.attempt.leaseOwner.Some? ==> row.attempt.nextDispatchAt < row.job.queueDeadlineAt)
    && (row.attempt.dispatchCount > 0 ==> (row.attempt.dispatchCount - 1) * interval < policy.queueTimeout)
  }

  predicate DispatchPaceKept(policy: Policy, s: Store, interval: int) {
    forall id | id in s.rows :: DispatchPace(policy, s.rows[id], interval)
  }

  predicate PacedOperation(op: Operation, interval: int) {
    op.RecordDispatchPublished? ==> op.redispatchAfter >= interval
  }

  predicate PacedRun(run: seq<Step>, interval: int) {
    forall step | step in run :: PacedOperation(step.op, interval)
  }

  lemma ChangeKeepsPace(policy: Policy, row: Row, change: Change, now: Instant, interval: int)
    requires RowInvariant(policy, row, now) && Enabled(row, change, now) && interval > 0
    requires DispatchPace(policy, row, interval)
    requires change.RecordPublication? ==> change.redispatchAfter >= interval
    ensures DispatchPace(policy, Changed(row, change, now), interval)
  {
    if change.RecordPublication? {
      var count := row.attempt.dispatchCount;
      assert (count + 1) * interval == count * interval + interval;
    }
  }

  /** What the pace needs to know about a decision: fresh rows start at their submission. */
  predicate PacedEffect(effect: Effect, interval: int) {
    && (effect.Insert? ==>
          && effect.row.attempt.nextDispatchAt == effect.row.job.submittedAt
          && effect.row.attempt.dispatchCount == 0 && effect.row.attempt.leaseOwner.None?)
    && (effect.Update? && effect.change.RecordPublication? ==> effect.change.redispatchAfter >= interval)
  }

  lemma DecisionIsPaced(policy: Policy, s: Store, now: Instant, op: Operation, interval: int)
    requires PacedOperation(op, interval)
    ensures PacedEffect(Decide(policy, s, now, op).effect, interval)
  {
  }

  lemma EffectKeepsPace(policy: Policy, s: Store, now: Instant, effect: Effect, interval: int)
    requires Invariant(policy, s, now) && interval > 0
    requires Lawful(policy, s, effect, now) && PacedEffect(effect, interval)
    requires DispatchPaceKept(policy, s, interval)
    ensures DispatchPaceKept(policy, Perform(s, effect, now), interval)
  {
    if effect.Update? {
      forall id | id in effect.updated
        ensures DispatchPace(policy, Changed(s.rows[id], effect.change, now), interval)
      {
        ChangeKeepsPace(policy, s.rows[id], effect.change, now, interval);
      }
    }
  }

  lemma StepKeepsPace(policy: Policy, s: Store, earlier: Instant, now: Instant, op: Operation, interval: int)
    requires Invariant(policy, s, earlier) && earlier <= now && interval > 0
    requires DispatchPaceKept(policy, s, interval) && PacedOperation(op, interval)
    ensures DispatchPaceKept(policy, Next(policy, s, now, op), interval)
  {
    NextEvolves(policy, s, earlier, now, op);
    DecisionIsPaced(policy, s, now, op, interval);
    EffectKeepsPace(policy, s, now, Decide(policy, s, now, op).effect, interval);
  }

  /**
   If every record delays the next dispatch by at least `interval`, an attempt is dispatched at most
   once more than whole intervals fit into the queue timeout, in every reachable store.
   */
  lemma {:induction false} DispatchBound(policy: Policy, s: Store, start: Instant, run: seq<Step>, interval: int)
    requires Invariant(policy, s, start) && Timely(start, run) && interval > 0
    requires DispatchPaceKept(policy, s, interval) && PacedRun(run, interval)
    ensures DispatchPaceKept(policy, Final(policy, s, run), interval)
    ensures forall id | id in Final(policy, s, run).rows && Final(policy, s, run).rows[id].attempt.dispatchCount > 0 ::
      (Final(policy, s, run).rows[id].attempt.dispatchCount - 1) * interval < policy.queueTimeout
    decreases run
  {
    if run != [] {
      var next := Next(policy, s, run[0].now, run[0].op);
      assert run[0] in run;
      StepKeepsPace(policy, s, start, run[0].now, run[0].op, interval);
      NextKeepsInvariant(policy, s, start, run[0].now, run[0].op);
      DispatchBound(policy, next, run[0].now, run[1..], interval);
    }
    var last := Final(policy, s, run);
    assert forall id | id in last.rows :: DispatchPace(policy, last.rows[id], interval);
  }

  // ---------------------------------------------------------------- lease exclusion

  /** The step is a record or a release by the owner that names the dispatch. */
  predicate GivesUp(op: Operation, dispatch: JobDispatch, owner: Uuid) {
    || (op.RecordDispatchPublished? && op.dispatch == dispatch && op.leaseOwner == owner)
    || (op.ReleaseDispatchLeases? && dispatch in op.dispatches && op.leaseOwner == owner)
  }

  predicate LeasedTo(s: Store, dispatch: JobDispatch, owner: Uuid, expiresAt: Instant) {
    && dispatch.internalJobId in s.rows
    && Matches(dispatch.internalJobId, s.rows[dispatch.internalJobId], dispatch)
    && s.rows[dispatch.internalJobId].attempt.leaseOwner == Some(owner)
    && s.rows[dispatch.internalJobId].attempt.leaseExpiresAt == Some(expiresAt)
  }

  predicate Leases(answer: Answer, dispatch: JobDispatch) {
    answer.Leased? && dispatch in answer.leased
  }

  /** The job is gone: its dispatch can match no row any more. */
  predicate IsGone(s: Store, id: JobId) {
    id < s.nextId && id !in s.rows
  }

  lemma OnlyLeasingLeases(policy: Policy, s: Store, now: Instant, op: Operation)
    requires AnswerTo(policy, s, now, op).Leased?
    ensures op.LeaseDueDispatches? && op.duration > 0 && op.limit > 0
    ensures Decide(policy, s, now, op) == DecideLease(s, now, op)
  {
  }

  lemma {:induction false} BatchIsDue(rows: Rows, now: Instant, batch: seq<JobId>, dispatch: JobDispatch)
    requires forall id | id in batch :: id in rows && IsDue(rows[id], now)
    requires dispatch in DispatchesOf(rows, batch)
    ensures var id := dispatch.internalJobId;
      id in Ids(batch) && id in rows && Matches(id, rows[id], dispatch) && IsDue(rows[id], now)
  {
    var last := batch[|batch| - 1];
    assert last in batch;
    if dispatch != DispatchOf(rows, last) {
      BatchIsDue(rows, now, batch[..|batch| - 1], dispatch);
    }
  }

  lemma LeasedBatchIsDue(s: Store, now: Instant, op: Operation, dispatch: JobDispatch)
    requires op.LeaseDueDispatches? && op.duration > 0 && op.limit > 0
    requires dispatch in DecideLease(s, now, op).answer.leased
    ensures var id := dispatch.internalJobId;
      && id in s.rows && Matches(id, s.rows[id], dispatch) && IsDue(s.rows[id], now)
      && id in DecideLease(s, now, op).effect.updated
  {
    var stamps := DueStamps(s.rows, now);
    var batch := Batch(stamps, op.limit);
    BatchMembers(stamps, op.limit);
    forall id | id in batch ensures id in s.rows && IsDue(s.rows[id], now) {
      assert id in stamps;
    }
    BatchIsDue(s.rows, now, batch, dispatch);
  }

  lemma PerformLease(s: Store, now: Instant, ids: set<JobId>, owner: Uuid, duration: int, dispatch: JobDispatch)
    requires dispatch.internalJobId in ids && dispatch.internalJobId in s.rows
    requires Matches(dispatch.internalJobId, s.rows[dispatch.internalJobId], dispatch)
    ensures LeasedTo(Perform(s, Update(ids, LeasePublication(owner, duration)), now), dispatch, owner, now + duration)
  {
  }

  lemma LeasedDispatchesAreDue(policy: Policy, s: Store, now: Instant, op: Operation, dispatch: JobDispatch)
    requires Leases(AnswerTo(policy, s, now, op), dispatch)
    ensures op.LeaseDueDispatches? && op.duration > 0
    ensures var id := dispatch.internalJobId;
      && id in s.rows && Matches(id, s.rows[id], dispatch) && IsDue(s.rows[id], now)
      && LeasedTo(Next(policy, s, now, op), dispatch, op.leaseOwner, now + op.duration)
  {
    OnlyLeasingLeases(policy, s, now, op);
    hide Decide;
    LeasedBatchIsDue(s, now, op, dispatch);
    var effect := DecideLease(s, now, op).effect;
    assert effect == Update(effect.updated, LeasePublication(op.leaseOwner, op.duration));
    PerformLease(s, now, effect.updated, op.leaseOwner, op.duration, dispatch);
  }

  lemma LeaseSurvivesStep(
    policy: Policy, s: Store, earlier: Instant, now: Instant, op: Operation,
    dispatch: JobDispatch, owner: Uuid, expiresAt: Instant)
    requires Invariant(policy, s, earlier) && earlier <= now < expiresAt
    requires LeasedTo(s, dispatch, owner, expiresAt) && !GivesUp(op, dispatch, owner)
    ensures !Leases(AnswerTo(policy, s, now, op), dispatch)
    ensures LeasedTo(Next(policy, s, now, op), dispatch, owner, expiresAt)
         || IsGone(Next(policy, s, now, op), dispatch.internalJobId)
  {
    NextEvolves(policy, s, earlier, now, op);
    if Leases(AnswerTo(policy, s, now, op), dispatch) {
      LeasedDispatchesAreDue(policy, s, now, op, dispatch);
      assert false;
    }
    var id := dispatch.internalJobId;
    var effect := Decide(policy, s, now, op).effect;
    if effect.Update? && id in effect.updated {
      assert Enabled(s.rows[id], effect.change, now);
      assert !effect.change.RecordPublication? && !effect.change.ReleasePublication? by {
        KeptByStrangers(policy, s, now, op, dispatch, owner);
      }
    }
  }

  /** A record or release that does not come from the lease owner, or names another dispatch, misses. */
  lemma KeptByStrangers(policy: Policy, s: Store, now: Instant, op: Operation, dispatch: JobDispatch, owner: Uuid)
    requires HoldsLease(s.rows, dispatch, owner) && !GivesUp(op, dispatch, owner)
    ensures var effect := Decide(policy, s, now, op).effect;
      (effect.Update? && (effect.change.RecordPublication? || effect.change.ReleasePublication?))
      ==> dispatch.internalJobId !in effect.updated
  {
  }

  /** Some step of the run gives the lease up. */
  predicate GivesUpInRun(run: seq<Step>, dispatch: JobDispatch, owner: Uuid) {
    exists i :: 0 <= i < |run| && GivesUp(run[i].op, dispatch, owner)
  }

  ghost predicate LeasedAgain(policy: Policy, s: Store, run: seq<Step>, dispatch: JobDispatch)
    decreases run
  {
    run != [] &&
    (Leases(AnswerTo(policy, s, run[0].now, run[0].op), dispatch)
     || LeasedAgain(policy, Next(policy, s, run[0].now, run[0].op), run[1..], dispatch))
  }

  lemma {:induction false} GoneIsNotLeased(policy: Policy, s: Store, start: Instant, run: seq<Step>,
      dispatch: JobDispatch)
    requires Invariant(policy, s, start) && Timely(start, run)
    requires IsGone(s, dispatch.internalJobId)
    ensures !LeasedAgain(policy, s, run, dispatch)
    decreases run
  {
    if run != [] {
      var now, op := run[0].now, run[0].op;
      if Leases(AnswerTo(policy, s, now, op), dispatch) {
        LeasedDispatchesAreDue(policy, s, now, op, dispatch);
        assert false;
      }
      NextEvolves(policy, s, start, now, op);
      GoneIsNotLeased(policy, Next(policy, s, now, op), now, run[1..], dispatch);
    }
  }

  lemma {:induction false} LeasedUntilGivenUp(
    policy: Policy, s: Store, start: Instant, run: seq<Step>, dispatch: JobDispatch, owner: Uuid, expiresAt: Instant)
    requires Invariant(policy, s, start) && Timely(start, run)
    requires LeasedTo(s, dispatch, owner, expiresAt)
    requires forall step | step in run :: step.now < expiresAt
    requires LeasedAgain(policy, s, run, dispatch)
    ensures GivesUpInRun(run, dispatch, owner)
    decreases run
  {
    var now, op := run[0].now, run[0].op;
    var next := Next(policy, s, now, op);
    if !GivesUp(op, dispatch, owner) {
      assert run[0] in run;
      LeaseSurvivesStep(policy, s, start, now, op, dispatch, owner, expiresAt);
      NextKeepsInvariant(policy, s, start, now, op);
      if IsGone(next, dispatch.internalJobId) {
        GoneIsNotLeased(policy, next, now, run[1..], dispatch);
      } else {
        LeasedUntilGivenUp(policy, next, now, run[1..], dispatch, owner, expiresAt);
        var i :| 0 <= i < |run[1..]| && GivesUp(run[1..][i].op, dispatch, owner);
        assert GivesUp(run[i + 1].op, dispatch, owner);
      }
    }
  }

  /**
   Leases exclude each other: once a lease call has returned a dispatch, another lease call (of
   whichever reconciler) returns it within the lease time only after its owner recorded or released
   it in between.
   */
  lemma LeasesExclude(
    policy: Policy, s: Store, start: Instant, first: Step, run: seq<Step>, dispatch: JobDispatch)
    requires Invariant(policy, s, start) && Timely(start, [first] + run)
    requires Leases(AnswerTo(policy, s, first.now, first.op), dispatch)
    requires forall step | step in run :: step.now < first.now + first.op.duration
    requires LeasedAgain(policy, Next(policy, s, first.now, first.op), run, dispatch)
    ensures first.op.LeaseDueDispatches? && GivesUpInRun(run, dispatch, first.op.leaseOwner)
  {
    hide Decide;
    assert ([first] + run)[0] == first && ([first] + run)[1..] == run;
    var now, op := first.now, first.op;
    LeasedDispatchesAreDue(policy, s, now, op, dispatch);
    NextKeepsInvariant(policy, s, start, now, op);
    LeasedUntilGivenUp(policy, Next(policy, s, now, op), now, run, dispatch, op.leaseOwner, now + op.duration);
  }

  /** The attempt is published and waits for its next dispatch, or its job is gone. */
  predicate Waiting(s: Store, dispatch: JobDispatch, nextAt: Instant) {
    var id := dispatch.internalJobId;
    id < s.nextId &&
    (id in s.rows ==> s.rows[id].attempt.leaseOwner.None? && s.rows[id].attempt.nextDispatchAt == nextAt)
  }

  lemma WaitingStep(policy: Policy, s: Store, earlier: Instant, now: Instant, op: Operation, dispatch: JobDispatch,
      nextAt: Instant)
    requires Invariant(policy, s, earlier) && earlier <= now < nextAt
    requires Waiting(s, dispatch, nextAt)
    ensures !Leases(AnswerTo(policy, s, now, op), dispatch)
    ensures Waiting(Next(policy, s, now, op), dispatch, nextAt)
  {
    NextEvolves(policy, s, earlier, now, op);
    if Leases(AnswerTo(policy, s, now, op), dispatch) {
      LeasedDispatchesAreDue(policy, s, now, op, dispatch);
      assert false;
    }
    var effect := Decide(policy, s, now, op).effect;
    assert effect.Update? && dispatch.internalJobId in effect.updated ==>
      Enabled(s.rows[dispatch.internalJobId], effect.change, now);
  }

  lemma {:induction false} WaitingIsNotLeased(
    policy: Policy, s: Store, start: Instant, run: seq<Step>, dispatch: JobDispatch, nextAt: Instant)
    requires Invariant(policy, s, start) && Timely(start, run)
    requires Waiting(s, dispatch, nextAt)
    requires forall step | step in run :: step.now < nextAt
    ensures !LeasedAgain(policy, s, run, dispatch)
    decreases run
  {
    if run != [] {
      assert run[0] in run;
      WaitingStep(policy, s, start, run[0].now, run[0].op, dispatch, nextAt);
      NextKeepsInvariant(policy, s, start, run[0].now, run[0].op);
      WaitingIsNotLeased(policy, Next(policy, s, run[0].now, run[0].op), run[0].now, run[1..], dispatch, nextAt);
    }
  }

  /** After a record at an instant, the attempt is not leased again before that instant plus the delay. */
  lemma NoLeaseBeforeRedispatch(policy: Policy, s: Store, start: Instant, record: Step, run: seq<Step>)
    requires Invariant(policy, s, start) && Timely(start, [record] + run)
    requires record.op.RecordDispatchPublished?
    requires AnswerTo(policy, s, record.now, record.op) == Recorded(true)
    requires forall step | step in run :: step.now < record.now + record.op.redispatchAfter
    ensures !LeasedAgain(policy, Next(policy, s, record.now, record.op), run, record.op.dispatch)
  {
    assert ([record] + run)[0] == record && ([record] + run)[1..] == run;
    NextKeepsInvariant(policy, s, start, record.now, record.op);
    var next := Next(policy, s, record.now, record.op);
    assert Waiting(next, record.op.dispatch, record.now + record.op.redispatchAfter);
    WaitingIsNotLeased(policy, next, record.now, run, record.op.dispatch, record.now + record.op.redispatchAfter);
  }

  // ---------------------------------------------------------------- lapsed leases

  /** A lease call that does not return the dispatch does not touch its lease. */
  lemma LeaseCallsKeepOthers(
    policy: Policy, s: Store, now: Instant, op: Operation, dispatch: JobDispatch, owner: Uuid, expiresAt: Instant)
    requires Invariant(policy, s, now) && op.LeaseDueDispatches? && op.duration > 0 && op.limit > 0
    requires LeasedTo(s, dispatch, owner, expiresAt) && !Leases(AnswerTo(policy, s, now, op), dispatch)
    ensures LeasedTo(Next(policy, s, now, op), dispatch, owner, expiresAt)
  {
    LeaseContract(policy, s, now, op.leaseOwner, op.duration, op.limit);
    hide Decide;
    hide Invariant;
    hide GetsLeased;
    hide InSubmissionOrder;
  }

  lemma OnlyLeaseCallsLease(policy: Policy, s: Store, now: Instant, op: Operation)
    requires !op.LeaseDueDispatches? || op.duration <= 0 || op.limit <= 0
    ensures var effect := Decide(policy, s, now, op).effect;
      effect.Update? ==> !effect.change.LeasePublication?
  {
  }

  lemma EffectKeepsLease(
    policy: Policy, s: Store, now: Instant, effect: Effect, dispatch: JobDispatch, owner: Uuid, expiresAt: Instant)
    requires Invariant(policy, s, now) && Lawful(policy, s, effect, now)
    requires LeasedTo(s, dispatch, owner, expiresAt)
    requires effect.Update? ==> !effect.change.LeasePublication?
    requires effect.Update? && (effect.change.RecordPublication? || effect.change.ReleasePublication?) ==>
      dispatch.internalJobId !in effect.updated
    ensures LeasedTo(Perform(s, effect, now), dispatch, owner, expiresAt)
         || IsGone(Perform(s, effect, now), dispatch.internalJobId)
  {
  }

  /** A lease that nobody gives up and nobody takes over stays as it is, also past its instant. */
  lemma UntouchedLeaseStays(
    policy: Policy, s: Store, earlier: Instant, now: Instant, op: Operation,
    dispatch: JobDispatch, owner: Uuid, expiresAt: Instant)
    requires Invariant(policy, s, earlier) && earlier <= now
    requires LeasedTo(s, dispatch, owner, expiresAt) && !GivesUp(op, dispatch, owner)
    requires !Leases(AnswerTo(policy, s, now, op), dispatch)
    ensures LeasedTo(Next(policy, s, now, op), dispatch, owner, expiresAt)
         || IsGone(Next(policy, s, now, op), dispatch.internalJobId)
  {
    hide Decide;
    hide Invariant;
    NextEvolves(policy, s, earlier, now, op);
    if op.LeaseDueDispatches? && op.duration > 0 && op.limit > 0 {
      LeaseCallsKeepOthers(policy, s, now, op, dispatch, owner, expiresAt);
    } else {
      KeptByStrangers(policy, s, now, op, dispatch, owner);
      OnlyLeaseCallsLease(policy, s, now, op);
      EffectKeepsLease(policy, s, now, Decide(policy, s, now, op).effect, dispatch, owner, expiresAt);
    }
  }

  lemma {:induction false} UntouchedThroughRun(
    policy: Policy, s: Store, start: Instant, run: seq<Step>, dispatch: JobDispatch, owner: Uuid, expiresAt: Instant)
    requires Invariant(policy, s, start) && Timely(start, run)
    requires LeasedTo(s, dispatch, owner, expiresAt)
    requires !GivesUpInRun(run, dispatch, owner) && !LeasedAgain(policy, s, run, dispatch)
    requires dispatch.internalJobId in Final(policy, s, run).rows
    ensures LeasedTo(Final(policy, s, run), dispatch, owner, expiresAt)
    decreases run
  {
    hide Decide;
    if run != [] {
      var now, op := run[0].now, run[0].op;
      var next := Next(policy, s, now, op);
      assert GivesUp(run[0].op, dispatch, owner) ==> GivesUpInRun(run, dispatch, owner);
      UntouchedLeaseStays(policy, s, start, now, op, dispatch, owner, expiresAt);
      NextKeepsInvariant(policy, s, start, now, op);
      if IsGone(next, dispatch.internalJobId) {
        DeletedStaysDeleted(policy, next, now, run[1..], dispatch.internalJobId);
      } else {
        assert forall i | 0 <= i < |run[1..]| :: run[1..][i] == run[i + 1];
        UntouchedThroughRun(policy, next, now, run[1..], dispatch, owner, expiresAt);
      }
    }
  }

  /** A leased dispatch whose instant has passed may be leased. */
  lemma LapsedLeaseIsLeasable(
    policy: Policy, s: Store, now: Instant, dispatch: JobDispatch, owner: Uuid, expiresAt: Instant, limit: int)
    requires Invariant(policy, s, now) && LeasedTo(s, dispatch, owner, expiresAt) && expiresAt <= now
    requires MayStart(s.rows[dispatch.internalJobId].job, now)
    requires |LeasedBefore(s.rows, dispatch.internalJobId, now)| < limit
    ensures GetsLeased(s.rows, dispatch.internalJobId, now, limit)
  {
    assert RowInvariant(policy, s.rows[dispatch.internalJobId], now);
  }

  lemma LeaseCallTakesOver(
    policy: Policy, s: Store, now: Instant, dispatch: JobDispatch, owner: Uuid, duration: int, limit: int)
    requires Invariant(policy, s, now) && duration > 0 && limit > 0
    requires IsStored(s.rows, dispatch) && GetsLeased(s.rows, dispatch.internalJobId, now, limit)
    ensures var op := Operation.LeaseDueDispatches(owner, duration, limit);
      && Leases(AnswerTo(policy, s, now, op), dispatch)
      && LeasedTo(Next(policy, s, now, op), dispatch, owner, now + duration)
  {
    LeaseContract(policy, s, now, owner, duration, limit);
    hide Decide;
    hide Invariant;
    hide GetsLeased;
    hide InSubmissionOrder;
  }

  /**
   A crashed reconciler does not hold a dispatch up: after any run in which the lease is neither given up
   nor taken over, once its instant has passed, the next lease call of any reconciler returns the dispatch,
   if the job may still start and fewer than `limit` leasable jobs come before it.
   */
  lemma LapsedLeaseIsTakenOver(
    policy: Policy, s: Store, start: Instant, run: seq<Step>, dispatch: JobDispatch, owner: Uuid,
    expiresAt: Instant, now: Instant, successor: Uuid, duration: int, limit: int)
    requires Invariant(policy, s, start) && Timely(start, run) && LastInstant(start, run) <= now
    requires LeasedTo(s, dispatch, owner, expiresAt) && expiresAt <= now
    requires !GivesUpInRun(run, dispatch, owner) && !LeasedAgain(policy, s, run, dispatch)
    requires var last, id := Final(policy, s, run), dispatch.internalJobId;
      && id in last.rows && MayStart(last.rows[id].job, now)
      && |LeasedBefore(last.rows, id, now)| < limit
    requires duration > 0 && limit > 0
    ensures var last, op := Final(policy, s, run), Operation.LeaseDueDispatches(successor, duration, limit);
      && Leases(AnswerTo(policy, last, now, op), dispatch)
      && LeasedTo(Next(policy, last, now, op), dispatch, successor, now + duration)
  {
    hide Decide;
    hide Invariant;
    hide MayStart;
    hide LeasedBefore;
    hide GetsLeased;
    var last := Final(policy, s, run);
    UntouchedThroughRun(policy, s, start, run, dispatch, owner, expiresAt);
    RunKeepsInvariant(policy, s, start, run);
    InvariantLater(policy, last, LastInstant(start, run), now);
    LapsedLeaseIsLeasable(policy, last, now, dispatch, owner, expiresAt, limit);
    LeaseCallTakesOver(policy, last, now, dispatch, successor, duration, limit);
  }
}

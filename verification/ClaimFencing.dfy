/**
 Single fenced execution: a job is finished at most once, a claim whose lease has passed never acts
 again, only recovery ends its job, and a claim renewed in time is never recovered.
 */
module ClaimFencing {
  import opened Options
  import opened TranscriptTypes
  import opened ResultRows
  import opened JobTypes
  import opened Ordering
  import opened JobProtocol
  import opened StoreInvariant
  import opened JobHistory

  // ---------------------------------------------------------------- finished at most once

  function FinishedCount(rows: Rows, id: JobId): nat {
    if id in rows && rows[id].job.status.Finished? then 1 else 0
  }

  predicate FinishesJob(before: Rows, after: Rows, id: JobId) {
    id in before && id in after && !before[id].job.status.Finished? && after[id].job.status.Finished?
  }

  /** How many transactions of the run moved the job to `finished`. */
  ghost function Finishes(policy: Policy, s: Store, run: seq<Step>, id: JobId): nat
    decreases run
  {
    if run == [] then 0
    else
      var next := Next(policy, s, run[0].now, run[0].op);
      (if FinishesJob(s.rows, next.rows, id) then 1 else 0) + Finishes(policy, next, run[1..], id)
  }

  /** Each job is finished by at most one transaction, and by exactly one if it ends up finished. */
  lemma {:induction false} FinishedAtMostOnce(policy: Policy, s: Store, start: Instant, run: seq<Step>, id: JobId)
    requires Invariant(policy, s, start) && Timely(start, run)
    ensures Finishes(policy, s, run, id) + FinishedCount(s.rows, id) <= 1
    ensures id in Final(policy, s, run).rows && (id in s.rows || id >= s.nextId) ==>
      Finishes(policy, s, run, id) + FinishedCount(s.rows, id) == FinishedCount(Final(policy, s, run).rows, id)
    ensures id !in s.rows && id < s.nextId ==> Finishes(policy, s, run, id) == 0
    decreases run
  {
    if run != [] {
      var now, op := run[0].now, run[0].op;
      var next := Next(policy, s, now, op);
      NextEvolves(policy, s, start, now, op);
      FinishedAtMostOnce(policy, next, now, run[1..], id);
      RunEvolves(policy, next, now, run[1..]);
      assert id in s.rows && id in next.rows ==> Advances(s.rows[id], next.rows[id]);
      assert id in s.rows ==> id < s.nextId;
    }
  }

  // ---------------------------------------------------------------- a claim past its lease

  /** The claim was made (or its job is gone) and may no longer be renewed or published. */
  predicate IsFenced(s: Store, claim: ExecutionClaim, now: Instant) {
    var id := claim.dispatch.internalJobId;
    id < s.nextId && (id in s.rows ==> !s.rows[id].job.status.Queued? && !Renewable(s.rows, claim, now))
  }

  /** The claim's lease instant has passed, whoever has been watching. */
  predicate LeasePassed(s: Store, claim: ExecutionClaim, now: Instant) {
    var id := claim.dispatch.internalJobId;
    id in s.rows && OwnedBy(id, s.rows[id], claim) && AtOrBefore(s.rows[id].attempt.claimLeaseExpiresAt, now)
  }

  lemma LeasePassedIsFenced(policy: Policy, s: Store, claim: ExecutionClaim, now: Instant)
    requires Invariant(policy, s, now) && LeasePassed(s, claim, now)
    ensures IsFenced(s, claim, now)
  {
    assert RowInvariant(policy, s.rows[claim.dispatch.internalJobId], now);
  }

  lemma ChangeKeepsFence(policy: Policy, id: JobId, row: Row, change: Change, claim: ExecutionClaim, now: Instant)
    requires RowInvariant(policy, row, now) && Enabled(row, change, now)
    requires !row.job.status.Queued? && !(IsLive(row, now) && OwnedBy(id, row, claim))
    ensures var after := Changed(row, change, now);
      !after.job.status.Queued? && !(IsLive(after, now) && OwnedBy(id, after, claim))
  {
  }

  lemma FenceStays(policy: Policy, s: Store, earlier: Instant, now: Instant, op: Operation, claim: ExecutionClaim)
    requires Invariant(policy, s, earlier) && earlier <= now
    requires IsFenced(s, claim, earlier)
    ensures IsFenced(s, claim, now) && IsFenced(Next(policy, s, now, op), claim, now)
  {
    NextEvolves(policy, s, earlier, now, op);
    var id := claim.dispatch.internalJobId;
    var effect := Decide(policy, s, now, op).effect;
    if effect.Update? && id in effect.updated {
      ChangeKeepsFence(policy, id, s.rows[id], effect.change, claim, now);
    }
  }

  /** The answer acts on the claim: it renews it, or commits a publication for it. */
  predicate ActsOn(op: Operation, answer: Answer, claim: ExecutionClaim) {
    || (answer.Renewed? && exists heartbeat :: heartbeat in answer.heartbeats && heartbeat.claim == claim)
    || (answer == Published(true) &&
        ((op.PublishCancelled? && op.claim == claim) || (op.PublishSuccess? && op.claim == claim)
         || (op.PublishFailure? && op.claim == claim)))
  }

  lemma {:induction false} HeartbeatsAreRenewable(rows: Rows, claims: seq<ExecutionClaim>, now: Instant)
    ensures forall heartbeat | heartbeat in Heartbeats(rows, claims, now) ::
      && heartbeat.claim in claims && Renewable(rows, heartbeat.claim, now)
      && heartbeat.cancellationRequested == rows[heartbeat.claim.dispatch.internalJobId].job.cancellationRequested
    ensures forall claim | claim in claims && Renewable(rows, claim, now) ::
      exists heartbeat :: heartbeat in Heartbeats(rows, claims, now) && heartbeat.claim == claim
  {
    if claims != [] {
      HeartbeatsAreRenewable(rows, claims[1..], now);
      var rest := Heartbeats(rows, claims[1..], now);
      forall claim | claim in claims && Renewable(rows, claim, now)
        ensures exists heartbeat :: heartbeat in Heartbeats(rows, claims, now) && heartbeat.claim == claim
      {
        if claim == claims[0] {
          assert Heartbeats(rows, claims, now)[0].claim == claim;
        } else {
          assert claim in claims[1..];
          var heartbeat :| heartbeat in rest && heartbeat.claim == claim;
          assert heartbeat in Heartbeats(rows, claims, now);
        }
      }
    }
  }

  lemma FencedClaimDoesNotAct(policy: Policy, s: Store, now: Instant, op: Operation, claim: ExecutionClaim)
    requires IsFenced(s, claim, now)
    ensures !ActsOn(op, AnswerTo(policy, s, now, op), claim)
  {
    if op.HeartbeatClaims? {
      HeartbeatsAreRenewable(s.rows, op.claims, now);
    }
  }

  /** Once fenced, no step of any continuation renews or publishes for the claim. */
  ghost predicate NeverActsOn(policy: Policy, s: Store, run: seq<Step>, claim: ExecutionClaim)
    decreases run
  {
    run == [] ||
    (!ActsOn(run[0].op, AnswerTo(policy, s, run[0].now, run[0].op), claim)
     && NeverActsOn(policy, Next(policy, s, run[0].now, run[0].op), run[1..], claim))
  }

  lemma {:induction false} FencedForGood(policy: Policy, s: Store, start: Instant, run: seq<Step>,
      claim: ExecutionClaim)
    requires Invariant(policy, s, start) && Timely(start, run)
    requires IsFenced(s, claim, start)
    ensures NeverActsOn(policy, s, run, claim)
    decreases run
  {
    if run != [] {
      var now, op := run[0].now, run[0].op;
      FenceStays(policy, s, start, now, op, claim);
      FencedClaimDoesNotAct(policy, s, now, op, claim);
      NextKeepsInvariant(policy, s, start, now, op);
      FencedForGood(policy, Next(policy, s, now, op), now, run[1..], claim);
    }
  }

  /**
   An abandoned job waits for recovery and for nothing else: any other transaction leaves it
   processing and abandoned, and recovery finishes it as cancelled if it was flagged, otherwise as
   interrupted.
   */
  lemma OnlyRecoveryEndsAbandoned(policy: Policy, s: Store, earlier: Instant, now: Instant, op: Operation, id: JobId)
    requires Invariant(policy, s, earlier) && earlier <= now
    requires id in s.rows && IsAbandoned(s.rows[id], earlier)
    ensures id in Next(policy, s, now, op).rows
    ensures var after := Next(policy, s, now, op).rows[id];
      || (IsAbandoned(after, now)
          && (after.job == s.rows[id].job || after.job == s.rows[id].job.(cancellationRequested := true)))
      || (op.RecoverExpiredClaims? && after.job.status.Finished? && after.job.finishedAt == Some(now)
          && if s.rows[id].job.cancellationRequested
             then after.job.outcome == Some(Cancelled)
             else after.job.outcome == Some(Failed) && after.job.errorCode == Some(WorkerInterrupted))
  {
    hide Decide;
    NextEvolves(policy, s, earlier, now, op);
    AbandonedChange(policy, s, now, op, id);
    var effect := Decide(policy, s, now, op).effect;
    if effect.Update? && id in effect.updated {
      assert RowInvariant(policy, s.rows[id], now);
    }
  }

  lemma AbandonedChange(policy: Policy, s: Store, now: Instant, op: Operation, id: JobId)
    requires Invariant(policy, s, now)
    requires id in s.rows && IsAbandoned(s.rows[id], now)
    requires Lawful(policy, s, Decide(policy, s, now, op).effect, now)
    ensures var effect := Decide(policy, s, now, op).effect;
      && !(effect.Remove? && id in effect.removed)
      && (effect.Update? && id in effect.updated ==>
            || effect.change.RecordPublication? || effect.change.ReleasePublication? || effect.change.FlagCancellation?
            || (effect.change.RecoverClaim? && op.RecoverExpiredClaims?))
  {
    var effect := Decide(policy, s, now, op).effect;
    assert effect.Update? && id in effect.updated ==> Enabled(s.rows[id], effect.change, now);
    assert effect.Update? && effect.change.RecoverClaim? ==> op.RecoverExpiredClaims?;
  }

  /** The step is a recovery that finishes the job: as cancelled if it was flagged, else as interrupted. */
  ghost predicate RecoversJob(policy: Policy, s: Store, step: Step, id: JobId) {
    var next := Next(policy, s, step.now, step.op);
    && step.op.RecoverExpiredClaims?
    && id in s.rows && id in next.rows
    && s.rows[id].job.status.Processing? && next.rows[id].job.status.Finished?
    && next.rows[id].job.finishedAt == Some(step.now)
    && if s.rows[id].job.cancellationRequested
       then next.rows[id].job.outcome == Some(Cancelled)
       else next.rows[id].job.outcome == Some(Failed) && next.rows[id].job.errorCode == Some(WorkerInterrupted)
  }

  ghost predicate RecoveredInRun(policy: Policy, s: Store, run: seq<Step>, id: JobId)
    decreases run
  {
    run != [] &&
    (RecoversJob(policy, s, run[0], id) || RecoveredInRun(policy, Next(policy, s, run[0].now, run[0].op), run[1..], id))
  }

  /**
   An abandoned job over a whole run: either some recovery in the run finished it, by its flag at that
   moment, or it is still there and still abandoned at the end.
   */
  lemma {:induction false} AbandonedUntilRecovered(policy: Policy, s: Store, start: Instant, run: seq<Step>, id: JobId)
    requires Invariant(policy, s, start) && Timely(start, run)
    requires id in s.rows && IsAbandoned(s.rows[id], start)
    ensures var last := Final(policy, s, run);
      || RecoveredInRun(policy, s, run, id)
      || (id in last.rows && IsAbandoned(last.rows[id], LastInstant(start, run)))
    decreases run
  {
    hide Decide;
    if run != [] {
      var now, op := run[0].now, run[0].op;
      OnlyRecoveryEndsAbandoned(policy, s, start, now, op, id);
      if !RecoversJob(policy, s, run[0], id) {
        NextKeepsInvariant(policy, s, start, now, op);
        AbandonedUntilRecovered(policy, Next(policy, s, now, op), now, run[1..], id);
      }
    }
  }

  // ---------------------------------------------------------------- a claim renewed in time

  predicate Names(op: Operation, claim: ExecutionClaim) {
    op.HeartbeatClaims? && claim in op.claims
  }

  /**
   Every step comes before the lease from the last renewal runs out, and every heartbeat that names
   the claim renews it for the same duration.
   */
  predicate RenewedInTime(claim: ExecutionClaim, lease: int, renewedAt: Instant, run: seq<Step>)
    decreases run
  {
    run == [] ||
    (run[0].now < renewedAt + lease
     && (Names(run[0].op, claim) ==> run[0].op.duration == lease)
     && RenewedInTime(claim, lease, if Names(run[0].op, claim) then run[0].now else renewedAt, run[1..]))
  }

  /** The claim holds its job, and its lease runs from its last renewal. */
  predicate HeldSince(s: Store, claim: ExecutionClaim, lease: int, renewedAt: Instant) {
    var id := claim.dispatch.internalJobId;
    && id in s.rows
    && s.rows[id].job.status.Processing?
    && OwnedBy(id, s.rows[id], claim)
    && s.rows[id].attempt.claimLeaseExpiresAt == Some(renewedAt + lease)
  }

  predicate PublishesFor(op: Operation, answer: Answer, claim: ExecutionClaim) {
    ActsOn(op, answer, claim) && answer.Published?
  }

  /** A step before the lease runs out keeps the claim, renews it, or is its own publication. */
  lemma HeldClaimStep(
    policy: Policy, s: Store, earlier: Instant, now: Instant, op: Operation,
    claim: ExecutionClaim, lease: int, renewedAt: Instant)
    requires Invariant(policy, s, earlier) && earlier <= now
    requires HeldSince(s, claim, lease, renewedAt) && now < renewedAt + lease && lease > 0
    requires Names(op, claim) ==> op.duration == lease
    ensures PublishesFor(op, AnswerTo(policy, s, now, op), claim)
         || HeldSince(Next(policy, s, now, op), claim, lease, if Names(op, claim) then now else renewedAt)
  {
    NextEvolves(policy, s, earlier, now, op);
    var id := claim.dispatch.internalJobId;
    assert RowInvariant(policy, s.rows[id], now);
    if op.HeartbeatClaims? {
      HeldClaimHeartbeat(policy, s, now, op, claim);
    } else if op.PublishCancelled? || op.PublishSuccess? || op.PublishFailure? {
      HeldClaimPublish(policy, s, now, op, claim);
    } else {
      HeldClaimOther(policy, s, now, op, id);
    }
  }

  lemma HeldClaimHeartbeat(policy: Policy, s: Store, now: Instant, op: Operation, claim: ExecutionClaim)
    requires op.HeartbeatClaims?
    requires Renewable(s.rows, claim, now)
    ensures var id := claim.dispatch.internalJobId;
      Next(policy, s, now, op).rows[id] ==
        if Names(op, claim) && op.duration > 0 then Changed(s.rows[id], RenewClaim(op.duration), now) else s.rows[id]
  {
    var id := claim.dispatch.internalJobId;
    assert id in RenewedJobs(s.rows, op.claims, now) <==> claim in op.claims by {
      forall other | other in op.claims && Renewable(s.rows, other, now) && other.dispatch.internalJobId == id
        ensures other == claim
      {
      }
    }
  }

  lemma HeldClaimPublish(policy: Policy, s: Store, now: Instant, op: Operation, claim: ExecutionClaim)
    requires op.PublishCancelled? || op.PublishSuccess? || op.PublishFailure?
    requires Renewable(s.rows, claim, now)
    ensures PublishesFor(op, AnswerTo(policy, s, now, op), claim)
         || Next(policy, s, now, op).rows[claim.dispatch.internalJobId] == s.rows[claim.dispatch.internalJobId]
  {
  }

  lemma HeldClaimOther(policy: Policy, s: Store, now: Instant, op: Operation, id: JobId)
    requires !op.HeartbeatClaims? && !op.PublishCancelled? && !op.PublishSuccess? && !op.PublishFailure?
    requires Lawful(policy, s, Decide(policy, s, now, op).effect, now)
    requires id in s.rows && id < s.nextId && IsLive(s.rows[id], now)
    ensures id in Next(policy, s, now, op).rows
    ensures var after := Next(policy, s, now, op).rows[id];
      && after.job.status.Processing?
      && after.attempt.token == s.rows[id].attempt.token
      && after.attempt.workerOwner == s.rows[id].attempt.workerOwner
      && after.attempt.claimLeaseExpiresAt == s.rows[id].attempt.claimLeaseExpiresAt
  {
    var effect := Decide(policy, s, now, op).effect;
    if effect.Update? {
      assert !effect.change.RenewClaim? && !effect.change.FinishCancelled?
          && !effect.change.FinishSucceeded? && !effect.change.FinishFailed?;
      assert id in effect.updated ==> Enabled(s.rows[id], effect.change, now);
    }
  }

  ghost predicate PublishesInRun(policy: Policy, s: Store, run: seq<Step>, claim: ExecutionClaim)
    decreases run
  {
    run != [] &&
    (PublishesFor(run[0].op, AnswerTo(policy, s, run[0].now, run[0].op), claim)
     || PublishesInRun(policy, Next(policy, s, run[0].now, run[0].op), run[1..], claim))
  }

  function LastRenewal(claim: ExecutionClaim, renewedAt: Instant, run: seq<Step>): Instant
    decreases run
  {
    if run == [] then renewedAt
    else LastRenewal(claim, if Names(run[0].op, claim) then run[0].now else renewedAt, run[1..])
  }

  /**
   A claim renewed at gaps shorter than its lease is never recovered, cancelled from outside or taken
   over: either it still holds its job, or it published the job's end itself.
   */
  lemma {:induction false} RenewedClaimIsKept(
    policy: Policy, s: Store, start: Instant, run: seq<Step>, claim: ExecutionClaim, lease: int, renewedAt: Instant)
    requires Invariant(policy, s, start) && Timely(start, run)
    requires HeldSince(s, claim, lease, renewedAt) && lease > 0
    requires RenewedInTime(claim, lease, renewedAt, run)
    ensures PublishesInRun(policy, s, run, claim)
         || HeldSince(Final(policy, s, run), claim, lease, LastRenewal(claim, renewedAt, run))
    decreases run
  {
    if run != [] {
      var now, op := run[0].now, run[0].op;
      HeldClaimStep(policy, s, start, now, op, claim, lease, renewedAt);
      if !PublishesFor(op, AnswerTo(policy, s, now, op), claim) {
        NextKeepsInvariant(policy, s, start, now, op);
        RenewedClaimIsKept(policy, Next(policy, s, now, op), now, run[1..], claim, lease,
                           if Names(op, claim) then now else renewedAt);
      }
    }
  }

  /** A committed claim starts out held, so the two theorems above cover its whole life. */
  lemma ClaimedIsHeld(policy: Policy, s: Store, earlier: Instant, now: Instant, op: Operation)
    requires Invariant(policy, s, earlier) && earlier <= now
    requires op.ClaimDispatch? && AnswerTo(policy, s, now, op).Claimed?
    ensures HeldSince(Next(policy, s, now, op), AnswerTo(policy, s, now, op).claimed.claim, op.duration, now)
    ensures op.duration > 0
  {
    assert IsEarliest(EligibleStamps(s.rows, now), op.dispatch.internalJobId);
  }
}

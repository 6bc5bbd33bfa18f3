/** Cancellation linearizes: one first acceptance per cancelled job, and no other way to finish it. */
module Cancellation {
  import opened Options
  import opened TranscriptTypes
  import opened ResultRows
  import opened JobTypes
  import opened Ordering
  import opened JobProtocol
  import opened StoreInvariant
  import opened JobHistory

  /** A caller's cancellation of the job has been committed. */
  predicate IsCancelled(job: Job) {
    job.outcome == Some(Cancelled) || (job.status.Processing? && job.cancellationRequested)
  }

  function CancelledCount(rows: Rows, id: JobId): nat {
    if id in rows && IsCancelled(rows[id].job) then 1 else 0
  }

  predicate FirstAccepts(answer: Answer, id: JobId) {
    answer.Cancellation? && answer.id == id && answer.firstAccepted
  }

  /** How many answers of the run reported the first acceptance of the job's cancellation. */
  ghost function FirstAcceptances(policy: Policy, s: Store, run: seq<Step>, id: JobId): nat
    decreases run
  {
    if run == [] then 0
    else
      (if FirstAccepts(AnswerTo(policy, s, run[0].now, run[0].op), id) then 1 else 0)
      + FirstAcceptances(policy, Next(policy, s, run[0].now, run[0].op), run[1..], id)
  }

  lemma CancelStepCounts(policy: Policy, s: Store, now: Instant, op: Operation, id: JobId)
    requires Invariant(policy, s, now) && op.RequestCancellation?
    requires id in s.rows
    ensures CancelledCount(Next(policy, s, now, op).rows, id)
      == CancelledCount(s.rows, id) + (if FirstAccepts(AnswerTo(policy, s, now, op), id) then 1 else 0)
  {
    assert RowInvariant(policy, s.rows[id], now);
    UnavailableOnlyForRefusedInput(policy, s, now, op);
  }

  /** A change outside `request_cancellation` neither cancels a job nor undoes a cancellation. */
  lemma OtherChangesKeepCancellation(policy: Policy, row: Row, change: Change, now: Instant)
    requires RowInvariant(policy, row, now) && Enabled(row, change, now)
    requires !change.CancelQueued? && !change.FlagCancellation?
    ensures IsCancelled(Changed(row, change, now).job) <==> IsCancelled(row.job)
  {
  }

  predicate Cancels(effect: Effect) {
    effect.Update? && (effect.change.CancelQueued? || effect.change.FlagCancellation?)
  }

  lemma OnlyCancellationCancels(policy: Policy, s: Store, now: Instant, op: Operation)
    requires !op.RequestCancellation?
    ensures !Cancels(Decide(policy, s, now, op).effect)
    ensures forall id :: !FirstAccepts(AnswerTo(policy, s, now, op), id)
  {
  }

  /** One transaction: the job becomes cancelled exactly when the answer says so. */
  lemma StepCounts(policy: Policy, s: Store, earlier: Instant, now: Instant, op: Operation, id: JobId)
    requires Invariant(policy, s, earlier) && earlier <= now
    requires id in Next(policy, s, now, op).rows
    ensures CancelledCount(Next(policy, s, now, op).rows, id)
      == CancelledCount(s.rows, id) + (if FirstAccepts(AnswerTo(policy, s, now, op), id) then 1 else 0)
  {
    NextEvolves(policy, s, earlier, now, op);
    if op.RequestCancellation? {
      CancelStepCounts(policy, s, now, op, id);
    } else {
      OnlyCancellationCancels(policy, s, now, op);
      var effect := Decide(policy, s, now, op).effect;
      assert id in s.rows ==> RowInvariant(policy, s.rows[id], now);
      if effect.Update? && id in effect.updated {
        OtherChangesKeepCancellation(policy, s.rows[id], effect.change, now);
      } else if effect.Insert? && id == effect.id {
        assert RowInvariant(policy, effect.row, now);
      }
    }
  }

  /** A job that is gone, or not there yet, is never reported as cancelled. */
  lemma AbsentIsNotAccepted(policy: Policy, s: Store, now: Instant, op: Operation, id: JobId)
    requires id !in s.rows || id !in Next(policy, s, now, op).rows
    ensures !FirstAccepts(AnswerTo(policy, s, now, op), id)
  {
  }

  /**
   Over a whole run: the first acceptances of a job still there number one exactly if the run took
   it from not cancelled to cancelled. So there is at most one, every cancelled job had one, and a
   cancellation is never withdrawn.
   */
  lemma {:induction false} AcceptancesCountCancellations(
    policy: Policy, s: Store, start: Instant, run: seq<Step>, id: JobId)
    requires Invariant(policy, s, start) && Timely(start, run)
    requires id in Final(policy, s, run).rows
    requires id in s.rows || id >= s.nextId
    ensures FirstAcceptances(policy, s, run, id) + CancelledCount(s.rows, id)
      == CancelledCount(Final(policy, s, run).rows, id)
    decreases run
  {
    if run != [] {
      var now, op := run[0].now, run[0].op;
      var next := Next(policy, s, now, op);
      NextEvolves(policy, s, start, now, op);
      if id in next.rows {
        AcceptancesCountCancellations(policy, next, now, run[1..], id);
        StepCounts(policy, s, start, now, op, id);
      } else {
        RunEvolves(policy, next, now, run[1..]);
        assert id >= next.nextId;
        AcceptancesCountCancellations(policy, next, now, run[1..], id);
        AbsentIsNotAccepted(policy, s, now, op, id);
      }
    }
  }

  lemma {:induction false} NoAcceptanceAfterDeletion(policy: Policy, s: Store, start: Instant, run: seq<Step>,
      id: JobId)
    requires Invariant(policy, s, start) && Timely(start, run)
    requires id < s.nextId && id !in s.rows
    ensures FirstAcceptances(policy, s, run, id) == 0
    decreases run
  {
    if run != [] {
      var now, op := run[0].now, run[0].op;
      NextEvolves(policy, s, start, now, op);
      AbsentIsNotAccepted(policy, s, now, op, id);
      NoAcceptanceAfterDeletion(policy, Next(policy, s, now, op), now, run[1..], id);
    }
  }

  /** Deleted or not: the first acceptance is answered at most once, and never for a cancelled job. */
  lemma {:induction false} FirstAcceptedAtMostOnce(policy: Policy, s: Store, start: Instant, run: seq<Step>, id: JobId)
    requires Invariant(policy, s, start) && Timely(start, run)
    ensures FirstAcceptances(policy, s, run, id) + CancelledCount(s.rows, id) <= 1
    decreases run
  {
    if run != [] {
      var now, op := run[0].now, run[0].op;
      var next := Next(policy, s, now, op);
      NextEvolves(policy, s, start, now, op);
      FirstAcceptedAtMostOnce(policy, next, now, run[1..], id);
      if id in next.rows {
        StepCounts(policy, s, start, now, op, id);
      } else {
        AbsentIsNotAccepted(policy, s, now, op, id);
        if id in s.rows {
          NoAcceptanceAfterDeletion(policy, next, now, run[1..], id);
        }
      }
    }
  }

  /** After an acceptance, every continuation leaves the job cancelled, and finished only as such. */
  lemma CancelledForGood(policy: Policy, s: Store, start: Instant, run: seq<Step>, id: JobId)
    requires Invariant(policy, s, start) && Timely(start, run)
    requires id in s.rows && IsCancelled(s.rows[id].job)
    requires id in Final(policy, s, run).rows
    ensures var job := Final(policy, s, run).rows[id].job;
      IsCancelled(job) && (job.status.Finished? ==> job.outcome == Some(Cancelled))
    ensures FirstAcceptances(policy, s, run, id) == 0
  {
    AcceptancesCountCancellations(policy, s, start, run, id);
  }

  /**
   `request_cancellation` answers "already finished" exactly for a retained job that succeeded or
   failed, and then nothing changes.
   */
  lemma AlreadyFinishedIff(policy: Policy, s: Store, now: Instant, publicId: Uuid)
    requires Invariant(policy, s, now)
    ensures AnswerTo(policy, s, now, RequestCancellation(publicId)).AlreadyFinished? <==>
      exists id :: HoldsPublicId(s.rows, id, publicId) && !IsExpiredTerminal(s.rows[id], now, policy)
        && s.rows[id].job.status.Finished? && s.rows[id].job.outcome != Some(Cancelled)
    ensures AnswerTo(policy, s, now, RequestCancellation(publicId)).AlreadyFinished?
      ==> Next(policy, s, now, RequestCancellation(publicId)) == s
  {
    forall a, b | HoldsPublicId(s.rows, a, publicId) && HoldsPublicId(s.rows, b, publicId) ensures a == b {
      assert a == b || Distinct(s.rows[a], s.rows[b]);
    }
    forall id | HoldsPublicId(s.rows, id, publicId) ensures RowInvariant(policy, s.rows[id], now) {
    }
    UnavailableOnlyForRefusedInput(policy, s, now, RequestCancellation(publicId));
  }
}

/**
 Idempotent admission over whole runs, and the end-to-end promise of a published result: what a
 caller was answered once, it is answered again for as long as the job is retained.
 */
module Admission {
  import opened Options
  import opened TranscriptTypes
  import opened ResultRows
  import opened JobTypes
  import opened Ordering
  import opened JobProtocol
  import opened StoreInvariant
  import opened JobHistory

  lemma OneKeyHolder(rows: Rows, a: JobId, b: JobId, key: Uuid)
    requires Unique(rows) && HoldsKey(rows, a, key) && HoldsKey(rows, b, key)
    ensures a == b
  {
  }

  lemma OneCapabilityHolder(rows: Rows, a: JobId, b: JobId, publicId: Uuid)
    requires Unique(rows) && HoldsPublicId(rows, a, publicId) && HoldsPublicId(rows, b, publicId)
    ensures a == b
  {
  }

  /** The request names the same source and the same set of exclusions, in whatever order. */
  predicate SameRequest(a: Operation, b: Operation) {
    a.CreateQueued? && b.CreateQueued? && a.key == b.key
    && a.submittedUrl == b.submittedUrl && Paths(a.exclusions) == Paths(b.exclusions)
  }

  /** A held key decides the answer whatever the capacity: replay or conflict, and no change. */
  lemma HeldKeyDecides(policy: Policy, s: Store, now: Instant, op: Operation, id: JobId)
    requires Invariant(policy, s, now) && op.CreateQueued? && HoldsKey(s.rows, id, op.key)
    ensures Next(policy, s, now, op) == s
    ensures AnswerTo(policy, s, now, op) ==
      if s.rows[id].job.submittedUrl == op.submittedUrl && s.rows[id].exclusions == Paths(op.exclusions)
      then Accepted(QueuedSnapshot(id, s.rows[id].job)) else IdempotencyConflict
  {
    forall other | HoldsKey(s.rows, other, op.key) ensures other == id {
      OneKeyHolder(s.rows, other, id, op.key);
    }
  }

  /** An accepted request holds its key, and its answer shows the job's capability and times. */
  lemma AcceptedHoldsKey(policy: Policy, s: Store, earlier: Instant, now: Instant, op: Operation)
    requires Invariant(policy, s, earlier) && earlier <= now
    requires op.CreateQueued? && AnswerTo(policy, s, now, op).Accepted?
    ensures AnswerTo(policy, s, now, op).job.QueuedJob?
    ensures var id, next := AnswerTo(policy, s, now, op).job.id, Next(policy, s, now, op);
      && HoldsKey(next.rows, id, op.key)
      && next.rows[id].job.submittedUrl == op.submittedUrl
      && next.rows[id].exclusions == Paths(op.exclusions)
      && AnswerTo(policy, s, now, op) == Accepted(QueuedSnapshot(id, next.rows[id].job))
  {
    InvariantLater(policy, s, earlier, now);
    forall id | HoldsKey(s.rows, id, op.key) {
      HeldKeyDecides(policy, s, now, op, id);
    }
  }

  /**
   Replay: after an accepted request, and whatever happens in between, the same request is answered
   with the same capability and instants as long as the job is retained, and changes nothing; a
   different request under the key conflicts, and changes nothing either.
   */
  lemma ReplayIsStable(
    policy: Policy, s: Store, start: Instant, first: Step, run: seq<Step>, again: Step)
    requires Invariant(policy, s, start) && start <= first.now && Timely(first.now, run)
    requires first.op.CreateQueued? && AnswerTo(policy, s, first.now, first.op).Accepted?
    requires var next := Next(policy, s, first.now, first.op);
      && LastInstant(first.now, run) <= again.now
      && AnswerTo(policy, s, first.now, first.op).job.QueuedJob?
      && AnswerTo(policy, s, first.now, first.op).job.id in Final(policy, next, run).rows
    requires again.op.CreateQueued? && again.op.key == first.op.key
    ensures var last := Final(policy, Next(policy, s, first.now, first.op), run);
      && Next(policy, last, again.now, again.op) == last
      && AnswerTo(policy, last, again.now, again.op) ==
           if SameRequest(first.op, again.op) then AnswerTo(policy, s, first.now, first.op) else IdempotencyConflict
  {
    hide Decide;
    var next := Next(policy, s, first.now, first.op);
    var last := Final(policy, next, run);
    AcceptedHoldsKey(policy, s, start, first.now, first.op);
    var id := AnswerTo(policy, s, first.now, first.op).job.id;
    NextKeepsInvariant(policy, s, start, first.now, first.op);
    RunEvolves(policy, next, first.now, run);
    RunKeepsInvariant(policy, next, first.now, run);
    InvariantLater(policy, last, LastInstant(first.now, run), again.now);
    assert Advances(next.rows[id], last.rows[id]);
    HeldKeyDecides(policy, last, again.now, again.op, id);
  }

  // ---------------------------------------------------------------- published results

  lemma GetByCapability(policy: Policy, s: Store, now: Instant, id: JobId)
    requires Invariant(policy, s, now) && id in s.rows
    ensures AnswerTo(policy, s, now, GetJob(s.rows[id].job.publicId)) ==
      if IsExpiredTerminal(s.rows[id], now, policy) then Unknown
      else match SnapshotOf(id, s.rows[id])
        case None => StoreUnavailable
        case Some(snapshot) => Found(snapshot)
  {
    var publicId := s.rows[id].job.publicId;
    assert HoldsPublicId(s.rows, id, publicId);
    forall other | HoldsPublicId(s.rows, other, publicId) ensures other == id {
      OneCapabilityHolder(s.rows, other, id, publicId);
    }
  }

  lemma PublishStoresResult(policy: Policy, s: Store, now: Instant, op: Operation)
    requires op.PublishSuccess? && AnswerTo(policy, s, now, op) == Published(true)
    ensures var id := op.claim.dispatch.internalJobId;
      && id in s.rows && MayPublish(s.rows, op.claim, false, now)
      && IsValidResponse(op.response)
      && ResultAccepted(Stored(op.response), s.rows[id].exclusions)
      && id in Next(policy, s, now, op).rows
      && Next(policy, s, now, op).rows[id] == Changed(s.rows[id], FinishSucceeded(Stored(op.response)), now)
  {
  }

  function SucceededAs(job: Job, finishedAt: Instant, response: TranscriptionResponse): Snapshot {
    SucceededJob(job.publicId, job.submittedAt, job.startedAt.GetOr(0), finishedAt, response)
  }

  /**
   A published result is what readers see: once `publish_success` commits a response, every later read
   of the capability returns what it reads back as, until the retention time has passed since
   publication and then never again. That is the response itself exactly if its segments are absent
   where they are excluded and nowhere else, as the processor projects it.
   */
  lemma PublishedResultIsRead(
    policy: Policy, s: Store, start: Instant, publish: Step, run: seq<Step>, readAt: Instant)
    requires Invariant(policy, s, start) && start <= publish.now && Timely(publish.now, run)
    requires LastInstant(publish.now, run) <= readAt
    requires publish.op.PublishSuccess? && AnswerTo(policy, s, publish.now, publish.op) == Published(true)
    requires publish.op.claim.dispatch.internalJobId in s.rows
    requires publish.op.claim.dispatch.internalJobId in
        Final(policy, Next(policy, s, publish.now, publish.op), run).rows
    ensures var last := Final(policy, Next(policy, s, publish.now, publish.op), run);
      var row := s.rows[publish.op.claim.dispatch.internalJobId];
      var read := ReadBack(publish.op.response, row.exclusions);
      && AnswerTo(policy, last, readAt, GetJob(row.job.publicId)) ==
           (if publish.now <= readAt - policy.terminalRetention then Unknown
            else Found(SucceededAs(row.job, publish.now, read)))
      && (read == publish.op.response <==> IsProjected(publish.op.response, row.exclusions))
  {
    hide Decide;
    var now, op := publish.now, publish.op;
    var id := op.claim.dispatch.internalJobId;
    var next := Next(policy, s, now, op);
    var last := Final(policy, next, run);
    PublishStoresResult(policy, s, now, op);
    InvariantLater(policy, s, start, now);
    assert RowInvariant(policy, s.rows[id], now);
    NextKeepsInvariant(policy, s, start, now, op);
    RunEvolves(policy, next, now, run);
    RunKeepsInvariant(policy, next, now, run);
    InvariantLater(policy, last, LastInstant(now, run), readAt);
    assert Advances(next.rows[id], last.rows[id]);
    WriteThenRead(op.response, s.rows[id].exclusions);
    GetByCapability(policy, last, readAt, id);
  }
}

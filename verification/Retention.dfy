/**
 Deletion is unobservable: a store with its expired terminal jobs answers as the store without
 them, so `delete_expired_terminal_jobs` may run at any moments, or never.
 */
module Retention {
  import opened Options
  import opened TranscriptTypes
  import opened ResultRows
  import opened JobTypes
  import opened Ordering
  import opened JobProtocol
  import opened StoreInvariant
  import opened JobHistory
  import opened Admission

  /** The pruned store is the full one without some jobs whose retention has passed. */
  predicate PrunedFrom(policy: Policy, full: Store, pruned: Store, now: Instant) {
    && full.nextId == pruned.nextId
    && (forall id | id in pruned.rows :: id in full.rows && pruned.rows[id] == full.rows[id])
    && (forall id | id in full.rows && id !in pruned.rows :: IsExpiredTerminal(full.rows[id], now, policy))
  }

  lemma PrunedLater(policy: Policy, full: Store, pruned: Store, earlier: Instant, now: Instant)
    requires PrunedFrom(policy, full, pruned, earlier) && earlier <= now
    ensures PrunedFrom(policy, full, pruned, now)
  {
  }

  /** The request brings an identifier of a job that only the full store still has. */
  predicate ReusesPruned(full: Store, pruned: Store, op: Operation) {
    op.CreateQueued? &&
    exists id :: id in full.rows && id !in pruned.rows &&
      (full.rows[id].key == op.key || full.rows[id].job.publicId == op.publicId
       || full.rows[id].attempt.token == op.token)
  }

  /** A job that is not finished is in both stores, with the same row, or in neither. */
  lemma SameUnfinished(policy: Policy, full: Store, pruned: Store, now: Instant, id: JobId)
    requires PrunedFrom(policy, full, pruned, now)
    ensures id in pruned.rows ==> id in full.rows && full.rows[id] == pruned.rows[id]
    ensures id in full.rows && !full.rows[id].job.status.Finished? ==> id in pruned.rows
  {
  }

  lemma SameSelections(policy: Policy, full: Store, pruned: Store, now: Instant)
    requires PrunedFrom(policy, full, pruned, now)
    ensures OverdueStamps(full.rows, now) == OverdueStamps(pruned.rows, now)
    ensures DueStamps(full.rows, now) == DueStamps(pruned.rows, now)
    ensures EligibleStamps(full.rows, now) == EligibleStamps(pruned.rows, now)
    ensures AbandonedStamps(full.rows, now) == AbandonedStamps(pruned.rows, now)
    ensures Outstanding(full.rows) == Outstanding(pruned.rows)
  {
    forall id
      ensures id in OverdueStamps(full.rows, now) <==> id in OverdueStamps(pruned.rows, now)
      ensures id in DueStamps(full.rows, now) <==> id in DueStamps(pruned.rows, now)
      ensures id in EligibleStamps(full.rows, now) <==> id in EligibleStamps(pruned.rows, now)
      ensures id in AbandonedStamps(full.rows, now) <==> id in AbandonedStamps(pruned.rows, now)
      ensures id in Outstanding(full.rows) <==> id in Outstanding(pruned.rows)
      ensures id in Outstanding(full.rows) ==> id in pruned.rows && full.rows[id] == pruned.rows[id]
    {
      SameUnfinished(policy, full, pruned, now, id);
    }
    assert forall id | id in OverdueStamps(full.rows, now) :: id in Outstanding(full.rows);
    assert forall id | id in DueStamps(full.rows, now) :: id in Outstanding(full.rows);
    assert forall id | id in AbandonedStamps(full.rows, now) :: id in Outstanding(full.rows);
    assert OverdueStamps(full.rows, now) == OverdueStamps(pruned.rows, now);
    assert DueStamps(full.rows, now) == DueStamps(pruned.rows, now);
    assert AbandonedStamps(full.rows, now) == AbandonedStamps(pruned.rows, now);
  }

  lemma SameRenewals(policy: Policy, full: Store, pruned: Store, claim: ExecutionClaim, now: Instant)
    requires PrunedFrom(policy, full, pruned, now)
    ensures Renewable(full.rows, claim, now) <==> Renewable(pruned.rows, claim, now)
  {
  }

  lemma {:induction false} SameHeartbeats(policy: Policy, full: Store, pruned: Store, claims: seq<ExecutionClaim>,
      now: Instant)
    requires PrunedFrom(policy, full, pruned, now)
    ensures Heartbeats(full.rows, claims, now) == Heartbeats(pruned.rows, claims, now)
    ensures RenewedJobs(full.rows, claims, now) == RenewedJobs(pruned.rows, claims, now)
  {
    forall claim | claim in claims ensures Renewable(full.rows, claim, now) <==> Renewable(pruned.rows, claim, now) {
      SameRenewals(policy, full, pruned, claim, now);
    }
    if claims != [] {
      SameHeartbeats(policy, full, pruned, claims[1..], now);
    }
  }

  lemma CreateAgrees(policy: Policy, full: Store, pruned: Store, now: Instant, op: Operation)
    requires Invariant(policy, full, now) && Invariant(policy, pruned, now)
    requires PrunedFrom(policy, full, pruned, now)
    requires op.CreateQueued? && !ReusesPruned(full, pruned, op)
    ensures DecideCreate(policy, full, now, op) == DecideCreate(policy, pruned, now, op)
  {
    SameSelections(policy, full, pruned, now);
    forall id ensures HoldsKey(full.rows, id, op.key) <==> HoldsKey(pruned.rows, id, op.key) {
    }
    if exists id :: HoldsKey(full.rows, id, op.key) {
      var id :| HoldsKey(full.rows, id, op.key);
      forall other | HoldsKey(full.rows, other, op.key) ensures other == id {
        OneKeyHolder(full.rows, other, id, op.key);
      }
    } else {
      assert CollidesWith(full.rows, op.publicId, op.token) <==> CollidesWith(pruned.rows, op.publicId, op.token);
    }
  }

  lemma CapabilityAgrees(policy: Policy, full: Store, pruned: Store, now: Instant, publicId: Uuid)
    requires Invariant(policy, full, now) && Invariant(policy, pruned, now)
    requires PrunedFrom(policy, full, pruned, now)
    ensures DecideGet(policy, full, now, publicId) == DecideGet(policy, pruned, now, publicId)
    ensures DecideCancel(policy, full, now, publicId) == DecideCancel(policy, pruned, now, publicId)
  {
    if exists id :: HoldsPublicId(full.rows, id, publicId) {
      var id :| HoldsPublicId(full.rows, id, publicId);
      forall other | HoldsPublicId(full.rows, other, publicId) ensures other == id {
        OneCapabilityHolder(full.rows, other, id, publicId);
      }
      if id in pruned.rows {
        assert HoldsPublicId(pruned.rows, id, publicId);
      } else {
        assert IsExpiredTerminal(full.rows[id], now, policy);
      }
      assert forall other | HoldsPublicId(pruned.rows, other, publicId) :: HoldsPublicId(full.rows, other, publicId);
    } else {
      assert forall other :: HoldsPublicId(pruned.rows, other, publicId) ==> HoldsPublicId(full.rows, other, publicId);
    }
  }

  /** Operations whose decision is the same in both stores, down to the rows they select. */
  lemma DecisionsAgree(policy: Policy, full: Store, pruned: Store, now: Instant, op: Operation)
    requires Invariant(policy, full, now) && Invariant(policy, pruned, now)
    requires PrunedFrom(policy, full, pruned, now)
    requires !op.DeleteExpiredTerminalJobs? && !op.RecordDispatchPublished? && !op.ReleaseDispatchLeases?
    requires !ReusesPruned(full, pruned, op)
    ensures Decide(policy, full, now, op) == Decide(policy, pruned, now, op)
  {
    SameSelections(policy, full, pruned, now);
    match op
    case CreateQueued(_, _, _, _, _, _) => CreateAgrees(policy, full, pruned, now, op);
    case LeaseDueDispatches(_, _, _) => LeaseAgrees(policy, full, pruned, now, op);
    case ClaimDispatch(_, _, _) => ClaimAgrees(policy, full, pruned, now, op);
    case HeartbeatClaims(claims, _) => SameHeartbeats(policy, full, pruned, claims, now);
    case RequestCancellation(publicId) => CapabilityAgrees(policy, full, pruned, now, publicId);
    case GetJob(publicId) => CapabilityAgrees(policy, full, pruned, now, publicId);
    case PublishCancelled(claim) => SameRenewals(policy, full, pruned, claim, now);
    case PublishSuccess(claim, _) => SameRenewals(policy, full, pruned, claim, now);
    case PublishFailure(claim, _, _) => SameRenewals(policy, full, pruned, claim, now);
    case _ =>
  }

  lemma {:induction false} SameDispatches(full: Rows, pruned: Rows, ids: seq<JobId>)
    requires forall id | id in ids :: id in full && id in pruned && full[id] == pruned[id]
    ensures DispatchesOf(full, ids) == DispatchesOf(pruned, ids)
  {
    if ids != [] {
      assert ids[|ids| - 1] in ids;
      SameDispatches(full, pruned, ids[..|ids| - 1]);
    }
  }

  lemma LeaseAgrees(policy: Policy, full: Store, pruned: Store, now: Instant, op: Operation)
    requires PrunedFrom(policy, full, pruned, now) && op.LeaseDueDispatches?
    ensures DecideLease(full, now, op) == DecideLease(pruned, now, op)
  {
    SameSelections(policy, full, pruned, now);
    if op.duration > 0 && op.limit > 0 {
      var batch := Batch(DueStamps(full.rows, now), op.limit);
      BatchMembers(DueStamps(full.rows, now), op.limit);
      assert forall id | id in batch :: id in DueStamps(pruned.rows, now);
      SameDispatches(full.rows, pruned.rows, batch);
    }
  }

  lemma ClaimAgrees(policy: Policy, full: Store, pruned: Store, now: Instant, op: Operation)
    requires PrunedFrom(policy, full, pruned, now) && op.ClaimDispatch?
    ensures DecideClaim(full, now, op) == DecideClaim(pruned, now, op)
  {
    SameSelections(policy, full, pruned, now);
    var id := op.dispatch.internalJobId;
    assert IsEarliest(EligibleStamps(full.rows, now), id) ==> id in pruned.rows;
  }

  /** The same effect on both stores, or an effect on lease fields only, keeps them related. */
  lemma SameEffectKeepsPruned(policy: Policy, full: Store, pruned: Store, now: Instant, effect: Effect)
    requires Invariant(policy, full, now) && Invariant(policy, pruned, now)
    requires PrunedFrom(policy, full, pruned, now)
    requires Lawful(policy, full, effect, now) && Lawful(policy, pruned, effect, now) && !effect.Remove?
    ensures PrunedFrom(policy, Perform(full, effect, now), Perform(pruned, effect, now), now)
  {
  }

  lemma LeaseChangesKeepPruned(policy: Policy, full: Store, pruned: Store, now: Instant, op: Operation)
    requires PrunedFrom(policy, full, pruned, now)
    requires op.RecordDispatchPublished? || op.ReleaseDispatchLeases?
    ensures PrunedFrom(policy, Next(policy, full, now, op), Next(policy, pruned, now, op), now)
    ensures op.ReleaseDispatchLeases? ==> AnswerTo(policy, full, now, op) == AnswerTo(policy, pruned, now, op)
  {
  }

  /** What a caller learns; whether a late record matched is known to the reconciler only. */
  function Observable(op: Operation, answer: Answer): Answer {
    if op.RecordDispatchPublished? then Done else answer
  }

  lemma StepAgrees(policy: Policy, full: Store, pruned: Store, earlier: Instant, now: Instant, op: Operation)
    requires Invariant(policy, full, earlier) && Invariant(policy, pruned, earlier) && earlier <= now
    requires PrunedFrom(policy, full, pruned, earlier)
    requires !op.DeleteExpiredTerminalJobs? && !ReusesPruned(full, pruned, op)
    ensures Observable(op, AnswerTo(policy, full, now, op)) == Observable(op, AnswerTo(policy, pruned, now, op))
    ensures PrunedFrom(policy, Next(policy, full, now, op), Next(policy, pruned, now, op), now)
  {
    NextEvolves(policy, full, earlier, now, op);
    NextEvolves(policy, pruned, earlier, now, op);
    PrunedLater(policy, full, pruned, earlier, now);
    if op.RecordDispatchPublished? || op.ReleaseDispatchLeases? {
      LeaseChangesKeepPruned(policy, full, pruned, now, op);
    } else {
      DecisionsAgree(policy, full, pruned, now, op);
      OnlyDeleteRemoves(policy, full, now, op);
      hide Decide;
      SameEffectKeepsPruned(policy, full, pruned, now, Decide(policy, full, now, op).effect);
    }
  }

  lemma OnlyDeleteRemoves(policy: Policy, s: Store, now: Instant, op: Operation)
    ensures Decide(policy, s, now, op).effect.Remove? <==> op.DeleteExpiredTerminalJobs?
  {
  }

  lemma DeleteKeepsPruned(policy: Policy, full: Store, pruned: Store, now: Instant)
    requires PrunedFrom(policy, full, pruned, now)
    ensures PrunedFrom(policy, full, Next(policy, pruned, now, DeleteExpiredTerminalJobs), now)
  {
  }

  // ---------------------------------------------------------------- whole runs

  function WithoutDeletes(run: seq<Step>): seq<Step>
    decreases run
  {
    if run == [] then []
    else if run[0].op.DeleteExpiredTerminalJobs? then WithoutDeletes(run[1..])
    else [run[0]] + WithoutDeletes(run[1..])
  }

  ghost function Observed(policy: Policy, s: Store, run: seq<Step>): seq<Answer>
    decreases run
  {
    if run == [] then []
    else
      var rest := Observed(policy, Next(policy, s, run[0].now, run[0].op), run[1..]);
      if run[0].op.DeleteExpiredTerminalJobs? then rest
      else [Observable(run[0].op, AnswerTo(policy, s, run[0].now, run[0].op))] + rest
  }

  /** In the run without deletions, no admission brings an identifier of a job past its retention. */
  ghost predicate NeverReusesExpired(policy: Policy, s: Store, run: seq<Step>)
    decreases run
  {
    run == [] ||
    (var now, op := run[0].now, run[0].op;
     if op.DeleteExpiredTerminalJobs? then NeverReusesExpired(policy, s, run[1..])
     else
       && (op.CreateQueued? ==> forall id | id in s.rows && IsExpiredTerminal(s.rows[id], now, policy) ::
             s.rows[id].key != op.key && s.rows[id].job.publicId != op.publicId && s.rows[id].attempt.token != op.token)
       && NeverReusesExpired(policy, Next(policy, s, now, op), run[1..]))
  }

  /**
   Any run answers as the same run without its deletions, provided no admission reuses the key of
   an expired job (or an identifier that `uuid4` would have to repeat).
   */
  lemma {:induction false} DeletionIsUnobservable(policy: Policy, full: Store, pruned: Store, start: Instant,
      run: seq<Step>)
    requires Invariant(policy, full, start) && Invariant(policy, pruned, start)
    requires PrunedFrom(policy, full, pruned, start) && Timely(start, run)
    requires NeverReusesExpired(policy, full, run)
    ensures Observed(policy, pruned, run) == Observed(policy, full, WithoutDeletes(run))
    decreases run
  {
    hide Decide;
    if run != [] {
      var now, op := run[0].now, run[0].op;
      NextKeepsInvariant(policy, pruned, start, now, op);
      PrunedLater(policy, full, pruned, start, now);
      if op.DeleteExpiredTerminalJobs? {
        InvariantLater(policy, full, start, now);
        DeleteKeepsPruned(policy, full, pruned, now);
        DeletionIsUnobservable(policy, full, Next(policy, pruned, now, op), now, run[1..]);
      } else {
        StepAgrees(policy, full, pruned, start, now, op);
        NextKeepsInvariant(policy, full, start, now, op);
        DeletionIsUnobservable(policy, Next(policy, full, now, op), Next(policy, pruned, now, op), now, run[1..]);
        var kept := WithoutDeletes(run);
        assert kept[0] == run[0] && kept[1..] == WithoutDeletes(run[1..]);
      }
    }
  }

  // ---------------------------------------------------------------- the exact condition

  predicate ReusesPrunedKey(full: Store, pruned: Store, op: Operation) {
    op.CreateQueued? && exists id :: id in full.rows && id !in pruned.rows && full.rows[id].key == op.key
  }

  /** `create_queued` replays a held key without looking at retention, so reuse of a key tells. */
  lemma ReusedKeyTells(policy: Policy, full: Store, pruned: Store, now: Instant, op: Operation)
    requires Invariant(policy, full, now) && Invariant(policy, pruned, now)
    requires PrunedFrom(policy, full, pruned, now) && ReusesPrunedKey(full, pruned, op)
    ensures AnswerTo(policy, full, now, op) != AnswerTo(policy, pruned, now, op)
  {
    var id :| id in full.rows && id !in pruned.rows && full.rows[id].key == op.key;
    var key := op.key;
    HeldKeyDecides(policy, full, now, op, id);
    forall other | HoldsKey(full.rows, other, key) ensures other == id {
      OneKeyHolder(full.rows, other, id, key);
    }
    assert forall other | HoldsKey(pruned.rows, other, key) :: HoldsKey(full.rows, other, key);
    assert id < full.nextId;
    assert !(exists other :: HoldsKey(pruned.rows, other, key));
  }

  /** The two stores answer alike exactly when the request does not reuse the key of a pruned job. */
  lemma AnswersAgreeIff(policy: Policy, full: Store, pruned: Store, now: Instant, op: Operation)
    requires Invariant(policy, full, now) && Invariant(policy, pruned, now)
    requires PrunedFrom(policy, full, pruned, now)
    requires !op.DeleteExpiredTerminalJobs? && !op.RecordDispatchPublished?
    requires op.CreateQueued? ==> forall id | id in full.rows ::
      full.rows[id].job.publicId != op.publicId && full.rows[id].attempt.token != op.token
    ensures AnswerTo(policy, full, now, op) == AnswerTo(policy, pruned, now, op)
       <==> !ReusesPrunedKey(full, pruned, op)
  {
    if ReusesPrunedKey(full, pruned, op) {
      ReusedKeyTells(policy, full, pruned, now, op);
    } else {
      StepAgrees(policy, full, pruned, now, now, op);
    }
  }

  const EXAMPLE_POLICY := Policy(1, 10, 5)

  const EXAMPLE_CREATE := CreateQueued(13, "https://example.org/v", [], 11, 12, 0)

  /** One job, submitted at 0 and cancelled at 1; its retention has passed at 6. */
  const EXAMPLE_RUN := [Step(0, EXAMPLE_CREATE), Step(1, RequestCancellation(11))]

  function CancelledExample(): Row {
    Row(
      Job(11, "https://example.org/v", Finished, Some(Cancelled), 0, 10, None, Some(1), false, None, None),
      Attempt(12, 0, None, None, None, 0, None, None, None),
      13, {}, None)
  }

  lemma ExampleIsCreated()
    ensures var row := NewRow(EXAMPLE_POLICY, 0, EXAMPLE_CREATE);
      Next(EXAMPLE_POLICY, EMPTY_STORE, 0, EXAMPLE_CREATE) == Store(map[1 := row], 2)
    ensures Paths(EXAMPLE_CREATE.exclusions) == {}
  {
    assert Outstanding(EMPTY_STORE.rows) == {};
    assert UrlLengthCheck(EXAMPLE_CREATE.submittedUrl);
    assert forall id :: !HoldsKey(EMPTY_STORE.rows, id, 13);
  }

  lemma ExampleIsCancelled()
    ensures var s := Store(map[1 := NewRow(EXAMPLE_POLICY, 0, EXAMPLE_CREATE)], 2);
      Next(EXAMPLE_POLICY, s, 1, RequestCancellation(11)) == Store(map[1 := CancelledExample()], 2)
  {
    var row := NewRow(EXAMPLE_POLICY, 0, EXAMPLE_CREATE);
    var s := Store(map[1 := row], 2);
    assert HoldsPublicId(s.rows, 1, 11);
    assert forall id | HoldsPublicId(s.rows, id, 11) :: id == 1;
    assert Paths(EXAMPLE_CREATE.exclusions) == {};
    assert Changed(row, CancelQueued, 1) == CancelledExample();
    var after := Perform(s, Update({1}, CancelQueued), 1);
    assert after.rows == map[1 := CancelledExample()];
  }

  /**
   A key reused after its cancelled job's retention, in stores that two runs reach: replay without the
   deletion, a new job after it.
   */
  lemma ReuseExample()
    ensures var full := Final(EXAMPLE_POLICY, EMPTY_STORE, EXAMPLE_RUN);
      var pruned := Next(EXAMPLE_POLICY, full, 6, DeleteExpiredTerminalJobs);
      var again := CreateQueued(13, "https://example.org/v", [], 21, 22, 0);
      && Timely(0, EXAMPLE_RUN) && Invariant(EXAMPLE_POLICY, full, 6) && Invariant(EXAMPLE_POLICY, pruned, 6)
      && PrunedFrom(EXAMPLE_POLICY, full, pruned, 6)
      && AnswerTo(EXAMPLE_POLICY, full, 6, again) == Accepted(QueuedJob(1, 11, 0, 10))
      && AnswerTo(EXAMPLE_POLICY, pruned, 6, again) == Accepted(QueuedJob(2, 21, 6, 16))
  {
    var full := Final(EXAMPLE_POLICY, EMPTY_STORE, EXAMPLE_RUN);
    var pruned := Next(EXAMPLE_POLICY, full, 6, DeleteExpiredTerminalJobs);
    ExampleIsReached();
    EmptyStoreInvariant(EXAMPLE_POLICY, 0);
    RunKeepsInvariant(EXAMPLE_POLICY, EMPTY_STORE, 0, EXAMPLE_RUN);
    NextKeepsInvariant(EXAMPLE_POLICY, full, 1, 6, DeleteExpiredTerminalJobs);
    InvariantLater(EXAMPLE_POLICY, full, 1, 6);
    ReuseAnswers(full, pruned);
  }

  lemma FinalOfTwo(policy: Policy, s: Store, first: Step, second: Step)
    ensures Final(policy, s, [first, second])
      == Next(policy, Next(policy, s, first.now, first.op), second.now, second.op)
  {
    hide Decide;
    var run := [first, second];
    var rest := run[1..];
    var next := Next(policy, s, first.now, first.op);
    assert rest == [second] && rest[1..] == [];
    assert Final(policy, next, rest) == Final(policy, Next(policy, next, second.now, second.op), []);
  }

  lemma ExampleIsReached()
    ensures Timely(0, EXAMPLE_RUN) && LastInstant(0, EXAMPLE_RUN) == 1
    ensures Final(EXAMPLE_POLICY, EMPTY_STORE, EXAMPLE_RUN) == Store(map[1 := CancelledExample()], 2)
    ensures Next(EXAMPLE_POLICY, Store(map[1 := CancelledExample()], 2), 6, DeleteExpiredTerminalJobs)
      == EMPTY_STORE.(nextId := 2)
  {
    ExampleIsCreated();
    ExampleIsCancelled();
    FinalOfTwo(EXAMPLE_POLICY, EMPTY_STORE, EXAMPLE_RUN[0], EXAMPLE_RUN[1]);
    assert EXAMPLE_RUN[1..] == [Step(1, RequestCancellation(11))] && EXAMPLE_RUN[1..][1..] == [];
    var full := Store(map[1 := CancelledExample()], 2);
    assert Next(EXAMPLE_POLICY, full, 6, DeleteExpiredTerminalJobs).rows == map[];
  }

  lemma ReuseAnswers(full: Store, pruned: Store)
    requires full == Store(map[1 := CancelledExample()], 2) && pruned == EMPTY_STORE.(nextId := 2)
    ensures var again := CreateQueued(13, "https://example.org/v", [], 21, 22, 0);
      && AnswerTo(EXAMPLE_POLICY, full, 6, again) == Accepted(QueuedJob(1, 11, 0, 10))
      && AnswerTo(EXAMPLE_POLICY, pruned, 6, again) == Accepted(QueuedJob(2, 21, 6, 16))
  {
    var again := CreateQueued(13, "https://example.org/v", [], 21, 22, 0);
    assert HoldsKey(full.rows, 1, 13);
    assert Paths(again.exclusions) == {};
    assert Outstanding(pruned.rows) == {};
  }
}

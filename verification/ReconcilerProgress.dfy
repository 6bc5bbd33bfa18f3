/**
 One reconciler among others: which leases it holds, and why its loops end, whatever the clock does
 and whatever other processes commit in between.
 */
module ReconcilerProgress {
  import opened Options
  import opened JobTypes
  import opened Ordering
  import opened JobProtocol
  import opened StoreInvariant
  import opened JobHistory
  import opened DispatchLeases
  import opened PublicationPass

  // ---------------------------------------------------------------- other processes

  /** Another process never acts under the lease owner that one reconciler drew for itself. */
  predicate IsForeign(op: Operation, owner: Uuid) {
    match op
    case LeaseDueDispatches(leaseOwner, _, _) => leaseOwner != owner
    case RecordDispatchPublished(_, leaseOwner, _) => leaseOwner != owner
    case ReleaseDispatchLeases(_, leaseOwner) => leaseOwner != owner
    case _ => true
  }

  predicate AllForeign(run: seq<Step>, owner: Uuid) {
    forall step | step in run :: IsForeign(step.op, owner)
  }

  predicate NoAdmission(run: seq<Step>) {
    forall step | step in run :: !step.op.CreateQueued?
  }

  // ---------------------------------------------------------------- the leases of one reconciler

  /** All leases of the owner are on the listed dispatches. */
  predicate LeasesOnly(rows: Rows, owner: Uuid, dispatches: seq<JobDispatch>) {
    forall id | id in rows && rows[id].attempt.leaseOwner == Some(owner) :: DispatchOf(rows, id) in dispatches
  }

  lemma ForeignEffect(policy: Policy, s: Store, now: Instant, op: Operation, owner: Uuid)
    requires IsForeign(op, owner)
    ensures var effect := Decide(policy, s, now, op).effect;
      && (effect.Update? && effect.change.LeasePublication? ==> effect.change.leaseOwner != owner)
      && (effect.Insert? ==> effect.row.attempt.leaseOwner.None?)
  {
  }

  lemma ForeignStepKeepsLeases(policy: Policy, s: Store, now: Instant, op: Operation, owner: Uuid,
      dispatches: seq<JobDispatch>)
    requires IsForeign(op, owner) && LeasesOnly(s.rows, owner, dispatches)
    ensures LeasesOnly(Next(policy, s, now, op).rows, owner, dispatches)
  {
    ForeignEffect(policy, s, now, op, owner);
    hide Decide;
    hide LeasesOnly;
    hide Perform;
    ForeignEffectKeepsLeases(s, now, Decide(policy, s, now, op).effect, owner, dispatches);
  }

  lemma ForeignEffectKeepsLeases(s: Store, now: Instant, effect: Effect, owner: Uuid, dispatches: seq<JobDispatch>)
    requires LeasesOnly(s.rows, owner, dispatches)
    requires effect.Update? && effect.change.LeasePublication? ==> effect.change.leaseOwner != owner
    requires effect.Insert? ==> effect.row.attempt.leaseOwner.None?
    ensures LeasesOnly(Perform(s, effect, now).rows, owner, dispatches)
  {
  }

  lemma {:induction false} ForeignRunKeepsLeases(
    policy: Policy, s: Store, run: seq<Step>, owner: Uuid, dispatches: seq<JobDispatch>)
    requires AllForeign(run, owner) && LeasesOnly(s.rows, owner, dispatches)
    ensures LeasesOnly(Final(policy, s, run).rows, owner, dispatches)
    decreases run
  {
    hide Decide;
    if run != [] {
      assert run[0] in run;
      ForeignStepKeepsLeases(policy, s, run[0].now, run[0].op, owner, dispatches);
      ForeignRunKeepsLeases(policy, Next(policy, s, run[0].now, run[0].op), run[1..], owner, dispatches);
    }
  }

  /** A lease call by an owner without leases leaves it with those that it returned. */
  lemma LeaseReturnsOwnLeases(s: Store, now: Instant, op: Operation)
    requires op.LeaseDueDispatches? && op.duration > 0 && op.limit > 0
    requires LeasesOnly(s.rows, op.leaseOwner, [])
    ensures LeasesOnly(Perform(s, DecideLease(s, now, op).effect, now).rows, op.leaseOwner,
        DecideLease(s, now, op).answer.leased)
  {
    var batch := Batch(DueStamps(s.rows, now), op.limit);
    BatchMembers(DueStamps(s.rows, now), op.limit);
    forall id | id in batch ensures id in s.rows && DispatchOf(s.rows, id) in DispatchesOf(s.rows, batch) {
      DispatchListed(s.rows, batch, id);
    }
  }

  lemma RecordEndsOwnLease(s: Store, now: Instant, owner: Uuid, interval: int, dispatches: seq<JobDispatch>)
    requires interval > 0 && dispatches != [] && LeasesOnly(s.rows, owner, dispatches)
    ensures LeasesOnly(
      Perform(
        s, DecideRecord(s, now, Operation.RecordDispatchPublished(dispatches[0], owner, interval)).effect, now).rows,
      owner, dispatches[1..])
  {
    var decision := DecideRecord(s, now, Operation.RecordDispatchPublished(dispatches[0], owner, interval));
    var rows := Perform(s, decision.effect, now).rows;
    forall id | id in rows && rows[id].attempt.leaseOwner == Some(owner)
      ensures DispatchOf(rows, id) in dispatches[1..]
    {
      assert DispatchOf(s.rows, id) in dispatches;
      assert DispatchOf(s.rows, id) != dispatches[0];
    }
  }

  lemma ReleaseEndsOwnLeases(s: Store, now: Instant, owner: Uuid, dispatches: seq<JobDispatch>)
    requires LeasesOnly(s.rows, owner, dispatches)
    ensures LeasesOnly(
      Perform(s, DecideRelease(s, Operation.ReleaseDispatchLeases(dispatches, owner)).effect, now).rows, owner, [])
  {
  }

  // ---------------------------------------------------------------- the time left to publish

  /** How long an attempt may still be due before its queue deadline, from now on. */
  function Window(rows: Rows, id: JobId, now: Instant): nat {
    if id !in rows then 0
    else
      var due := rows[id].attempt.nextDispatchAt;
      var from := if due < now then now else due;
      if from < rows[id].job.queueDeadlineAt then rows[id].job.queueDeadlineAt - from else 0
  }

  /** The windows of all jobs with an id below `n`. */
  function TotalWindow(rows: Rows, n: nat, now: Instant): nat {
    if n == 0 then 0 else TotalWindow(rows, n - 1, now) + Window(rows, n - 1, now)
  }

  ghost predicate WindowsShrink(before: Rows, earlier: Instant, after: Rows, now: Instant) {
    forall id :: Window(after, id, now) <= Window(before, id, earlier)
  }

  lemma {:induction false} TotalShrinks(before: Rows, earlier: Instant, after: Rows, now: Instant, n: nat, id: JobId)
    requires WindowsShrink(before, earlier, after, now)
    ensures TotalWindow(after, n, now) <= TotalWindow(before, n, earlier)
    ensures 0 <= id < n && Window(after, id, now) < Window(before, id, earlier)
      ==> TotalWindow(after, n, now) < TotalWindow(before, n, earlier)
  {
    if n > 0 {
      TotalShrinks(before, earlier, after, now, n - 1, id);
      assert Window(after, n - 1, now) <= Window(before, n - 1, earlier);
    }
  }

  lemma ChangeShrinksWindow(policy: Policy, row: Row, change: Change, earlier: Instant, now: Instant)
    requires RowInvariant(policy, row, now) && Enabled(row, change, now) && earlier <= now
    ensures Window(map[0 := Changed(row, change, now)], 0, now) <= Window(map[0 := row], 0, earlier)
  {
  }

  predicate Unadmitted(before: Store, after: Store) {
    after.nextId == before.nextId && after.rows.Keys <= before.rows.Keys
  }

  /** Without admissions, no transaction gives any job more time to be published. */
  lemma StepShrinksWindows(policy: Policy, s: Store, earlier: Instant, now: Instant, op: Operation)
    requires Invariant(policy, s, earlier) && earlier <= now && !op.CreateQueued?
    ensures Unadmitted(s, Next(policy, s, now, op))
    ensures WindowsShrink(s.rows, earlier, Next(policy, s, now, op).rows, now)
    ensures Outstanding(Next(policy, s, now, op).rows) <= Outstanding(s.rows)
  {
    hide Window;
    NextEvolves(policy, s, earlier, now, op);
    assert !Decide(policy, s, now, op).effect.Insert?;
    hide Decide;
    EffectShrinksWindows(policy, s, earlier, now, Decide(policy, s, now, op).effect);
    var next := Next(policy, s, now, op);
    forall id | id in Outstanding(next.rows) ensures id in Outstanding(s.rows) {
      assert Advances(s.rows[id], next.rows[id]);
    }
  }

  lemma EffectShrinksWindows(policy: Policy, s: Store, earlier: Instant, now: Instant, effect: Effect)
    requires Invariant(policy, s, now) && earlier <= now && !effect.Insert? && Lawful(policy, s, effect, now)
    ensures WindowsShrink(s.rows, earlier, Perform(s, effect, now).rows, now)
  {
    if effect.Update? {
      forall id | id in effect.updated
        ensures Window(Perform(s, effect, now).rows, id, now) <= Window(s.rows, id, earlier)
      {
        ChangeShrinksWindow(policy, s.rows[id], effect.change, earlier, now);
      }
    }
  }

  lemma {:induction false} RunShrinksWindows(policy: Policy, s: Store, start: Instant, run: seq<Step>)
    requires Invariant(policy, s, start) && Timely(start, run) && NoAdmission(run)
    ensures Unadmitted(s, Final(policy, s, run))
    ensures WindowsShrink(s.rows, start, Final(policy, s, run).rows, LastInstant(start, run))
    ensures Outstanding(Final(policy, s, run).rows) <= Outstanding(s.rows)
    decreases run
  {
    hide Decide;
    hide Window;
    hide Outstanding;
    if run != [] {
      assert run[0] in run;
      StepShrinksWindows(policy, s, start, run[0].now, run[0].op);
      NextKeepsInvariant(policy, s, start, run[0].now, run[0].op);
      RunShrinksWindows(policy, Next(policy, s, run[0].now, run[0].op), run[0].now, run[1..]);
    }
  }

  // ---------------------------------------------------------------- one publication makes progress

  lemma {:induction false} ForeignRunKeepsLease(
    policy: Policy, s: Store, start: Instant, run: seq<Step>, dispatch: JobDispatch, owner: Uuid, expiresAt: Instant)
    requires Invariant(policy, s, start) && Timely(start, run) && AllForeign(run, owner)
    requires LeasedTo(s, dispatch, owner, expiresAt) || IsGone(s, dispatch.internalJobId)
    ensures var last := Final(policy, s, run);
      || LastInstant(start, run) >= expiresAt
      || LeasedTo(last, dispatch, owner, expiresAt)
      || IsGone(last, dispatch.internalJobId)
    decreases run
  {
    hide Decide;
    hide LeasedTo;
    if run != [] {
      var now, op := run[0].now, run[0].op;
      assert run[0] in run;
      NextEvolves(policy, s, start, now, op);
      LaterThanFirst(start, run);
      if now < expiresAt {
        if LeasedTo(s, dispatch, owner, expiresAt) {
          LeaseSurvivesStep(policy, s, start, now, op, dispatch, owner, expiresAt);
        }
        ForeignRunKeepsLease(policy, Next(policy, s, now, op), now, run[1..], dispatch, owner, expiresAt);
      }
    }
  }

  lemma {:induction false} LaterThanFirst(start: Instant, run: seq<Step>)
    requires Timely(start, run)
    ensures start <= LastInstant(start, run)
    ensures run != [] ==> run[0].now <= LastInstant(start, run)
    decreases run
  {
    if run != [] {
      LaterThanFirst(run[0].now, run[1..]);
    }
  }

  /**
   From the lease of a due dispatch to its record, the time it has left to be published gets
   shorter: it was recorded, or its job is gone, or the whole lease time has gone by.
   */
  lemma PublicationProgresses(
    policy: Policy, s: Store, leasedAt: Instant, dispatch: JobDispatch, lease: Operation,
    between: Store, recordedAt: Instant, interval: int)
    requires Invariant(policy, s, leasedAt) && leasedAt <= recordedAt && interval > 0
    requires lease.LeaseDueDispatches? && Leases(AnswerTo(policy, s, leasedAt, lease), dispatch)
    requires Invariant(policy, between, recordedAt)
    requires Evolves(s, between)
    requires recordedAt >= leasedAt + lease.duration
          || LeasedTo(between, dispatch, lease.leaseOwner, leasedAt + lease.duration)
          || IsGone(between, dispatch.internalJobId)
    ensures var record := Operation.RecordDispatchPublished(dispatch, lease.leaseOwner, interval);
      var id := dispatch.internalJobId;
      Window(Next(policy, between, recordedAt, record).rows, id, recordedAt) < Window(s.rows, id, leasedAt)
  {
    LeasedDispatchesAreDue(policy, s, leasedAt, lease, dispatch);
    var id := dispatch.internalJobId;
    assert RowInvariant(policy, s.rows[id], leasedAt);
    assert id in between.rows ==> RowInvariant(policy, between.rows[id], recordedAt);
  }

  // ---------------------------------------------------------------- one batch

  /** The lease call of a batch; `isQuiet` if nothing is admitted from then on. */
  datatype LeaseCall = LeaseCall(store: Store, at: Instant, op: Operation, isQuiet: bool)

  ghost predicate Shrunk(call: LeaseCall, db: Store, asOf: Instant) {
    call.isQuiet ==> Unadmitted(call.store, db) && WindowsShrink(call.store.rows, call.at, db.rows, asOf)
  }

  /** The dispatch was leased by the call and its publication is not recorded yet. */
  ghost predicate Pending(policy: Policy, call: LeaseCall, db: Store, asOf: Instant, dispatch: JobDispatch) {
    && Invariant(policy, call.store, call.at) && call.at <= asOf
    && call.op.LeaseDueDispatches? && Leases(AnswerTo(policy, call.store, call.at, call.op), dispatch)
    && Evolves(call.store, db) && Shrunk(call, db, asOf)
    && (|| asOf >= call.at + call.op.duration
        || LeasedTo(db, dispatch, call.op.leaseOwner, call.at + call.op.duration)
        || IsGone(db, dispatch.internalJobId))
  }

  /** The dispatch has less time left to be published than when the call leased it. */
  ghost predicate Progressed(call: LeaseCall, db: Store, asOf: Instant, dispatch: JobDispatch) {
    && Shrunk(call, db, asOf)
    && (call.isQuiet ==>
          Window(db.rows, dispatch.internalJobId, asOf) < Window(call.store.rows, dispatch.internalJobId, call.at))
  }

  lemma LeasedIsPending(policy: Policy, call: LeaseCall, dispatch: JobDispatch)
    requires Invariant(policy, call.store, call.at) && call.op.LeaseDueDispatches?
    requires Leases(AnswerTo(policy, call.store, call.at, call.op), dispatch)
    ensures Pending(policy, call, Next(policy, call.store, call.at, call.op), call.at, dispatch)
  {
    hide Decide;
    hide Invariant;
    hide Evolves;
    NextEvolves(policy, call.store, call.at, call.at, call.op);
    StepShrinksWindows(policy, call.store, call.at, call.at, call.op);
    LeasedDispatchesAreDue(policy, call.store, call.at, call.op, dispatch);
  }

  lemma ShrunkByRun(policy: Policy, call: LeaseCall, db: Store, asOf: Instant, run: seq<Step>)
    requires Invariant(policy, db, asOf) && Timely(asOf, run) && Shrunk(call, db, asOf)
    requires call.isQuiet ==> NoAdmission(run)
    ensures Shrunk(call, Final(policy, db, run), LastInstant(asOf, run))
    ensures call.isQuiet ==> WindowsShrink(db.rows, asOf, Final(policy, db, run).rows, LastInstant(asOf, run))
  {
    hide Invariant;
    hide Window;
    hide Final;
    if call.isQuiet {
      RunShrinksWindows(policy, db, asOf, run);
      var last, at := Final(policy, db, run).rows, LastInstant(asOf, run);
      forall id ensures Window(last, id, at) <= Window(call.store.rows, id, call.at) {
        assert Window(last, id, at) <= Window(db.rows, id, asOf);
      }
    }
  }

  lemma PendingThroughRun(policy: Policy, call: LeaseCall, db: Store, asOf: Instant, run: seq<Step>,
      dispatch: JobDispatch)
    requires Invariant(policy, db, asOf) && Timely(asOf, run) && Pending(policy, call, db, asOf, dispatch)
    requires AllForeign(run, call.op.leaseOwner) && (call.isQuiet ==> NoAdmission(run))
    ensures Pending(policy, call, Final(policy, db, run), LastInstant(asOf, run), dispatch)
  {
    hide Decide;
    hide Invariant;
    hide Final;
    hide LeasedTo;
    ShrunkByRun(policy, call, db, asOf, run);
    RunEvolves(policy, db, asOf, run);
    IdsBelowNext(policy, call.store, call.at);
    EvolvesTransitive(call.store, db, Final(policy, db, run));
    LaterThanFirst(asOf, run);
    if asOf < call.at + call.op.duration {
      ForeignRunKeepsLease(policy, db, asOf, run, dispatch, call.op.leaseOwner, call.at + call.op.duration);
    }
  }

  lemma IdsBelowNext(policy: Policy, s: Store, now: Instant)
    requires Invariant(policy, s, now)
    ensures s.nextId > 0 && forall id | id in s.rows :: 0 < id < s.nextId
  {
  }

  lemma RecordMakesProgress(
    policy: Policy, call: LeaseCall, db: Store, asOf: Instant, now: Instant, dispatch: JobDispatch, interval: int)
    requires Invariant(policy, db, asOf) && asOf <= now && interval > 0
    requires Pending(policy, call, db, asOf, dispatch)
    ensures Progressed(
      call, Next(policy, db, now, Operation.RecordDispatchPublished(dispatch, call.op.leaseOwner, interval)),
      now, dispatch)
  {
    hide Decide;
    hide Invariant;
    hide Window;
    hide LeasedTo;
    hide Evolves;
    var record := Operation.RecordDispatchPublished(dispatch, call.op.leaseOwner, interval);
    InvariantLater(policy, db, asOf, now);
    PublicationProgresses(policy, call.store, call.at, dispatch, call.op, db, now, interval);
    ShrunkByStep(policy, call, db, asOf, now, record);
  }

  lemma ShrunkByStep(policy: Policy, call: LeaseCall, db: Store, asOf: Instant, now: Instant, op: Operation)
    requires Invariant(policy, db, asOf) && asOf <= now && Shrunk(call, db, asOf) && !op.CreateQueued?
    ensures Shrunk(call, Next(policy, db, now, op), now)
    ensures WindowsShrink(db.rows, asOf, Next(policy, db, now, op).rows, now)
  {
    hide Decide;
    hide Invariant;
    hide Window;
    StepShrinksWindows(policy, db, asOf, now, op);
    if call.isQuiet {
      var next := Next(policy, db, now, op).rows;
      forall id ensures Window(next, id, now) <= Window(call.store.rows, id, call.at) {
        assert Window(next, id, now) <= Window(db.rows, id, asOf);
      }
    }
  }

  lemma ProgressedThroughStep(
    policy: Policy, call: LeaseCall, db: Store, asOf: Instant, now: Instant, op: Operation, dispatch: JobDispatch)
    requires Invariant(policy, db, asOf) && asOf <= now && !op.CreateQueued?
    requires Progressed(call, db, asOf, dispatch)
    ensures Progressed(call, Next(policy, db, now, op), now, dispatch)
  {
    hide Decide;
    hide Invariant;
    hide Window;
    ShrunkByStep(policy, call, db, asOf, now, op);
  }

  lemma ProgressedThroughRun(policy: Policy, call: LeaseCall, db: Store, asOf: Instant, run: seq<Step>,
      dispatch: JobDispatch)
    requires Invariant(policy, db, asOf) && Timely(asOf, run) && Progressed(call, db, asOf, dispatch)
    requires call.isQuiet ==> NoAdmission(run)
    ensures Progressed(call, Final(policy, db, run), LastInstant(asOf, run), dispatch)
  {
    hide Invariant;
    hide Window;
    hide Final;
    ShrunkByRun(policy, call, db, asOf, run);
  }

  /** A batch whose first dispatch made progress brings the end of all publication closer. */
  lemma BatchMakesProgress(policy: Policy, call: LeaseCall, db: Store, asOf: Instant, dispatch: JobDispatch)
    requires Invariant(policy, call.store, call.at) && call.op.LeaseDueDispatches?
    requires Leases(AnswerTo(policy, call.store, call.at, call.op), dispatch)
    requires call.isQuiet && Progressed(call, db, asOf, dispatch) && call.store.nextId > 0
    ensures db.nextId == call.store.nextId
    ensures TotalWindow(db.rows, db.nextId, asOf) < TotalWindow(call.store.rows, call.store.nextId, call.at)
  {
    hide Decide;
    hide Window;
    LeasedDispatchesAreDue(policy, call.store, call.at, call.op, dispatch);
    IdsBelowNext(policy, call.store, call.at);
    TotalShrinks(call.store.rows, call.at, db.rows, asOf, call.store.nextId, dispatch.internalJobId);
  }

  // ---------------------------------------------------------------- the two drains

  /** A drain call that reports transitions leaves fewer unfinished jobs. */
  lemma DrainMakesProgress(policy: Policy, s: Store, earlier: Instant, now: Instant, op: Operation)
    requires Invariant(policy, s, earlier) && earlier <= now
    requires op.RecoverExpiredClaims? || op.ExpireQueuedJobs?
    requires AnswerTo(policy, s, now, op).Counted? && AnswerTo(policy, s, now, op).count > 0
    ensures |Outstanding(Next(policy, s, now, op).rows)| < |Outstanding(s.rows)|
  {
    var stamps := if op.RecoverExpiredClaims? then AbandonedStamps(s.rows, now) else OverdueStamps(s.rows, now);
    var ids := Ids(Batch(stamps, op.limit));
    BatchMembers(stamps, op.limit);
    StepShrinksWindows(policy, s, earlier, now, op);
    var id := SomeMember(ids);
    var next := Next(policy, s, now, op);
    assert id in s.rows && next.rows[id].job.status.Finished?;
    assert id in Outstanding(s.rows) && id !in Outstanding(next.rows);
    SubsetIsSmaller(Outstanding(next.rows), Outstanding(s.rows) - {id});
  }
}

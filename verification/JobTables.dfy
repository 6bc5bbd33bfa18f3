/**
 The normalized tables behind the protocol's rows, and the SQL statements on them that the
 transactions are made of. `View` gathers the tables of a job into one protocol row.
 */
module JobTables {
  import opened Options
  import opened TranscriptTypes
  import opened ResultRows
  import opened JobTypes
  import opened Ordering
  import opened JobProtocol

  /** One map per table, by job id; a job without exclusion rows has the empty set. */
  datatype Tables = Tables(
    jobs: map<JobId, Job>,
    attempts: map<JobId, Attempt>,
    keys: map<JobId, Uuid>,
    exclusions: map<JobId, set<FieldPath>>,
    results: map<JobId, ResultRow>,
    segments: map<JobId, seq<SegmentRow>>,
    nextId: JobId)

  const EMPTY_TABLES := Tables(map[], map[], map[], map[], map[], map[], 1)

  /** Exactly one attempt and one key per job, and result rows only beside job rows. */
  ghost predicate Aligned(t: Tables) {
    && (forall id :: id in t.attempts <==> id in t.jobs)
    && (forall id :: id in t.keys <==> id in t.jobs)
    && (forall id :: id in t.exclusions <==> id in t.jobs)
    && (forall id | id in t.results :: id in t.jobs)
    && (forall id :: id in t.segments <==> id in t.results)
  }

  ghost function RowOf(t: Tables, id: JobId): Row
    requires Aligned(t) && id in t.jobs
  {
    Row(t.jobs[id], t.attempts[id], t.keys[id], t.exclusions[id],
        if id in t.results then Some(StoredResult(t.results[id], t.segments[id])) else None)
  }

  ghost function View(t: Tables): (s: Store)
    requires Aligned(t)
    ensures forall id :: id in s.rows <==> id in t.jobs
    ensures s.nextId == t.nextId
    ensures forall id | id in t.jobs :: s.rows[id] == RowOf(t, id)
  {
    Store(map id | id in t.jobs :: RowOf(t, id), t.nextId)
  }

  /** `DELETE FROM table WHERE id IN selected`. */
  function Deleting<R>(table: map<JobId, R>, selected: set<JobId>): (left: map<JobId, R>)
    ensures forall id :: id in left <==> id in table && id !in selected
    ensures forall id | id in left :: left[id] == table[id]
  {
    map id | id in table && id !in selected :: table[id]
  }

  /** Two versions of the tables with the same jobs, differing in job, attempt and result rows only. */
  ghost predicate SameJobs(t: Tables, u: Tables) {
    && Aligned(t) && Aligned(u)
    && (forall id :: id in u.jobs <==> id in t.jobs)
    && u.keys == t.keys && u.exclusions == t.exclusions && u.nextId == t.nextId
  }

  /**
   UPDATE statements that change the rows of the selected jobs as the protocol's change does, and no
   other row, are the protocol's update.
   */
  lemma TablesUpdated(t: Tables, u: Tables, selected: set<JobId>, change: Change, now: Instant)
    requires SameJobs(t, u)
    requires forall id | id in t.jobs :: RowOf(u, id) == UpdatedRow(RowOf(t, id), id in selected, change, now)
    ensures View(u) == Perform(View(t), Update(selected, change), now)
  {
    assert View(u).rows == Perform(View(t), Update(selected, change), now).rows;
  }

  // ---------------------------------------------------------------- UPDATE statements

  /** `UPDATE transcription_job SET status, outcome, finished_at, error_code, error_message`. */
  function FinishTimedOut(t: Tables, selected: set<JobId>, now: Instant): (u: Tables)
    requires Aligned(t)
    ensures Aligned(u) && View(u) == Perform(View(t), Update(selected, ExpireQueue), now)
  {
    var u := t.(jobs := map id | id in t.jobs ::
      if id in selected then FailedWith(t.jobs[id], QueueTimeout, QUEUE_TIMEOUT_MESSAGE, now) else t.jobs[id]);
    TablesUpdated(t, u, selected, ExpireQueue, now);
    u
  }

  function SetLease(t: Tables, selected: set<JobId>, owner: Uuid, duration: int, now: Instant): (u: Tables)
    requires Aligned(t)
    ensures Aligned(u) && View(u) == Perform(View(t), Update(selected, LeasePublication(owner, duration)), now)
  {
    var u := t.(attempts := map id | id in t.attempts ::
      if id in selected then LeasedAttempt(t.attempts[id], owner, now + duration) else t.attempts[id]);
    TablesUpdated(t, u, selected, LeasePublication(owner, duration), now);
    u
  }

  function SetPublished(t: Tables, selected: set<JobId>, delay: int, now: Instant): (u: Tables)
    requires Aligned(t)
    ensures Aligned(u) && View(u) == Perform(View(t), Update(selected, RecordPublication(delay)), now)
  {
    var u := t.(attempts := map id | id in t.attempts ::
      if id in selected then RecordedAttempt(t.attempts[id], now, now + delay) else t.attempts[id]);
    TablesUpdated(t, u, selected, RecordPublication(delay), now);
    u
  }

  function ClearLease(t: Tables, selected: set<JobId>, now: Instant): (u: Tables)
    requires Aligned(t)
    ensures Aligned(u) && View(u) == Perform(View(t), Update(selected, ReleasePublication), now)
  {
    var u := t.(attempts := map id | id in t.attempts ::
      if id in selected then WithoutLease(t.attempts[id]) else t.attempts[id]);
    TablesUpdated(t, u, selected, ReleasePublication, now);
    u
  }

  function RenewOwner(t: Tables, selected: set<JobId>, lease: int, now: Instant): (u: Tables)
    requires Aligned(t)
    ensures Aligned(u) && View(u) == Perform(View(t), Update(selected, RenewClaim(lease)), now)
  {
    var u := t.(attempts := map id | id in t.attempts ::
      if id in selected then RenewedAttempt(t.attempts[id], now, now + lease) else t.attempts[id]);
    TablesUpdated(t, u, selected, RenewClaim(lease), now);
    u
  }

  function FinishCancelledJobs(jobs: map<JobId, Job>, selected: set<JobId>, now: Instant): (updated: map<JobId, Job>)
    ensures forall id :: id in updated <==> id in jobs
    ensures forall id | id in jobs ::
      updated[id] == if id in selected then FinishedJob(jobs[id], Cancelled, now) else jobs[id]
  {
    map id | id in jobs :: if id in selected then FinishedJob(jobs[id], Cancelled, now) else jobs[id]
  }

  function FinishInterruptedJobs(jobs: map<JobId, Job>, selected: set<JobId>, now: Instant): (updated: map<JobId, Job>)
    ensures forall id :: id in updated <==> id in jobs
    ensures forall id | id in jobs ::
      updated[id] == if id in selected then InterruptedJob(jobs[id], now) else jobs[id]
  {
    map id | id in jobs :: if id in selected then InterruptedJob(jobs[id], now) else jobs[id]
  }

  /** The two updates of a recovery batch, one per flag value, are one recovery of every row. */
  lemma SplitRecovery(jobs: map<JobId, Job>, toCancel: set<JobId>, toInterrupt: set<JobId>, now: Instant)
    requires forall id | id in toCancel :: id in jobs && jobs[id].cancellationRequested
    requires forall id | id in toInterrupt :: id in jobs && !jobs[id].cancellationRequested
    ensures var updated := FinishInterruptedJobs(FinishCancelledJobs(jobs, toCancel, now), toInterrupt, now);
      forall id | id in jobs ::
        updated[id] == if id in toCancel + toInterrupt then RecoveredJob(jobs[id], now) else jobs[id]
  {
  }

  function ClearClaims(attempts: map<JobId, Attempt>, selected: set<JobId>): (updated: map<JobId, Attempt>)
    ensures forall id :: id in updated <==> id in attempts
    ensures forall id | id in attempts ::
      updated[id] == if id in selected then WithoutClaim(attempts[id]) else attempts[id]
  {
    map id | id in attempts :: if id in selected then WithoutClaim(attempts[id]) else attempts[id]
  }

  /** One job row changes: `UPDATE transcription_job SET ... WHERE id = :id`. */
  function SetJob(t: Tables, id: JobId, job: Job): Tables
    requires id in t.jobs
  {
    t.(jobs := t.jobs[id := job])
  }

  function SetAttempt(t: Tables, id: JobId, attempt: Attempt): Tables
    requires id in t.attempts
  {
    t.(attempts := t.attempts[id := attempt])
  }

  /** The rows of one job after its statements are the row that the protocol's change makes. */
  lemma OneJobUpdated(t: Tables, u: Tables, id: JobId, change: Change, now: Instant)
    requires SameJobs(t, u) && id in t.jobs
    requires forall other | other in t.jobs && other != id :: RowOf(u, other) == RowOf(t, other)
    requires RowOf(u, id) == Changed(RowOf(t, id), change, now)
    ensures View(u) == Perform(View(t), Update({id}, change), now)
  {
    TablesUpdated(t, u, {id}, change, now);
  }

  lemma NoneUpdated(t: Tables, change: Change, now: Instant)
    requires Aligned(t)
    ensures Perform(View(t), Update({}, change), now) == View(t)
  {
    assert Perform(View(t), Update({}, change), now).rows == View(t).rows;
  }

  // ---------------------------------------------------------------- INSERT and DELETE statements

  /** `DELETE FROM transcription_job`; the foreign keys cascade to every other table. */
  function DeleteJobs(t: Tables, selected: set<JobId>, now: Instant): (u: Tables)
    requires Aligned(t)
    ensures Aligned(u) && View(u) == Perform(View(t), Remove(selected), now)
  {
    var u := t.(
      jobs := Deleting(t.jobs, selected),
      attempts := Deleting(t.attempts, selected),
      keys := Deleting(t.keys, selected),
      exclusions := Deleting(t.exclusions, selected),
      results := Deleting(t.results, selected),
      segments := Deleting(t.segments, selected));
    assert View(u).rows == Perform(View(t), Remove(selected), now).rows;
    u
  }

  /** The four INSERT statements of an admission, with the id that the sequence returned. */
  function InsertJob(t: Tables, id: JobId, job: Job, attempt: Attempt, key: Uuid, paths: set<FieldPath>, now: Instant)
    : (u: Tables)
    requires Aligned(t) && id !in t.jobs
    ensures Aligned(u) && View(u) == Perform(View(t), Insert(id, Row(job, attempt, key, paths, None)), now)
  {
    var u := t.(
      jobs := t.jobs[id := job],
      exclusions := t.exclusions[id := paths],
      attempts := t.attempts[id := attempt],
      keys := t.keys[id := key],
      nextId := id + 1);
    InsertedRows(t, u, id, Row(job, attempt, key, paths, None));
    u
  }

  lemma InsertedRows(t: Tables, u: Tables, id: JobId, row: Row)
    requires Aligned(t) && Aligned(u) && id !in t.jobs && u.nextId == id + 1
    requires forall other :: other in u.jobs <==> other in t.jobs || other == id
    requires forall other | other in t.jobs :: RowOf(u, other) == RowOf(t, other)
    requires RowOf(u, id) == row
    ensures View(u) == Store(View(t).rows[id := row], id + 1)
  {
    assert View(u).rows == View(t).rows[id := row];
  }

  /** `INSERT INTO transcription_job_result` and its segments. */
  function InsertResult(t: Tables, id: JobId, stored: StoredResult): Tables
    requires id !in t.results
  {
    t.(results := t.results[id := stored.row], segments := t.segments[id := stored.segments])
  }
}

/**
 The bodies of the repository's transactions, statement by statement on the tables.

 Each method takes the tables as the transaction finds them and returns the tables it commits; a
 raised error returns the tables it was given, as a rollback does. Each is proved to be the step
 that module JobProtocol decides on the gathered rows.
 */
module JobTransactions {
  import opened Options
  import opened TranscriptTypes
  import opened ResultRows
  import opened JobTypes
  import opened Ordering
  import opened JobProtocol
  import opened StoreInvariant
  import opened JobTables

  /** The transaction commits what the protocol decides, and answers as it decides. */
  ghost predicate Follows(t: Tables, u: Tables, decision: Decision, answer: Answer, now: Instant) {
    && Aligned(t) && Aligned(u)
    && View(u) == Perform(View(t), decision.effect, now)
    && answer == decision.answer
  }

  // ---------------------------------------------------------------- queue expiry and publication

  method ExpireQueued(t: Tables, limit: int, now: Instant) returns (u: Tables, answer: Answer)
    requires Aligned(t)
    ensures Follows(t, u, DecideExpire(View(t), now, limit), answer, now)
  {
    hide Batch;
    if limit <= 0 {
      return t, InvalidArgument;
    }
    var overdue := map id | id in t.jobs && IsOverdue(t.jobs[id], now) :: t.jobs[id].queueDeadlineAt;
    assert overdue == OverdueStamps(View(t).rows, now);
    var expired := SelectBatch(overdue, limit);
    if expired == [] {
      NoneUpdated(t, ExpireQueue, now);
      return t, Counted(0);
    }
    var matched := set id | id in t.jobs && id in expired && IsOverdue(t.jobs[id], now);
    assert matched == Ids(expired) by {
      forall id | id in expired ensures id in matched { assert id in overdue; }
    }
    u := FinishTimedOut(t, matched, now);
    if |matched| > |expired| {
      return t, StoreUnavailable;
    }
    answer := Counted(|matched|);
  }

  /** `SELECT id ... ORDER BY ... LIMIT :limit`: each id once. */
  method SelectBatch(stamps: Stamps, limit: int) returns (ids: seq<JobId>)
    requires limit > 0
    ensures ids == Batch(stamps, limit)
    ensures forall id | id in ids :: id in stamps
    ensures NoDuplicates(ids) && |Ids(ids)| == |ids| && (Ids(ids) == {} <==> ids == [])
  {
    ids := Batch(stamps, limit);
    BatchMembers(stamps, limit);
    BatchIsEarliest(stamps, limit);
    SortedHasNoDuplicates(stamps, ids);
    CountOfIds(ids);
    EmptyIffNoIds(ids);
  }

  method LeaseDue(t: Tables, leaseOwner: Uuid, duration: int, limit: int, now: Instant)
    returns (u: Tables, answer: Answer)
    requires Aligned(t)
    ensures Follows(t, u, DecideLease(View(t), now, LeaseDueDispatches(leaseOwner, duration, limit)), answer, now)
  {
    hide Batch;
    if duration <= 0 || limit <= 0 {
      return t, InvalidArgument;
    }
    var due := map id | id in t.jobs && id in t.attempts && IsEligible(t.jobs[id], now)
                        && t.attempts[id].nextDispatchAt <= now && LeaseIsFree(t.attempts[id], now)
               :: t.jobs[id].submittedAt;
    assert due == DueStamps(View(t).rows, now);
    BatchMembers(due, limit);
    var candidates := SelectBatch(due, limit);
    if |candidates| == 0 {
      NoneUpdated(t, LeasePublication(leaseOwner, duration), now);
      return t, Leased([]);
    }
    // The update checks the parent row again, and reports the rows it changed.
    var matched := set id | id in t.attempts && id in candidates && id in t.jobs && IsEligible(t.jobs[id], now);
    assert matched == Ids(candidates) by {
      forall id | id in candidates ensures id in matched { assert id in due; }
    }
    u := SetLease(t, matched, leaseOwner, duration, now);
    // Two reported rows with the same key would make the answer ambiguous.
    var keys := LeasedKeys(t, matched);
    if |keys| != |matched| {
      return u, StoreUnavailable;
    }
    var leased := LeasedInOrder(t, candidates, keys);
    answer := Leased(leased);
  }

  /** The keys of the rows that the update reported. */
  function LeasedKeys(t: Tables, matched: set<JobId>): (keys: set<JobDispatch>)
    requires forall id | id in matched :: id in t.attempts
    ensures |keys| == |matched|
    ensures forall id | id in matched :: JobDispatch(id, t.attempts[id].token) in keys
  {
    var keys := set id | id in matched :: JobDispatch(id, t.attempts[id].token);
    KeysAreDistinct(t, matched, keys);
    keys
  }

  lemma {:induction false} KeysAreDistinct(t: Tables, matched: set<JobId>, keys: set<JobDispatch>)
    requires forall id | id in matched :: id in t.attempts
    requires keys == set id | id in matched :: JobDispatch(id, t.attempts[id].token)
    ensures |keys| == |matched|
    decreases |matched|
  {
    if matched != {} {
      var id := SomeMember(matched);
      var key := JobDispatch(id, t.attempts[id].token);
      KeysAreDistinct(t, matched - {id}, keys - {key});
      assert key in keys;
    }
  }

  /** The candidates that the update reported, in the order they were selected. */
  method LeasedInOrder(t: Tables, candidates: seq<JobId>, keys: set<JobDispatch>) returns (leased: seq<JobDispatch>)
    requires Aligned(t)
    requires forall id | id in candidates :: id in t.jobs && JobDispatch(id, t.attempts[id].token) in keys
    ensures leased == DispatchesOf(View(t).rows, candidates)
  {
    leased := [];
    for i := 0 to |candidates|
      invariant leased == DispatchesOf(View(t).rows, candidates[..i])
    {
      var id := candidates[i];
      assert candidates[..i + 1][..i] == candidates[..i];
      assert id in candidates;
      assert id in t.jobs;
      if JobDispatch(id, t.attempts[id].token) in keys {
        leased := leased + [JobDispatch(id, t.attempts[id].token)];
      }
    }
    assert candidates[..|candidates|] == candidates;
  }

  method RecordPublished(t: Tables, dispatch: JobDispatch, leaseOwner: Uuid, redispatchAfter: int, now: Instant)
    returns (u: Tables, answer: Answer)
    requires Aligned(t)
    ensures Follows(t, u, DecideRecord(View(t), now,
        Operation.RecordDispatchPublished(dispatch, leaseOwner, redispatchAfter)),
                    answer, now)
  {
    if redispatchAfter <= 0 {
      return t, InvalidArgument;
    }
    var id := dispatch.internalJobId;
    var matched := if id in t.attempts && t.attempts[id].token == dispatch.executionAttemptToken
                      && t.attempts[id].leaseOwner == Some(leaseOwner)
                   then {id} else {};
    u := SetPublished(t, matched, redispatchAfter, now);
    NoneUpdated(t, RecordPublication(redispatchAfter), now);
    answer := Recorded(|matched| == 1);
  }

  method ReleaseLeases(t: Tables, dispatches: seq<JobDispatch>, leaseOwner: Uuid, now: Instant)
    returns (u: Tables, answer: Answer)
    requires Aligned(t)
    ensures Follows(t, u, DecideRelease(View(t), Operation.ReleaseDispatchLeases(dispatches, leaseOwner)), answer, now)
  {
    if dispatches == [] {
      NoneUpdated(t, ReleasePublication, now);
      assert LeasesHeld(View(t).rows, dispatches, leaseOwner) == {};
      return t, Done;
    }
    var matched := set id | id in t.attempts && t.attempts[id].leaseOwner == Some(leaseOwner)
                            && JobDispatch(id, t.attempts[id].token) in dispatches;
    assert matched == LeasesHeld(View(t).rows, dispatches, leaseOwner);
    u := ClearLease(t, matched, now);
    answer := Done;
  }

  // ---------------------------------------------------------------- claims

  /** `SELECT id ... ORDER BY submitted_at, id LIMIT 1`, compared with the delivered job. */
  method IsOldestEligible(t: Tables, id: JobId, now: Instant) returns (isOldest: bool)
    requires Aligned(t)
    ensures isOldest <==> IsEarliest(EligibleStamps(View(t).rows, now), id)
    ensures isOldest ==> id in t.jobs && IsEligible(t.jobs[id], now)
  {
    var eligible := map other | other in t.jobs && IsEligible(t.jobs[other], now) :: t.jobs[other].submittedAt;
    assert eligible == EligibleStamps(View(t).rows, now);
    if |eligible| == 0 {
      return false;
    }
    var oldest := Earliest(eligible);
    isOldest := oldest == id;
  }

  method Claim(t: Tables, dispatch: JobDispatch, workerOwner: Uuid, duration: int, now: Instant)
    returns (u: Tables, answer: Answer)
    requires Aligned(t)
    ensures Follows(t, u, DecideClaim(View(t), now, Operation.ClaimDispatch(dispatch, workerOwner, duration)),
        answer, now)
  {
    hide IsEarliest;
    hide EligibleStamps;
    if duration <= 0 {
      return t, InvalidArgument;
    }
    var id := dispatch.internalJobId;
    var attemptMatches := id in t.attempts && t.attempts[id].token == dispatch.executionAttemptToken;

    // An expired job is finished by its late delivery, not started.
    var timedOut := set other | other in t.jobs && other == id && IsOverdue(t.jobs[other], now) && attemptMatches;
    assert timedOut == if id in t.jobs && IsOverdue(t.jobs[id], now) && attemptMatches then {id} else {};
    if |timedOut| != 0 && |timedOut| != 1 {
      return t, StoreUnavailable;
    }
    if |timedOut| == 1 {
      u := FinishTimedOut(t, timedOut, now);
      return u, NotClaimed;
    }
    var isOldest := IsOldestEligible(t, id, now);
    if !isOldest {
      return t, NotClaimed;
    }
    if !(id in t.jobs && IsEligible(t.jobs[id], now) && attemptMatches) {
      return t, NotClaimed;
    }
    u, answer := BeginProcessing(t, dispatch, workerOwner, duration, now);
  }

  /** The claim, ownership and input statements of a delivery that may start its job. */
  method BeginProcessing(t: Tables, dispatch: JobDispatch, workerOwner: Uuid, duration: int, now: Instant)
    returns (u: Tables, answer: Answer)
    requires Aligned(t) && dispatch.internalJobId in t.jobs
    requires t.attempts[dispatch.internalJobId].token == dispatch.executionAttemptToken
    ensures var id := dispatch.internalJobId;
      Follows(t, u,
        if t.attempts[id].workerOwner.Some? || t.jobs[id].submittedUrl == "" then Refuse(StoreUnavailable)
        else Decision(
          Update({id}, StartProcessing(workerOwner, duration)),
          Claimed(ClaimedJob(ExecutionClaim(dispatch, workerOwner), t.jobs[id].submittedUrl, t.exclusions[id]))),
        answer, now)
  {
    var id := dispatch.internalJobId;
    var isOwned: bool;
    u, isOwned := TakeOwnership(t, id, workerOwner, duration, now);
    if !isOwned {
      return t, StoreUnavailable;
    }
    // The private inputs are selected by the ownership that was just written.
    if !(u.jobs[id].status.Processing? && u.attempts[id].workerOwner == Some(workerOwner)
         && u.attempts[id].token == dispatch.executionAttemptToken) {
      return t, StoreUnavailable;
    }
    if u.jobs[id].submittedUrl == "" {
      return t, StoreUnavailable;
    }
    answer := Claimed(ClaimedJob(ExecutionClaim(dispatch, workerOwner), u.jobs[id].submittedUrl, u.exclusions[id]));
  }

  /** The claim update and the ownership update, which matches only an attempt without an owner. */
  method TakeOwnership(t: Tables, id: JobId, workerOwner: Uuid, duration: int, now: Instant)
    returns (u: Tables, isOwned: bool)
    requires Aligned(t) && id in t.jobs
    ensures isOwned <==> t.attempts[id].workerOwner.None?
    ensures isOwned ==>
      && Aligned(u) && View(u) == Perform(View(t), Update({id}, StartProcessing(workerOwner, duration)), now)
      && id in u.jobs && u.jobs[id].status.Processing? && u.jobs[id].submittedUrl == t.jobs[id].submittedUrl
      && u.attempts[id].workerOwner == Some(workerOwner) && u.attempts[id].token == t.attempts[id].token
      && u.exclusions == t.exclusions
  {
    hide View;
    hide Perform;
    u := SetJob(t, id, StartedJob(t.jobs[id], now));
    isOwned := u.attempts[id].workerOwner.None?;
    if isOwned {
      u := SetAttempt(u, id, OwnedAttempt(u.attempts[id], workerOwner, now, now + duration));
      OneJobUpdated(t, u, id, StartProcessing(workerOwner, duration), now);
    }
  }

  method Heartbeat(t: Tables, claims: seq<ExecutionClaim>, duration: int, now: Instant)
    returns (u: Tables, answer: Answer)
    requires Aligned(t)
    ensures Follows(t, u, DecideHeartbeat(View(t), now, Operation.HeartbeatClaims(claims, duration)), answer, now)
  {
    if duration <= 0 {
      return t, InvalidArgument;
    }
    var matched := set claim | claim in claims && RenewableInTables(t, claim, now) :: claim.dispatch.internalJobId;
    forall claim ensures RenewableInTables(t, claim, now) <==> Renewable(View(t).rows, claim, now) {
    }
    assert matched == RenewedJobs(View(t).rows, claims, now);
    u := RenewOwner(t, matched, duration, now);
    if exists id :: id in matched && UnlistedKey(t, claims, id) {
      return u, StoreUnavailable;
    }
    var heartbeats := CollectHeartbeats(t, claims, now);
    answer := Renewed(heartbeats);
  }

  /** A reported row whose key (id, token, owner) is that of no listed claim. */
  predicate UnlistedKey(t: Tables, claims: seq<ExecutionClaim>, id: JobId) {
    id in t.attempts &&
    (t.attempts[id].workerOwner.None?
     || ExecutionClaim(JobDispatch(id, t.attempts[id].token), t.attempts[id].workerOwner.value) !in claims)
  }

  predicate RenewableInTables(t: Tables, claim: ExecutionClaim, now: Instant) {
    var id := claim.dispatch.internalJobId;
    && id in t.jobs && id in t.attempts
    && t.jobs[id].status.Processing?
    && After(t.attempts[id].claimLeaseExpiresAt, now)
    && t.attempts[id].token == claim.dispatch.executionAttemptToken
    && t.attempts[id].workerOwner == Some(claim.workerOwner)
  }

  /** The renewed claims with their cancellation state, in the order the worker listed them. */
  method CollectHeartbeats(t: Tables, claims: seq<ExecutionClaim>, now: Instant)
    returns (heartbeats: seq<ClaimHeartbeat>)
    requires Aligned(t)
    ensures heartbeats == Heartbeats(View(t).rows, claims, now)
  {
    heartbeats := [];
    for i := 0 to |claims|
      invariant heartbeats + Heartbeats(View(t).rows, claims[i..], now) == Heartbeats(View(t).rows, claims, now)
    {
      assert claims[i..][1..] == claims[i + 1..];
      if RenewableInTables(t, claims[i], now) {
        var id := claims[i].dispatch.internalJobId;
        heartbeats := heartbeats + [ClaimHeartbeat(claims[i], t.jobs[id].cancellationRequested)];
      }
    }
  }

  method RecoverExpired(t: Tables, limit: int, now: Instant) returns (u: Tables, answer: Answer)
    requires Aligned(t)
    ensures Follows(t, u, DecideRecover(View(t), now, limit), answer, now)
  {
    hide Batch;
    if limit <= 0 {
      return t, InvalidArgument;
    }
    var abandoned := map id | id in t.jobs && id in t.attempts && t.jobs[id].status.Processing?
                              && AtOrBefore(t.attempts[id].claimLeaseExpiresAt, now)
                     :: t.attempts[id].claimLeaseExpiresAt.value;
    assert abandoned == AbandonedStamps(View(t).rows, now);
    var expired := SelectBatch(abandoned, limit);
    if expired == [] {
      NoneUpdated(t, RecoverClaim, now);
      return t, Counted(0);
    }
    forall id | id in expired
      ensures id in t.jobs && t.jobs[id].status.Processing? && AtOrBefore(t.attempts[id].claimLeaseExpiresAt, now)
    {
      assert id in abandoned;
    }
    u, answer := FinishAbandoned(t, expired, now);
  }

  /** The update statements of one recovery batch, each with its row count compared. */
  method FinishAbandoned(t: Tables, expired: seq<JobId>, now: Instant) returns (u: Tables, answer: Answer)
    requires Aligned(t) && NoDuplicates(expired)
    requires forall id | id in expired ::
      id in t.jobs && t.jobs[id].status.Processing? && AtOrBefore(t.attempts[id].claimLeaseExpiresAt, now)
    ensures Aligned(u) && View(u) == Perform(View(t), Update(Ids(expired), RecoverClaim), now)
    ensures answer == Counted(|Ids(expired)|)
  {
    hide FinishCancelledJobs;
    hide FinishInterruptedJobs;
    hide ClearClaims;
    hide View;
    hide Perform;
    hide Ids;
    var cancelled, interrupted := SortRecovered(t, expired);
    var toCancel, toInterrupt := MatchedByUpdates(t, expired, cancelled, interrupted);
    u := t.(jobs := FinishCancelledJobs(t.jobs, toCancel, now));
    if |toCancel| != |cancelled| {
      return t, StoreUnavailable;
    }
    u := u.(jobs := FinishInterruptedJobs(u.jobs, toInterrupt, now));
    if |toInterrupt| != |interrupted| {
      return t, StoreUnavailable;
    }
    var cleared := ExpiredClaims(u, expired, cancelled, interrupted, now);
    u := u.(attempts := ClearClaims(u.attempts, cleared));
    if |cleared| != |toCancel| + |toInterrupt| {
      return t, StoreUnavailable;
    }
    RecoveredRows(t, u, toCancel, toInterrupt, now);
    answer := Counted(|toCancel| + |toInterrupt|);
  }

  /** The claims that the clearing update matches. */
  method ExpiredClaims(t: Tables, expired: seq<JobId>, cancelled: seq<JobId>, interrupted: seq<JobId>, now: Instant)
    returns (cleared: set<JobId>)
    requires forall id | id in expired :: id in t.attempts && AtOrBefore(t.attempts[id].claimLeaseExpiresAt, now)
    requires forall id :: id in expired <==> id in cancelled || id in interrupted
    ensures cleared == Ids(expired)
  {
    cleared := set id | id in t.attempts && id in cancelled + interrupted
                        && AtOrBefore(t.attempts[id].claimLeaseExpiresAt, now);
    forall id ensures id in cleared <==> id in Ids(expired) {
    }
  }

  /** The processing rows that each of the two updates of a batch matches: as many as were selected. */
  method MatchedByUpdates(t: Tables, expired: seq<JobId>, cancelled: seq<JobId>, interrupted: seq<JobId>)
    returns (toCancel: set<JobId>, toInterrupt: set<JobId>)
    requires forall id | id in expired :: id in t.jobs && t.jobs[id].status.Processing?
    requires NoDuplicates(cancelled) && NoDuplicates(interrupted)
    requires forall id :: id in cancelled <==> id in expired && t.jobs[id].cancellationRequested
    requires forall id :: id in interrupted <==> id in expired && !t.jobs[id].cancellationRequested
    ensures toCancel + toInterrupt == Ids(expired) && |toCancel| + |toInterrupt| == |Ids(expired)|
    ensures |toCancel| == |cancelled| && |toInterrupt| == |interrupted|
    ensures forall id | id in toCancel :: id in t.jobs && t.jobs[id].cancellationRequested
    ensures forall id | id in toInterrupt :: id in t.jobs && !t.jobs[id].cancellationRequested
  {
    toCancel := set id | id in t.jobs && id in cancelled
                         && t.jobs[id].status.Processing? && t.jobs[id].cancellationRequested;
    toInterrupt := set id | id in t.jobs && id in interrupted
                            && t.jobs[id].status.Processing? && !t.jobs[id].cancellationRequested;
    forall id
      ensures id in toCancel + toInterrupt <==> id in Ids(expired)
      ensures id in toCancel <==> id in Ids(cancelled)
      ensures id in toInterrupt <==> id in Ids(interrupted)
    {
    }
    CountOfIds(cancelled);
    CountOfIds(interrupted);
    assert toCancel == Ids(cancelled) && toInterrupt == Ids(interrupted);
    assert toCancel !! toInterrupt && toCancel + toInterrupt == Ids(expired);
  }

  lemma RecoveredRows(t: Tables, u: Tables, toCancel: set<JobId>, toInterrupt: set<JobId>, now: Instant)
    requires Aligned(t)
    requires forall id | id in toCancel :: id in t.jobs && t.jobs[id].cancellationRequested
    requires forall id | id in toInterrupt :: id in t.jobs && !t.jobs[id].cancellationRequested
    requires u == t.(
      jobs := FinishInterruptedJobs(FinishCancelledJobs(t.jobs, toCancel, now), toInterrupt, now),
      attempts := ClearClaims(t.attempts, toCancel + toInterrupt))
    ensures Aligned(u) && View(u) == Perform(View(t), Update(toCancel + toInterrupt, RecoverClaim), now)
  {
    hide FinishCancelledJobs;
    hide FinishInterruptedJobs;
    hide ClearClaims;
    hide RecoveredJob;
    hide InterruptedJob;
    hide WithoutClaim;
    SplitRecovery(t.jobs, toCancel, toInterrupt, now);
    var finished := toCancel + toInterrupt;
    forall id | id in t.jobs ensures RowOf(u, id) == UpdatedRow(RowOf(t, id), id in finished, RecoverClaim, now) {
      assert u.jobs[id] == if id in finished then RecoveredJob(t.jobs[id], now) else t.jobs[id];
    }
    TablesUpdated(t, u, finished, RecoverClaim, now);
  }

  /** The loop that splits the expired jobs by their cancellation flag. */
  method SortRecovered(t: Tables, expired: seq<JobId>) returns (cancelled: seq<JobId>, interrupted: seq<JobId>)
    requires NoDuplicates(expired) && forall id | id in expired :: id in t.jobs
    ensures forall id :: id in cancelled <==> id in expired && t.jobs[id].cancellationRequested
    ensures forall id :: id in interrupted <==> id in expired && !t.jobs[id].cancellationRequested
    ensures NoDuplicates(cancelled) && NoDuplicates(interrupted)
  {
    cancelled, interrupted := [], [];
    for i := 0 to |expired|
      invariant NoDuplicates(cancelled) && NoDuplicates(interrupted)
      invariant forall id :: id in cancelled <==> id in expired[..i] && t.jobs[id].cancellationRequested
      invariant forall id :: id in interrupted <==> id in expired[..i] && !t.jobs[id].cancellationRequested
    {
      var id := expired[i];
      assert expired[..i + 1] == expired[..i] + [id] && id in expired && id !in expired[..i];
      if t.jobs[id].cancellationRequested {
        cancelled := cancelled + [id];
      } else {
        interrupted := interrupted + [id];
      }
    }
    assert expired[..|expired|] == expired;
  }

  // ---------------------------------------------------------------- admission

  method Create(t: Tables, policy: Policy, op: Operation, now: Instant) returns (u: Tables, answer: Answer)
    requires Aligned(t) && Unique(View(t).rows) && op.CreateQueued?
    requires forall id | id in t.jobs :: id < t.nextId
    ensures Follows(t, u, DecideCreate(policy, View(t), now, op), answer, now)
  {
    if id :| id in t.keys && t.keys[id] == op.key {
      assert HoldsKey(View(t).rows, id, op.key);
      forall other | HoldsKey(View(t).rows, other, op.key) ensures other == id {
        assert other in t.jobs && RowOf(t, other).key == RowOf(t, id).key;
      }
      if t.jobs[id].submittedUrl != op.submittedUrl || t.exclusions[id] != Paths(op.exclusions) {
        return t, IdempotencyConflict;
      }
      return t, Accepted(QueuedSnapshot(id, t.jobs[id]));
    } else {
      assert forall id :: !HoldsKey(View(t).rows, id, op.key);
    }
    var outstanding := set id | id in t.jobs && !t.jobs[id].status.Finished?;
    assert outstanding == Outstanding(View(t).rows);
    if |outstanding| >= policy.maximumOutstandingJobs {
      return t, CapacityExceeded;
    }
    u, answer := Admit(t, policy, op, now);
  }

  /** The inserts of a new job; the database refuses them as a whole if a constraint fails. */
  method Admit(t: Tables, policy: Policy, op: Operation, now: Instant) returns (u: Tables, answer: Answer)
    requires Aligned(t) && op.CreateQueued?
    requires forall id | id in t.jobs :: id < t.nextId
    ensures Follows(t, u,
      if (!UrlLengthCheck(op.submittedUrl) || HasDuplicates(op.exclusions)
          || CollidesWith(View(t).rows, op.publicId, op.token))
      then Refuse(StoreUnavailable)
      else Decision(Insert(t.nextId + op.sequenceGap, NewRow(policy, now, op)),
                    Accepted(QueuedSnapshot(t.nextId + op.sequenceGap, NewRow(policy, now, op).job))),
      answer, now)
  {
    var collides := exists id | id in t.jobs ::
        t.jobs[id].publicId == op.publicId || t.attempts[id].token == op.token;
    assert collides <==> CollidesWith(View(t).rows, op.publicId, op.token) by {
      forall id | id in t.jobs ensures View(t).rows[id] == RowOf(t, id) {
      }
    }
    if !UrlLengthCheck(op.submittedUrl) || HasDuplicates(op.exclusions) || collides {
      return t, StoreUnavailable;
    }
    var id := t.nextId + op.sequenceGap;
    var row := NewRow(policy, now, op);
    u := InsertJob(t, id, row.job, row.attempt, row.key, row.exclusions, now);
    answer := Accepted(QueuedSnapshot(id, row.job));
  }

  // ---------------------------------------------------------------- retention and cancellation

  method DeleteExpired(t: Tables, policy: Policy, now: Instant) returns (u: Tables, answer: Answer)
    requires Aligned(t)
    ensures Follows(t, u, DecideDelete(policy, View(t), now), answer, now)
  {
    var cutoff := now - policy.terminalRetention;
    var matched := set id | id in t.jobs && t.jobs[id].status.Finished? && AtOrBefore(t.jobs[id].finishedAt, cutoff);
    assert matched == set id | id in View(t).rows && IsExpiredTerminal(View(t).rows[id], now, policy);
    u := DeleteJobs(t, matched, now);
    answer := Done;
  }

  /** The row translators, on the rows of one job as they are selected. */
  method ReadSnapshot(t: Tables, id: JobId) returns (snapshot: Option<Snapshot>)
    requires Aligned(t) && id in t.jobs
    ensures snapshot == SnapshotOf(id, RowOf(t, id))
  {
    var stored := if id in t.results then Some(StoredResult(t.results[id], t.segments[id])) else None;
    snapshot := SnapshotOf(id, Row(t.jobs[id], t.attempts[id], t.keys[id], t.exclusions[id], stored));
  }

  /** `SELECT ... WHERE public_id = :public_id`. */
  method FindByCapability(t: Tables, publicId: Uuid) returns (found: Option<JobId>)
    requires Aligned(t) && Unique(View(t).rows)
    ensures found.None? <==> !exists id :: HoldsPublicId(View(t).rows, id, publicId)
    ensures found.Some? ==> forall id :: HoldsPublicId(View(t).rows, id, publicId) <==> id == found.value
  {
    if id :| id in t.jobs && t.jobs[id].publicId == publicId {
      assert HoldsPublicId(View(t).rows, id, publicId);
      forall other | HoldsPublicId(View(t).rows, other, publicId) ensures other == id {
        assert other in t.jobs && RowOf(t, other).job.publicId == RowOf(t, id).job.publicId;
      }
      found := Some(id);
    } else {
      found := None;
      assert forall id :: !HoldsPublicId(View(t).rows, id, publicId);
    }
  }

  method Get(t: Tables, policy: Policy, publicId: Uuid, now: Instant) returns (u: Tables, answer: Answer)
    requires Aligned(t) && Unique(View(t).rows)
    ensures Follows(t, u, DecideGet(policy, View(t), now, publicId), answer, now)
  {
    hide Unique;
    u := t;
    var found := FindByCapability(t, publicId);
    if found.None? {
      return t, Unknown;
    }
    var id := found.value;
    assert HoldsPublicId(View(t).rows, id, publicId);
    if t.jobs[id].status.Finished? && AtOrBefore(t.jobs[id].finishedAt, now - policy.terminalRetention) {
      return t, Unknown;
    }
    var snapshot := ReadSnapshot(t, id);
    answer := if snapshot.None? then StoreUnavailable else Found(snapshot.value);
  }

  method Cancel(t: Tables, policy: Policy, publicId: Uuid, now: Instant) returns (u: Tables, answer: Answer)
    requires Aligned(t) && Unique(View(t).rows)
    ensures Follows(t, u, DecideCancel(policy, View(t), now, publicId), answer, now)
  {
    hide Unique;
    hide SnapshotOf;
    var found := FindByCapability(t, publicId);
    if found.None? {
      return t, Unknown;
    }
    var id := found.value;
    assert HoldsPublicId(View(t).rows, id, publicId);
    var job := t.jobs[id];
    if job.status.Finished? && AtOrBefore(job.finishedAt, now - policy.terminalRetention) {
      return t, Unknown;
    }
    match job.status {
      case Queued =>
        var matched := set other | other in t.jobs && other == id && t.jobs[other].status.Queued?;
        assert matched == {id};
        if |matched| != 1 {
          return t, StoreUnavailable;
        }
        u, answer := CancelRow(t, id, CancelledQueuedJob(job, now), CancelQueued, true, now);
      case Processing =>
        var matched := set other | other in t.jobs && other == id && t.jobs[other].status.Processing?
                                   && !t.jobs[other].cancellationRequested;
        assert matched == if job.cancellationRequested then {} else {id};
        if |matched| != 0 && |matched| != 1 {
          return t, StoreUnavailable;
        }
        if |matched| == 0 {
          var snapshot := ReadSnapshot(t, id);
          assert Changed(RowOf(t, id), FlagCancellation, now) == RowOf(t, id);
          u, answer := t, if snapshot.None? then StoreUnavailable else Cancellation(id, snapshot.value, false);
        } else {
          u, answer := CancelRow(t, id, FlaggedJob(job), FlagCancellation, true, now);
        }
      case Finished =>
        u := t;
        if job.outcome == Some(Cancelled) {
          var snapshot := ReadSnapshot(t, id);
          answer := if snapshot.None? then StoreUnavailable else Cancellation(id, snapshot.value, false);
        } else if job.outcome.Some? {
          answer := AlreadyFinished;
        } else {
          answer := StoreUnavailable;
        }
    }
  }

  /** One update of the job row, and the snapshot read back from it. */
  method CancelRow(t: Tables, id: JobId, job: Job, change: Change, first: bool, now: Instant)
    returns (u: Tables, answer: Answer)
    requires Aligned(t) && id in t.jobs
    requires Changed(RowOf(t, id), change, now) == RowOf(t, id).(job := job)
    ensures Follows(t, u, CancellationAnswer(id, Changed(RowOf(t, id), change, now), first, Update({id}, change)),
        answer, now)
  {
    hide Changed;
    u := SetJob(t, id, job);
    OneJobUpdated(t, u, id, change, now);
    if id !in u.jobs {
      return t, StoreUnavailable;
    }
    var snapshot := ReadSnapshot(u, id);
    if snapshot.None? {
      return t, StoreUnavailable;
    }
    answer := Cancellation(id, snapshot.value, first);
  }

  // ---------------------------------------------------------------- terminal publication

  /** The transition guard shared by the three publications: a live claim with the given flag. */
  predicate PublicationMatches(t: Tables, claim: ExecutionClaim, cancelled: bool, now: Instant) {
    RenewableInTables(t, claim, now) && t.jobs[claim.dispatch.internalJobId].cancellationRequested == cancelled
  }

  lemma PublicationAgrees(t: Tables, claim: ExecutionClaim, cancelled: bool, now: Instant)
    requires Aligned(t)
    ensures PublicationMatches(t, claim, cancelled, now) <==> MayPublish(View(t).rows, claim, cancelled, now)
    ensures PublicationMatches(t, claim, cancelled, now) ==>
      claim.dispatch.internalJobId in t.jobs && claim.dispatch.internalJobId in ClaimedRows(t, claim)
  {
  }

  /** The row that `_clear_execution_claim` matches. */
  function ClaimedRows(t: Tables, claim: ExecutionClaim): set<JobId> {
    set id | id in t.attempts && claim.dispatch == JobDispatch(id, t.attempts[id].token)
             && t.attempts[id].workerOwner == Some(claim.workerOwner)
  }

  /** The transition and the cleared claim; a claim that cannot be cleared raises. */
  method Finish(t: Tables, claim: ExecutionClaim, job: Job, change: Change, now: Instant)
    returns (u: Tables, answer: Answer)
    requires Aligned(t) && claim.dispatch.internalJobId in ClaimedRows(t, claim)
    requires var id := claim.dispatch.internalJobId;
      Changed(RowOf(t, id), change, now) == RowOf(t, id).(job := job, attempt := WithoutClaim(t.attempts[id]))
    ensures Aligned(u) && View(u) == Perform(View(t), Update({claim.dispatch.internalJobId}, change), now)
    ensures answer == Published(true)
  {
    hide View;
    hide Perform;
    hide Changed;
    hide WithoutClaim;
    var id := claim.dispatch.internalJobId;
    u := SetJob(t, id, job);
    if id !in ClaimedRows(u, claim) {
      return t, StoreUnavailable;
    }
    u := SetAttempt(u, id, WithoutClaim(u.attempts[id]));
    OneJobUpdated(t, u, id, change, now);
    answer := Published(true);
  }

  method FinishAsCancelled(t: Tables, claim: ExecutionClaim, now: Instant) returns (u: Tables, answer: Answer)
    requires Aligned(t)
    ensures Follows(t, u, DecidePublishCancelled(View(t), now, claim), answer, now)
  {
    hide PublicationMatches;
    hide MayPublish;
    PublicationAgrees(t, claim, true, now);
    hide FinishedJob;
    hide WithoutClaim;
    if !PublicationMatches(t, claim, true, now) {
      return t, Published(false);
    }
    var job := FinishedJob(t.jobs[claim.dispatch.internalJobId], Cancelled, now);
    u, answer := Finish(t, claim, job, FinishCancelled, now);
  }

  method FinishAsFailed(t: Tables, claim: ExecutionClaim, code: ErrorCode, message: string, now: Instant)
    returns (u: Tables, answer: Answer)
    requires Aligned(t)
    ensures Follows(t, u, DecidePublishFailure(View(t), now, Operation.PublishFailure(claim, code, message)),
        answer, now)
  {
    hide PublicationMatches;
    hide MayPublish;
    PublicationAgrees(t, claim, false, now);
    hide View;
    hide Perform;
    if message == "" {
      return t, StoreUnavailable;
    }
    if !PublicationMatches(t, claim, false, now) {
      return t, Published(false);
    }
    if code.IdempotencyConflictCode? {
      return t, StoreUnavailable;
    }
    u, answer := FinishFailure(t, claim, code, message, now);
  }

  method FinishFailure(t: Tables, claim: ExecutionClaim, code: ErrorCode, message: string, now: Instant)
    returns (u: Tables, answer: Answer)
    requires Aligned(t) && claim.dispatch.internalJobId in ClaimedRows(t, claim)
    ensures var effect := Update({claim.dispatch.internalJobId}, FinishFailed(code, message));
      Aligned(u) && View(u) == Perform(View(t), effect, now)
    ensures answer == Published(true)
  {
    hide FailedWith;
    hide WithoutClaim;
    var job := FailedWith(t.jobs[claim.dispatch.internalJobId], code, message, now);
    u, answer := Finish(t, claim, job, FinishFailed(code, message), now);
  }

  method FinishAsSucceeded(t: Tables, claim: ExecutionClaim, response: TranscriptionResponse, now: Instant)
    returns (u: Tables, answer: Answer)
    requires Aligned(t) && forall id | id in t.results :: t.jobs[id].status.Finished?
    ensures Follows(t, u, DecidePublishSuccess(View(t), now, Operation.PublishSuccess(claim, response)), answer, now)
  {
    hide IsValidResponse;
    hide ResultAccepted;
    if !IsValidResponse(response) {
      return t, StoreUnavailable;
    }
    var stored := Stored(response);
    if !PublicationMatches(t, claim, false, now) {
      return t, Published(false);
    }
    var id := claim.dispatch.internalJobId;
    if !ResultAccepted(stored, t.exclusions[id]) {
      return t, StoreUnavailable;
    }
    u, answer := StoreSuccess(t, claim, stored, now);
  }

  /** The transition, the cleared claim and the result rows of a success. */
  method StoreSuccess(t: Tables, claim: ExecutionClaim, stored: StoredResult, now: Instant)
    returns (u: Tables, answer: Answer)
    requires Aligned(t)
    requires claim.dispatch.internalJobId in ClaimedRows(t, claim) && claim.dispatch.internalJobId !in t.results
    ensures var effect := Update({claim.dispatch.internalJobId}, FinishSucceeded(stored));
      Aligned(u) && View(u) == Perform(View(t), effect, now)
    ensures answer == Published(true)
  {
    hide View;
    hide Perform;
    hide FinishedJob;
    hide WithoutClaim;
    var id := claim.dispatch.internalJobId;
    u := SetJob(t, id, FinishedJob(t.jobs[id], Succeeded, now));
    if id !in ClaimedRows(u, claim) {
      return t, StoreUnavailable;
    }
    u := SetAttempt(u, id, WithoutClaim(u.attempts[id]));
    u := InsertResult(u, id, stored);
    OneJobUpdated(t, u, id, FinishSucceeded(stored), now);
    answer := Published(true);
  }
}

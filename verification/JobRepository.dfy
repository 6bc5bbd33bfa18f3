/**
 `PostgresTranscriptionJobRepository`: an object whose tables the transactions update in place. A
 transaction reads the clock once, works on the tables as it finds them and commits all of its
 changes or none; each method is proved to be one step of the protocol in module JobProtocol.
 */
module JobRepository {
  import opened Options
  import opened TranscriptTypes
  import opened ResultRows
  import opened JobTypes
  import opened JobProtocol
  import opened StoreInvariant
  import opened JobTables
  import opened Promises
  import T = JobTransactions

  lemma Committed(policy: Policy, t: Tables, u: Tables, earlier: Instant, now: Instant, op: Operation, answer: Answer)
    requires Aligned(t) && Invariant(policy, View(t), earlier) && earlier <= now
    requires T.Follows(t, u, Decide(policy, View(t), now, op), answer, now)
    ensures Aligned(u) && Invariant(policy, View(u), now)
    ensures View(u) == Next(policy, View(t), now, op) && answer == AnswerTo(policy, View(t), now, op)
    ensures Promised(policy, View(t), now, op, answer, View(u))
  {
    hide Decide;
    hide Invariant;
    hide Promised;
    NextKeepsInvariant(policy, View(t), earlier, now, op);
    InvariantLater(policy, View(t), earlier, now);
    PromisesAreKept(policy, View(t), now, op);
  }

  class PostgresTranscriptionJobRepository {
    const policy: Policy

    var tables: Tables

    /** The latest clock reading of a transaction. */
    ghost var asOf: Instant

    ghost predicate Valid()
      reads this
    {
      Aligned(tables) && Invariant(policy, View(tables), asOf)
    }

    /** What the tables hold, as rows of the protocol. */
    ghost function Db(): Store
      requires Valid()
      reads this
    {
      View(tables)
    }

    /** One transaction: the store and the answer are what it promises, and what the protocol decides. */
    twostate predicate Steps(now: Instant, op: Operation, answer: Answer)
      requires old(Valid())
      reads this
    {
      && Valid()
      && asOf == now
      && Db() == Next(policy, old(Db()), now, op)
      && answer == AnswerTo(policy, old(Db()), now, op)
      && Promised(policy, old(Db()), now, op, answer, Db())
    }

    constructor (policy: Policy)
      requires ValidPolicy(policy)
      ensures Valid() && Db() == EMPTY_STORE && this.policy == policy && asOf == 0
    {
      this.policy := policy;
      tables := EMPTY_TABLES;
      asOf := 0;
      new;
      assert View(EMPTY_TABLES) == EMPTY_STORE;
      EmptyStoreInvariant(policy, 0);
    }

    method CreateQueued(
      key: Uuid, submittedUrl: string, exclusions: seq<FieldPath>, publicId: Uuid, token: Uuid, sequenceGap: nat,
      now: Instant)
      returns (answer: Answer)
      requires Valid() && asOf <= now
      modifies this
      ensures Steps(now, Operation.CreateQueued(key, submittedUrl, exclusions, publicId, token, sequenceGap), answer)
    {
      var op := Operation.CreateQueued(key, submittedUrl, exclusions, publicId, token, sequenceGap);
      var u;
      u, answer := T.Create(tables, policy, op, now);
      Commit(u, now, op, answer);
    }

    method ExpireQueuedJobs(limit: int, now: Instant) returns (answer: Answer)
      requires Valid() && asOf <= now
      modifies this
      ensures Steps(now, Operation.ExpireQueuedJobs(limit), answer)
    {
      var u;
      u, answer := T.ExpireQueued(tables, limit, now);
      Commit(u, now, Operation.ExpireQueuedJobs(limit), answer);
    }

    method LeaseDueDispatches(leaseOwner: Uuid, duration: int, limit: int, now: Instant) returns (answer: Answer)
      requires Valid() && asOf <= now
      modifies this
      ensures Steps(now, Operation.LeaseDueDispatches(leaseOwner, duration, limit), answer)
    {
      var u;
      u, answer := T.LeaseDue(tables, leaseOwner, duration, limit, now);
      Commit(u, now, Operation.LeaseDueDispatches(leaseOwner, duration, limit), answer);
    }

    method RecordDispatchPublished(dispatch: JobDispatch, leaseOwner: Uuid, redispatchAfter: int, now: Instant)
      returns (answer: Answer)
      requires Valid() && asOf <= now
      modifies this
      ensures Steps(now, Operation.RecordDispatchPublished(dispatch, leaseOwner, redispatchAfter), answer)
    {
      var u;
      u, answer := T.RecordPublished(tables, dispatch, leaseOwner, redispatchAfter, now);
      Commit(u, now, Operation.RecordDispatchPublished(dispatch, leaseOwner, redispatchAfter), answer);
    }

    method ReleaseDispatchLeases(dispatches: seq<JobDispatch>, leaseOwner: Uuid, now: Instant) returns (answer: Answer)
      requires Valid() && asOf <= now
      modifies this
      ensures Steps(now, Operation.ReleaseDispatchLeases(dispatches, leaseOwner), answer)
    {
      var u;
      u, answer := T.ReleaseLeases(tables, dispatches, leaseOwner, now);
      Commit(u, now, Operation.ReleaseDispatchLeases(dispatches, leaseOwner), answer);
    }

    method ClaimDispatch(dispatch: JobDispatch, workerOwner: Uuid, duration: int, now: Instant) returns (answer: Answer)
      requires Valid() && asOf <= now
      modifies this
      ensures Steps(now, Operation.ClaimDispatch(dispatch, workerOwner, duration), answer)
    {
      var u;
      u, answer := T.Claim(tables, dispatch, workerOwner, duration, now);
      Commit(u, now, Operation.ClaimDispatch(dispatch, workerOwner, duration), answer);
    }

    method HeartbeatClaims(claims: seq<ExecutionClaim>, duration: int, now: Instant) returns (answer: Answer)
      requires Valid() && asOf <= now
      modifies this
      ensures Steps(now, Operation.HeartbeatClaims(claims, duration), answer)
    {
      var u;
      u, answer := T.Heartbeat(tables, claims, duration, now);
      Commit(u, now, Operation.HeartbeatClaims(claims, duration), answer);
    }

    method RecoverExpiredClaims(limit: int, now: Instant) returns (answer: Answer)
      requires Valid() && asOf <= now
      modifies this
      ensures Steps(now, Operation.RecoverExpiredClaims(limit), answer)
    {
      var u;
      u, answer := T.RecoverExpired(tables, limit, now);
      Commit(u, now, Operation.RecoverExpiredClaims(limit), answer);
    }

    method DeleteExpiredTerminalJobs(now: Instant) returns (answer: Answer)
      requires Valid() && asOf <= now
      modifies this
      ensures Steps(now, Operation.DeleteExpiredTerminalJobs, answer)
    {
      var u;
      u, answer := T.DeleteExpired(tables, policy, now);
      Commit(u, now, Operation.DeleteExpiredTerminalJobs, answer);
    }

    method RequestCancellation(publicId: Uuid, now: Instant) returns (answer: Answer)
      requires Valid() && asOf <= now
      modifies this
      ensures Steps(now, Operation.RequestCancellation(publicId), answer)
    {
      var u;
      u, answer := T.Cancel(tables, policy, publicId, now);
      Commit(u, now, Operation.RequestCancellation(publicId), answer);
    }

    method GetJob(publicId: Uuid, now: Instant) returns (answer: Answer)
      requires Valid() && asOf <= now
      modifies this
      ensures Steps(now, Operation.GetJob(publicId), answer)
    {
      var u;
      u, answer := T.Get(tables, policy, publicId, now);
      Commit(u, now, Operation.GetJob(publicId), answer);
    }

    method PublishCancelled(claim: ExecutionClaim, now: Instant) returns (answer: Answer)
      requires Valid() && asOf <= now
      modifies this
      ensures Steps(now, Operation.PublishCancelled(claim), answer)
    {
      var u;
      u, answer := T.FinishAsCancelled(tables, claim, now);
      Commit(u, now, Operation.PublishCancelled(claim), answer);
    }

    method PublishSuccess(claim: ExecutionClaim, response: TranscriptionResponse, now: Instant) returns (answer: Answer)
      requires Valid() && asOf <= now
      modifies this
      ensures Steps(now, Operation.PublishSuccess(claim, response), answer)
    {
      ResultsAreFinished(policy, tables, asOf);
      var u;
      u, answer := T.FinishAsSucceeded(tables, claim, response, now);
      Commit(u, now, Operation.PublishSuccess(claim, response), answer);
    }

    method PublishFailure(claim: ExecutionClaim, code: ErrorCode, message: string, now: Instant)
        returns (answer: Answer)
      requires Valid() && asOf <= now
      modifies this
      ensures Steps(now, Operation.PublishFailure(claim, code, message), answer)
    {
      var u;
      u, answer := T.FinishAsFailed(tables, claim, code, message, now);
      Commit(u, now, Operation.PublishFailure(claim, code, message), answer);
    }

    /** Whichever transaction another process asks for. */
    method Execute(now: Instant, op: Operation) returns (answer: Answer)
      requires Valid() && asOf <= now
      modifies this
      ensures Steps(now, op, answer)
    {
      hide Invariant;
      hide Decide;
      match op {
        case CreateQueued(key, submittedUrl, exclusions, publicId, token, sequenceGap) =>
          answer := CreateQueued(key, submittedUrl, exclusions, publicId, token, sequenceGap, now);
        case ExpireQueuedJobs(limit) => answer := ExpireQueuedJobs(limit, now);
        case LeaseDueDispatches(leaseOwner, duration, limit) =>
          answer := LeaseDueDispatches(leaseOwner, duration, limit, now);
        case RecordDispatchPublished(dispatch, leaseOwner, redispatchAfter) =>
          answer := RecordDispatchPublished(dispatch, leaseOwner, redispatchAfter, now);
        case ReleaseDispatchLeases(dispatches, leaseOwner) =>
          answer := ReleaseDispatchLeases(dispatches, leaseOwner, now);
        case ClaimDispatch(dispatch, workerOwner, duration) =>
          answer := ClaimDispatch(dispatch, workerOwner, duration, now);
        case HeartbeatClaims(claims, duration) => answer := HeartbeatClaims(claims, duration, now);
        case RecoverExpiredClaims(limit) => answer := RecoverExpiredClaims(limit, now);
        case DeleteExpiredTerminalJobs => answer := DeleteExpiredTerminalJobs(now);
        case RequestCancellation(publicId) => answer := RequestCancellation(publicId, now);
        case PublishCancelled(claim) => answer := PublishCancelled(claim, now);
        case PublishSuccess(claim, response) => answer := PublishSuccess(claim, response, now);
        case PublishFailure(claim, code, message) => answer := PublishFailure(claim, code, message, now);
        case GetJob(publicId) => answer := GetJob(publicId, now);
      }
    }

    /** What other processes commit while one process awaits something. */
    method Interleave(run: seq<Step>)
      requires Valid() && Timely(asOf, run)
      modifies this
      ensures Valid() && asOf == LastInstant(old(asOf), run)
      ensures Db() == Final(policy, old(Db()), run)
    {
      hide Invariant;
      hide Decide;
      ghost var start := Db();
      assert run[0..] == run;
      for i := 0 to |run|
        invariant Valid() && Timely(asOf, run[i..])
        invariant asOf == LastInstant(old(asOf), run[..i])
        invariant Final(policy, Db(), run[i..]) == Final(policy, start, run)
      {
        assert run[i..][0] == run[i] && run[i..][1..] == run[i + 1..];
        var _ := Execute(run[i].now, run[i].op);
      }
      assert run[..|run|] == run;
    }

    /** The end of a transaction. */
    method Commit(u: Tables, now: Instant, op: Operation, answer: Answer)
      requires Valid() && asOf <= now
      requires T.Follows(tables, u, Decide(policy, Db(), now, op), answer, now)
      modifies this
      ensures Steps(now, op, answer)
    {
      hide Decide;
      hide Invariant;
      hide Promised;
      hide Next;
      hide AnswerTo;
      Committed(policy, tables, u, asOf, now, op, answer);
      tables := u;
      asOf := now;
    }
  }

  lemma ResultsAreFinished(policy: Policy, t: Tables, now: Instant)
    requires Aligned(t) && RowsInvariant(policy, View(t).rows, now)
    ensures forall id | id in t.results :: t.jobs[id].status.Finished?
  {
    forall id | id in t.results ensures t.jobs[id].status.Finished? {
      assert RowInvariant(policy, View(t).rows[id], now);
      assert RowOf(t, id).result.Some?;
    }
  }
}

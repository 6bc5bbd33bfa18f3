/**
 `TranscriptionJobReconciler.reconcile_once`: two draining loops and the lease, publish, record loop,
 on the shared repository and amid whatever other processes commit between its transactions.
 */
module Reconciler {
  import opened Options
  import opened JobTypes
  import opened JobProtocol
  import opened StoreInvariant
  import opened JobHistory
  import opened DispatchLeases
  import opened PublicationPass
  import opened ReconcilerProgress
  import opened JobRepository

  /**
   What one reconciler cannot control, by the number of transactions it has made: the clock reading
   of its next transaction, what other processes commit after it, and whether the broker accepts
   the next publication.
   */
  datatype Environment = Environment(clock: nat -> Instant, others: nat -> seq<Step>, accepts: nat -> bool)

  /** The clock never goes back, and the lease owner is this reconciler's alone. */
  ghost predicate Orderly(env: Environment, owner: Uuid) {
    forall k: nat ::
      && Timely(env.clock(k), env.others(k))
      && LastInstant(env.clock(k), env.others(k)) <= env.clock(k + 1)
      && AllForeign(env.others(k), owner)
  }

  ghost predicate AdmissionsEnd(env: Environment, quietFrom: nat) {
    forall k: nat | k >= quietFrom :: NoAdmission(env.others(k))
  }

  /** Nothing else happens and no time passes. */
  ghost predicate StandsStill(env: Environment) {
    forall k: nat :: env.clock(k) == env.clock(0) && env.others(k) == []
  }

  function Remaining(turn: nat, quietFrom: nat): nat {
    if turn < quietFrom then quietFrom - turn else 0
  }

  class TranscriptionJobReconciler {
    const repository: PostgresTranscriptionJobRepository
    const terms: ReconcilerPolicy
    const leaseOwner: Uuid

    /** How many transactions this reconciler has made. */
    var turn: nat

    ghost predicate Ready(env: Environment)
      reads this, repository
    {
      && repository.Valid()
      && ValidReconcilerPolicy(terms)
      && Orderly(env, leaseOwner)
      && repository.asOf <= env.clock(turn)
    }

    /** This reconciler's leases are on the listed dispatches only. */
    ghost predicate HoldsOnly(dispatches: seq<JobDispatch>)
      requires repository.Valid()
      reads this, repository
    {
      LeasesOnly(repository.Db().rows, leaseOwner, dispatches)
    }

    constructor (repository: PostgresTranscriptionJobRepository, terms: ReconcilerPolicy, leaseOwner: Uuid)
      ensures this.repository == repository && this.terms == terms && this.leaseOwner == leaseOwner && turn == 0
    {
      this.repository := repository;
      this.terms := terms;
      this.leaseOwner := leaseOwner;
      turn := 0;
    }

    /** A transaction has been committed; the others go on until the next one. */
    method Await(env: Environment)
      requires repository.Valid() && ValidReconcilerPolicy(terms) && Orderly(env, leaseOwner)
      requires repository.asOf == env.clock(turn)
      modifies this, repository
      ensures Ready(env) && turn == old(turn) + 1
      ensures repository.Db() == Final(repository.policy, old(repository.Db()), env.others(old(turn)))
      ensures repository.asOf == LastInstant(old(repository.asOf), env.others(old(turn)))
      ensures forall dispatches | old(HoldsOnly(dispatches)) :: HoldsOnly(dispatches)
    {
      hide Invariant;
      hide Final;
      ghost var before := repository.Db();
      repository.Interleave(env.others(turn));
      forall dispatches | LeasesOnly(before.rows, leaseOwner, dispatches) ensures HoldsOnly(dispatches) {
        ForeignRunKeepsLeases(repository.policy, before, env.others(turn), leaseOwner, dispatches);
      }
      turn := turn + 1;
    }

    /** One bounded recovery call. */
    method RecoverBatch(env: Environment) returns (count: nat)
      requires Ready(env) && HoldsOnly([])
      modifies this, repository
      ensures Ready(env) && HoldsOnly([]) && turn == old(turn) + 1
      ensures NoAdmission(env.others(old(turn))) && count > 0 ==>
        |Outstanding(repository.Db().rows)| < old(|Outstanding(repository.Db().rows)|)
      ensures StandsStill(env) ==>
        RecoveredAll(repository.Db(), env.clock(0)) == RecoveredAll(old(repository.Db()), env.clock(0))
      ensures StandsStill(env) && count == 0 ==> repository.Db() == RecoveredAll(old(repository.Db()), env.clock(0))
    {
      hide Invariant;
      hide Final;
      hide Next;
      hide RecoveredAll;
      hide Decide;
      hide Outstanding;
      hide LeasesOnly;
      hide Perform;
      hide DecideRecover;
      hide DecideExpire;
      ghost var policy, db, asOf, now := repository.policy, repository.Db(), repository.asOf, env.clock(turn);
      var answer := repository.RecoverExpiredClaims(terms.dispatchBatchSize, env.clock(turn));
      DrainCall(policy, db, asOf, now, Operation.RecoverExpiredClaims(terms.dispatchBatchSize), leaseOwner,
          env.others(turn));
      RecoverBatchThenAll(db, terms.dispatchBatchSize, now);
      RecoverCall(policy, db, now, terms.dispatchBatchSize);
      NothingElse(policy, repository.Db());
      Await(env);
      count := answer.count;
    }

    method RecoverExpiredClaims(env: Environment, ghost quietFrom: nat)
      requires Ready(env) && AdmissionsEnd(env, quietFrom) && HoldsOnly([])
      modifies this, repository
      ensures Ready(env) && HoldsOnly([])
      ensures StandsStill(env) ==> repository.Db() == RecoveredAll(old(repository.Db()), env.clock(0))
    {
      hide Invariant;
      hide RecoveredAll;
      hide Outstanding;
      hide LeasesOnly;
      ghost var start := repository.Db();
      while true
        invariant Ready(env) && HoldsOnly([])
        invariant StandsStill(env) ==> RecoveredAll(repository.Db(), env.clock(0)) == RecoveredAll(start, env.clock(0))
        decreases Remaining(turn, quietFrom), |Outstanding(repository.Db().rows)|
      {
        var count := RecoverBatch(env);
        if count == 0 {
          return;
        }
      }
    }

    /** One bounded queue expiry call. */
    method ExpireBatch(env: Environment) returns (count: nat)
      requires Ready(env) && HoldsOnly([])
      modifies this, repository
      ensures Ready(env) && HoldsOnly([]) && turn == old(turn) + 1
      ensures NoAdmission(env.others(old(turn))) && count > 0 ==>
        |Outstanding(repository.Db().rows)| < old(|Outstanding(repository.Db().rows)|)
      ensures StandsStill(env) ==>
        ExpiredAll(repository.Db(), env.clock(0)) == ExpiredAll(old(repository.Db()), env.clock(0))
      ensures StandsStill(env) && count == 0 ==> repository.Db() == ExpiredAll(old(repository.Db()), env.clock(0))
    {
      hide Invariant;
      hide Final;
      hide Next;
      hide ExpiredAll;
      hide Decide;
      hide Outstanding;
      hide LeasesOnly;
      hide Perform;
      hide DecideRecover;
      hide DecideExpire;
      ghost var policy, db, asOf, now := repository.policy, repository.Db(), repository.asOf, env.clock(turn);
      var answer := repository.ExpireQueuedJobs(terms.dispatchBatchSize, env.clock(turn));
      DrainCall(policy, db, asOf, now, Operation.ExpireQueuedJobs(terms.dispatchBatchSize), leaseOwner,
          env.others(turn));
      ExpireBatchThenAll(db, terms.dispatchBatchSize, now);
      ExpireCall(policy, db, now, terms.dispatchBatchSize);
      NothingElse(policy, repository.Db());
      Await(env);
      count := answer.count;
    }

    method ExpireQueuedJobs(env: Environment, ghost quietFrom: nat)
      requires Ready(env) && AdmissionsEnd(env, quietFrom) && HoldsOnly([])
      modifies this, repository
      ensures Ready(env) && HoldsOnly([])
      ensures StandsStill(env) ==> repository.Db() == ExpiredAll(old(repository.Db()), env.clock(0))
    {
      hide Invariant;
      hide ExpiredAll;
      hide Outstanding;
      hide LeasesOnly;
      ghost var start := repository.Db();
      while true
        invariant Ready(env) && HoldsOnly([])
        invariant StandsStill(env) ==> ExpiredAll(repository.Db(), env.clock(0)) == ExpiredAll(start, env.clock(0))
        decreases Remaining(turn, quietFrom), |Outstanding(repository.Db().rows)|
      {
        var count := ExpireBatch(env);
        if count == 0 {
          return;
        }
      }
    }

    /** The lease call at the head of the publication loop. */
    method LeaseBatch(env: Environment, ghost call: LeaseCall, ghost start: Store, ghost n: nat)
      returns (dispatches: seq<JobDispatch>)
      requires Ready(env) && HoldsOnly([])
      requires call.isQuiet ==> AdmissionsEnd(env, turn)
      requires call.store == repository.Db() && call.at == env.clock(turn)
      requires call.op == Operation.LeaseDueDispatches(leaseOwner, terms.publicationLeaseDuration,
          terms.dispatchBatchSize)
      requires StandsStill(env) ==> Slice(start, repository.Db(), n, [], terms, leaseOwner, env.clock(0))
      modifies this, repository
      ensures Ready(env) && HoldsOnly(dispatches) && turn == old(turn) + 1
      ensures dispatches != [] ==>
        && Pending(repository.policy, call, repository.Db(), repository.asOf, dispatches[0])
        && Leases(AnswerTo(repository.policy, call.store, call.at, call.op), dispatches[0])
      ensures StandsStill(env) ==> Slice(start, repository.Db(), n, dispatches, terms, leaseOwner, env.clock(0))
      ensures StandsStill(env) && dispatches == [] ==> n == |DueList(start.rows, env.clock(0))|
    {
      hide Invariant;
      hide Final;
      hide Next;
      hide Decide;
      hide LeasesOnly;
      hide Pending;
      hide UnderWay;
      hide DueList;
      ghost var policy, asOf := repository.policy, repository.asOf;
      var answer := repository.LeaseDueDispatches(
        leaseOwner, terms.publicationLeaseDuration, terms.dispatchBatchSize, env.clock(turn));
      LeasingCall(policy, call, asOf, leaseOwner, env.others(turn));
      if StandsStill(env) {
        LeasingUnderWay(policy, call, start, n, terms, leaseOwner);
        NothingElse(policy, repository.Db());
      }
      Await(env);
      dispatches := answer.leased;
    }

    /** Records the publication of the first of the leased dispatches. */
    method RecordPublished(env: Environment, dispatches: seq<JobDispatch>, ghost start: Store, ghost n: nat)
      requires Ready(env) && dispatches != [] && HoldsOnly(dispatches)
      requires StandsStill(env) ==> Slice(start, repository.Db(), n, dispatches, terms, leaseOwner, env.clock(0))
      modifies this, repository
      ensures Ready(env) && HoldsOnly(dispatches[1..]) && turn == old(turn) + 1
      ensures forall call | old(Pending(repository.policy, call, repository.Db(), repository.asOf, dispatches[0]))
                            && call.op.LeaseDueDispatches? && call.op.leaseOwner == leaseOwner
                            && (call.isQuiet ==> NoAdmission(env.others(old(turn)))) ::
        Progressed(call, repository.Db(), repository.asOf, dispatches[0])
      ensures forall call, first | old(Progressed(call, repository.Db(), repository.asOf, first))
                            && (call.isQuiet ==> NoAdmission(env.others(old(turn)))) ::
        Progressed(call, repository.Db(), repository.asOf, first)
      ensures StandsStill(env) ==> Slice(start, repository.Db(), n + 1, dispatches[1..], terms, leaseOwner,
          env.clock(0))
    {
      hide Invariant;
      hide Final;
      hide Next;
      hide Decide;
      hide LeasesOnly;
      hide Pending;
      hide Progressed;
      hide UnderWay;
      hide DueList;
      ghost var policy, db, asOf, now := repository.policy, repository.Db(), repository.asOf, env.clock(turn);
      var _ := repository.RecordDispatchPublished(dispatches[0], leaseOwner, terms.interval, env.clock(turn));
      RecordCall(policy, db, now, leaseOwner, terms.interval, dispatches);
      forall call | Pending(policy, call, db, asOf, dispatches[0])
                    && call.op.LeaseDueDispatches? && call.op.leaseOwner == leaseOwner
                    && (call.isQuiet ==> NoAdmission(env.others(turn)))
        ensures Progressed(call, Final(policy, repository.Db(), env.others(turn)), LastInstant(now, env.others(turn)),
            dispatches[0])
      {
        RecordMakesProgress(policy, call, db, asOf, now, dispatches[0], terms.interval);
        ProgressedThroughRun(policy, call, repository.Db(), now, env.others(turn), dispatches[0]);
      }
      forall call, first | Progressed(call, db, asOf, first) && (call.isQuiet ==> NoAdmission(env.others(turn)))
        ensures Progressed(call, Final(policy, repository.Db(), env.others(turn)), LastInstant(now, env.others(turn)),
            first)
      {
        var record := Operation.RecordDispatchPublished(dispatches[0], leaseOwner, terms.interval);
        ProgressedThroughStep(policy, call, db, asOf, now, record, first);
        ProgressedThroughRun(policy, call, repository.Db(), now, env.others(turn), first);
      }
      if StandsStill(env) {
        RecordingUnderWay(policy, start, db, n, dispatches, terms, leaseOwner, now);
        NothingElse(policy, repository.Db());
      }
      Await(env);
    }

    /** Gives the leases of the unpublished dispatches back. */
    method ReleaseRest(env: Environment, dispatches: seq<JobDispatch>, ghost start: Store, ghost n: nat)
      requires Ready(env) && HoldsOnly(dispatches)
      requires StandsStill(env) ==> Slice(start, repository.Db(), n, dispatches, terms, leaseOwner, env.clock(0))
      modifies this, repository
      ensures Ready(env) && HoldsOnly([]) && turn == old(turn) + 1
      ensures StandsStill(env) ==>
        n <= |DueList(start.rows, env.clock(0))|
        && DueList(repository.Db().rows, env.clock(0)) == DueList(start.rows, env.clock(0))[n..]
    {
      hide Invariant;
      hide Final;
      hide Next;
      hide Decide;
      hide LeasesOnly;
      hide UnderWay;
      hide DueList;
      ghost var policy, db, now := repository.policy, repository.Db(), env.clock(turn);
      var _ := repository.ReleaseDispatchLeases(dispatches, leaseOwner, env.clock(turn));
      ReleaseCall(policy, db, now, leaseOwner, dispatches);
      if StandsStill(env) {
        ReleasingUnderWay(policy, start, db, n, dispatches, terms, leaseOwner, now);
        NothingElse(policy, repository.Db());
      }
      Await(env);
    }

    /** Publishes the leased dispatches one by one, until the broker refuses one. */
    method PublishBatch(env: Environment, dispatches: seq<JobDispatch>, ghost call: LeaseCall, ghost start: Store,
        ghost n: nat)
      returns (ok: bool, published: seq<JobDispatch>, ghost n': nat)
      requires Ready(env) && dispatches != [] && HoldsOnly(dispatches)
      requires Pending(repository.policy, call, repository.Db(), repository.asOf, dispatches[0])
      requires call.op.LeaseDueDispatches? && call.op.leaseOwner == leaseOwner
      requires call.isQuiet ==> AdmissionsEnd(env, turn)
      requires StandsStill(env) ==> Slice(start, repository.Db(), n, dispatches, terms, leaseOwner, env.clock(0))
      modifies this, repository
      ensures Ready(env) && HoldsOnly([]) && turn > old(turn)
      ensures published <= dispatches && (ok <==> published == dispatches)
      ensures ok ==> Progressed(call, repository.Db(), repository.asOf, dispatches[0])
      ensures n' == n + |published|
      ensures StandsStill(env) && ok ==> Slice(start, repository.Db(), n', [], terms, leaseOwner, env.clock(0))
      ensures StandsStill(env) && !ok ==>
        n' <= |DueList(start.rows, env.clock(0))|
        && DueList(repository.Db().rows, env.clock(0)) == DueList(start.rows, env.clock(0))[n'..]
    {
      hide Invariant;
      hide LeasesOnly;
      hide Pending;
      hide Progressed;
      hide UnderWay;
      hide DueList;
      hide Slice;
      hide Orderly;
      hide StandsStill;
      published := [];
      for index := 0 to |dispatches|
        invariant Ready(env) && HoldsOnly(dispatches[index..]) && turn == old(turn) + index
        invariant published == dispatches[..index]
        invariant index == 0 ==> Pending(repository.policy, call, repository.Db(), repository.asOf, dispatches[0])
        invariant index > 0 ==> Progressed(call, repository.Db(), repository.asOf, dispatches[0])
        invariant StandsStill(env) ==>
          Slice(start, repository.Db(), n + index, dispatches[index..], terms, leaseOwner, env.clock(0))
      {
        if !env.accepts(turn) {
          ReleaseRest(env, dispatches[index..], start, n + index);
          ok, n' := false, n + index;
          return;
        }
        published := published + [dispatches[index]];
        assert dispatches[index..][1..] == dispatches[index + 1..];
        RecordPublished(env, dispatches[index..], start, n + index);
      }
      assert dispatches[|dispatches|..] == [] && published == dispatches;
      ok, n' := true, n + |dispatches|;
    }

    /** The publication loop: leases and publishes batches until no dispatch is due or the broker fails. */
    method PublishDue(env: Environment, ghost quietFrom: nat) returns (ok: bool, published: seq<JobDispatch>)
      requires Ready(env) && AdmissionsEnd(env, quietFrom) && HoldsOnly([])
      modifies this, repository
      ensures Ready(env) && HoldsOnly([])
      ensures StandsStill(env) && ok ==>
        && repository.Db() == PublishedAll(old(repository.Db()), terms, env.clock(0))
        && published == DueList(old(repository.Db()).rows, env.clock(0))
        && DueList(repository.Db().rows, env.clock(0)) == []
      ensures StandsStill(env) && !ok ==>
        && published < DueList(old(repository.Db()).rows, env.clock(0))
        && DueList(repository.Db().rows, env.clock(0)) ==
            DueList(old(repository.Db()).rows, env.clock(0))[|published|..]
    {
      hide Invariant;
      hide LeasesOnly;
      hide Pending;
      hide Progressed;
      hide UnderWay;
      hide DueList;
      hide PublishedAll;
      hide TotalWindow;
      hide Slice;
      ghost var start, now := repository.Db(), env.clock(0);
      ghost var all := DueList(start.rows, now);
      StartSlice(start, terms, leaseOwner, now);
      ghost var n: nat := 0;
      published := [];
      while true
        invariant Ready(env) && HoldsOnly([])
        invariant StandsStill(env) ==> Slice(start, repository.Db(), n, [], terms, leaseOwner, now)
        invariant StandsStill(env) ==> n <= |all| && published == all[..n]
        decreases Remaining(turn, quietFrom), TotalWindow(repository.Db().rows, NextId(repository.Db()),
            repository.asOf)
      {
        ghost var db, asOf, isQuiet := repository.Db(), repository.asOf, turn >= quietFrom;
        ghost var lease := Operation.LeaseDueDispatches(leaseOwner, terms.publicationLeaseDuration,
            terms.dispatchBatchSize);
        ghost var call := LeaseCall(db, env.clock(turn), lease, isQuiet);
        var dispatches := LeaseBatch(env, call, start, n);
        if dispatches == [] {
          if StandsStill(env) {
            EndSlice(start, repository.Db(), terms, leaseOwner, now);
          }
          return true, published;
        }
        ghost var leased := repository.Db();
        var sent;
        ghost var n': nat;
        ok, sent, n' := PublishBatch(env, dispatches, call, start, n);
        if StandsStill(env) {
          SliceGrows(start, leased, published, n, dispatches, sent, n', terms, leaseOwner, now);
        }
        published, n := published + sent, n';
        if !ok {
          assert StandsStill(env) ==> |published| == n;
          return;
        }
        if isQuiet {
          PassProgresses(repository.policy, call, asOf, repository.Db(), repository.asOf, dispatches[0]);
        }
      }
    }

    /**
     `reconcile_once`. It ends once nothing more is admitted, however the clock moves and whatever
     others do, and leaves this reconciler without a lease. If nothing else happens it is, for
     every batch size, the one unbounded pass; a broker failure cuts the published list short and
     leaves the rest due at once.
     */
    method ReconcileOnce(env: Environment, ghost quietFrom: nat) returns (ok: bool, published: seq<JobDispatch>)
      requires Ready(env) && AdmissionsEnd(env, quietFrom) && HoldsOnly([])
      modifies this, repository
      ensures Ready(env) && HoldsOnly([])
      ensures StandsStill(env) && ok ==>
        && repository.Db() == UnboundedPass(old(repository.Db()), terms, env.clock(0))
        && published == DueList(old(repository.Db()).rows, env.clock(0))
        && DueList(repository.Db().rows, env.clock(0)) == []
      ensures StandsStill(env) && !ok ==>
        && published < DueList(old(repository.Db()).rows, env.clock(0))
        && DueList(repository.Db().rows, env.clock(0)) ==
            DueList(old(repository.Db()).rows, env.clock(0))[|published|..]
    {
      hide Invariant;
      hide LeasesOnly;
      hide DueList;
      hide RecoveredAll;
      hide ExpiredAll;
      hide PublishedAll;
      DueThroughDrains(repository.Db(), env.clock(0));
      RecoverExpiredClaims(env, quietFrom);
      ExpireQueuedJobs(env, quietFrom);
      ok, published := PublishDue(env, quietFrom);
    }
  }

  function NextId(s: Store): nat {
    if s.nextId < 0 then 0 else s.nextId
  }

  lemma StartSlice(start: Store, terms: ReconcilerPolicy, owner: Uuid, now: Instant)
    ensures Slice(start, start, 0, [], terms, owner, now)
  {
    hide UnderWay;
    StartsUnderWay(start, terms, owner, now);
  }

  lemma EndSlice(start: Store, db: Store, terms: ReconcilerPolicy, owner: Uuid, now: Instant)
    requires ValidReconcilerPolicy(terms) && Slice(start, db, |DueList(start.rows, now)|, [], terms, owner, now)
    ensures db == PublishedAll(start, terms, now) && DueList(db.rows, now) == []
  {
    hide UnderWay;
    EndsUnderWay(start, db, terms, owner, now);
  }

  lemma SliceGrows(
    start: Store, db: Store, published: seq<JobDispatch>, n: nat, batch: seq<JobDispatch>, sent: seq<JobDispatch>,
    n': nat, terms: ReconcilerPolicy, owner: Uuid, now: Instant)
    requires Slice(start, db, n, batch, terms, owner, now) && sent <= batch && n' == n + |sent|
    requires n <= |DueList(start.rows, now)| && published == DueList(start.rows, now)[..n]
    ensures |published + sent| == n' <= |DueList(start.rows, now)|
    ensures published + sent == DueList(start.rows, now)[..n']
    ensures sent != batch ==> published + sent < DueList(start.rows, now)
  {
    hide UnderWay;
    hide DueList;
  }

  lemma PassProgresses(policy: Policy, call: LeaseCall, earlier: Instant, db: Store, asOf: Instant,
      dispatch: JobDispatch)
    requires Invariant(policy, call.store, earlier) && earlier <= call.at && call.isQuiet
    requires call.op.LeaseDueDispatches? && Leases(AnswerTo(policy, call.store, call.at, call.op), dispatch)
    requires Progressed(call, db, asOf, dispatch)
    ensures TotalWindow(db.rows, NextId(db), asOf) < TotalWindow(call.store.rows, NextId(call.store), earlier)
  {
    hide Invariant;
    hide Decide;
    hide Progressed;
    InvariantLater(policy, call.store, earlier, call.at);
    IdsBelowNext(policy, call.store, call.at);
    BatchMakesProgress(policy, call, db, asOf, dispatch);
    TotalShrinks(call.store.rows, earlier, call.store.rows, call.at, call.store.nextId, 0);
  }

  /** The leased dispatches are the pass's next ones, from position `n`. */
  predicate Slice(
    start: Store, db: Store, n: nat, dispatches: seq<JobDispatch>, terms: ReconcilerPolicy, owner: Uuid, now: Instant)
  {
    && UnderWay(start, db, n, |dispatches|, terms, owner, now)
    && n + |dispatches| <= |DueList(start.rows, now)|
    && dispatches == DueList(start.rows, now)[n..n + |dispatches|]
  }

  lemma LeasingCall(policy: Policy, call: LeaseCall, asOf: Instant, owner: Uuid, others: seq<Step>)
    requires Invariant(policy, call.store, asOf) && asOf <= call.at
    requires Timely(call.at, others) && AllForeign(others, owner)
    requires call.op.LeaseDueDispatches? && call.op.duration > 0 && call.op.limit > 0 && call.op.leaseOwner == owner
    requires call.isQuiet ==> NoAdmission(others)
    requires LeasesOnly(call.store.rows, owner, [])
    ensures AnswerTo(policy, call.store, call.at, call.op).Leased?
    ensures var next := Next(policy, call.store, call.at, call.op);
        var leased := AnswerTo(policy, call.store, call.at, call.op).leased;
      && LeasesOnly(next.rows, owner, leased)
      && (leased != [] ==> Pending(policy, call, Final(policy, next, others), LastInstant(call.at, others), leased[0]))
  {
    hide Invariant;
    hide Final;
    hide LeasesOnly;
    hide Pending;
    LeaseReturnsOwnLeases(call.store, call.at, call.op);
    assert Decide(policy, call.store, call.at, call.op) == DecideLease(call.store, call.at, call.op);
    var leased := AnswerTo(policy, call.store, call.at, call.op).leased;
    hide Decide;
    if leased != [] {
      assert leased[0] in leased;
      InvariantLater(policy, call.store, asOf, call.at);
      NextKeepsInvariant(policy, call.store, asOf, call.at, call.op);
      LeasedIsPending(policy, call, leased[0]);
      PendingThroughRun(policy, call, Next(policy, call.store, call.at, call.op), call.at, others, leased[0]);
    }
  }

  lemma LeasingUnderWay(policy: Policy, call: LeaseCall, start: Store, n: nat, terms: ReconcilerPolicy, owner: Uuid)
    requires call.op == LeaseDueDispatches(owner, terms.publicationLeaseDuration, terms.dispatchBatchSize)
    requires ValidReconcilerPolicy(terms) && UnderWay(start, call.store, n, 0, terms, owner, call.at)
    ensures AnswerTo(policy, call.store, call.at, call.op).Leased?
    ensures var leased := AnswerTo(policy, call.store, call.at, call.op).leased;
      && Slice(start, Next(policy, call.store, call.at, call.op), n, leased, terms, owner, call.at)
      && (leased == [] ==> n == |DueList(start.rows, call.at)|)
  {
    hide DecideLease;
    hide MidPass;
    LeaseUnderWay(start, call.store, n, terms, owner, call.at);
  }

  lemma RecordCall(policy: Policy, db: Store, now: Instant, owner: Uuid, interval: int, dispatches: seq<JobDispatch>)
    requires interval > 0 && dispatches != [] && LeasesOnly(db.rows, owner, dispatches)
    ensures LeasesOnly(
      Next(policy, db, now, Operation.RecordDispatchPublished(dispatches[0], owner, interval)).rows,
      owner, dispatches[1..])
  {
    hide LeasesOnly;
    RecordEndsOwnLease(db, now, owner, interval, dispatches);
  }

  lemma RecordingUnderWay(
    policy: Policy, start: Store, db: Store, n: nat, dispatches: seq<JobDispatch>, terms: ReconcilerPolicy, owner: Uuid,
    now: Instant)
    requires ValidReconcilerPolicy(terms) && dispatches != [] && Slice(start, db, n, dispatches, terms, owner, now)
    ensures Slice(start, Next(policy, db, now, Operation.RecordDispatchPublished(dispatches[0], owner, terms.interval)),
                  n + 1, dispatches[1..], terms, owner, now)
  {
    hide DecideRecord;
    hide UnderWay;
    hide DueList;
    RecordUnderWay(start, db, n, |dispatches|, terms, owner, now);
  }

  lemma ReleaseCall(policy: Policy, db: Store, now: Instant, owner: Uuid, dispatches: seq<JobDispatch>)
    requires LeasesOnly(db.rows, owner, dispatches)
    ensures LeasesOnly(Next(policy, db, now, Operation.ReleaseDispatchLeases(dispatches, owner)).rows, owner, [])
  {
    hide LeasesOnly;
    ReleaseEndsOwnLeases(db, now, owner, dispatches);
  }

  lemma ReleasingUnderWay(
    policy: Policy, start: Store, db: Store, n: nat, dispatches: seq<JobDispatch>, terms: ReconcilerPolicy, owner: Uuid,
    now: Instant)
    requires ValidReconcilerPolicy(terms) && Slice(start, db, n, dispatches, terms, owner, now)
    ensures DueList(Next(policy, db, now, Operation.ReleaseDispatchLeases(dispatches, owner)).rows, now)
      == DueList(start.rows, now)[n..]
  {
    hide DecideRelease;
    hide UnderWay;
    hide DueList;
    ReleaseUnderWay(start, db, n, |dispatches|, terms, owner, now);
  }

  lemma NothingElse(policy: Policy, s: Store)
    ensures Final(policy, s, []) == s
  {
  }

  lemma RecoverCall(policy: Policy, s: Store, now: Instant, limit: int)
    requires limit > 0
    ensures Next(policy, s, now, Operation.RecoverExpiredClaims(limit)) ==
        Perform(s, DecideRecover(s, now, limit).effect, now)
    ensures AnswerTo(policy, s, now, Operation.RecoverExpiredClaims(limit)) == DecideRecover(s, now, limit).answer
  {
  }

  lemma ExpireCall(policy: Policy, s: Store, now: Instant, limit: int)
    requires limit > 0
    ensures Next(policy, s, now, Operation.ExpireQueuedJobs(limit)) ==
        Perform(s, DecideExpire(s, now, limit).effect, now)
    ensures AnswerTo(policy, s, now, Operation.ExpireQueuedJobs(limit)) == DecideExpire(s, now, limit).answer
  {
  }

  /** One drain call and what others do after it: no new lease, and fewer unfinished jobs if it counted any. */
  lemma DrainCall(
    policy: Policy, db: Store, asOf: Instant, now: Instant, op: Operation, owner: Uuid, others: seq<Step>)
    requires Invariant(policy, db, asOf) && asOf <= now && Timely(now, others)
    requires (op.RecoverExpiredClaims? || op.ExpireQueuedJobs?) && op.limit > 0
    requires LeasesOnly(db.rows, owner, [])
    ensures AnswerTo(policy, db, now, op).Counted?
    ensures LeasesOnly(Next(policy, db, now, op).rows, owner, [])
    ensures NoAdmission(others) && AnswerTo(policy, db, now, op).count > 0 ==>
      |Outstanding(Final(policy, Next(policy, db, now, op), others).rows)| < |Outstanding(db.rows)|
  {
    hide Invariant;
    hide Final;
    DrainAnswers(policy, db, now, op);
    hide Decide;
    hide Outstanding;
    ForeignStepKeepsLeases(policy, db, now, op, owner, []);
    var next := Next(policy, db, now, op);
    if NoAdmission(others) && AnswerTo(policy, db, now, op).count > 0 {
      DrainMakesProgress(policy, db, asOf, now, op);
      NextKeepsInvariant(policy, db, asOf, now, op);
      RunShrinksWindows(policy, next, now, others);
      SubsetIsSmaller(Outstanding(Final(policy, next, others).rows), Outstanding(next.rows));
    }
  }

  lemma DrainAnswers(policy: Policy, s: Store, now: Instant, op: Operation)
    requires (op.RecoverExpiredClaims? || op.ExpireQueuedJobs?) && op.limit > 0
    ensures AnswerTo(policy, s, now, op).Counted?
  {
  }
}

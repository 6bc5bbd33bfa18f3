/**
 What `reconcile_once` does to the due dispatches when nothing else happens and the clock stands
 still: leasing and recording batch after batch is one unbounded pass over all due dispatches.
 */
module PublicationPass {
  import opened Options
  import opened JobTypes
  import opened Ordering
  import opened JobProtocol

  datatype ReconcilerPolicy = ReconcilerPolicy(interval: int, publicationLeaseDuration: int, dispatchBatchSize: int)

  predicate ValidReconcilerPolicy(terms: ReconcilerPolicy) {
    terms.interval > 0 && terms.publicationLeaseDuration > 0 && terms.dispatchBatchSize > 0
  }

  /** The due dispatches in (submitted_at, id) order. */
  function DueList(rows: Rows, now: Instant): seq<JobDispatch> {
    OrderedListsAll(DueStamps(rows, now));
    DispatchesOf(rows, Ordered(DueStamps(rows, now)))
  }

  // ---------------------------------------------------------------- a pass under way

  /** Some dispatches of the pass are recorded, some are leased, and the rest are as they were. */
  function MidRow(row: Row, isRecorded: bool, isLeased: bool, terms: ReconcilerPolicy, owner: Uuid, now: Instant): Row {
    if isRecorded then Changed(row, RecordPublication(terms.interval), now)
    else if isLeased then Changed(row, LeasePublication(owner, terms.publicationLeaseDuration), now)
    else row
  }

  function MidPass(
    s: Store, recorded: set<JobId>, leased: set<JobId>, terms: ReconcilerPolicy, owner: Uuid, now: Instant)
    : (mid: Store)
    ensures forall id :: id in mid.rows <==> id in s.rows
    ensures forall id | id in s.rows ::
      mid.rows[id] == MidRow(s.rows[id], id in recorded, id in leased, terms, owner, now)
  {
    s.(rows := map id | id in s.rows :: MidRow(s.rows[id], id in recorded, id in leased, terms, owner, now))
  }

  lemma SameStamps(a: Stamps, b: Stamps)
    requires a.Keys == b.Keys
    requires forall id | id in a :: a[id] == b[id]
    ensures a == b
  {
    assert forall id | id in a.Keys :: a[id] == b[id];
    var x, y := map id | id in a :: a[id], map id | id in b :: b[id];
    assert x == y;
    assert a == x;
  }

  lemma PassStarts(s: Store, terms: ReconcilerPolicy, owner: Uuid, now: Instant)
    ensures MidPass(s, {}, {}, terms, owner, now) == s
  {
    SameStore(MidPass(s, {}, {}, terms, owner, now), s);
  }

  /** What is recorded is not due again, so the rest of the list is what is due. */
  lemma RestIsDue(s: Store, n: nat, terms: ReconcilerPolicy, owner: Uuid, now: Instant)
    requires terms.interval > 0 && n <= |Ordered(DueStamps(s.rows, now))|
    ensures var order := Ordered(DueStamps(s.rows, now));
      Ordered(DueStamps(MidPass(s, Ids(order[..n]), {}, terms, owner, now).rows, now)) == order[n..]
  {
    var stamps := DueStamps(s.rows, now);
    var order := Ordered(stamps);
    OrderedListsAll(stamps);
    var mid := MidPass(s, Ids(order[..n]), {}, terms, owner, now);
    var rest := DueStamps(mid.rows, now);
    ListedIds(stamps);
    MidPassDue(s, Ids(order[..n]), terms, owner, now);
    OrderedWithoutPrefix(stamps, order, rest, n);
  }

  lemma ListedIds(stamps: Stamps)
    ensures Ids(Ordered(stamps)) == stamps.Keys
  {
    OrderedListsAll(stamps);
    forall id ensures id in Ids(Ordered(stamps)) <==> id in stamps.Keys {
    }
  }

  lemma MidPassDue(s: Store, recorded: set<JobId>, terms: ReconcilerPolicy, owner: Uuid, now: Instant)
    requires terms.interval > 0
    ensures DueStamps(MidPass(s, recorded, {}, terms, owner, now).rows, now).Keys ==
        DueStamps(s.rows, now).Keys - recorded
  {
    forall id
      ensures id in DueStamps(MidPass(s, recorded, {}, terms, owner, now).rows, now).Keys
         <==> id in DueStamps(s.rows, now).Keys - recorded
    {
    }
  }

  lemma {:induction false} SameTokensSameDispatches(a: Rows, b: Rows, ids: seq<JobId>)
    requires forall id | id in ids :: id in a && id in b && a[id].attempt.token == b[id].attempt.token
    ensures DispatchesOf(a, ids) == DispatchesOf(b, ids)
  {
    if ids != [] {
      assert ids[|ids| - 1] in ids;
      SameTokensSameDispatches(a, b, ids[..|ids| - 1]);
    }
  }

  /** The next batch: the earliest dispatches not yet recorded, as many as the batch size allows. */
  function NextBatch(order: seq<JobId>, n: nat, limit: int): seq<JobId>
    requires n <= |order| && limit > 0
  {
    if limit < |order| - n then order[n..n + limit] else order[n..]
  }

  lemma LeaseInPass(s: Store, n: nat, terms: ReconcilerPolicy, owner: Uuid, now: Instant)
    requires ValidReconcilerPolicy(terms) && n <= |Ordered(DueStamps(s.rows, now))|
    ensures var order := Ordered(DueStamps(s.rows, now));
      var batch := NextBatch(order, n, terms.dispatchBatchSize);
      var mid := MidPass(s, Ids(order[..n]), {}, terms, owner, now);
      var decision := DecideLease(mid, now,
          LeaseDueDispatches(owner, terms.publicationLeaseDuration, terms.dispatchBatchSize));
      && (forall id | id in batch :: id in s.rows)
      && decision.answer == Leased(DispatchesOf(s.rows, batch))
      && Perform(mid, decision.effect, now) == MidPass(s, Ids(order[..n]), Ids(batch), terms, owner, now)
  {
    hide Ordered;
    hide MidPass;
    hide DueStamps;
    var order := Ordered(DueStamps(s.rows, now));
    var batch := NextBatch(order, n, terms.dispatchBatchSize);
    var mid := MidPass(s, Ids(order[..n]), {}, terms, owner, now);
    RestIsDue(s, n, terms, owner, now);
    assert Batch(DueStamps(mid.rows, now), terms.dispatchBatchSize) == batch;
    BatchIsFresh(s, n, terms.dispatchBatchSize, now);
    SameTokensSameDispatches(mid.rows, s.rows, batch);
    LeaseBatch(s, Ids(order[..n]), Ids(batch), terms, owner, now);
  }

  lemma BatchIsFresh(s: Store, n: nat, limit: int, now: Instant)
    requires n <= |Ordered(DueStamps(s.rows, now))| && limit > 0
    ensures var order := Ordered(DueStamps(s.rows, now));
      var batch := NextBatch(order, n, limit);
      && (forall id | id in batch :: id in s.rows && id in DueStamps(s.rows, now))
      && Ids(order[..n]) !! Ids(batch)
      && Ids(order[..n]) + Ids(batch) == Ids(order[..n + |batch|])
      && Sorted(DueStamps(s.rows, now), batch)
  {
    hide Ordered;
    var stamps := DueStamps(s.rows, now);
    var order := Ordered(stamps);
    var batch := NextBatch(order, n, limit);
    OrderedListsAll(stamps);
    PrefixAndRest(stamps, order, n);
    assert order[..n + |batch|] == order[..n] + batch;
    assert forall id | id in batch :: id in order[n..] && id in order;
  }

  lemma LeaseBatch(s: Store, recorded: set<JobId>, batch: set<JobId>, terms: ReconcilerPolicy, owner: Uuid,
      now: Instant)
    requires recorded !! batch
    ensures Perform(MidPass(s, recorded, {}, terms, owner, now),
                    Update(batch, LeasePublication(owner, terms.publicationLeaseDuration)), now)
      == MidPass(s, recorded, batch, terms, owner, now)
  {
    SameStore(
      Perform(MidPass(s, recorded, {}, terms, owner, now),
              Update(batch, LeasePublication(owner, terms.publicationLeaseDuration)), now),
      MidPass(s, recorded, batch, terms, owner, now));
  }

  /** Recording a leased dispatch leaves its attempt as if it had been recorded at once. */
  lemma RecordInPass(
    s: Store, recorded: set<JobId>, leased: set<JobId>, id: JobId, terms: ReconcilerPolicy, owner: Uuid, now: Instant)
    requires terms.interval > 0 && id in s.rows && id in leased && id !in recorded
    ensures var mid := MidPass(s, recorded, leased, terms, owner, now);
      var decision := DecideRecord(mid, now,
          Operation.RecordDispatchPublished(DispatchOf(s.rows, id), owner, terms.interval));
      && decision.answer == Recorded(true)
      && Perform(mid, decision.effect, now) == MidPass(s, recorded + {id}, leased - {id}, terms, owner, now)
  {
    var mid := MidPass(s, recorded, leased, terms, owner, now);
    assert HoldsLease(mid.rows, DispatchOf(s.rows, id), owner);
    SameStore(Perform(mid, Update({id}, RecordPublication(terms.interval)), now),
              MidPass(s, recorded + {id}, leased - {id}, terms, owner, now));
  }

  /** Releasing what was leased but not published leaves it due at once. */
  lemma ReleaseInPass(
    s: Store, n: nat, leased: seq<JobId>, terms: ReconcilerPolicy, owner: Uuid, now: Instant)
    requires terms.interval > 0 && n <= |Ordered(DueStamps(s.rows, now))|
    requires forall id | id in leased :: id in s.rows && id in DueStamps(s.rows, now)
    ensures var order := Ordered(DueStamps(s.rows, now));
      var mid := MidPass(s, Ids(order[..n]), Ids(leased), terms, owner, now);
      var decision := DecideRelease(mid, Operation.ReleaseDispatchLeases(DispatchesOf(s.rows, leased), owner));
      && (forall id | id in order[n..] :: id in s.rows)
      && DueList(Perform(mid, decision.effect, now).rows, now) == DispatchesOf(s.rows, order[n..])
  {
    var stamps := DueStamps(s.rows, now);
    var order := Ordered(stamps);
    OrderedListsAll(stamps);
    var recorded := Ids(order[..n]);
    var mid := MidPass(s, recorded, Ids(leased), terms, owner, now);
    var dispatches := DispatchesOf(s.rows, leased);
    var after := Perform(mid, Update(LeasesHeld(mid.rows, dispatches, owner), ReleasePublication), now);
    assert after == Perform(mid, DecideRelease(mid, Operation.ReleaseDispatchLeases(dispatches, owner)).effect, now);
    forall id | id in s.rows ensures DispatchOf(s.rows, id) in dispatches <==> id in leased {
      DispatchListed(s.rows, leased, id);
    }
    var rest := DueStamps(after.rows, now);
    ReleasedAreDue(s, recorded, leased, dispatches, terms, owner, now);
    ListedIds(stamps);
    OrderedWithoutPrefix(stamps, order, rest, n);
    assert forall id | id in order[n..] :: id in stamps;
    SameTokensSameDispatches(after.rows, s.rows, order[n..]);
  }

  lemma ReleasedAreDue(
    s: Store, recorded: set<JobId>, leased: seq<JobId>, dispatches: seq<JobDispatch>, terms: ReconcilerPolicy,
    owner: Uuid, now: Instant)
    requires terms.interval > 0
    requires forall id | id in leased :: id in DueStamps(s.rows, now)
    requires forall id | id in s.rows :: DispatchOf(s.rows, id) in dispatches <==> id in leased
    ensures var mid := MidPass(s, recorded, Ids(leased), terms, owner, now);
      var after := Perform(mid, Update(LeasesHeld(mid.rows, dispatches, owner), ReleasePublication), now);
      && DueStamps(after.rows, now).Keys == DueStamps(s.rows, now).Keys - recorded
      && (forall id | id in s.rows :: id in after.rows && after.rows[id].job == s.rows[id].job
                                      && after.rows[id].attempt.token == s.rows[id].attempt.token)
  {
    var mid := MidPass(s, recorded, Ids(leased), terms, owner, now);
    var after := Perform(mid, Update(LeasesHeld(mid.rows, dispatches, owner), ReleasePublication), now);
    forall id ensures id in DueStamps(after.rows, now).Keys <==> id in DueStamps(s.rows, now).Keys - recorded {
      if id in s.rows && id in leased && id !in recorded {
        assert DispatchOf(mid.rows, id) == DispatchOf(s.rows, id);
        assert id in LeasesHeld(mid.rows, dispatches, owner);
      }
    }
  }

  lemma {:induction false} DispatchListed(rows: Rows, ids: seq<JobId>, id: JobId)
    requires id in rows && forall other | other in ids :: other in rows
    ensures DispatchOf(rows, id) in DispatchesOf(rows, ids) <==> id in ids
  {
    if ids != [] {
      var last := ids[|ids| - 1];
      assert last in ids && (id in ids <==> id == last || id in ids[..|ids| - 1]);
      DispatchListed(rows, ids[..|ids| - 1], id);
    }
  }

  // ---------------------------------------------------------------- the unbounded pass

  /** Every abandoned claim recovered, every overdue job expired, every due dispatch published. */
  function UnboundedPass(s: Store, terms: ReconcilerPolicy, now: Instant): Store {
    PublishedAll(ExpiredAll(RecoveredAll(s, now), now), terms, now)
  }

  function RecoveredAll(s: Store, now: Instant): Store {
    Perform(s, Update(AbandonedStamps(s.rows, now).Keys, RecoverClaim), now)
  }

  function ExpiredAll(s: Store, now: Instant): Store {
    Perform(s, Update(OverdueStamps(s.rows, now).Keys, ExpireQueue), now)
  }

  function PublishedAll(s: Store, terms: ReconcilerPolicy, now: Instant): Store {
    Perform(s, Update(DueStamps(s.rows, now).Keys, RecordPublication(terms.interval)), now)
  }

  lemma PassEnds(s: Store, terms: ReconcilerPolicy, owner: Uuid, now: Instant)
    ensures MidPass(s, Ids(Ordered(DueStamps(s.rows, now))), {}, terms, owner, now) == PublishedAll(s, terms, now)
  {
    OrderedListsAll(DueStamps(s.rows, now));
    SameStore(MidPass(s, Ids(Ordered(DueStamps(s.rows, now))), {}, terms, owner, now), PublishedAll(s, terms, now));
  }

  /** Recovering and expiring do not touch what is due for publication. */
  lemma DueThroughDrains(s: Store, now: Instant)
    ensures DueList(ExpiredAll(RecoveredAll(s, now), now).rows, now) == DueList(s.rows, now)
  {
    var drained := ExpiredAll(RecoveredAll(s, now), now);
    forall id ensures id in DueStamps(drained.rows, now) <==> id in DueStamps(s.rows, now) {
    }
    SameStamps(DueStamps(drained.rows, now), DueStamps(s.rows, now));
    OrderedListsAll(DueStamps(s.rows, now));
    SameTokensSameDispatches(drained.rows, s.rows, Ordered(DueStamps(s.rows, now)));
  }

  // ---------------------------------------------------------------- transactions of a pass

  lemma {:induction false} DispatchesAt(rows: Rows, ids: seq<JobId>)
    requires forall id | id in ids :: id in rows
    ensures |DispatchesOf(rows, ids)| == |ids|
    ensures forall i | 0 <= i < |ids| :: DispatchesOf(rows, ids)[i] == DispatchOf(rows, ids[i])
  {
    if ids != [] {
      assert ids[|ids| - 1] in ids;
      DispatchesAt(rows, ids[..|ids| - 1]);
    }
  }

  lemma DueListAt(s: Store, from: nat, to: nat, now: Instant)
    requires from <= to <= |Ordered(DueStamps(s.rows, now))|
    ensures |DueList(s.rows, now)| == |Ordered(DueStamps(s.rows, now))|
    ensures forall id | id in Ordered(DueStamps(s.rows, now)) :: id in s.rows
    ensures DispatchesOf(s.rows, Ordered(DueStamps(s.rows, now))[from..to]) == DueList(s.rows, now)[from..to]
  {
    var order := Ordered(DueStamps(s.rows, now));
    OrderedListsAll(DueStamps(s.rows, now));
    DispatchesAt(s.rows, order);
    DispatchesAt(s.rows, order[from..to]);
  }

  lemma DueListEntry(s: Store, n: nat, now: Instant)
    requires n < |Ordered(DueStamps(s.rows, now))|
    ensures n < |DueList(s.rows, now)| && Ordered(DueStamps(s.rows, now))[n] in s.rows
    ensures DueList(s.rows, now)[n] == DispatchOf(s.rows, Ordered(DueStamps(s.rows, now))[n])
  {
    hide Ordered;
    hide DueStamps;
    var order := Ordered(DueStamps(s.rows, now));
    DueListAt(s, 0, 0, now);
    DispatchesAt(s.rows, order);
  }

  /** Of the pass that started at `s`, `n` dispatches are recorded and the next `m` are leased. */
  predicate UnderWay(s: Store, db: Store, n: nat, m: nat, terms: ReconcilerPolicy, owner: Uuid, now: Instant) {
    var order := Ordered(DueStamps(s.rows, now));
    && n + m <= |order| == |DueList(s.rows, now)|
    && db == MidPass(s, Ids(order[..n]), Ids(order[n..n + m]), terms, owner, now)
  }

  lemma StartsUnderWay(s: Store, terms: ReconcilerPolicy, owner: Uuid, now: Instant)
    ensures UnderWay(s, s, 0, 0, terms, owner, now)
  {
    hide Ordered;
    var order := Ordered(DueStamps(s.rows, now));
    DueListAt(s, 0, 0, now);
    PassStarts(s, terms, owner, now);
    assert order[..0] == [] && order[0..0] == [] && Ids([]) == {};
  }

  function BatchSize(total: nat, n: nat, limit: int): nat
    requires n <= total && limit > 0
  {
    if limit < total - n then limit else total - n
  }

  lemma NextBatchIs(order: seq<JobId>, n: nat, limit: int)
    requires n <= |order| && limit > 0
    ensures NextBatch(order, n, limit) == order[n..n + BatchSize(|order|, n, limit)]
  {
  }

  lemma NothingLeased(s: Store, db: Store, n: nat, terms: ReconcilerPolicy, owner: Uuid, now: Instant)
    requires UnderWay(s, db, n, 0, terms, owner, now)
    ensures db == MidPass(s, Ids(Ordered(DueStamps(s.rows, now))[..n]), {}, terms, owner, now)
  {
    var order := Ordered(DueStamps(s.rows, now));
    assert order[n..n + 0] == [] && Ids([]) == {};
  }

  /** A lease call returns the next dispatches in order, none of them only when none is left. */
  lemma LeaseUnderWay(s: Store, db: Store, n: nat, terms: ReconcilerPolicy, owner: Uuid, now: Instant)
    requires ValidReconcilerPolicy(terms) && UnderWay(s, db, n, 0, terms, owner, now)
    ensures var decision := DecideLease(
        db, now, LeaseDueDispatches(owner, terms.publicationLeaseDuration, terms.dispatchBatchSize));
      var m := BatchSize(|DueList(s.rows, now)|, n, terms.dispatchBatchSize);
      && decision.answer == Leased(DueList(s.rows, now)[n..n + m])
      && UnderWay(s, Perform(db, decision.effect, now), n, m, terms, owner, now)
  {
    hide Ordered;
    hide MidPass;
    hide DecideLease;
    hide DueList;
    hide DueStamps;
    hide Ids;
    hide NextBatch;
    var order := Ordered(DueStamps(s.rows, now));
    var m := BatchSize(|order|, n, terms.dispatchBatchSize);
    NextBatchIs(order, n, terms.dispatchBatchSize);
    NothingLeased(s, db, n, terms, owner, now);
    DueListAt(s, n, n + m, now);
    LeaseInPass(s, n, terms, owner, now);
  }

  lemma RecordUnderWay(s: Store, db: Store, n: nat, m: nat, terms: ReconcilerPolicy, owner: Uuid, now: Instant)
    requires ValidReconcilerPolicy(terms) && UnderWay(s, db, n, m, terms, owner, now) && m > 0
    ensures var decision := DecideRecord(
        db, now, Operation.RecordDispatchPublished(DueList(s.rows, now)[n], owner, terms.interval));
      UnderWay(s, Perform(db, decision.effect, now), n + 1, m - 1, terms, owner, now)
  {
    hide Ordered;
    hide MidPass;
    hide DecideRecord;
    hide DueStamps;
    hide DueList;
    hide Sorted;
    var stamps := DueStamps(s.rows, now);
    var order := Ordered(stamps);
    DueListEntry(s, n, now);
    var id := order[n];
    OrderedListsAll(stamps);
    var recorded, leased := Ids(order[..n]), Ids(order[n..n + m]);
    HeadMoves(stamps, order, n, m);
    RecordInPass(s, recorded, leased, id, terms, owner, now);
  }

  lemma HeadMoves(stamps: Stamps, order: seq<JobId>, n: nat, m: nat)
    requires Sorted(stamps, order) && m > 0 && n + m <= |order|
    ensures order[n] !in Ids(order[..n]) && order[n] in Ids(order[n..n + m])
    ensures Ids(order[..n]) + {order[n]} == Ids(order[..n + 1])
    ensures Ids(order[n..n + m]) - {order[n]} == Ids(order[n + 1..n + 1 + (m - 1)])
  {
    assert order[..n + 1] == order[..n] + [order[n]];
    assert order[n..n + m] == [order[n]] + order[n + 1..n + m];
    forall i, j | 0 <= i < j < |order| ensures order[i] != order[j] {
      assert Before(stamps, order[i], order[j]);
    }
  }

  /** After a release, what the pass has not recorded is due at once, in the same order. */
  lemma ReleaseUnderWay(s: Store, db: Store, n: nat, m: nat, terms: ReconcilerPolicy, owner: Uuid, now: Instant)
    requires ValidReconcilerPolicy(terms) && UnderWay(s, db, n, m, terms, owner, now)
    ensures var decision := DecideRelease(db, Operation.ReleaseDispatchLeases(DueList(s.rows, now)[n..n + m], owner));
      DueList(Perform(db, decision.effect, now).rows, now) == DueList(s.rows, now)[n..]
  {
    hide Ordered;
    hide MidPass;
    hide DecideRelease;
    hide DueList;
    hide DueStamps;
    hide DispatchesOf;
    var stamps := DueStamps(s.rows, now);
    var order := Ordered(stamps);
    var batch, rest := order[n..n + m], order[n..];
    DueListAt(s, n, n + m, now);
    DueListAt(s, n, |order|, now);
    assert rest == order[n..|order|] && DueList(s.rows, now)[n..] == DueList(s.rows, now)[n..|order|];
    assert DispatchesOf(s.rows, rest) == DueList(s.rows, now)[n..];
    OrderedListsAll(stamps);
    forall id | id in batch ensures id in s.rows && id in stamps {
      assert id in order;
    }
    ReleaseInPass(s, n, batch, terms, owner, now);
  }

  lemma EndsUnderWay(s: Store, db: Store, terms: ReconcilerPolicy, owner: Uuid, now: Instant)
    requires ValidReconcilerPolicy(terms) && UnderWay(s, db, |DueList(s.rows, now)|, 0, terms, owner, now)
    ensures db == PublishedAll(s, terms, now) && DueList(db.rows, now) == []
  {
    hide Ordered;
    hide MidPass;
    hide DueStamps;
    var order := Ordered(DueStamps(s.rows, now));
    DueListAt(s, 0, |order|, now);
    PassEnds(s, terms, owner, now);
    RestIsDue(s, |order|, terms, owner, now);
    assert order[..|order|] == order && order[|order|..|order|] == [] && Ids([]) == {};
  }

  // ---------------------------------------------------------------- drains in batches

  /** One bounded call leaves the same work for the unbounded call as none. */
  lemma RecoverBatchThenAll(s: Store, limit: int, now: Instant)
    requires limit > 0
    ensures RecoveredAll(Perform(s, DecideRecover(s, now, limit).effect, now), now) == RecoveredAll(s, now)
    ensures DecideRecover(s, now, limit).answer == Counted(0) ==>
      Perform(s, DecideRecover(s, now, limit).effect, now) == RecoveredAll(s, now)
  {
    BatchMembers(AbandonedStamps(s.rows, now), limit);
    var ids := Ids(Batch(AbandonedStamps(s.rows, now), limit));
    SameStore(RecoveredAll(Perform(s, Update(ids, RecoverClaim), now), now), RecoveredAll(s, now));
    if DecideRecover(s, now, limit).answer == Counted(0) {
      NoneLeft(AbandonedStamps(s.rows, now), limit);
    }
  }

  lemma ExpireBatchThenAll(s: Store, limit: int, now: Instant)
    requires limit > 0
    ensures ExpiredAll(Perform(s, DecideExpire(s, now, limit).effect, now), now) == ExpiredAll(s, now)
    ensures DecideExpire(s, now, limit).answer == Counted(0) ==>
      Perform(s, DecideExpire(s, now, limit).effect, now) == ExpiredAll(s, now)
  {
    BatchMembers(OverdueStamps(s.rows, now), limit);
    var ids := Ids(Batch(OverdueStamps(s.rows, now), limit));
    SameStore(ExpiredAll(Perform(s, Update(ids, ExpireQueue), now), now), ExpiredAll(s, now));
    if DecideExpire(s, now, limit).answer == Counted(0) {
      NoneLeft(OverdueStamps(s.rows, now), limit);
    }
  }

  lemma NoneLeft(stamps: Stamps, limit: int)
    requires limit > 0 && |Ids(Batch(stamps, limit))| == 0
    ensures Ids(Batch(stamps, limit)) == stamps.Keys
  {
    BatchIsEarliest(stamps, limit);
    EmptyIffNoIds(Batch(stamps, limit));
  }
}

/** FIFO at claim time: whatever the broker delivers, jobs are claimed in order of submission. */
module ClaimOrder {
  import opened Options
  import opened JobTypes
  import opened Ordering
  import opened JobProtocol
  import opened StoreInvariant
  import opened JobHistory

  /** The queue position of a job: its submission instant, then its id. */
  datatype Position = Position(submittedAt: Instant, id: JobId)

  predicate Precedes(a: Position, b: Position) {
    a.submittedAt < b.submittedAt || (a.submittedAt == b.submittedAt && a.id < b.id)
  }

  function PositionOf(rows: Rows, id: JobId): Position
    requires id in rows
  {
    Position(rows[id].job.submittedAt, id)
  }

  /** The positions of the jobs that a run hands to workers, in the order of the answers. */
  ghost function ClaimedPositions(policy: Policy, s: Store, run: seq<Step>): seq<Position>
    decreases run
  {
    if run == [] then []
    else
      var answer := AnswerTo(policy, s, run[0].now, run[0].op);
      var rest := ClaimedPositions(policy, Next(policy, s, run[0].now, run[0].op), run[1..]);
      if answer.Claimed? && answer.claimed.claim.dispatch.internalJobId in s.rows
      then [PositionOf(s.rows, answer.claimed.claim.dispatch.internalJobId)] + rest
      else rest
  }

  /** Every job that may still be claimed comes after the position. */
  ghost predicate Passed(s: Store, now: Instant, position: Position) {
    && position.submittedAt <= now
    && position.id < s.nextId
    && (forall id | id in s.rows && IsEligible(s.rows[id].job, now) ::
          Precedes(position, PositionOf(s.rows, id)) && position.id < id)
  }

  lemma PassedStaysPassed(policy: Policy, s: Store, earlier: Instant, now: Instant, op: Operation, position: Position)
    requires Invariant(policy, s, earlier) && earlier <= now
    requires Passed(s, earlier, position)
    ensures Passed(Next(policy, s, now, op), now, position)
  {
    NextEvolves(policy, s, earlier, now, op);
    var next := Next(policy, s, now, op);
    forall id | id in next.rows && IsEligible(next.rows[id].job, now)
      ensures Precedes(position, PositionOf(next.rows, id)) && position.id < id
    {
      if id in s.rows {
        assert Advances(s.rows[id], next.rows[id]);
        assert RowInvariant(policy, s.rows[id], now);
        assert IsEligible(s.rows[id].job, earlier);
      }
    }
  }

  /** A claim takes the earliest eligible job, and leaves only later ones eligible. */
  lemma ClaimPasses(policy: Policy, s: Store, earlier: Instant, now: Instant, op: Operation)
    requires Invariant(policy, s, earlier) && earlier <= now
    requires AnswerTo(policy, s, now, op).Claimed?
    ensures var id := AnswerTo(policy, s, now, op).claimed.claim.dispatch.internalJobId;
      && id in s.rows
      && IsEligible(s.rows[id].job, now)
      && Passed(Next(policy, s, now, op), now, PositionOf(s.rows, id))
  {
    assert op.ClaimDispatch?;
    NextEvolves(policy, s, earlier, now, op);
    var id := op.dispatch.internalJobId;
    var stamps := EligibleStamps(s.rows, now);
    assert IsEarliest(stamps, id);
    var next := Next(policy, s, now, op);
    forall other | other in next.rows && IsEligible(next.rows[other].job, now)
      ensures Precedes(PositionOf(s.rows, id), PositionOf(next.rows, other)) && id < other
    {
      assert other in s.rows;
      assert next.rows[id] == Changed(s.rows[id], StartProcessing(op.workerOwner, op.duration), now);
      assert other != id && next.rows[other] == s.rows[other];
      assert other in stamps && Before(stamps, id, other);
    }
  }

  lemma {:induction false} ClaimsAfterPassed(policy: Policy, s: Store, start: Instant, run: seq<Step>,
      position: Position)
    requires Invariant(policy, s, start) && Timely(start, run)
    requires Passed(s, start, position)
    ensures forall later | later in ClaimedPositions(policy, s, run) ::
        Precedes(position, later) && position.id < later.id
    decreases run
  {
    if run != [] {
      var now, op := run[0].now, run[0].op;
      PassedStaysPassed(policy, s, start, now, op, position);
      NextKeepsInvariant(policy, s, start, now, op);
      ClaimsAfterPassed(policy, Next(policy, s, now, op), now, run[1..], position);
      if AnswerTo(policy, s, now, op).Claimed? {
        ClaimPasses(policy, s, start, now, op);
      }
    }
  }

  /**
   Whole-run FIFO: under a nondecreasing clock, whatever is delivered, duplicated, expired,
   cancelled or deleted in between, claims are strictly increasing in (submitted_at, id). The ids
   alone increase too, so no job is handed out twice.
   */
  lemma {:induction false} ClaimsAreFifo(policy: Policy, s: Store, start: Instant, run: seq<Step>)
    requires Invariant(policy, s, start) && Timely(start, run)
    ensures forall i, j | 0 <= i < j < |ClaimedPositions(policy, s, run)| ::
      && Precedes(ClaimedPositions(policy, s, run)[i], ClaimedPositions(policy, s, run)[j])
      && ClaimedPositions(policy, s, run)[i].id < ClaimedPositions(policy, s, run)[j].id
    decreases run
  {
    if run != [] {
      var now, op := run[0].now, run[0].op;
      var next := Next(policy, s, now, op);
      NextKeepsInvariant(policy, s, start, now, op);
      ClaimsAreFifo(policy, next, now, run[1..]);
      if AnswerTo(policy, s, now, op).Claimed? {
        ClaimPasses(policy, s, start, now, op);
        var id := AnswerTo(policy, s, now, op).claimed.claim.dispatch.internalJobId;
        ClaimsAfterPassed(policy, next, now, run[1..], PositionOf(s.rows, id));
      }
    }
  }
}

/** What a transaction, and then a whole run, can do to the rows that were already there. */
module JobHistory {
  import opened Options
  import opened TranscriptTypes
  import opened ResultRows
  import opened JobTypes
  import opened Ordering
  import opened JobProtocol
  import opened StoreInvariant

  /** Rows advance, new rows take fresh ids, and ids are never handed out twice. */
  predicate Evolves(before: Store, after: Store) {
    && before.nextId <= after.nextId
    && (forall id | id in after.rows && id in before.rows :: Advances(before.rows[id], after.rows[id]))
    && (forall id | id in after.rows && id !in before.rows :: id >= before.nextId)
  }

  /** New rows of one transaction are queued and carry its clock reading. */
  predicate Admits(before: Store, after: Store, now: Instant) {
    forall id | id in after.rows && id !in before.rows ::
      after.rows[id].job.status.Queued? && after.rows[id].job.submittedAt == now
  }

  lemma NextEvolves(policy: Policy, s: Store, earlier: Instant, now: Instant, op: Operation)
    requires Invariant(policy, s, earlier) && earlier <= now
    ensures Invariant(policy, s, now)
    ensures Invariant(policy, Next(policy, s, now, op), now)
    ensures Lawful(policy, s, Decide(policy, s, now, op).effect, now)
    ensures Evolves(s, Next(policy, s, now, op))
    ensures Admits(s, Next(policy, s, now, op), now)
  {
    InvariantLater(policy, s, earlier, now);
    NextKeepsInvariant(policy, s, earlier, now, op);
    DecideIsLawful(policy, s, now, op);
    LawfulEvolves(policy, s, Decide(policy, s, now, op).effect, now);
  }

  lemma LawfulEvolves(policy: Policy, s: Store, effect: Effect, now: Instant)
    requires Invariant(policy, s, now) && Lawful(policy, s, effect, now)
    ensures Evolves(s, Perform(s, effect, now)) && Admits(s, Perform(s, effect, now), now)
  {
    if effect.Update? {
      forall id | id in effect.updated ensures Advances(s.rows[id], Changed(s.rows[id], effect.change, now)) {
        ChangeAdvances(policy, s.rows[id], effect.change, now);
      }
    }
  }

  /** Over a whole run, whatever its operations: a row that is still there has only advanced. */
  lemma {:induction false} RunEvolves(policy: Policy, s: Store, start: Instant, run: seq<Step>)
    requires Invariant(policy, s, start) && Timely(start, run)
    ensures Evolves(s, Final(policy, s, run))
    decreases run
  {
    if run != [] {
      var next := Next(policy, s, run[0].now, run[0].op);
      NextEvolves(policy, s, start, run[0].now, run[0].op);
      RunEvolves(policy, next, run[0].now, run[1..]);
      EvolvesTransitive(s, next, Final(policy, next, run[1..]));
    }
  }

  lemma EvolvesTransitive(a: Store, b: Store, c: Store)
    requires Evolves(a, b) && Evolves(b, c)
    requires forall id | id in a.rows :: id < a.nextId
    ensures Evolves(a, c)
  {
  }

  /** A deleted job never comes back: its id is behind the sequence for good. */
  lemma DeletedStaysDeleted(policy: Policy, s: Store, start: Instant, run: seq<Step>, id: JobId)
    requires Invariant(policy, s, start) && Timely(start, run)
    requires id < s.nextId && id !in s.rows
    ensures id !in Final(policy, s, run).rows && id < Final(policy, s, run).nextId
  {
    RunEvolves(policy, s, start, run);
  }
}

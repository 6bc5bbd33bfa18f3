/** `ORDER BY instant, id LIMIT n` over a set of jobs, each with the instant it is ordered by. */
module Ordering {
  import opened JobTypes

  type Stamps = map<JobId, Instant>

  predicate Before(stamps: Stamps, a: JobId, b: JobId)
    requires a in stamps && b in stamps
  {
    stamps[a] < stamps[b] || (stamps[a] == stamps[b] && a < b)
  }

  predicate IsEarliest(stamps: Stamps, id: JobId) {
    id in stamps && forall other | other in stamps && other != id :: Before(stamps, id, other)
  }

  lemma SomeMember<T>(members: set<T>) returns (member: T)
    requires members != {}
    ensures member in members
  {
    member :| member in members;
  }

  lemma {:induction false} EarliestExists(stamps: Stamps)
    requires |stamps| != 0
    ensures exists id :: IsEarliest(stamps, id)
    decreases |stamps|
  {
    var any := SomeMember(stamps.Keys);
    var rest := stamps - {any};
    if |rest| == 0 {
      assert forall other | other in stamps :: other == any || other in rest.Keys;
      assert IsEarliest(stamps, any);
    } else {
      assert rest.Keys == stamps.Keys - {any};
      EarliestExists(rest);
      var best :| IsEarliest(rest, best);
      assert forall other | other in stamps :: other == any || other in rest;
      assert IsEarliest(stamps, if Before(stamps, any, best) then any else best);
    }
  }

  function Earliest(stamps: Stamps): (id: JobId)
    requires |stamps| != 0
    ensures IsEarliest(stamps, id)
  {
    EarliestExists(stamps);
    var id :| id in stamps && forall other | other in stamps && other != id :: Before(stamps, id, other);
    id
  }

  predicate Sorted(stamps: Stamps, ids: seq<JobId>) {
    && (forall id | id in ids :: id in stamps)
    && (forall i, j | 0 <= i < j < |ids| :: Before(stamps, ids[i], ids[j]))
  }

  lemma WithoutKey(stamps: Stamps, id: JobId)
    requires id in stamps
    ensures (stamps - {id}).Keys == stamps.Keys - {id}
    ensures |stamps - {id}| == |stamps| - 1
  {
  }

  lemma PrependEarliest(stamps: Stamps, first: JobId, rest: Stamps, tail: seq<JobId>)
    requires IsEarliest(stamps, first) && rest == stamps - {first}
    requires Sorted(rest, tail) && forall id :: id in tail <==> id in rest
    ensures Sorted(stamps, [first] + tail)
    ensures forall id :: id in [first] + tail <==> id in stamps
  {
    var ids := [first] + tail;
    WithoutKey(stamps, first);
    forall i, j | 0 <= i < j < |ids|
      ensures ids[i] in stamps && ids[j] in stamps && Before(stamps, ids[i], ids[j])
    {
      assert ids[j] == tail[j - 1] && ids[j] in tail;
      if i > 0 {
        assert ids[i] == tail[i - 1] && ids[i] in tail;
        assert Before(rest, ids[i], ids[j]);
      }
    }
  }

  /** All of the jobs, earliest first. */
  function Ordered(stamps: Stamps): seq<JobId>
    decreases |stamps|
  {
    if |stamps| == 0 then []
    else
      var first := Earliest(stamps);
      WithoutKey(stamps, first);
      [first] + Ordered(stamps - {first})
  }

  lemma {:induction false} OrderedListsAll(stamps: Stamps)
    ensures Sorted(stamps, Ordered(stamps))
    ensures forall id :: id in Ordered(stamps) <==> id in stamps
    ensures |Ordered(stamps)| == |stamps|
    decreases |stamps|
  {
    if |stamps| != 0 {
      var first := Earliest(stamps);
      var rest := stamps - {first};
      WithoutKey(stamps, first);
      OrderedListsAll(rest);
      PrependEarliest(stamps, first, rest, Ordered(rest));
    }
  }

  /** The first jobs in order, at most `limit` of them. */
  function Batch(stamps: Stamps, limit: int): seq<JobId>
    requires limit > 0
  {
    var all := Ordered(stamps);
    if limit < |all| then all[..limit] else all
  }

  lemma BatchMembers(stamps: Stamps, limit: int)
    requires limit > 0
    ensures forall id | id in Batch(stamps, limit) :: id in stamps
  {
    OrderedListsAll(stamps);
  }

  /** A batch is sorted, as long as the limit and the candidates allow, and ahead of all it leaves out. */
  lemma BatchIsEarliest(stamps: Stamps, limit: int)
    requires limit > 0
    ensures Sorted(stamps, Batch(stamps, limit))
    ensures |Batch(stamps, limit)| == if limit < |stamps| then limit else |stamps|
    ensures forall id, other | id in Batch(stamps, limit) && other in stamps && other !in Batch(stamps, limit) ::
      Before(stamps, id, other)
  {
    OrderedListsAll(stamps);
    var all, batch := Ordered(stamps), Batch(stamps, limit);
    forall id, other | id in batch && other in stamps && other !in batch ensures Before(stamps, id, other) {
      var rest := all[|batch|..];
      assert all == batch + rest && other in rest;
      var i :| 0 <= i < |batch| && batch[i] == id;
      var j :| 0 <= j < |rest| && rest[j] == other;
      assert Before(stamps, all[i], all[|batch| + j]);
    }
  }

  function Ids(ids: seq<JobId>): set<JobId> { set id | id in ids }

  lemma HeadIsEarliest(stamps: Stamps, ids: seq<JobId>)
    requires Sorted(stamps, ids) && ids != []
    ensures forall id | id in ids :: id in stamps && (id == ids[0] || Before(stamps, ids[0], id))
    ensures ids[0] !in ids[1..]
  {
    forall i | 0 < i < |ids| ensures Before(stamps, ids[0], ids[i]) {
    }
  }

  lemma EmptyIffNoIds(ids: seq<JobId>)
    ensures Ids(ids) == {} <==> ids == []
  {
    if ids != [] {
      assert ids[0] in Ids(ids);
    }
  }

  predicate NoDuplicates<T(==)>(items: seq<T>) {
    forall i, j | 0 <= i < j < |items| :: items[i] != items[j]
  }

  lemma SortedHasNoDuplicates(stamps: Stamps, ids: seq<JobId>)
    requires Sorted(stamps, ids)
    ensures NoDuplicates(ids)
  {
    forall i, j | 0 <= i < j < |ids| ensures ids[i] != ids[j] {
      assert Before(stamps, ids[i], ids[j]);
    }
  }

  /** A list without duplicates has as many members as entries. */
  lemma {:induction false} CountOfIds(ids: seq<JobId>)
    requires NoDuplicates(ids)
    ensures |Ids(ids)| == |ids|
  {
    EmptyIffNoIds(ids);
    if ids != [] {
      var rest, last := ids[..|ids| - 1], ids[|ids| - 1];
      CountOfIds(rest);
      assert ids == rest + [last];
      assert Ids(ids) == Ids(rest) + {last};
      assert last !in Ids(rest);
    }
  }

  function Predecessors(stamps: Stamps, id: JobId): set<JobId>
    requires id in stamps
  {
    set other | other in stamps && Before(stamps, other, id)
  }

  /** A job is in the batch exactly if fewer than `limit` candidates come before it. */
  lemma BatchIff(stamps: Stamps, limit: int, id: JobId)
    requires limit > 0 && id in stamps
    ensures id in Batch(stamps, limit) <==> |Predecessors(stamps, id)| < limit
  {
    OrderedListsAll(stamps);
    var all := Ordered(stamps);
    SortedHasNoDuplicates(stamps, all);
    var i :| 0 <= i < |all| && all[i] == id;
    assert Predecessors(stamps, id) == Ids(all[..i]) by {
      forall other ensures other in Predecessors(stamps, id) <==> other in Ids(all[..i]) {
        if other in stamps {
          var j :| 0 <= j < |all| && all[j] == other;
          assert j < i ==> all[..i][j] == other;
          assert i < j ==> Before(stamps, all[i], all[j]);
        }
      }
    }
    CountOfIds(all[..i]);
    assert limit < |all| && i < limit ==> all[..limit][i] == id;
  }

  /** There is only one sorted listing of a set of jobs. */
  lemma {:induction false} SortedIsUnique(stamps: Stamps, a: seq<JobId>, b: seq<JobId>)
    requires Sorted(stamps, a) && Sorted(stamps, b)
    requires Ids(a) == Ids(b)
    ensures a == b
  {
    EmptyIffNoIds(a);
    EmptyIffNoIds(b);
    if a != [] {
      assert a[0] in Ids(a);
      HeadIsEarliest(stamps, a);
      HeadIsEarliest(stamps, b);
      assert b[0] in Ids(b);
      assert a[0] == b[0];
      assert Ids(a[1..]) == Ids(a) - {a[0]};
      assert Ids(b[1..]) == Ids(b) - {b[0]};
      SortedIsUnique(stamps, a[1..], b[1..]);
    }
  }

  /** A sorted listing names every job once, so a prefix and the rest share no job. */
  lemma PrefixAndRest(stamps: Stamps, ids: seq<JobId>, n: nat)
    requires Sorted(stamps, ids) && n <= |ids|
    ensures Ids(ids[n..]) == Ids(ids) - Ids(ids[..n])
    ensures Sorted(stamps, ids[n..])
  {
    assert ids == ids[..n] + ids[n..];
    forall i, j | 0 <= i < n <= j < |ids| ensures ids[i] != ids[j] {
      assert Before(stamps, ids[i], ids[j]);
    }
  }

  lemma OrderedIs(stamps: Stamps, ids: seq<JobId>)
    requires Sorted(stamps, ids) && Ids(ids) == stamps.Keys
    ensures Ordered(stamps) == ids
  {
    OrderedListsAll(stamps);
    SortedIsUnique(stamps, Ordered(stamps), ids);
  }

  /** Taking a sorted prefix away leaves the sorted rest. */
  lemma OrderedWithoutPrefix(stamps: Stamps, all: seq<JobId>, rest: Stamps, n: nat)
    requires Sorted(stamps, all) && Ids(all) == stamps.Keys && n <= |all|
    requires rest.Keys == stamps.Keys - Ids(all[..n])
    requires forall id | id in rest :: id in stamps && rest[id] == stamps[id]
    ensures Ordered(rest) == all[n..]
  {
    hide Ordered;
    hide Sorted;
    PrefixAndRest(stamps, all, n);
    SortedInRest(stamps, rest, all[n..]);
    OrderedIs(rest, all[n..]);
  }

  lemma SortedInRest(stamps: Stamps, rest: Stamps, ids: seq<JobId>)
    requires Sorted(stamps, ids) && Ids(ids) <= rest.Keys
    requires forall id | id in rest :: id in stamps && rest[id] == stamps[id]
    ensures Sorted(rest, ids)
  {
    forall id | id in ids ensures id in rest {
      assert id in Ids(ids);
    }
  }
}

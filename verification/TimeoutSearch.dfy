/**
 `_is_timeout_exception`: a worklist search for a typed timeout over the links between exceptions,
 which may be any finite graph, cycles included.
 */
module TimeoutSearch {
  import opened Options

  /** The identity of an exception object. */
  type Id = nat

  /** What the search looks at; a link is None where the attribute is not an exception. */
  datatype Links = Links(
    isTimeout: bool,
    isDownloadError: bool,
    nested: Option<Id>,       // the second element of exc_info
    cause: Option<Id>,
    context: Option<Id>,
    reason: Option<Id>)

  type Graph = map<Id, Links>

  function Linked(link: Option<Id>): seq<Id> {
    if link.None? then [] else [link.value]
  }

  /** The exceptions linked from one, in the order in which the search pushes them. */
  function Successors(node: Links): seq<Id> {
    (if node.isDownloadError then Linked(node.nested) else [])
    + Linked(node.cause) + Linked(node.context) + Linked(node.reason)
  }

  /** An exception links to its cause, context and reason, and a download error also to the nested one. */
  lemma LinksAre(node: Links, next: Id)
    ensures next in Successors(node) <==>
      || (node.isDownloadError && node.nested == Some(next))
      || node.cause == Some(next) || node.context == Some(next) || node.reason == Some(next)
  {
  }

  predicate IsClosed(graph: Graph) {
    forall id | id in graph :: forall next | next in Successors(graph[id]) :: next in graph
  }

  predicate IsPath(graph: Graph, path: seq<Id>) {
    && path != []
    && (forall i | 0 <= i < |path| :: path[i] in graph)
    && (forall i | 0 <= i < |path| - 1 :: path[i + 1] in Successors(graph[path[i]]))
  }

  ghost predicate Reaches(graph: Graph, start: Id, end: Id) {
    exists path :: IsPath(graph, path) && path[0] == start && path[|path| - 1] == end
  }

  ghost predicate ReachesTimeout(graph: Graph, start: Id) {
    exists end :: end in graph && graph[end].isTimeout && Reaches(graph, start, end)
  }

  lemma ReachesItself(graph: Graph, start: Id)
    requires start in graph
    ensures Reaches(graph, start, start)
  {
    assert IsPath(graph, [start]) && [start][0] == start && [start][|[start]| - 1] == start;
  }

  lemma ReachesNext(graph: Graph, start: Id, end: Id, next: Id)
    requires Reaches(graph, start, end) && end in graph && next in graph && next in Successors(graph[end])
    ensures Reaches(graph, start, next)
  {
    var path :| IsPath(graph, path) && path[0] == start && path[|path| - 1] == end;
    var longer := path + [next];
    forall i | 0 <= i < |longer| - 1 ensures longer[i + 1] in Successors(graph[longer[i]]) {
      assert longer[i] == path[i];
    }
    assert IsPath(graph, longer) && longer[0] == start && longer[|longer| - 1] == next;
  }

  /** A set that is closed under links holds everything reachable from its members. */
  lemma {:induction false} ClosedSetHoldsPath(graph: Graph, visited: set<Id>, path: seq<Id>)
    requires IsPath(graph, path) && path[0] in visited
    requires forall id | id in visited && id in graph :: forall next | next in Successors(graph[id]) :: next in visited
    ensures path[|path| - 1] in visited
  {
    if |path| > 1 {
      var rest := path[1..];
      forall i | 0 <= i < |rest| - 1 ensures rest[i + 1] in Successors(graph[rest[i]]) {
        assert rest[i] == path[i + 1] && rest[i + 1] == path[i + 1 + 1];
      }
      assert path[0 + 1] in Successors(graph[path[0]]);
      ClosedSetHoldsPath(graph, visited, rest);
    }
  }

  /** The search ends on every finite graph, and finds a timeout exactly if one is reachable. */
  method IsTimeoutException(graph: Graph, error: Id) returns (found: bool)
    requires IsClosed(graph) && error in graph
    ensures found <==> ReachesTimeout(graph, error)
  {
    var pending := [error];
    var visited: set<Id> := {};
    ReachesItself(graph, error);
    while pending != []
      invariant visited <= graph.Keys
      invariant forall id | id in pending :: id in graph && Reaches(graph, error, id)
      invariant error in visited || error in pending
      invariant forall id | id in visited :: id in graph && !graph[id].isTimeout
      invariant forall id | id in visited ::
          forall next | next in Successors(graph[id]) :: next in visited || next in pending
      decreases |graph.Keys - visited|, |pending|
    {
      var candidate := pending[|pending| - 1];
      ghost var before := pending;
      pending := pending[..|pending| - 1];
      assert forall id | id in before :: id == candidate || id in pending;
      assert candidate in before;
      if candidate in visited {
        continue;
      }
      assert graph.Keys - (visited + {candidate}) < graph.Keys - visited by {
        assert candidate in graph.Keys - visited;
      }
      Smaller(graph.Keys - (visited + {candidate}), graph.Keys - visited);
      visited := visited + {candidate};
      if graph[candidate].isTimeout {
        return true;
      }
      forall next | next in Successors(graph[candidate]) ensures Reaches(graph, error, next) {
        ReachesNext(graph, error, candidate, next);
      }
      pending := pending + Successors(graph[candidate]);
    }
    forall end | end in graph && Reaches(graph, error, end) ensures !graph[end].isTimeout {
      var path :| IsPath(graph, path) && path[0] == error && path[|path| - 1] == end;
      ClosedSetHoldsPath(graph, visited, path);
    }
    found := false;
  }

  lemma Smaller(small: set<Id>, big: set<Id>)
    requires small < big
    ensures |small| < |big|
  {
    var extra :| extra in big && extra !in small;
    var rest := big - {extra};
    assert small <= rest;
    assert rest == small + (rest - small);
  }
}

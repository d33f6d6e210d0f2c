/** The dependency graph and what "reachable" and "cyclic" mean on it, independently of any search. */
module Walks {
  import opened Domain

  /** One entry of the resolver's map. */
  datatype Node = Node(dependencies: seq<Dependency>, dependents: seq<JobId>, isResolved: bool)

  type Graph = map<JobId, Node>

  predicate Names(deps: seq<Dependency>, id: JobId) {
    exists k :: 0 <= k < |deps| && deps[k].jobId == id
  }

  /** `a` depends on `b`. An id that is missing from the map is a leaf. */
  predicate Edge(g: Graph, a: JobId, b: JobId) {
    a in g && Names(g[a].dependencies, b)
  }

  ghost predicate IsWalk(g: Graph, w: seq<JobId>) {
    |w| > 0 && forall i, j :: 0 <= i && j == i + 1 && j < |w| ==> Edge(g, w[i], w[j])
  }

  ghost predicate WalkBetween(g: Graph, w: seq<JobId>, a: JobId, b: JobId) {
    IsWalk(g, w) && w[0] == a && w[|w| - 1] == b
  }

  ghost predicate Reaches(g: Graph, a: JobId, b: JobId) {
    exists w :: WalkBetween(g, w, a, b)
  }

  ghost predicate ReachableFrom(g: Graph, ids: seq<JobId>, x: JobId) {
    exists r :: r in ids && Reaches(g, r, x)
  }

  /** A non-empty walk that returns to where it started. */
  ghost predicate IsClosedWalk(g: Graph, w: seq<JobId>) {
    |w| >= 2 && IsWalk(g, w) && w[0] == w[|w| - 1]
  }

  ghost predicate CycleReachable(g: Graph, ids: seq<JobId>) {
    exists w :: IsClosedWalk(g, w) && ReachableFrom(g, ids, w[0])
  }

  /** Every dependency of a listed job stands earlier in the list. */
  ghost predicate DependenciesFirst(g: Graph, order: seq<JobId>) {
    forall k, b :: 0 <= k < |order| && Edge(g, order[k], b) ==> b in order[..k]
  }

  function IndexOf(s: seq<JobId>, x: JobId): (k: nat)
    requires x in s
    ensures k < |s| && s[k] == x
    ensures x !in s[..k]
  {
    if s[0] == x then 0 else 1 + IndexOf(s[1..], x)
  }

  lemma ExtendWalk(g: Graph, w: seq<JobId>, x: JobId)
    requires IsWalk(g, w) && Edge(g, w[|w| - 1], x)
    ensures IsWalk(g, w + [x])
  {}

  lemma DropWalk(g: Graph, w: seq<JobId>, k: nat)
    requires IsWalk(g, w) && k < |w|
    ensures IsWalk(g, w[k..])
  {}

  lemma TakeWalk(g: Graph, w: seq<JobId>, k: nat)
    requires IsWalk(g, w) && 0 < k <= |w|
    ensures IsWalk(g, w[..k])
  {}

  lemma ReachesSelf(g: Graph, a: JobId)
    ensures Reaches(g, a, a)
  {
    assert WalkBetween(g, [a], a, a);
  }

  /** A set that contains the roots and is closed under dependencies contains everything reachable. */
  lemma ClosedSetHoldsWalk(g: Graph, s: set<JobId>, w: seq<JobId>, k: nat)
    requires IsWalk(g, w) && w[0] in s && k < |w|
    requires forall a, b :: a in s && Edge(g, a, b) ==> b in s
    ensures w[k] in s
  {
    if k > 0 {
      ClosedSetHoldsWalk(g, s, w, k - 1);
      assert Edge(g, w[k - 1], w[k]);
    }
  }

  /** Along a walk, positions in a dependencies-first list only go down. */
  lemma {:induction false} WalkDescends(g: Graph, order: seq<JobId>, w: seq<JobId>, k: nat)
    requires DependenciesFirst(g, order) && IsWalk(g, w) && w[0] in order && k < |w|
    ensures w[k] in order
    ensures k > 0 ==> IndexOf(order, w[k]) < IndexOf(order, w[0])
  {
    if k > 0 {
      WalkDescends(g, order, w, k - 1);
      var a, b := w[k - 1], w[k];
      assert Edge(g, a, b);
      var m := IndexOf(order, a);
      assert b in order[..m];
      FirstIndexIsLeast(order, m, b);
    }
  }

  lemma FirstIndexIsLeast(s: seq<JobId>, m: nat, x: JobId)
    requires m <= |s| && x in s[..m]
    ensures x in s && IndexOf(s, x) < m
  {}

  /** A dependencies-first list that contains the roots rules out every reachable cycle. */
  lemma OrderedMeansAcyclic(g: Graph, ids: seq<JobId>, order: seq<JobId>)
    requires DependenciesFirst(g, order)
    requires forall r :: r in ids ==> r in order
    ensures !CycleReachable(g, ids)
  {
    if CycleReachable(g, ids) {
      var w :| IsClosedWalk(g, w) && ReachableFrom(g, ids, w[0]);
      var r :| r in ids && Reaches(g, r, w[0]);
      var v :| WalkBetween(g, v, r, w[0]);
      WalkDescends(g, order, v, |v| - 1);
      WalkDescends(g, order, w, |w| - 1);
      assert false;
    }
  }

  /** A walk that runs into itself closes a cycle that is reachable from its start. */
  lemma ReentryClosesCycle(g: Graph, ids: seq<JobId>, path: seq<JobId>, k: nat, id: JobId)
    requires IsWalk(g, path + [id]) && k < |path| && path[k] == id && path[0] in ids
    ensures IsClosedWalk(g, path[k..] + [id]) && ReachableFrom(g, ids, id)
    ensures CycleReachable(g, ids)
  {
    var w := path + [id];
    DropWalk(g, w, k);
    assert w[k..] == path[k..] + [id];
    TakeWalk(g, w, k + 1);
    assert w[..k + 1][k] == w[k];
    assert WalkBetween(g, w[..k + 1], path[0], id);
    assert Reaches(g, path[0], id);
    assert ReachableFrom(g, ids, id);
  }
}

/** The two depth-first searches of the dependency resolver. */
module GraphSearch {
  import opened Domain
  import opened Walks

  /** Normal return, or the thrown error with the cycle it reports. */
  datatype Verdict = Acyclic | Circular(cycle: seq<JobId>)

  /** What the cycle search knows: `path` is the call stack, `order` the ids already left, in the order of leaving. */
  ghost predicate SearchState(g: Graph, ids: seq<JobId>, path: seq<JobId>,
                              visited: set<JobId>, inStack: set<JobId>, order: seq<JobId>)
  {
    && inStack == ToSet(path)
    && visited == inStack + ToSet(order)
    && inStack !! ToSet(order)
    && DependenciesFirst(g, order)
    && (path != [] ==> IsWalk(g, path) && path[0] in ids)
  }

  ghost predicate CycleReport(g: Graph, ids: seq<JobId>, cycle: seq<JobId>) {
    IsClosedWalk(g, cycle) && ReachableFrom(g, ids, cycle[0])
  }

  method Dfs(g: Graph, id: JobId, path: seq<JobId>, visited0: set<JobId>, inStack0: set<JobId>,
             ghost ids: seq<JobId>, ghost order0: seq<JobId>)
    returns (v: Verdict, visited: set<JobId>, inStack: set<JobId>, ghost order: seq<JobId>)
    requires SearchState(g, ids, path, visited0, inStack0, order0)
    requires IsWalk(g, path + [id]) && (path + [id])[0] in ids
    ensures v.Circular? ==> CycleReport(g, ids, v.cycle)
    ensures v.Acyclic? ==>
              && SearchState(g, ids, path, visited, inStack, order)
              && order0 <= order && id in order
    decreases g.Keys - visited0
  {
    visited, inStack, order := visited0, inStack0, order0;
    if id in inStack {
      var start := IndexOf(path, id);
      ReentryClosesCycle(g, ids, path, start, id);
      return Circular(path[start..] + [id]), visited, inStack, order;
    }
    if id in visited {
      return Acyclic, visited, inStack, order;
    }
    visited, inStack := visited + {id}, inStack + {id};
    ghost var stack := path + [id];
    assert ToSet(stack) == inStack;
    if id in g {
      var deps := g[id].dependencies;
      for k := 0 to |deps|
        invariant SearchState(g, ids, stack, visited, inStack, order)
        invariant visited0 + {id} <= visited && order0 <= order
        invariant forall m :: 0 <= m < k ==> deps[m].jobId in order
      {
        assert Names(deps, deps[k].jobId);
        assert Edge(g, id, deps[k].jobId);
        ExtendWalk(g, stack, deps[k].jobId);
        v, visited, inStack, order := Dfs(g, deps[k].jobId, path + [id], visited, inStack, ids, order);
        if v.Circular? {
          return;
        }
      }
    }
    inStack := inStack - {id};
    ghost var left := order;
    order := order + [id];
    LeaveStack(g, ids, path, id, visited, left);
    v := Acyclic;
  }

  /** Moving the finished id from the stack to the list keeps the search state. */
  lemma LeaveStack(g: Graph, ids: seq<JobId>, path: seq<JobId>, id: JobId, visited: set<JobId>, order: seq<JobId>)
    requires SearchState(g, ids, path + [id], visited, ToSet(path + [id]), order)
    requires id !in path
    requires forall b :: Edge(g, id, b) ==> b in order
    ensures SearchState(g, ids, path, visited, ToSet(path + [id]) - {id}, order + [id])
  {
    assert ToSet(path + [id]) == ToSet(path) + {id};
    assert ToSet(path + [id]) - {id} == ToSet(path);
    assert ToSet(order + [id]) == ToSet(order) + {id};
    var done := order + [id];
    forall k, b | 0 <= k < |done| && Edge(g, done[k], b) ensures b in done[..k] {
      if k < |order| {
        assert done[..k] == order[..k];
        assert Edge(g, order[k], b);
      } else {
        assert done[..k] == order;
      }
    }
    if path != [] {
      TakeWalk(g, path + [id], |path|);
      assert (path + [id])[..|path|] == path;
    }
  }

  /** Throws exactly when a cycle is reachable from the given ids, and then reports a real one. */
  method ValidateNoCycles(g: Graph, ids: seq<JobId>) returns (v: Verdict)
    ensures v.Circular? <==> CycleReachable(g, ids)
    ensures v.Circular? ==> CycleReport(g, ids, v.cycle)
  {
    var visited: set<JobId>, inStack: set<JobId> := {}, {};
    ghost var order: seq<JobId> := [];
    for k := 0 to |ids|
      invariant SearchState(g, ids, [], visited, inStack, order)
      invariant forall m :: 0 <= m < k ==> ids[m] in order
    {
      if ids[k] !in visited {
        assert ([] + [ids[k]])[0] == ids[k];
        v, visited, inStack, order := Dfs(g, ids[k], [], visited, inStack, ids, order);
        if v.Circular? {
          return;
        }
      }
    }
    v := Acyclic;
    OrderedMeansAcyclic(g, ids, order);
  }

  /** What the sort knows: `path` is the call stack, `sorted` what has been emitted. */
  ghost predicate SortState(g: Graph, ids: seq<JobId>, path: seq<JobId>, visited: set<JobId>, sorted: seq<JobId>) {
    && visited == ToSet(path) + ToSet(sorted)
    && ToSet(path) !! ToSet(sorted)
    && NoDuplicates(sorted)
    && (forall x :: x in visited ==> ReachableFrom(g, ids, x))
    && (forall x, b :: x in sorted && Edge(g, x, b) ==> b in visited)
    && (path != [] ==> IsWalk(g, path) && path[0] in ids)
    && (!CycleReachable(g, ids) ==> DependenciesFirst(g, sorted))
  }

  method Visit(g: Graph, id: JobId, visited0: set<JobId>, sorted0: seq<JobId>,
               ghost ids: seq<JobId>, ghost path: seq<JobId>)
    returns (visited: set<JobId>, sorted: seq<JobId>)
    requires SortState(g, ids, path, visited0, sorted0)
    requires IsWalk(g, path + [id]) && (path + [id])[0] in ids
    ensures SortState(g, ids, path, visited, sorted)
    ensures visited0 + {id} <= visited && sorted0 <= sorted
    ensures !CycleReachable(g, ids) ==> id in sorted
    decreases g.Keys - visited0
  {
    visited, sorted := visited0, sorted0;
    if id in visited {
      if id in path {
        ReentryClosesCycle(g, ids, path, IndexOf(path, id), id);
      }
      return;
    }
    visited := visited + {id};
    ghost var stack := path + [id];
    assert ToSet(stack) == ToSet(path) + {id};
    assert WalkBetween(g, stack, stack[0], id);
    assert Reaches(g, stack[0], id);
    assert ReachableFrom(g, ids, id);
    if id in g {
      var deps := g[id].dependencies;
      for k := 0 to |deps|
        invariant SortState(g, ids, stack, visited, sorted)
        invariant visited0 + {id} <= visited && sorted0 <= sorted
        invariant forall m :: 0 <= m < k ==> deps[m].jobId in visited
        invariant forall m :: 0 <= m < k && !CycleReachable(g, ids) ==> deps[m].jobId in sorted
      {
        assert Names(deps, deps[k].jobId);
        assert Edge(g, id, deps[k].jobId);
        ExtendWalk(g, stack, deps[k].jobId);
        visited, sorted := Visit(g, deps[k].jobId, visited, sorted, ids, stack);
      }
    }
    EmitFromStack(g, ids, path, id, visited, sorted);
    sorted := sorted + [id];
  }

  lemma EmitFromStack(g: Graph, ids: seq<JobId>, path: seq<JobId>, id: JobId, visited: set<JobId>, sorted: seq<JobId>)
    requires SortState(g, ids, path + [id], visited, sorted)
    requires id !in path
    requires forall b :: Edge(g, id, b) ==> b in visited
    requires !CycleReachable(g, ids) ==> forall b :: Edge(g, id, b) ==> b in sorted
    ensures SortState(g, ids, path, visited, sorted + [id])
  {
    assert ToSet(path + [id]) == ToSet(path) + {id};
    assert ToSet(sorted + [id]) == ToSet(sorted) + {id};
    assert id in ToSet(path + [id]);
    if path != [] {
      TakeWalk(g, path + [id], |path|);
      assert (path + [id])[..|path|] == path;
    }
    if !CycleReachable(g, ids) {
      var done := sorted + [id];
      forall k, b | 0 <= k < |done| && Edge(g, done[k], b) ensures b in done[..k] {
        if k < |sorted| {
          assert done[..k] == sorted[..k];
          assert Edge(g, sorted[k], b);
        } else {
          assert done[..k] == sorted;
        }
      }
    }
  }

  /**
   * Emits every id reachable from the given ids exactly once, cyclic graph or not; the result lists
   * dependencies first exactly when no cycle is reachable, that is, when ValidateNoCycles accepts the same ids.
   */
  method TopologicalSort(g: Graph, ids: seq<JobId>) returns (sorted: seq<JobId>)
    ensures NoDuplicates(sorted)
    ensures forall x :: x in sorted <==> ReachableFrom(g, ids, x)
    ensures DependenciesFirst(g, sorted) <==> !CycleReachable(g, ids)
  {
    sorted := [];
    var visited: set<JobId> := {};
    for k := 0 to |ids|
      invariant SortState(g, ids, [], visited, sorted)
      invariant forall m :: 0 <= m < k ==> ids[m] in visited
    {
      assert ([] + [ids[k]])[0] == ids[k];
      visited, sorted := Visit(g, ids[k], visited, sorted, ids, []);
    }
    SortDone(g, ids, visited, sorted);
  }

  /** With the stack empty, what was emitted is closed under dependencies, so it is all that is reachable. */
  lemma SortDone(g: Graph, ids: seq<JobId>, visited: set<JobId>, sorted: seq<JobId>)
    requires SortState(g, ids, [], visited, sorted)
    requires forall m :: 0 <= m < |ids| ==> ids[m] in visited
    ensures forall x :: x in sorted <==> ReachableFrom(g, ids, x)
    ensures DependenciesFirst(g, sorted) <==> !CycleReachable(g, ids)
  {
    assert visited == ToSet(sorted);
    assert forall r :: r in ids ==> r in sorted;
    forall x | ReachableFrom(g, ids, x) ensures x in sorted {
      ClosedSetHoldsReachable(g, ids, visited, x);
    }
    if DependenciesFirst(g, sorted) {
      OrderedMeansAcyclic(g, ids, sorted);
    }
  }

  lemma ClosedSetHoldsReachable(g: Graph, ids: seq<JobId>, s: set<JobId>, x: JobId)
    requires forall r :: r in ids ==> r in s
    requires forall a, b :: a in s && Edge(g, a, b) ==> b in s
    requires ReachableFrom(g, ids, x)
    ensures x in s
  {
    var r :| r in ids && Reaches(g, r, x);
    var w :| WalkBetween(g, w, r, x);
    ClosedSetHoldsWalk(g, s, w, |w| - 1);
  }
}

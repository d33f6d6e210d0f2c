/** The in-memory dependency graph: its operations as functions on the map, and the class that updates it in place. */
module DependencyResolution {
  import opened Domain
  import opened Walks
  import GraphSearch

  const PLACEHOLDER := Node([], [], true)

  // ---- register -------------------------------------------------------------------------------

  /** Makes `id` a dependent of `dep`, creating a placeholder for an unknown `dep`. */
  function WireOne(g: Graph, id: JobId, dep: JobId): Graph {
    var g1 := if dep in g then g else g[dep := PLACEHOLDER];
    if id in g1[dep].dependents then g1
    else g1[dep := g1[dep].(dependents := g1[dep].dependents + [id])]
  }

  function Wire(g: Graph, id: JobId, deps: seq<Dependency>): Graph {
    if deps == [] then g
    else WireOne(Wire(g, id, deps[..|deps| - 1]), id, deps[|deps| - 1].jobId)
  }

  function Enter(g: Graph, id: JobId, deps: seq<Dependency>): Graph {
    if id in g then g else g[id := Node(deps, [], |deps| == 0)]
  }

  function Registered(g: Graph, id: JobId, deps: seq<Dependency>): Graph {
    Wire(Enter(g, id, deps), id, deps)
  }

  // ---- onJobStateChange -----------------------------------------------------------------------

  /** The first listed dependency on `id`. */
  function FirstOn(deps: seq<Dependency>, id: JobId): (d: Option<Dependency>)
    ensures d.Some? <==> Names(deps, id)
    ensures d.Some? ==> d.value in deps && d.value.jobId == id
  {
    if deps == [] then None
    else if deps[0].jobId == id then Some(deps[0])
    else
      assert forall k :: 0 <= k < |deps| - 1 ==> deps[1..][k] == deps[k + 1];
      FirstOn(deps[1..], id)
  }

  /** It is the first: nothing before it names `id`. */
  lemma {:induction false} FirstOnIsFirst(deps: seq<Dependency>, id: JobId) returns (k: nat)
    requires Names(deps, id)
    ensures k < |deps| && FirstOn(deps, id) == Some(deps[k]) && deps[k].jobId == id
    ensures forall j :: 0 <= j < k ==> deps[j].jobId != id
  {
    if deps[0].jobId == id {
      k := 0;
    } else {
      assert FirstOn(deps, id) == FirstOn(deps[1..], id);
      k := FirstOnIsFirst(deps[1..], id);
      k := k + 1;
      assert forall j :: 0 < j < |deps| ==> deps[1..][j - 1] == deps[j];
    }
  }

  predicate AllMet(g: Graph, deps: seq<Dependency>) {
    forall k :: 0 <= k < |deps| ==> deps[k].jobId in g && g[deps[k].jobId].isResolved
  }

  /** The state of job `x` is such that an event (`id`, `status`) unblocks it. */
  predicate Unblocks(g: Graph, id: JobId, status: JobStatus, x: JobId) {
    && x in g && !g[x].isResolved
    && var d := FirstOn(g[x].dependencies, id);
    && d.Some? && status in d.value.requireStatus
    && AllMet(g, g[x].dependencies)
  }

  function Resolve(g: Graph, x: JobId): Graph
    requires x in g
  {
    g[x := g[x].(isResolved := true)]
  }

  /** The loop over dependents; a flag set for one dependent is seen by those after it. */
  function Sweep(g: Graph, id: JobId, status: JobStatus, list: seq<JobId>): (Graph, seq<JobId>) {
    if list == [] then (g, [])
    else
      var (g1, unblocked) := Sweep(g, id, status, list[..|list| - 1]);
      var x := list[|list| - 1];
      if Unblocks(g1, id, status, x) then (Resolve(g1, x), unblocked + [x]) else (g1, unblocked)
  }

  function StateChanged(g: Graph, id: JobId, status: JobStatus): (Graph, seq<JobId>) {
    if id in g then Sweep(g, id, status, g[id].dependents) else (g, [])
  }

  // ---- deregister -----------------------------------------------------------------------------

  function Without(s: seq<JobId>, x: JobId): (r: seq<JobId>)
    ensures forall y :: y in r <==> y in s && y != x
    ensures NoDuplicates(s) ==> NoDuplicates(r)
    ensures x !in s ==> r == s
  {
    if s == [] then []
    else
      var init, y := s[..|s| - 1], s[|s| - 1];
      assert s == init + [y];
      assert NoDuplicates(s) ==> y !in init;
      if y == x then Without(init, x) else Without(init, x) + [y]
  }

  /** What stays keeps its order. */
  lemma {:induction false} WithoutSplits(s: seq<JobId>, t: seq<JobId>, x: JobId)
    ensures Without(s + t, x) == Without(s, x) + Without(t, x)
    ensures Without([x], x) == []
  {
    if t == [] {
      assert s + t == s;
    } else {
      var init, y := t[..|t| - 1], t[|t| - 1];
      assert (s + t)[..|s + t| - 1] == s + init && (s + t)[|s + t| - 1] == y;
      WithoutSplits(s, init, x);
    }
  }

  function UnwireOne(g: Graph, id: JobId, dep: JobId): Graph {
    if dep in g then g[dep := g[dep].(dependents := Without(g[dep].dependents, id))] else g
  }

  function Unwire(g: Graph, id: JobId, deps: seq<Dependency>): Graph {
    if deps == [] then g
    else UnwireOne(Unwire(g, id, deps[..|deps| - 1]), id, deps[|deps| - 1].jobId)
  }

  function Deregistered(g: Graph, id: JobId): Graph {
    if id in g then Unwire(g, id, g[id].dependencies) - {id} else g
  }

  // ---- the class ------------------------------------------------------------------------------

  class DependencyResolver {
    var graph: Graph

    constructor ()
      ensures graph == map[]
    {
      graph := map[];
    }

    method Register(id: JobId, deps: seq<Dependency>)
      modifies this
      ensures graph == Registered(old(graph), id, deps)
    {
      if id !in graph {
        graph := graph[id := Node(deps, [], |deps| == 0)];
      }
      ghost var entered := graph;
      for k := 0 to |deps|
        invariant graph == Wire(entered, id, deps[..k])
      {
        var dep := deps[k].jobId;
        assert deps[..k + 1][..k] == deps[..k];
        if dep !in graph {
          graph := graph[dep := PLACEHOLDER];
        }
        if id !in graph[dep].dependents {
          graph := graph[dep := graph[dep].(dependents := graph[dep].dependents + [id])];
        }
      }
      assert deps[..|deps|] == deps;
    }

    method CheckAllDependenciesMet(deps: seq<Dependency>) returns (met: bool)
      ensures met == AllMet(graph, deps)
    {
      for k := 0 to |deps|
        invariant AllMet(graph, deps[..k])
      {
        assert deps[..k + 1][k] == deps[k];
        if !(deps[k].jobId in graph && graph[deps[k].jobId].isResolved) {
          return false;
        }
      }
      assert deps[..|deps|] == deps;
      return true;
    }

    method OnJobStateChange(id: JobId, status: JobStatus) returns (unblocked: seq<JobId>)
      modifies this
      ensures (graph, unblocked) == StateChanged(old(graph), id, status)
    {
      unblocked := [];
      if id !in graph {
        return;
      }
      var dependents := graph[id].dependents;
      for k := 0 to |dependents|
        invariant (graph, unblocked) == Sweep(old(graph), id, status, dependents[..k])
      {
        var x := dependents[k];
        assert dependents[..k + 1][..k] == dependents[..k];
        if x in graph && !graph[x].isResolved {
          var d := FirstOn(graph[x].dependencies, id);
          if d.Some? && status in d.value.requireStatus {
            var met := CheckAllDependenciesMet(graph[x].dependencies);
            if met {
              graph := graph[x := graph[x].(isResolved := true)];
              unblocked := unblocked + [x];
            }
          }
        }
      }
      assert dependents[..|dependents|] == dependents;
    }

    method Deregister(id: JobId)
      modifies this
      ensures graph == Deregistered(old(graph), id)
    {
      if id in graph {
        var deps := graph[id].dependencies;
        for k := 0 to |deps|
          invariant graph == Unwire(old(graph), id, deps[..k])
        {
          assert deps[..k + 1][..k] == deps[..k];
          var dep := deps[k].jobId;
          if dep in graph {
            graph := graph[dep := graph[dep].(dependents := Without(graph[dep].dependents, id))];
          }
        }
        assert deps[..|deps|] == deps;
        graph := graph - {id};
      }
    }

    method ValidateNoCycles(ids: seq<JobId>) returns (v: GraphSearch.Verdict)
      ensures v.Circular? <==> CycleReachable(graph, ids)
      ensures v.Circular? ==> GraphSearch.CycleReport(graph, ids, v.cycle)
    {
      v := GraphSearch.ValidateNoCycles(graph, ids);
    }

    method TopologicalSort(ids: seq<JobId>) returns (sorted: seq<JobId>)
      ensures NoDuplicates(sorted)
      ensures forall x :: x in sorted <==> ReachableFrom(graph, ids, x)
      ensures DependenciesFirst(graph, sorted) <==> !CycleReachable(graph, ids)
    {
      sorted := GraphSearch.TopologicalSort(graph, ids);
    }
  }
}

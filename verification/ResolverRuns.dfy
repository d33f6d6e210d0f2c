/** What holds of the dependency graph over whole runs of the resolver. */
module ResolverRuns {
  import opened Domain
  import opened Walks
  import opened DependencyResolution

  datatype Op =
    | Register(id: JobId, deps: seq<Dependency>)
    | Change(id: JobId, status: JobStatus)
    | Deregister(id: JobId)

  function Apply(g: Graph, op: Op): (Graph, seq<JobId>) {
    match op
    case Register(id, deps) => (Registered(g, id, deps), [])
    case Change(id, status) => StateChanged(g, id, status)
    case Deregister(id) => (Deregistered(g, id), [])
  }

  /** The graph after a run that starts from the empty graph. */
  function After(ops: seq<Op>): Graph {
    if ops == [] then map[] else Apply(After(ops[..|ops| - 1]), ops[|ops| - 1]).0
  }

  /** All returned unblocked lists of a run, concatenated. */
  function UnblockedBy(ops: seq<Op>): seq<JobId> {
    if ops == [] then []
    else UnblockedBy(ops[..|ops| - 1]) + Apply(After(ops[..|ops| - 1]), ops[|ops| - 1]).1
  }

  lemma AfterOneMore(ops: seq<Op>, op: Op)
    ensures After(ops + [op]) == Apply(After(ops), op).0
  {}

  // ---- one operation --------------------------------------------------------------------------

  /** What `register` may do to a graph: dependencies and flags stay, new nodes are placeholders. */
  ghost predicate WireEffect(g: Graph, h: Graph, id: JobId, deps: seq<Dependency>) {
    && (forall x :: x in h <==> x in g || Names(deps, x))
    && (forall x :: x in g ==>
          && h[x].dependencies == g[x].dependencies
          && h[x].isResolved == g[x].isResolved
          && h[x].dependents ==
             if Names(deps, x) && id !in g[x].dependents then g[x].dependents + [id] else g[x].dependents)
    && (forall x :: x in h && x !in g ==> h[x] == PLACEHOLDER.(dependents := [id]))
  }

  lemma {:induction false} WireHasEffect(g: Graph, id: JobId, deps: seq<Dependency>)
    ensures WireEffect(g, Wire(g, id, deps), id, deps)
  {
    if deps != [] {
      var init, dep := deps[..|deps| - 1], deps[|deps| - 1].jobId;
      WireHasEffect(g, id, init);
      assert forall x :: Names(deps, x) <==> Names(init, x) || x == dep by {
        assert forall k :: 0 <= k < |init| ==> init[k] == deps[k];
        assert deps[|deps| - 1].jobId == dep;
      }
    }
  }

  /** What an event may do to a graph: only flags change, from unresolved to resolved, for the unblocked. */
  ghost predicate SweepEffect(g: Graph, h: Graph, unblocked: seq<JobId>) {
    && h.Keys == g.Keys
    && (forall x :: x in g ==> h[x] == g[x].(isResolved := g[x].isResolved || x in unblocked))
    && (forall x :: x in unblocked ==> x in g && !g[x].isResolved)
    && NoDuplicates(unblocked)
  }

  ghost predicate ResolvedClosed(g: Graph) {
    forall x :: x in g && g[x].isResolved ==> AllMet(g, g[x].dependencies)
  }

  lemma {:induction false} SweepHasEffect(g: Graph, id: JobId, status: JobStatus, list: seq<JobId>)
    ensures var (h, unblocked) := Sweep(g, id, status, list);
            && SweepEffect(g, h, unblocked)
            && (ResolvedClosed(g) ==> ResolvedClosed(h))
            && (forall x :: x in unblocked ==> x in list)
  {
    if list != [] {
      var init, x := list[..|list| - 1], list[|list| - 1];
      SweepHasEffect(g, id, status, init);
      var (h, unblocked) := Sweep(g, id, status, init);
      if Unblocks(h, id, status, x) && ResolvedClosed(g) {
        ResolveKeepsClosed(h, x);
      }
    }
  }

  lemma ResolveKeepsClosed(g: Graph, x: JobId)
    requires ResolvedClosed(g) && x in g && AllMet(g, g[x].dependencies)
    ensures ResolvedClosed(Resolve(g, x))
  {}

  /** An unblocked job had a requirement on the reporting job that the reported status meets. */
  lemma {:induction false} UnblockedRequired(g: Graph, id: JobId, status: JobStatus, list: seq<JobId>, x: JobId)
    requires x in Sweep(g, id, status, list).1
    ensures x in g
    ensures var d := FirstOn(g[x].dependencies, id); d.Some? && status in d.value.requireStatus
  {
    var init, y := list[..|list| - 1], list[|list| - 1];
    SweepHasEffect(g, id, status, init);
    if x in Sweep(g, id, status, init).1 {
      UnblockedRequired(g, id, status, init, x);
    }
  }

  /** A dependent that is ready when the event arrives is unblocked by it, wherever it stands in the list. */
  lemma {:induction false} ReadyIsUnblocked(g: Graph, id: JobId, status: JobStatus, list: seq<JobId>, x: JobId)
    requires x in list && Unblocks(g, id, status, x)
    ensures x in Sweep(g, id, status, list).1
  {
    var init, y := list[..|list| - 1], list[|list| - 1];
    assert list == init + [y];
    SweepHasEffect(g, id, status, init);
    if x in init {
      ReadyIsUnblocked(g, id, status, init, x);
    } else if x !in Sweep(g, id, status, init).1 {
      var h := Sweep(g, id, status, init).0;
      assert AllMet(h, h[x].dependencies);
    }
  }

  // ---- the resolution invariant ---------------------------------------------------------------

  ghost predicate EdgesWired(g: Graph) {
    forall a, b :: Edge(g, a, b) ==> b in g && a in g[b].dependents
  }

  ghost predicate DependentsDistinct(g: Graph) {
    forall x :: x in g ==> NoDuplicates(g[x].dependents)
  }

  ghost predicate Sound(g: Graph) {
    ResolvedClosed(g) && EdgesWired(g) && DependentsDistinct(g)
  }

  ghost predicate OnlyGrows(ops: seq<Op>) {
    forall i :: 0 <= i < |ops| ==> !ops[i].Deregister?
  }

  lemma RegisterKeepsSound(g: Graph, id: JobId, deps: seq<Dependency>)
    requires Sound(g)
    ensures Sound(Registered(g, id, deps))
    ensures forall x :: x in g ==>
              x in Registered(g, id, deps) && Registered(g, id, deps)[x].isResolved == g[x].isResolved
  {
    var e := Enter(g, id, deps);
    var h := Registered(g, id, deps);
    WireHasEffect(e, id, deps);
    forall x | x in h && h[x].isResolved ensures AllMet(h, h[x].dependencies) {
      if x in g { assert AllMet(g, g[x].dependencies); }
    }
    forall a, b | Edge(h, a, b) ensures b in h && a in h[b].dependents {
      assert Edge(e, a, b);
      if a in g { assert Edge(g, a, b); }
    }
  }

  lemma ChangeKeepsSound(g: Graph, id: JobId, status: JobStatus)
    requires Sound(g)
    ensures Sound(StateChanged(g, id, status).0)
  {
    if id in g {
      SweepHasEffect(g, id, status, g[id].dependents);
      var h := StateChanged(g, id, status).0;
      forall a, b | Edge(h, a, b) ensures b in h && a in h[b].dependents {
        assert Edge(g, a, b);
      }
    }
  }

  /** Every register/state-change run keeps the resolved set closed, all edges wired both ways, and no duplicates. */
  lemma {:induction false} RunsStaySound(ops: seq<Op>)
    requires OnlyGrows(ops)
    ensures Sound(After(ops))
  {
    if ops != [] {
      var init, op := ops[..|ops| - 1], ops[|ops| - 1];
      RunsStaySound(init);
      match op
      case Register(id, deps) => RegisterKeepsSound(After(init), id, deps);
      case Change(id, status) => ChangeKeepsSound(After(init), id, status);
    }
  }

  /** A job never leaves the graph and a resolved flag never goes back. */
  lemma {:induction false} FlagsNeverGoBack(ops: seq<Op>, n: nat, x: JobId)
    requires OnlyGrows(ops) && n <= |ops|
    requires x in After(ops[..n])
    ensures x in After(ops)
    ensures After(ops[..n])[x].isResolved ==> After(ops)[x].isResolved
    ensures After(ops)[x].dependencies == After(ops[..n])[x].dependencies
  {
    if n == |ops| {
      assert ops[..n] == ops;
    } else {
      var init, op := ops[..|ops| - 1], ops[|ops| - 1];
      assert init[..n] == ops[..n];
      FlagsNeverGoBack(init, n, x);
      StepKeepsNodes(After(init), op, x);
    }
  }

  lemma StepKeepsNodes(g: Graph, op: Op, x: JobId)
    requires !op.Deregister? && x in g
    ensures var h := Apply(g, op).0;
            && x in h && h[x].dependencies == g[x].dependencies
            && (g[x].isResolved ==> h[x].isResolved)
            && (op.Register? ==> h[x].isResolved == g[x].isResolved)
  {
    match op
    case Register(id, deps) => WireHasEffect(Enter(g, id, deps), id, deps);
    case Change(id, status) =>
      if id in g { SweepHasEffect(g, id, status, g[id].dependents); }
  }

  lemma ConcatDistinct(a: seq<JobId>, b: seq<JobId>)
    requires NoDuplicates(a) && NoDuplicates(b)
    requires forall x :: x in a ==> x !in b
    ensures NoDuplicates(a + b)
  {
    forall i, j | 0 <= i < j < |a + b| ensures (a + b)[i] != (a + b)[j] {
      if i < |a| && |a| <= j { assert a[i] in a && b[j - |a|] in b; }
    }
  }

  /**
   * All unblocked lists of a run taken together name no job twice, and they name exactly the jobs
   * that had dependencies and are now resolved.
   */
  lemma {:induction false} UnblockedExactlyOnce(ops: seq<Op>)
    requires OnlyGrows(ops)
    ensures NoDuplicates(UnblockedBy(ops))
    ensures forall x :: x in UnblockedBy(ops)
                        <==> x in After(ops) && After(ops)[x].isResolved && After(ops)[x].dependencies != []
  {
    if ops != [] {
      var init, op := ops[..|ops| - 1], ops[|ops| - 1];
      var g, before, now := After(init), UnblockedBy(init), Apply(After(init), op).1;
      UnblockedExactlyOnce(init);
      match op
      case Register(id, deps) =>
        WireHasEffect(Enter(g, id, deps), id, deps);
      case Change(id, status) =>
        if id in g {
          SweepHasEffect(g, id, status, g[id].dependents);
          forall x | x in now ensures g[x].dependencies != [] {
            UnblockedRequired(g, id, status, g[id].dependents, x);
          }
          ConcatDistinct(before, now);
        }
    }
  }
}

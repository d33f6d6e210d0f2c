/** When a job becomes resolved: the exact answer for chains, and why it is weaker for several dependencies. */
module ChainSafety {
  import opened Domain
  import opened Walks
  import opened DependencyResolution
  import opened ResolverRuns

  predicate RegisteredIn(ops: seq<Op>, x: JobId) {
    exists i :: 0 <= i < |ops| && ops[i].Register? && ops[i].id == x
  }

  /** Each job has at most one dependency and is registered before any job that names it. */
  ghost predicate ChainRun(ops: seq<Op>) {
    && OnlyGrows(ops)
    && (forall i :: 0 <= i < |ops| && ops[i].Register? ==>
          && |ops[i].deps| <= 1
          && (ops[i].deps != [] ==> RegisteredIn(ops[..i], ops[i].deps[0].jobId)))
  }

  /** Where `x` was first registered. */
  function FirstRegistration(ops: seq<Op>, x: JobId): (r: nat)
    requires RegisteredIn(ops, x)
    ensures r < |ops| && ops[r].Register? && ops[r].id == x
    ensures !RegisteredIn(ops[..r], x)
  {
    var init := ops[..|ops| - 1];
    if RegisteredIn(init, x) then
      var r := FirstRegistration(init, x);
      assert init[..r] == ops[..r];
      r
    else |ops| - 1
  }

  lemma FirstRegistrationIsUnique(ops: seq<Op>, x: JobId, r: nat)
    requires r < |ops| && ops[r].Register? && ops[r].id == x && !RegisteredIn(ops[..r], x)
    ensures RegisteredIn(ops, x) && FirstRegistration(ops, x) == r
  {}

  /** The event reports a status that dependency `d` accepts. */
  predicate Satisfies(op: Op, d: Dependency) {
    op.Change? && op.id == d.jobId && op.status in d.requireStatus
  }

  /** An accepted event for `d` came after position `r`, when the named job was itself cleared. */
  ghost predicate ClearedBy(ops: seq<Op>, d: Dependency, r: nat)
    decreases |ops|, 0
  {
    exists i :: r < i < |ops| && Satisfies(ops[i], d) && Cleared(ops[..i], d.jobId)
  }

  /**
   * The reference definition, over the run alone: `x` is registered, and if it names a job, an accepted event
   * of that job came after the registration of `x`, when that job was itself cleared.
   */
  ghost predicate Cleared(ops: seq<Op>, x: JobId)
    decreases |ops|, 1
  {
    RegisteredIn(ops, x) &&
    var r := FirstRegistration(ops, x);
    ops[r].deps == [] || ClearedBy(ops, ops[r].deps[0], r)
  }

  // ---- the reference, one operation later -----------------------------------------------------

  lemma ClearedOneMore(ops: seq<Op>, op: Op, x: JobId)
    requires RegisteredIn(ops, x)
    ensures RegisteredIn(ops + [op], x) && FirstRegistration(ops + [op], x) == FirstRegistration(ops, x)
    ensures var deps := ops[FirstRegistration(ops, x)].deps;
            Cleared(ops + [op], x)
            <==> Cleared(ops, x) || (deps != [] && Satisfies(op, deps[0]) && Cleared(ops, deps[0].jobId))
  {
    var all, r := ops + [op], FirstRegistration(ops, x);
    assert all[..r] == ops[..r];
    FirstRegistrationIsUnique(all, x, r);
    if ops[r].deps != [] {
      var d := ops[r].deps[0];
      assert all[..|ops|] == ops;
      if ClearedBy(all, d, r) {
        var i :| r < i < |all| && Satisfies(all[i], d) && Cleared(all[..i], d.jobId);
        if i < |ops| { assert all[..i] == ops[..i]; }
      }
      if ClearedBy(ops, d, r) {
        var i :| r < i < |ops| && Satisfies(ops[i], d) && Cleared(ops[..i], d.jobId);
        assert all[..i] == ops[..i] && all[i] == ops[i];
      }
      if Satisfies(op, d) && Cleared(ops, d.jobId) {
        assert all[|ops|] == op;
      }
    }
  }

  // ---- the resolver, one operation later ------------------------------------------------------

  /** An event never resolves the job that reported it. */
  lemma {:induction false} ReporterNotResolved(g: Graph, id: JobId, status: JobStatus, list: seq<JobId>)
    ensures id !in Sweep(g, id, status, list).1
  {
    if list != [] {
      var init, x := list[..|list| - 1], list[|list| - 1];
      ReporterNotResolved(g, id, status, init);
      var h := Sweep(g, id, status, init).0;
      assert x == id ==> !Unblocks(h, id, status, x);
    }
  }

  /** A dependent with one dependency is unblocked exactly by an accepted event of a resolved job. */
  lemma {:induction false} SingleUnblocked(g: Graph, id: JobId, status: JobStatus, list: seq<JobId>, x: JobId)
    requires id in g && x in g && |g[x].dependencies| == 1
    ensures var d := g[x].dependencies[0];
            x in Sweep(g, id, status, list).1 <==>
            x in list && !g[x].isResolved && d.jobId == id && status in d.requireStatus && g[id].isResolved
  {
    if list != [] {
      var init, y := list[..|list| - 1], list[|list| - 1];
      assert list == init + [y];
      SingleUnblocked(g, id, status, init, x);
      SweepHasEffect(g, id, status, init);
      ReporterNotResolved(g, id, status, init);
      var h := Sweep(g, id, status, init).0;
      assert h[x].dependencies == g[x].dependencies;
      assert AllMet(h, g[x].dependencies)
             <==> g[x].dependencies[0].jobId in h && h[g[x].dependencies[0].jobId].isResolved;
    }
  }

  // ---- chains ---------------------------------------------------------------------------------

  /** In a chain run the graph holds exactly the registered jobs, with the dependencies first given. */
  ghost predicate Mirrors(ops: seq<Op>, g: Graph) {
    && (forall x :: x in g <==> RegisteredIn(ops, x))
    && (forall x :: x in g ==> g[x].dependencies == ops[FirstRegistration(ops, x)].deps)
  }

  lemma RegisteredOneMore(ops: seq<Op>, op: Op, x: JobId)
    ensures RegisteredIn(ops + [op], x) <==> RegisteredIn(ops, x) || (op.Register? && op.id == x)
    ensures RegisteredIn(ops, x) ==> FirstRegistration(ops + [op], x) == FirstRegistration(ops, x)
    ensures !RegisteredIn(ops, x) && op.Register? && op.id == x ==> FirstRegistration(ops + [op], x) == |ops|
  {
    var all := ops + [op];
    assert all[|ops|] == op && all[..|ops|] == ops;
    if RegisteredIn(ops, x) {
      ClearedOneMore(ops, op, x);
    } else if op.Register? && op.id == x {
      FirstRegistrationIsUnique(all, x, |ops|);
    }
  }

  lemma RegisterMirrors(ops: seq<Op>, op: Op)
    requires op.Register? && Mirrors(ops, After(ops))
    requires forall x :: Names(op.deps, x) ==> RegisteredIn(ops, x)
    ensures Mirrors(ops + [op], After(ops + [op]))
  {
    var all, g := ops + [op], After(ops);
    AfterOneMore(ops, op);
    var h := Registered(g, op.id, op.deps);
    assert After(all) == h;
    WireHasEffect(Enter(g, op.id, op.deps), op.id, op.deps);
    forall x ensures x in h <==> RegisteredIn(all, x) {
      RegisteredOneMore(ops, op, x);
    }
    forall x | x in h ensures h[x].dependencies == all[FirstRegistration(all, x)].deps {
      RegisteredOneMore(ops, op, x);
    }
  }

  lemma ChainNamesRegistered(ops: seq<Op>, op: Op)
    requires ChainRun(ops + [op]) && op.Register?
    ensures |op.deps| <= 1
    ensures forall x :: Names(op.deps, x) ==> RegisteredIn(ops, x)
  {
    var all := ops + [op];
    assert all[|ops|] == op && all[..|ops|] == ops;
  }

  lemma ChangeMirrors(ops: seq<Op>, op: Op)
    requires op.Change? && Mirrors(ops, After(ops))
    ensures Mirrors(ops + [op], After(ops + [op]))
  {
    var all, g := ops + [op], After(ops);
    AfterOneMore(ops, op);
    if op.id in g { SweepHasEffect(g, op.id, op.status, g[op.id].dependents); }
    var h := After(all);
    forall x ensures x in h <==> RegisteredIn(all, x) {
      RegisteredOneMore(ops, op, x);
    }
    forall x | x in h ensures h[x].dependencies == all[FirstRegistration(all, x)].deps {
      RegisteredOneMore(ops, op, x);
    }
  }

  ghost predicate FlagsAreExact(ops: seq<Op>, g: Graph) {
    forall x :: x in g ==> (g[x].isResolved <==> Cleared(ops, x))
  }

  lemma RegisterKeepsExact(ops: seq<Op>, op: Op)
    requires op.Register? && Mirrors(ops, After(ops)) && FlagsAreExact(ops, After(ops))
    requires forall x :: Names(op.deps, x) ==> RegisteredIn(ops, x)
    ensures FlagsAreExact(ops + [op], After(ops + [op]))
  {
    var all, g := ops + [op], After(ops);
    AfterOneMore(ops, op);
    var h := Registered(g, op.id, op.deps);
    assert After(all) == h;
    WireHasEffect(Enter(g, op.id, op.deps), op.id, op.deps);
    forall x | x in h ensures h[x].isResolved <==> Cleared(all, x) {
      RegisteredOneMore(ops, op, x);
      if x in g {
        ClearedOneMore(ops, op, x);
      } else {
        assert all[FirstRegistration(all, x)] == op;
      }
    }
  }

  lemma ChangeKeepsExact(ops: seq<Op>, op: Op)
    requires ChainRun(ops) && op.Change? && Mirrors(ops, After(ops)) && FlagsAreExact(ops, After(ops))
    ensures FlagsAreExact(ops + [op], After(ops + [op]))
  {
    var all, g := ops + [op], After(ops);
    AfterOneMore(ops, op);
    RunsStaySound(ops);
    var h, list := After(all), if op.id in g then g[op.id].dependents else [];
    var unblocked := Sweep(g, op.id, op.status, list).1;
    SweepHasEffect(g, op.id, op.status, list);
    forall x | x in unblocked ensures g[x].dependencies != [] {
      UnblockedRequired(g, op.id, op.status, list, x);
    }
    forall x | x in g ensures h[x].isResolved <==> Cleared(all, x) {
      ClearedOneMore(ops, op, x);
      var deps := g[x].dependencies;
      if deps != [] {
        assert Names(deps, deps[0].jobId);
        assert Edge(g, x, deps[0].jobId);
        if op.id in g {
          SingleUnblocked(g, op.id, op.status, list, x);
        }
      }
    }
  }

  lemma ChainPrefix(ops: seq<Op>)
    requires ChainRun(ops) && ops != []
    ensures ChainRun(ops[..|ops| - 1])
  {
    var init := ops[..|ops| - 1];
    forall i | 0 <= i < |init| ensures init[i] == ops[i] && init[..i] == ops[..i] {}
  }

  /**
   * In every chain run the resolved flag is exactly the reference: a job with a dependency is resolved if and
   * only if an accepted event of the named job, itself cleared by then, came after the registration.
   */
  lemma {:induction false} ChainExact(ops: seq<Op>)
    requires ChainRun(ops)
    ensures Mirrors(ops, After(ops)) && FlagsAreExact(ops, After(ops))
  {
    if ops != [] {
      var init, op := ops[..|ops| - 1], ops[|ops| - 1];
      assert ops == init + [op];
      ChainPrefix(ops);
      ChainExact(init);
      match op
      case Register(_, _) =>
        ChainNamesRegistered(init, op);
        RegisterMirrors(init, op);
        RegisterKeepsExact(init, op);
      case Change(_, _) =>
        ChangeMirrors(init, op);
        ChangeKeepsExact(init, op);
    }
  }

  /** The dependency that `x` was first registered with, in a run where it has one. */
  ghost predicate DependsOn(ops: seq<Op>, x: JobId, d: Dependency) {
    RegisteredIn(ops, x) && ops[FirstRegistration(ops, x)].deps == [d]
  }

  lemma SameInPrefix(ops: seq<Op>, i: nat, x: JobId)
    requires i <= |ops| && RegisteredIn(ops[..i], x)
    ensures RegisteredIn(ops, x) && FirstRegistration(ops, x) == FirstRegistration(ops[..i], x)
  {}

  lemma ChainPrefixAt(ops: seq<Op>, i: nat)
    requires ChainRun(ops) && i <= |ops|
    ensures ChainRun(ops[..i])
  {
    forall k | 0 <= k < i ensures ops[..i][k] == ops[k] && ops[..i][..k] == ops[..k] {}
  }

  /** The named job of a registered job is registered as well, in any prefix. */
  lemma NamedIsRegistered(ops: seq<Op>, x: JobId, d: Dependency)
    requires ChainRun(ops) && DependsOn(ops, x, d)
    ensures RegisteredIn(ops, d.jobId)
  {}

  /** w[0], w[1], ... is a line of dependencies: ds[k] is what w[k] was registered with, and it names w[k + 1]. */
  ghost predicate Line(ops: seq<Op>, w: seq<JobId>, ds: seq<Dependency>) {
    && |w| == |ds| + 1
    && (forall k :: 0 <= k < |ds| ==> DependsOn(ops, w[k], ds[k]))
    && (forall k :: 0 <= k < |ds| ==> ds[k].jobId == w[k + 1])
  }

  lemma LineTail(ops: seq<Op>, w: seq<JobId>, ds: seq<Dependency>)
    requires Line(ops, w, ds) && ds != []
    ensures Line(ops, w[1..], ds[1..]) && DependsOn(ops, w[0], ds[0]) && ds[0].jobId == w[1]
  {}

  lemma LineCons(ops: seq<Op>, w: seq<JobId>, ds: seq<Dependency>)
    requires |w| == |ds| + 1 && ds != [] && Line(ops, w[1..], ds[1..])
    requires DependsOn(ops, w[0], ds[0]) && ds[0].jobId == w[1]
    ensures Line(ops, w, ds)
  {}

  lemma {:induction false} LineInPrefix(ops: seq<Op>, i: nat, w: seq<JobId>, ds: seq<Dependency>)
    requires ChainRun(ops) && i <= |ops| && Line(ops, w, ds) && RegisteredIn(ops[..i], w[0])
    ensures Line(ops[..i], w, ds)
  {
    if ds != [] {
      LineTail(ops, w, ds);
      SameInPrefix(ops, i, w[0]);
      ChainPrefixAt(ops, i);
      NamedIsRegistered(ops[..i], w[0], ds[0]);
      LineInPrefix(ops, i, w[1..], ds[1..]);
      LineCons(ops[..i], w, ds);
    }
  }

  /** Accepted events for the whole line, deeper ones strictly earlier. */
  ghost predicate InOrder(ops: seq<Op>, ds: seq<Dependency>, e: seq<nat>) {
    && |e| == |ds|
    && (forall k :: 0 <= k < |e| ==> e[k] < |ops| && Satisfies(ops[e[k]], ds[k]))
    && (forall j, k :: 0 <= j < k < |e| ==> e[k] < e[j])
  }

  lemma InOrderCons(ops: seq<Op>, i: nat, ds: seq<Dependency>, e: seq<nat>)
    requires i < |ops| && ds != [] && Satisfies(ops[i], ds[0]) && InOrder(ops[..i], ds[1..], e)
    ensures InOrder(ops, ds, [i] + e)
  {}

  lemma {:induction false} ClearedInOrder(ops: seq<Op>, w: seq<JobId>, ds: seq<Dependency>) returns (e: seq<nat>)
    requires ChainRun(ops) && Line(ops, w, ds) && Cleared(ops, w[0])
    ensures InOrder(ops, ds, e)
    decreases |ds|
  {
    e := [];
    if ds != [] {
      LineTail(ops, w, ds);
      var i :| FirstRegistration(ops, w[0]) < i < |ops| && Satisfies(ops[i], ds[0]) && Cleared(ops[..i], w[1]);
      ChainPrefixAt(ops, i);
      LineInPrefix(ops, i, w[1..], ds[1..]);
      e := ClearedInOrder(ops[..i], w[1..], ds[1..]);
      InOrderCons(ops, i, ds, e);
      e := [i] + e;
    }
  }

  /**
   * Down the whole line of transitive dependencies of a resolved job, accepted events occurred in dependency order:
   * each event is accepted by the dependent one step up the line, and deeper events are strictly earlier.
   */
  lemma EventsInDependencyOrder(ops: seq<Op>, w: seq<JobId>, ds: seq<Dependency>) returns (e: seq<nat>)
    requires ChainRun(ops) && Line(ops, w, ds)
    requires w[0] in After(ops) && After(ops)[w[0]].isResolved
    ensures InOrder(ops, ds, e)
  {
    ChainExact(ops);
    e := ClearedInOrder(ops, w, ds);
  }

  // ---- several dependencies -------------------------------------------------------------------

  /**
   * With several dependencies the guarantee is lost for every list: one accepted event on any one of them
   * unblocks the job although no other named job has reported anything.
   */
  lemma OneEventUnblocks(x: JobId, deps: seq<Dependency>, id: JobId, status: JobStatus)
    requires !Names(deps, x) && Names(deps, id) && status in FirstOn(deps, id).value.requireStatus
    ensures StateChanged(Registered(map[], x, deps), id, status).1 == [x]
  {
    var e := Enter(map[], x, deps);
    WireHasEffect(e, x, deps);
    var g := Registered(map[], x, deps);
    assert g[id].dependents == [x];
    assert g[x].dependencies == deps && !g[x].isResolved;
    forall k | 0 <= k < |deps| ensures deps[k].jobId in g && g[deps[k].jobId].isResolved {
      assert Names(deps, deps[k].jobId);
    }
    assert AllMet(g, deps);
    assert Unblocks(g, id, status, x);
    assert [x][..0] == [];
    assert Sweep(g, id, status, [x][..0]) == (g, []);
  }

  // ---- which jobs wait for all their dependencies ---------------------------------------------

  /** After the run, `x` is resolved and has these dependencies. */
  ghost predicate ResolvedWith(ops: seq<Op>, x: JobId, deps: seq<Dependency>) {
    x in After(ops) && After(ops)[x].isResolved && After(ops)[x].dependencies == deps
  }

  /** While `x` was known, the job that `d` names reported a status that `d` accepts. */
  ghost predicate ReportedTo(ops: seq<Op>, x: JobId, d: Dependency) {
    exists i :: 0 <= i < |ops| && Satisfies(ops[i], d) && x in After(ops[..i])
  }

  /** The documented guarantee: in every run, `x` is resolved only once all the jobs it names have reported. */
  ghost predicate WaitsForAll(x: JobId, deps: seq<Dependency>) {
    forall ops, y :: OnlyGrows(ops) && ResolvedWith(ops, x, deps) && Names(deps, y) ==>
      ReportedTo(ops, x, FirstOn(deps, y).value)
  }

  /** If any named job has a status that can be accepted, no other job is named. */
  ghost predicate SingleSource(deps: seq<Dependency>) {
    forall a, b :: Names(deps, a) && Names(deps, b) && FirstOn(deps, a).value.requireStatus != [] ==> a == b
  }

  /** An event never unblocks a job that names itself. */
  lemma {:induction false} SelfNamedStays(g: Graph, id: JobId, status: JobStatus, list: seq<JobId>, x: JobId)
    requires x in Sweep(g, id, status, list).1
    ensures x in g && !Names(g[x].dependencies, x)
  {
    var init, y := list[..|list| - 1], list[|list| - 1];
    SweepHasEffect(g, id, status, init);
    if x in Sweep(g, id, status, init).1 {
      SelfNamedStays(g, id, status, init, x);
    } else {
      var h := Sweep(g, id, status, init).0;
      assert Unblocks(h, id, status, x) && h[x].dependencies == g[x].dependencies;
    }
  }

  /** Whatever the graph, a resolved job with dependencies does not name itself and had one accepted report. */
  lemma {:induction false} ResolvedHadReport(ops: seq<Op>, x: JobId, deps: seq<Dependency>) returns (y: JobId)
    requires OnlyGrows(ops) && ResolvedWith(ops, x, deps) && deps != []
    ensures !Names(deps, x) && Names(deps, y) && ReportedTo(ops, x, FirstOn(deps, y).value)
  {
    var init, op := ops[..|ops| - 1], ops[|ops| - 1];
    var g := After(init);
    assert ops == init + [op];
    AfterOneMore(init, op);
    if ResolvedWith(init, x, deps) {
      y := ResolvedHadReport(init, x, deps);
      var d := FirstOn(deps, y).value;
      var i :| 0 <= i < |init| && Satisfies(init[i], d) && x in After(init[..i]);
      assert ops[i] == init[i] && ops[..i] == init[..i];
    } else if op.Change? {
      y := op.id;
      var list := g[y].dependents;
      SweepHasEffect(g, y, op.status, list);
      UnblockedRequired(g, y, op.status, list, x);
      SelfNamedStays(g, y, op.status, list, x);
      assert ops[|init|] == op && ops[..|init|] == init;
    } else {
      WireHasEffect(Enter(g, op.id, op.deps), op.id, op.deps);
      assert false;
    }
  }

  /** One accepted report on a freshly registered job resolves it. */
  lemma OneReportResolves(x: JobId, deps: seq<Dependency>, a: JobId, status: JobStatus)
    requires !Names(deps, x) && Names(deps, a) && status in FirstOn(deps, a).value.requireStatus
    ensures ResolvedWith([Register(x, deps), Change(a, status)], x, deps)
  {
    var first, second := Register(x, deps), Change(a, status);
    AfterOneMore([], first);
    AfterOneMore([first], second);
    assert [] + [first] == [first] && [first] + [second] == [first, second];
    OneEventUnblocks(x, deps, a, status);
    var g := Registered(map[], x, deps);
    WireHasEffect(Enter(map[], x, deps), x, deps);
    SweepHasEffect(g, a, status, g[a].dependents);
    assert x in [x];
  }

  /** Two named jobs, one of which can be accepted: its report alone resolves the job. */
  lemma SecondSourceIgnored(x: JobId, deps: seq<Dependency>, a: JobId, b: JobId)
    requires !Names(deps, x) && Names(deps, a) && Names(deps, b) && a != b
    requires FirstOn(deps, a).value.requireStatus != []
    ensures !WaitsForAll(x, deps)
  {
    var status := FirstOn(deps, a).value.requireStatus[0];
    var ops := [Register(x, deps), Change(a, status)];
    OneReportResolves(x, deps, a, status);
    assert OnlyGrows(ops);
    assert !ReportedTo(ops, x, FirstOn(deps, b).value);
  }

  /**
   * Exactly which jobs have the documented guarantee, told from the list they are registered with: those that name
   * themselves, and so are never resolved, and those that name one job only or accept no status at all.
   */
  lemma WaitsForAllExactly(x: JobId, deps: seq<Dependency>)
    ensures WaitsForAll(x, deps) <==> Names(deps, x) || SingleSource(deps)
  {
    if Names(deps, x) || SingleSource(deps) {
      forall ops, y | OnlyGrows(ops) && ResolvedWith(ops, x, deps) && Names(deps, y)
        ensures ReportedTo(ops, x, FirstOn(deps, y).value)
      {
        var z := ResolvedHadReport(ops, x, deps);
        assert FirstOn(deps, z).value.requireStatus != [];
      }
    } else {
      var a, b :| Names(deps, a) && Names(deps, b) && FirstOn(deps, a).value.requireStatus != [] && a != b;
      SecondSourceIgnored(x, deps, a, b);
    }
  }
}

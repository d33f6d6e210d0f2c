/** Which cycles a graph built by `register` and `deregister` can have, and what that means for cycle detection. */
module RegisteredGraphs {
  import opened Domain
  import opened Walks
  import opened DependencyResolution
  import opened ResolverRuns

  /** Ids deregistered during a run. */
  function Dropped(ops: seq<Op>): set<JobId> {
    if ops == [] then {}
    else Dropped(ops[..|ops| - 1]) + if ops[|ops| - 1].Deregister? then {ops[|ops| - 1].id} else {}
  }

  /** No id enters the graph by registration after it was deregistered. */
  ghost predicate NoReentry(ops: seq<Op>) {
    forall i :: 0 <= i < |ops| && ops[i].Register? && ops[i].id in Dropped(ops[..i]) ==> ops[i].id in After(ops[..i])
  }

  /** Every dependency of a listed job is the job itself or stands earlier in the list. */
  ghost predicate FirstUpToSelf(g: Graph, order: seq<JobId>) {
    forall k, b :: 0 <= k < |order| && Edge(g, order[k], b) ==> b == order[k] || b in order[..k]
  }

  ghost predicate Ranks(g: Graph, dropped: set<JobId>, order: seq<JobId>) {
    && FirstUpToSelf(g, order)
    && (forall x :: x in g ==> x in order)
    && (forall x :: x in order ==> x in g || x in dropped)
  }

  lemma ExtendOrder(g: Graph, order: seq<JobId>, more: seq<JobId>)
    requires FirstUpToSelf(g, order)
    requires forall x, b :: x in more && Edge(g, x, b) ==> b == x || b in order
    ensures FirstUpToSelf(g, order + more)
  {
    var all := order + more;
    forall k, b | 0 <= k < |all| && Edge(g, all[k], b) ensures b == all[k] || b in all[..k] {
      if k < |order| {
        assert all[..k] == order[..k];
      } else {
        assert order == all[..k][..|order|];
        assert all[k] in more;
      }
    }
  }

  /** Fewer edges keep a ranking. */
  lemma SubgraphKeepsOrder(g: Graph, h: Graph, order: seq<JobId>)
    requires FirstUpToSelf(g, order)
    requires forall a, b :: Edge(h, a, b) ==> Edge(g, a, b)
    ensures FirstUpToSelf(h, order)
  {}

  lemma RegisterRanked(g: Graph, dropped: set<JobId>, order: seq<JobId>, id: JobId, deps: seq<Dependency>)
    returns (order': seq<JobId>)
    requires Ranks(g, dropped, order)
    requires id in dropped ==> id in g
    ensures Ranks(Registered(g, id, deps), dropped, order')
  {
    var h := Registered(g, id, deps);
    WireHasEffect(Enter(g, id, deps), id, deps);
    if id in g {
      forall a, b | Edge(h, a, b) ensures Edge(g, a, b) {
        assert a in g;
      }
      SubgraphKeepsOrder(g, h, order);
      order' := order + Fresh(order, id, deps);
      ExtendOrder(h, order, Fresh(order, id, deps));
    } else {
      var more := Fresh(order, id, deps);
      forall k, b | 0 <= k < |order| && Edge(h, order[k], b) ensures b == order[k] || b in order[..k] {
        assert Edge(g, order[k], b);
      }
      ExtendOrder(h, order, more);
      ExtendOrder(h, order + more, [id]);
      order' := order + more + [id];
    }
  }

  /** The dependency ids that are neither ranked yet nor the job itself. */
  function Fresh(order: seq<JobId>, id: JobId, deps: seq<Dependency>): (s: seq<JobId>)
    ensures forall x :: x in s <==> Names(deps, x) && x !in order && x != id
  {
    if deps == [] then []
    else
      var init, dep := deps[..|deps| - 1], deps[|deps| - 1].jobId;
      assert forall x :: Names(deps, x) <==> Names(init, x) || x == dep by {
        assert forall k :: 0 <= k < |init| ==> init[k] == deps[k];
        assert deps[|deps| - 1].jobId == dep;
      }
      Fresh(order, id, init) + if dep in order || dep == id then [] else [dep]
  }

  /** What `deregister` may do: one node goes, no other node changes its dependencies or its flag. */
  lemma {:induction false} UnwireEffect(g: Graph, id: JobId, deps: seq<Dependency>)
    ensures var h := Unwire(g, id, deps);
            && h.Keys == g.Keys
            && (forall x :: x in g ==>
                  && h[x].dependencies == g[x].dependencies && h[x].isResolved == g[x].isResolved
                  && h[x].dependents == if Names(deps, x) then Without(g[x].dependents, id) else g[x].dependents)
  {
    if deps != [] {
      var init, dep := deps[..|deps| - 1], deps[|deps| - 1].jobId;
      UnwireEffect(g, id, init);
      assert forall x :: Names(deps, x) <==> Names(init, x) || x == dep by {
        assert forall k :: 0 <= k < |init| ==> init[k] == deps[k];
        assert deps[|deps| - 1].jobId == dep;
      }
    }
  }

  /** Deregistration in full: the job goes, the jobs it named forget it, and everything else stays. */
  lemma DeregisterIsExact(g: Graph, id: JobId)
    ensures var h := Deregistered(g, id);
            && h.Keys == g.Keys - {id}
            && (forall x :: x in h ==>
                  h[x] == if Edge(g, id, x) then g[x].(dependents := Without(g[x].dependents, id)) else g[x])
  {
    if id in g { UnwireEffect(g, id, g[id].dependencies); }
  }

  lemma {:induction false} RunRanked(ops: seq<Op>) returns (order: seq<JobId>)
    requires NoReentry(ops)
    ensures Ranks(After(ops), Dropped(ops), order)
  {
    order := [];
    if ops != [] {
      var init, op := ops[..|ops| - 1], ops[|ops| - 1];
      var g := After(init);
      assert NoReentry(init) by {
        assert forall i :: 0 <= i < |init| ==> init[i] == ops[i] && init[..i] == ops[..i];
      }
      order := RunRanked(init);
      match op
      case Register(id, deps) =>
        order := RegisterRanked(g, Dropped(init), order, id, deps);
      case Change(id, status) =>
        if id in g { SweepHasEffect(g, id, status, g[id].dependents); }
        SubgraphKeepsOrder(g, After(ops), order);
      case Deregister(id) =>
        if id in g { UnwireEffect(g, id, g[id].dependencies); }
        SubgraphKeepsOrder(g, After(ops), order);
    }
  }

  // ---- when a registration closes a cycle -----------------------------------------------------

  /** The id is new to the graph, and one of the jobs it would depend on already leads back to it. */
  ghost predicate LeadsBack(g: Graph, id: JobId, deps: seq<Dependency>, y: JobId) {
    id !in g && Names(deps, y) && Reaches(g, y, id)
  }

  /** Registration adds edges only to a new id, and only to the jobs it names. */
  lemma RegisteredEdges(g: Graph, id: JobId, deps: seq<Dependency>)
    ensures forall a, b :: Edge(Registered(g, id, deps), a, b) <==>
              Edge(g, a, b) || (id !in g && a == id && Names(deps, b))
  {
    WireHasEffect(Enter(g, id, deps), id, deps);
  }

  /** A walk that avoids the new id, except at its end, was there before. */
  lemma AvoidingIsOld(g: Graph, id: JobId, deps: seq<Dependency>, w: seq<JobId>)
    requires IsWalk(Registered(g, id, deps), w) && id !in w[..|w| - 1]
    ensures IsWalk(g, w)
  {
    RegisteredEdges(g, id, deps);
    forall i, j | 0 <= i && j == i + 1 && j < |w| ensures Edge(g, w[i], w[j]) {
      assert w[i] in w[..|w| - 1];
    }
  }

  /** Going round a closed walk from just after position `i` leads back to that position. */
  lemma Rotated(g: Graph, w: seq<JobId>, i: nat)
    requires IsClosedWalk(g, w) && i < |w| - 1
    ensures WalkBetween(g, w[i + 1..] + w[1..i + 1], w[i + 1], w[i])
  {
    var u, m := w[i + 1..] + w[1..i + 1], |w| - i - 1;
    forall a, b | 0 <= a && b == a + 1 && b < |u| ensures Edge(g, u[a], u[b]) {
      if b < m {
        assert Edge(g, w[i + 1 + a], w[i + 2 + a]);
      } else if a >= m {
        assert Edge(g, w[a - m + 1], w[b - m + 1]);
      } else {
        assert Edge(g, w[0], w[1]);
      }
    }
  }

  /** If a closed walk passes a new id, the job it goes on to led back to the id before. */
  lemma PassingLeadsBack(g: Graph, id: JobId, deps: seq<Dependency>, w: seq<JobId>, i: nat)
    requires id !in g && IsClosedWalk(Registered(g, id, deps), w) && i < |w| - 1 && w[i] == id
    ensures LeadsBack(g, id, deps, w[i + 1])
  {
    var h := Registered(g, id, deps);
    RegisteredEdges(g, id, deps);
    assert Edge(h, w[i], w[i + 1]);
    assert Names(deps, w[i + 1]) by { assert !Edge(g, id, w[i + 1]); }
    Rotated(h, w, i);
    var u := w[i + 1..] + w[1..i + 1];
    assert u[|u| - 1] in u;
    var k := IndexOf(u, id);
    TakeWalk(h, u, k + 1);
    assert u[..k + 1][..k] == u[..k];
    AvoidingIsOld(g, id, deps, u[..k + 1]);
    assert WalkBetween(g, u[..k + 1], w[i + 1], id);
  }

  /** A job that leads back closes a walk through the new id. */
  lemma LeadingBackCloses(g: Graph, id: JobId, deps: seq<Dependency>, y: JobId) returns (w: seq<JobId>)
    requires LeadsBack(g, id, deps, y)
    ensures IsClosedWalk(Registered(g, id, deps), w) && !IsClosedWalk(g, w) && w[0] == id && w[1] == y
  {
    var h := Registered(g, id, deps);
    RegisteredEdges(g, id, deps);
    var v :| WalkBetween(g, v, y, id);
    w := [id] + v;
    forall i, j | 0 <= i && j == i + 1 && j < |w| ensures Edge(h, w[i], w[j]) {
      if i > 0 { assert Edge(g, v[i - 1], v[i]); }
    }
    assert !Edge(g, w[0], w[1]);
  }

  lemma LeadingBackIsReachable(g: Graph, id: JobId, deps: seq<Dependency>, y: JobId)
    requires LeadsBack(g, id, deps, y)
    ensures CycleReachable(Registered(g, id, deps), [y])
  {
    var h := Registered(g, id, deps);
    var w := LeadingBackCloses(g, id, deps, y);
    RegisteredEdges(g, id, deps);
    var v :| WalkBetween(g, v, y, id);
    assert WalkBetween(h, v, y, id);
    assert ReachableFrom(h, [y], w[0]) by { assert y in [y]; }
  }

  /** A registration closes a cycle that was not there if and only if a named job already leads back to a new id. */
  lemma RegisteringClosesCycle(g: Graph, id: JobId, deps: seq<Dependency>)
    ensures (exists w :: IsClosedWalk(Registered(g, id, deps), w) && !IsClosedWalk(g, w))
            <==> exists y :: LeadsBack(g, id, deps, y)
  {
    var h := Registered(g, id, deps);
    RegisteredEdges(g, id, deps);
    if w :| IsClosedWalk(h, w) && !IsClosedWalk(g, w) {
      if id in g || id !in w[..|w| - 1] {
        if id !in g { AvoidingIsOld(g, id, deps, w); }
        assert IsWalk(g, w);
      } else {
        var i :| 0 <= i < |w| - 1 && w[i] == id;
        PassingLeadsBack(g, id, deps, w, i);
      }
    }
    if y :| LeadsBack(g, id, deps, y) {
      var w := LeadingBackCloses(g, id, deps, y);
    }
  }

  // ---- runs whose only cycles are self-dependencies -------------------------------------------

  /** Every closed walk stays on one job, which then names itself. */
  ghost predicate OnlyLoops(g: Graph) {
    forall w :: IsClosedWalk(g, w) ==> forall k :: 0 <= k < |w| ==> w[k] == w[0]
  }

  /** The operation is no registration of a new id that another job it names already leads back to. */
  ghost predicate Harmless(g: Graph, op: Op) {
    op.Register? ==> forall y :: LeadsBack(g, op.id, op.deps, y) ==> y == op.id
  }

  ghost predicate ClosesNothing(ops: seq<Op>) {
    forall i :: 0 <= i < |ops| ==> Harmless(After(ops[..i]), ops[i])
  }

  ghost predicate OnlyLoopsThroughout(ops: seq<Op>) {
    forall i :: 0 <= i <= |ops| ==> OnlyLoops(After(ops[..i]))
  }

  lemma OneMoreHarmless(ops: seq<Op>, op: Op)
    ensures ClosesNothing(ops + [op]) <==> ClosesNothing(ops) && Harmless(After(ops), op)
  {
    var all := ops + [op];
    assert forall i :: 0 <= i <= |ops| ==> all[..i] == ops[..i];
    assert forall i :: 0 <= i < |ops| ==> all[i] == ops[i];
    assert ops[..|ops|] == ops && all[|ops|] == op;
  }

  lemma OneMoreThroughout(ops: seq<Op>, op: Op)
    ensures OnlyLoopsThroughout(ops + [op]) <==> OnlyLoopsThroughout(ops) && OnlyLoops(After(ops + [op]))
    ensures OnlyLoopsThroughout(ops) ==> OnlyLoops(After(ops))
  {
    var all := ops + [op];
    assert forall i :: 0 <= i <= |ops| ==> all[..i] == ops[..i];
    assert ops[..|ops|] == ops && all[..|all|] == all;
  }

  lemma FewerEdgesOnlyLoops(g: Graph, h: Graph)
    requires OnlyLoops(g) && forall a, b :: Edge(h, a, b) ==> Edge(g, a, b)
    ensures OnlyLoops(h)
  {
    forall w | IsClosedWalk(h, w) ensures forall k :: 0 <= k < |w| ==> w[k] == w[0] {
      assert IsClosedWalk(g, w);
    }
  }

  /** If the new id only ever goes on to itself, a closed walk that passes it stays on it. */
  lemma {:induction false} StaysOnNew(g: Graph, id: JobId, deps: seq<Dependency>, w: seq<JobId>, i: nat, k: nat)
    requires id !in g && IsClosedWalk(Registered(g, id, deps), w) && i <= k < |w| && w[i] == id
    requires forall y :: LeadsBack(g, id, deps, y) ==> y == id
    ensures w[k] == id
  {
    if i < k {
      StaysOnNew(g, id, deps, w, i, k - 1);
      PassingLeadsBack(g, id, deps, w, k - 1);
    }
  }

  lemma RegisterOnlyLoops(g: Graph, id: JobId, deps: seq<Dependency>)
    requires OnlyLoops(g) && forall y :: LeadsBack(g, id, deps, y) ==> y == id
    ensures OnlyLoops(Registered(g, id, deps))
  {
    var h := Registered(g, id, deps);
    RegisteredEdges(g, id, deps);
    if id in g {
      FewerEdgesOnlyLoops(g, h);
    } else {
      forall w, k | IsClosedWalk(h, w) && 0 <= k < |w| ensures w[k] == w[0] {
        if i :| 0 <= i < |w| - 1 && w[i] == id {
          StaysOnNew(g, id, deps, w, i, |w| - 1);
          StaysOnNew(g, id, deps, w, 0, k);
        } else {
          AvoidingIsOld(g, id, deps, w);
          assert IsClosedWalk(g, w);
        }
      }
    }
  }

  lemma StepOnlyLoops(g: Graph, op: Op)
    requires OnlyLoops(g)
    ensures OnlyLoops(Apply(g, op).0) <==> Harmless(g, op)
  {
    match op
    case Register(id, deps) =>
      if y :| LeadsBack(g, id, deps, y) && y != id {
        var w := LeadingBackCloses(g, id, deps, y);
        assert w[1] != w[0];
      } else {
        RegisterOnlyLoops(g, id, deps);
      }
    case Change(id, status) =>
      if id in g { SweepHasEffect(g, id, status, g[id].dependents); }
      FewerEdgesOnlyLoops(g, Apply(g, op).0);
    case Deregister(id) =>
      if id in g { UnwireEffect(g, id, g[id].dependencies); }
      FewerEdgesOnlyLoops(g, Apply(g, op).0);
  }

  /**
   * Over every run of registrations, events and deregistrations: all along it the only cycles are self-dependencies
   * if and only if no registration brings in a new id that another named job already leads back to.
   */
  lemma {:induction false} OnlyLoopsExactly(ops: seq<Op>)
    ensures OnlyLoopsThroughout(ops) <==> ClosesNothing(ops)
  {
    if ops == [] {
      EmptyOnlyLoops();
    } else {
      var init, op := ops[..|ops| - 1], ops[|ops| - 1];
      assert ops == init + [op];
      OnlyLoopsExactly(init);
      OneMoreHarmless(init, op);
      OneMoreThroughout(init, op);
      AfterOneMore(init, op);
      if OnlyLoopsThroughout(init) { StepOnlyLoops(After(init), op); }
    }
  }

  lemma EmptyOnlyLoops()
    ensures OnlyLoops(map[])
  {
    forall w ensures !IsClosedWalk(map[], w) {
      assert |w| >= 2 ==> !Edge(map[], w[0], w[1]);
    }
  }

  /** Every closed walk of the graph such a run builds stays on one job that names itself. */
  lemma ClosedWalkStaysPut(ops: seq<Op>, w: seq<JobId>)
    requires ClosesNothing(ops) && IsClosedWalk(After(ops), w)
    ensures forall k :: 0 <= k < |w| ==> w[k] == w[0]
    ensures Edge(After(ops), w[0], w[0])
  {
    OnlyLoopsExactly(ops);
    assert OnlyLoops(After(ops)) by { assert ops[..|ops|] == ops; }
    assert Edge(After(ops), w[0], w[1]);
  }

  ghost predicate SelfDependencyReachable(g: Graph, ids: seq<JobId>) {
    exists x :: ReachableFrom(g, ids, x) && Edge(g, x, x)
  }

  /**
   * So on every graph built by such a run, cycle validation (which reports exactly the reachable cycles) rejects
   * exactly when a self-dependency is reachable.
   */
  lemma OnlySelfCycles(ops: seq<Op>, ids: seq<JobId>)
    requires ClosesNothing(ops)
    ensures CycleReachable(After(ops), ids) <==> SelfDependencyReachable(After(ops), ids)
  {
    var g := After(ops);
    if CycleReachable(g, ids) {
      var w :| IsClosedWalk(g, w) && ReachableFrom(g, ids, w[0]);
      ClosedWalkStaysPut(ops, w);
    }
    if SelfDependencyReachable(g, ids) {
      var x :| ReachableFrom(g, ids, x) && Edge(g, x, x);
      assert IsClosedWalk(g, [x, x]);
      assert [x, x][0] == x;
    }
  }

  // ---- runs without re-entry ------------------------------------------------------------------

  lemma NamedIsRanked(g: Graph, dropped: set<JobId>, order: seq<JobId>, a: JobId, b: JobId)
    requires Ranks(g, dropped, order) && Edge(g, a, b)
    ensures b in g || b in dropped
  {
    var k :| 0 <= k < |order| && order[k] == a;
    assert b in order[..k] || b == a;
  }

  /** A new id that was never deregistered is named by no job, so nothing leads back to it. */
  lemma NewIdsAreUnnamed(ops: seq<Op>, id: JobId, deps: seq<Dependency>, y: JobId)
    requires NoReentry(ops) && id !in Dropped(ops) && LeadsBack(After(ops), id, deps, y)
    ensures y == id
  {
    var g := After(ops);
    var order := RunRanked(ops);
    var v :| WalkBetween(g, v, y, id);
    if |v| >= 2 {
      assert Edge(g, v[|v| - 2], v[|v| - 1]);
      NamedIsRanked(g, Dropped(ops), order, v[|v| - 2], id);
    }
  }

  /** If no id is registered again after it was deregistered, no registration closes a cycle through another job. */
  lemma NoReentryClosesNothing(ops: seq<Op>)
    requires NoReentry(ops)
    ensures ClosesNothing(ops)
  {
    forall i | 0 <= i < |ops| ensures Harmless(After(ops[..i]), ops[i]) {
      assert forall k :: 0 <= k < i ==> ops[..i][k] == ops[k] && ops[..i][..k] == ops[..k];
      assert NoReentry(ops[..i]);
      if ops[i].Register? {
        forall y | LeadsBack(After(ops[..i]), ops[i].id, ops[i].deps, y) ensures y == ops[i].id {
          NewIdsAreUnnamed(ops[..i], ops[i].id, ops[i].deps, y);
        }
      }
    }
  }

  /**
   * Two jobs that name each other, registered one after the other, are accepted: the second one keeps the
   * placeholder's empty dependency list. (The repository's unit test expects an error here.)
   */
  lemma MutualDependencyAccepted(a: JobId, b: JobId, ra: seq<JobStatus>, rb: seq<JobStatus>, ids: seq<JobId>)
    requires a != b
    ensures var ops := [Register(a, [Dependency(b, rb)]), Register(b, [Dependency(a, ra)])];
            !CycleReachable(After(ops), ids)
  {
    var da, db := [Dependency(b, rb)], [Dependency(a, ra)];
    var ops := [Register(a, da), Register(b, db)];
    var g1 := Registered(map[], a, da);
    AfterOneMore([], ops[0]);
    AfterOneMore([ops[0]], ops[1]);
    assert [] + [ops[0]] == [ops[0]] && [ops[0]] + [ops[1]] == ops;
    WireHasEffect(Enter(map[], a, da), a, da);
    WireHasEffect(Enter(g1, b, db), b, db);
    var g := After(ops);
    assert g == Registered(g1, b, db);
    assert Names(da, b) by { assert da[0].jobId == b; }
    assert g[b].dependencies == [] && g[a].dependencies == da;
    assert NoReentry(ops) by {
      forall i | 0 <= i < |ops| ensures Dropped(ops[..i]) == {} {
        if i == 1 { assert Dropped(ops[..1][..0]) == {}; }
      }
    }
    NoReentryClosesNothing(ops);
    OnlySelfCycles(ops, ids);
    forall x ensures !Edge(g, x, x) {
      assert x == a || x == b || x !in g;
    }
  }

  /** With re-entry the ranking argument fails: this run ends with a genuine two-job cycle. */
  lemma ReentryBuildsCycle(a: JobId, b: JobId, ra: seq<JobStatus>, rb: seq<JobStatus>)
    requires a != b
    ensures var ops := [Register(a, [Dependency(b, rb)]), Deregister(b), Register(b, [Dependency(a, ra)])];
            CycleReachable(After(ops), [a]) && !NoReentry(ops) && !ClosesNothing(ops)
  {
    var da, db := [Dependency(b, rb)], [Dependency(a, ra)];
    var ops := [Register(a, da), Deregister(b), Register(b, db)];
    var g1 := Registered(map[], a, da);
    AfterOneMore([], ops[0]);
    AfterOneMore([ops[0]], ops[1]);
    AfterOneMore(ops[..2], ops[2]);
    assert [] + [ops[0]] == [ops[0]] && [ops[0]] + [ops[1]] == ops[..2] && ops[..2] + [ops[2]] == ops;
    WireHasEffect(Enter(map[], a, da), a, da);
    assert Names(da, b) by { assert da[0].jobId == b; }
    var g2 := Deregistered(g1, b);
    assert After(ops[..2]) == g2;
    UnwireEffect(g1, b, g1[b].dependencies);
    assert Edge(g2, a, b);
    assert Names(db, a) by { assert db[0].jobId == a; }
    assert WalkBetween(g2, [a, b], a, b);
    LeadingBackIsReachable(g2, b, db, a);
    assert LeadsBack(g2, b, db, a);
    assert !Harmless(g2, ops[2]) by { assert ops[2].id == b && ops[2].deps == db; }
    assert b in Dropped(ops[..2]);
    assert ops[2].Register? && ops[2].id in Dropped(ops[..2]) && ops[2].id !in After(ops[..2]);
  }

  /** Deregistering undoes registering a new job that nothing names yet, up to the placeholders left behind. */
  lemma DeregisterUndoesRegister(g: Graph, id: JobId, deps: seq<Dependency>)
    requires id !in g && !Names(deps, id)
    requires forall x :: x in g ==> id !in g[x].dependents
    ensures var h := Deregistered(Registered(g, id, deps), id);
            && (forall x :: x in h <==> x in g || Names(deps, x))
            && (forall x :: x in h ==> h[x] == if x in g then g[x] else PLACEHOLDER)
  {
    var e := Enter(g, id, deps);
    WireHasEffect(e, id, deps);
    var m := Registered(g, id, deps);
    UnwireEffect(m, id, deps);
    var h := Deregistered(m, id);
    forall x | x in h ensures h[x] == if x in g then g[x] else PLACEHOLDER {
      if Names(deps, x) {
        var old' := if x in g then g[x].dependents else [];
        assert m[x].dependents == old' + [id];
        assert (old' + [id])[..|old'|] == old';
        assert Without(old' + [id], id) == Without(old', id) == old';
      }
    }
  }
}

/** The dependency counter of the jobs table, driven by completion events through the resolver. */
module DependencyCounter {
  import opened Domain
  import opened Walks
  import opened DependencyResolution
  import opened ResolverRuns

  /** The columns of a job row that dependency handling reads and writes. */
  datatype Row = Row(status: JobStatus, dependencies: seq<Dependency>, dependencyCount: nat, resolvedCount: nat)

  type Table = map<JobId, Row>

  function NewRow(deps: seq<Dependency>): Row {
    Row(PENDING, deps, |deps|, 0)
  }

  predicate Waits(row: Row, id: JobId) {
    row.status.PENDING? && Names(row.dependencies, id)
  }

  /** The claim query's condition on status and counters. */
  predicate Claimable(row: Row) {
    row.status.PENDING? && row.dependencyCount == row.resolvedCount
  }

  /** One `resolveDependency` statement: every PENDING row that lists `id` counts one more. */
  function Bumped(jobs: Table, id: JobId): Table {
    map x | x in jobs :: if Waits(jobs[x], id) then jobs[x].(resolvedCount := jobs[x].resolvedCount + 1) else jobs[x]
  }

  function BumpedTimes(jobs: Table, id: JobId, n: nat): Table {
    if n == 0 then jobs else Bumped(BumpedTimes(jobs, id, n - 1), id)
  }

  /**
   * The scheduler of one process: the jobs table and the in-memory resolver, updated in place. `history` is the run
   * so far; table and graph are always what that run leaves, so whatever holds of runs holds of the object.
   */
  class JobScheduler {
    var jobs: Table
    const resolver: DependencyResolver
    ghost var history: seq<Step>

    ghost predicate Valid()
      reads this, resolver
    {
      Leaves(history, jobs, resolver.graph)
    }

    constructor ()
      ensures Valid() && history == [] && fresh(resolver)
    {
      jobs, history := map[], [];
      resolver := new DependencyResolver();
    }

    /** With a fresh identifier the run stays one of those the theorems below are about. */
    method SubmitJob(id: JobId, deps: seq<Dependency>)
      requires Valid()
      modifies this, resolver
      ensures Valid() && history == old(history) + [Submit(id, deps)]
      ensures ValidRun(old(history)) && id !in old(jobs) ==> ValidRun(history)
    {
      jobs := jobs[id := NewRow(deps)];
      resolver.Register(id, deps);
      history := history + [Submit(id, deps)];
      RunGoesOn(old(history), Submit(id, deps));
    }

    method ResolveDependency(id: JobId)
      modifies this`jobs
      ensures jobs == Bumped(old(jobs), id)
    {
      jobs := map x | x in jobs ::
        if Waits(jobs[x], id) then jobs[x].(resolvedCount := jobs[x].resolvedCount + 1) else jobs[x];
    }

    /** Each event adds, to every PENDING row listing the job, exactly the number of jobs the event unblocked. */
    method OnJobCompleted(id: JobId, status: JobStatus)
      requires Valid()
      modifies this, resolver
      ensures Valid() && history == old(history) + [Completed(id, status)]
      ensures ValidRun(old(history)) ==> ValidRun(history)
      ensures var unblocked := StateChanged(old(resolver.graph), id, status).1;
              && jobs.Keys == old(jobs).Keys
              && (forall x :: x in jobs ==> jobs[x] == old(jobs)[x].(resolvedCount :=
                    old(jobs)[x].resolvedCount + if Waits(old(jobs)[x], id) then |unblocked| else 0))
    {
      var unblocked := resolver.OnJobStateChange(id, status);
      for k := 0 to |unblocked|
        invariant jobs == BumpedTimes(old(jobs), id, k)
        invariant (resolver.graph, unblocked) == StateChanged(old(resolver.graph), id, status)
        invariant history == old(history)
      {
        ResolveDependency(id);
      }
      BumpsAddUp(old(jobs), id, |unblocked|);
      history := history + [Completed(id, status)];
      RunGoesOn(old(history), Completed(id, status));
    }
  }

  /** The run ends with this table and this graph. */
  ghost predicate Leaves(steps: seq<Step>, jobs: Table, graph: Graph) {
    After(steps) == Scheduler(jobs, graph)
  }

  /** Taking one more step from the state a run leaves is a longer run. */
  lemma RunGoesOn(steps: seq<Step>, step: Step)
    ensures After(steps + [step]) == Apply(After(steps), step)
    ensures ValidRun(steps) && Enabled(After(steps), step) ==> ValidRun(steps + [step])
  {
    var all := steps + [step];
    assert all[..|all| - 1] == steps;
    assert forall i :: 0 <= i <= |steps| ==> all[..i] == steps[..i];
    assert steps[..|steps|] == steps;
  }

  lemma {:induction false} BumpsAddUp(jobs: Table, id: JobId, n: nat)
    ensures BumpedTimes(jobs, id, n).Keys == jobs.Keys
    ensures forall x :: x in jobs ==>
              BumpedTimes(jobs, id, n)[x]
              == jobs[x].(resolvedCount := jobs[x].resolvedCount + if Waits(jobs[x], id) then n else 0)
  {
    if n > 0 {
      BumpsAddUp(jobs, id, n - 1);
      assert BumpedTimes(jobs, id, n) == Bumped(BumpedTimes(jobs, id, n - 1), id);
    }
  }

  // ---- runs -----------------------------------------------------------------------------------

  datatype Step =
    | Submit(id: JobId, deps: seq<Dependency>)
    | Completed(id: JobId, status: JobStatus)
    | Claim(batch: set<JobId>)
    | Write(id: JobId, status: JobStatus)     // any other status update of a row

  datatype Scheduler = Scheduler(jobs: Table, graph: Graph)

  function SetStatus(jobs: Table, ids: set<JobId>, status: JobStatus): Table {
    map x | x in jobs :: if x in ids then jobs[x].(status := status) else jobs[x]
  }

  function Apply(s: Scheduler, step: Step): Scheduler {
    match step
    case Submit(id, deps) => Scheduler(s.jobs[id := NewRow(deps)], Registered(s.graph, id, deps))
    case Completed(id, status) =>
      var (g, unblocked) := StateChanged(s.graph, id, status);
      Scheduler(BumpedTimes(s.jobs, id, |unblocked|), g)
    case Claim(batch) => s.(jobs := SetStatus(s.jobs, batch, QUEUED))
    case Write(id, status) => s.(jobs := SetStatus(s.jobs, {id}, status))
  }

  function After(steps: seq<Step>): Scheduler {
    if steps == [] then Scheduler(map[], map[]) else Apply(After(steps[..|steps| - 1]), steps[|steps| - 1])
  }

  predicate Enabled(s: Scheduler, step: Step) {
    match step
    case Submit(id, deps) => id !in s.jobs                                             // fresh identifiers
    case Claim(batch) => forall x :: x in batch ==> x in s.jobs && Claimable(s.jobs[x])
    case _ => true
  }

  ghost predicate ValidRun(steps: seq<Step>) {
    forall i :: 0 <= i < |steps| ==> Enabled(After(steps[..i]), steps[i])
  }

  /** No job is named by two different jobs. */
  ghost predicate SingleDependents(jobs: Table) {
    forall x, y, id :: x in jobs && y in jobs && Names(jobs[x].dependencies, id) && Names(jobs[y].dependencies, id) ==>
      x == y
  }

  /** The first listed dependency on `id` accepts `status`. */
  predicate Accepts(deps: seq<Dependency>, id: JobId, status: JobStatus) {
    FirstOn(deps, id).Some? && status in FirstOn(deps, id).value.requireStatus
  }

  /** Some listed dependency has reported a status it accepts. */
  ghost predicate Reported(steps: seq<Step>, deps: seq<Dependency>) {
    exists i :: 0 <= i < |steps| && steps[i].Completed? && Accepts(deps, steps[i].id, steps[i].status)
  }

  ghost predicate GraphFollows(s: Scheduler) {
    && DependentsDistinct(s.graph)
    && (forall x :: x in s.jobs ==> x in s.graph)
    && (forall x :: x in s.graph && s.graph[x].dependencies != [] ==>
          x in s.jobs && s.graph[x].dependencies == s.jobs[x].dependencies)
    && (forall y, x :: y in s.graph && x in s.graph[y].dependents ==> x in s.jobs && Names(s.jobs[x].dependencies, y))
  }

  /** A row's counter moves off zero only together with its resolved flag, and then a dependency has reported. */
  ghost predicate CountersFollow(steps: seq<Step>, s: Scheduler) {
    forall x :: x in s.jobs ==>
      && s.jobs[x].dependencyCount == |s.jobs[x].dependencies|
      && s.jobs[x].resolvedCount <= 1
      && (s.jobs[x].resolvedCount == 1 ==>
            && x in s.graph && s.graph[x].isResolved && s.graph[x].dependencies != []
            && Reported(steps, s.jobs[x].dependencies))
  }

  lemma ReportedStays(steps: seq<Step>, step: Step, deps: seq<Dependency>)
    requires Reported(steps, deps)
    ensures Reported(steps + [step], deps)
  {
    var i :| 0 <= i < |steps| && steps[i].Completed? && Accepts(deps, steps[i].id, steps[i].status);
    assert (steps + [step])[i] == steps[i];
  }

  /** A newly registered job appears as a dependent exactly of the jobs it names. */
  lemma NewDependents(g: Graph, id: JobId, deps: seq<Dependency>, y: JobId)
    requires y in Registered(g, id, deps)
    requires id in g ==> g[id].dependencies == []
    requires y in g ==> NoDuplicates(g[y].dependents)
    ensures var h := Registered(g, id, deps);
            && NoDuplicates(h[y].dependents)
            && (forall x :: x in h[y].dependents ==> (y in g && x in g[y].dependents) || (x == id && Names(deps, y)))
            && (h[y].dependencies != [] ==>
                  if y in g then h[y].dependencies == g[y].dependencies else y == id && h[y].dependencies == deps)
            && (y in g ==> h[y].isResolved == g[y].isResolved && h[y].dependencies == g[y].dependencies)
  {
    WireHasEffect(Enter(g, id, deps), id, deps);
  }

  lemma RegisterKeepsIds(g: Graph, id: JobId, deps: seq<Dependency>)
    ensures id in Registered(g, id, deps)
    ensures forall x :: x in g ==> x in Registered(g, id, deps)
  {
    WireHasEffect(Enter(g, id, deps), id, deps);
  }

  lemma SubmitGraphFollows(s: Scheduler, id: JobId, deps: seq<Dependency>)
    requires GraphFollows(s) && id !in s.jobs
    ensures GraphFollows(Apply(s, Submit(id, deps)))
    ensures forall x :: x in s.graph ==>
              && x in Apply(s, Submit(id, deps)).graph
              && Apply(s, Submit(id, deps)).graph[x].isResolved == s.graph[x].isResolved
              && Apply(s, Submit(id, deps)).graph[x].dependencies == s.graph[x].dependencies
  {
    RegisterKeepsIds(s.graph, id, deps);
    forall y | y in Registered(s.graph, id, deps) {
      NewDependents(s.graph, id, deps, y);
    }
  }

  lemma SubmitFollows(steps: seq<Step>, s: Scheduler, id: JobId, deps: seq<Dependency>)
    requires GraphFollows(s) && CountersFollow(steps, s) && id !in s.jobs
    ensures var t := Apply(s, Submit(id, deps)); GraphFollows(t) && CountersFollow(steps + [Submit(id, deps)], t)
  {
    SubmitGraphFollows(s, id, deps);
    forall x | x in s.jobs && s.jobs[x].resolvedCount == 1
      ensures Reported(steps + [Submit(id, deps)], s.jobs[x].dependencies)
    {
      ReportedStays(steps, Submit(id, deps), s.jobs[x].dependencies);
    }
  }

  lemma StatusFollows(steps: seq<Step>, s: Scheduler, step: Step)
    requires GraphFollows(s) && CountersFollow(steps, s) && (step.Claim? || step.Write?)
    ensures var t := Apply(s, step); GraphFollows(t) && CountersFollow(steps + [step], t)
  {
    forall x | x in s.jobs && s.jobs[x].resolvedCount == 1 ensures Reported(steps + [step], s.jobs[x].dependencies) {
      ReportedStays(steps, step, s.jobs[x].dependencies);
    }
  }

  /** With single dependents an event unblocks at most one job, and only the job that waits on the reporter. */
  lemma AtMostOneUnblocked(s: Scheduler, id: JobId, status: JobStatus)
    requires GraphFollows(s) && SingleDependents(s.jobs)
    ensures var unblocked := StateChanged(s.graph, id, status).1;
            && |unblocked| <= 1
            && (forall x :: x in unblocked ==>
                  && x in s.jobs && Names(s.jobs[x].dependencies, id) && s.graph[x].dependencies != []
                  && Accepts(s.jobs[x].dependencies, id, status))
  {
    if id in s.graph {
      var list := s.graph[id].dependents;
      SweepHasEffect(s.graph, id, status, list);
      var unblocked := Sweep(s.graph, id, status, list).1;
      forall x | x in unblocked ensures s.graph[x].dependencies != [] && Accepts(s.graph[x].dependencies, id, status) {
        UnblockedRequired(s.graph, id, status, list, x);
      }
      assert forall i, j :: 0 <= i < |unblocked| && 0 <= j < |unblocked| ==> unblocked[i] == unblocked[j];
    }
  }

  lemma CompletedGraphFollows(s: Scheduler, id: JobId, status: JobStatus)
    requires GraphFollows(s)
    ensures GraphFollows(Apply(s, Completed(id, status)))
  {
    BumpsAddUp(s.jobs, id, |StateChanged(s.graph, id, status).1|);
    if id in s.graph { SweepHasEffect(s.graph, id, status, s.graph[id].dependents); }
  }

  lemma CompletedRowFollows(steps: seq<Step>, s: Scheduler, id: JobId, status: JobStatus, x: JobId)
    requires GraphFollows(s) && CountersFollow(steps, s) && SingleDependents(s.jobs) && x in s.jobs
    ensures var t := Apply(s, Completed(id, status));
            && x in t.jobs && x in t.graph
            && t.jobs[x].dependencyCount == s.jobs[x].dependencyCount
            && t.jobs[x].dependencies == s.jobs[x].dependencies
            && t.jobs[x].resolvedCount <= 1
            && (t.jobs[x].resolvedCount == 1 ==>
                  && t.graph[x].isResolved && t.graph[x].dependencies != []
                  && Reported(steps + [Completed(id, status)], s.jobs[x].dependencies))
  {
    var step := Completed(id, status);
    var t := Apply(s, step);
    var unblocked := StateChanged(s.graph, id, status).1;
    AtMostOneUnblocked(s, id, status);
    BumpsAddUp(s.jobs, id, |unblocked|);
    if id in s.graph { SweepHasEffect(s.graph, id, status, s.graph[id].dependents); }
    if Waits(s.jobs[x], id) && unblocked != [] {
      var y := unblocked[0];
      assert y in unblocked;
      assert y == x;
      assert (steps + [step])[|steps|] == step;
      assert Accepts(s.jobs[x].dependencies, id, status);
    } else if s.jobs[x].resolvedCount == 1 {
      ReportedStays(steps, step, s.jobs[x].dependencies);
    }
  }

  lemma CompletedFollows(steps: seq<Step>, s: Scheduler, id: JobId, status: JobStatus)
    requires GraphFollows(s) && CountersFollow(steps, s) && SingleDependents(s.jobs)
    ensures var t := Apply(s, Completed(id, status));
            GraphFollows(t) && CountersFollow(steps + [Completed(id, status)], t)
  {
    CompletedGraphFollows(s, id, status);
    BumpsAddUp(s.jobs, id, |StateChanged(s.graph, id, status).1|);
    forall x | x in s.jobs {
      CompletedRowFollows(steps, s, id, status, x);
    }
  }

  /** Jobs are only ever added, and a row keeps its dependency list. */
  lemma RowsStay(s: Scheduler, step: Step)
    requires Enabled(s, step)
    ensures var t := Apply(s, step);
            forall x :: x in s.jobs ==> x in t.jobs && t.jobs[x].dependencies == s.jobs[x].dependencies
  {
    if step.Completed? {
      BumpsAddUp(s.jobs, step.id, |StateChanged(s.graph, step.id, step.status).1|);
    }
  }

  lemma {:induction false} RunFollows(steps: seq<Step>)
    requires ValidRun(steps) && SingleDependents(After(steps).jobs)
    ensures GraphFollows(After(steps)) && CountersFollow(steps, After(steps))
  {
    if steps != [] {
      var init, step := steps[..|steps| - 1], steps[|steps| - 1];
      assert steps == init + [step];
      assert ValidRun(init) by {
        assert forall i :: 0 <= i < |init| ==> init[i] == steps[i] && init[..i] == steps[..i];
      }
      var s := After(init);
      assert Enabled(s, step);
      RowsStay(s, step);
      RunFollows(init);
      match step
      case Submit(id, deps) => SubmitFollows(init, s, id, deps);
      case Completed(id, status) => CompletedFollows(init, s, id, status);
      case Claim(_) => StatusFollows(init, s, step);
      case Write(_, _) => StatusFollows(init, s, step);
    }
  }

  /**
   * If no job has more than one dependent, a row with dependencies is claimable only when it has exactly one, and
   * that one has reported a status the row requires. In particular a row with two or more is never claimable.
   */
  lemma ClaimableIsReady(steps: seq<Step>, x: JobId)
    requires ValidRun(steps) && SingleDependents(After(steps).jobs)
    requires x in After(steps).jobs && Claimable(After(steps).jobs[x]) && After(steps).jobs[x].dependencies != []
    ensures |After(steps).jobs[x].dependencies| == 1 && Reported(steps, After(steps).jobs[x].dependencies)
  {
    RunFollows(steps);
  }

  /** So a row with dependencies is claimed only then. */
  lemma ClaimedRowsAreReady(steps: seq<Step>, x: JobId)
    requires ValidRun(steps) && steps != [] && SingleDependents(After(steps).jobs)
    requires steps[|steps| - 1].Claim? && x in steps[|steps| - 1].batch
    requires After(steps).jobs[x].dependencies != []
    ensures |After(steps).jobs[x].dependencies| == 1
    ensures Reported(steps, After(steps).jobs[x].dependencies)
  {
    var init, step := steps[..|steps| - 1], steps[|steps| - 1];
    assert Enabled(After(init), step);
    RunFollows(steps);
  }

  // ---- statuses -------------------------------------------------------------------------------

  /** The status that the last step to touch row `x` gave it, told from the run alone. */
  function LastStatus(steps: seq<Step>, x: JobId): Option<JobStatus> {
    if steps == [] then None
    else
      var before := LastStatus(steps[..|steps| - 1], x);
      match steps[|steps| - 1]
      case Submit(id, _) => if id == x then Some(PENDING) else before
      case Completed(_, _) => before
      case Claim(batch) => if x in batch && before.Some? then Some(QUEUED) else before
      case Write(id, status) => if id == x && before.Some? then Some(status) else before
  }

  /** Over every run a row exists from its submission on, with the status last written, and events write none. */
  lemma {:induction false} StatusIsLastWritten(steps: seq<Step>, x: JobId)
    ensures x in After(steps).jobs <==> LastStatus(steps, x).Some?
    ensures x in After(steps).jobs ==> After(steps).jobs[x].status == LastStatus(steps, x).value
  {
    if steps != [] {
      var init, step := steps[..|steps| - 1], steps[|steps| - 1];
      StatusIsLastWritten(init, x);
      var s := After(init);
      if step.Completed? {
        BumpsAddUp(s.jobs, step.id, |StateChanged(s.graph, step.id, step.status).1|);
      }
    }
  }

  lemma {:induction false} RowStays(steps: seq<Step>, i: nat, x: JobId)
    requires i <= |steps| && LastStatus(steps[..i], x).Some?
    ensures LastStatus(steps, x).Some?
  {
    if i == |steps| {
      assert steps[..i] == steps;
    } else {
      assert steps[..|steps| - 1][..i] == steps[..i];
      RowStays(steps[..|steps| - 1], i, x);
    }
  }

  /** After a claim the row stays off PENDING until something other than a claim or an event writes PENDING. */
  lemma {:induction false} ClaimedStaysOff(steps: seq<Step>, i: nat, x: JobId)
    requires i < |steps| && steps[i].Claim? && x in steps[i].batch && LastStatus(steps[..i], x).Some?
    requires forall k :: i < k < |steps| ==> steps[k] != Write(x, PENDING) && !(steps[k].Submit? && steps[k].id == x)
    ensures LastStatus(steps, x).Some? && LastStatus(steps, x).value != PENDING
  {
    var init := steps[..|steps| - 1];
    if i < |init| {
      assert init[..i] == steps[..i];
      ClaimedStaysOff(init, i, x);
    }
  }

  lemma ClaimedExists(steps: seq<Step>, i: nat, x: JobId)
    requires ValidRun(steps) && i < |steps| && steps[i].Claim? && x in steps[i].batch
    ensures LastStatus(steps[..i], x) == Some(PENDING)
  {
    assert Enabled(After(steps[..i]), steps[i]);
    StatusIsLastWritten(steps[..i], x);
  }

  lemma NotSubmittedAgain(steps: seq<Step>, i: nat, k: nat, x: JobId)
    requires ValidRun(steps) && i < k < |steps| && LastStatus(steps[..i], x).Some?
    ensures !(steps[k].Submit? && steps[k].id == x)
  {
    assert Enabled(After(steps[..k]), steps[k]);
    assert steps[..k][..i] == steps[..i];
    RowStays(steps[..k], i, x);
    StatusIsLastWritten(steps[..k], x);
  }

  /** No row is claimed twice unless it was written back to PENDING in between. */
  lemma ClaimedOnce(steps: seq<Step>, i: nat, j: nat, x: JobId) returns (k: nat)
    requires ValidRun(steps) && i < j < |steps|
    requires steps[i].Claim? && x in steps[i].batch && steps[j].Claim? && x in steps[j].batch
    ensures i < k < j && steps[k] == Write(x, PENDING)
  {
    ClaimedExists(steps, i, x);
    ClaimedExists(steps, j, x);
    if !exists k' :: i < k' < j && steps[k'] == Write(x, PENDING) {
      forall k' | i < k' < j ensures !(steps[k'].Submit? && steps[k'].id == x) { NotSubmittedAgain(steps, i, k', x); }
      assert steps[..j][..i] == steps[..i];
      ClaimedStaysOff(steps[..j], i, x);
    }
    k :| i < k < j && steps[k] == Write(x, PENDING);
  }

  // ---- fan-out --------------------------------------------------------------------------------

  /** Counters never go down, so a row that counted past its dependencies is never claimable again. */
  lemma {:induction false} OvershotIsNeverClaimable(s: Scheduler, steps: seq<Step>, x: JobId)
    requires x in s.jobs && s.jobs[x].resolvedCount > s.jobs[x].dependencyCount
    requires forall i :: 0 <= i < |steps| ==> !(steps[i].Submit? && steps[i].id == x)
    ensures var t := From(s, steps);
            x in t.jobs && !Claimable(t.jobs[x]) && t.jobs[x].resolvedCount > t.jobs[x].dependencyCount
  {
    if steps != [] {
      var init, step := steps[..|steps| - 1], steps[|steps| - 1];
      OvershotIsNeverClaimable(s, init, x);
      var t := From(s, init);
      if step.Completed? {
        BumpsAddUp(t.jobs, step.id, |StateChanged(t.graph, step.id, step.status).1|);
      }
    }
  }

  function From(s: Scheduler, steps: seq<Step>): Scheduler {
    if steps == [] then s else Apply(From(s, steps[..|steps| - 1]), steps[|steps| - 1])
  }

  /** The jobs an event of `id` visits, in order. */
  function Visited(g: Graph, id: JobId): seq<JobId> {
    if id in g then g[id].dependents else []
  }

  /** When the event arrives, some visited job is ready for it. */
  ghost predicate SomeReady(g: Graph, id: JobId, status: JobStatus) {
    exists i :: 0 <= i < |Visited(g, id)| && Unblocks(g, id, status, Visited(g, id)[i])
  }

  /** The k-th visited job is the first one ready, and resolving it makes none of the later ones ready. */
  ghost predicate AloneReady(g: Graph, id: JobId, status: JobStatus, k: nat) {
    var list := Visited(g, id);
    && k < |list| && Unblocks(g, id, status, list[k])
    && (forall i :: 0 <= i < k ==> !Unblocks(g, id, status, list[i]))
    && (forall i :: k < i < |list| ==> !Unblocks(Resolve(g, list[k]), id, status, list[i]))
  }

  lemma {:induction false} SweepNone(g: Graph, id: JobId, status: JobStatus, list: seq<JobId>)
    ensures (forall i :: 0 <= i < |list| ==> !Unblocks(g, id, status, list[i])) <==> Sweep(g, id, status, list).1 == []
    ensures Sweep(g, id, status, list).1 == [] ==> Sweep(g, id, status, list).0 == g
  {
    if list != [] {
      SweepNone(g, id, status, list[..|list| - 1]);
      assert forall i :: 0 <= i < |list| - 1 ==> list[i] == list[..|list| - 1][i];
    }
  }

  lemma {:induction false} SweepAppend(g: Graph, id: JobId, status: JobStatus, a: seq<JobId>, b: seq<JobId>)
    ensures var (h, first) := Sweep(g, id, status, a);
            var (last, second) := Sweep(h, id, status, b);
            Sweep(g, id, status, a + b) == (last, first + second)
  {
    var (h, first) := Sweep(g, id, status, a);
    if b == [] {
      assert a + b == a && first + [] == first;
    } else {
      var init := b[..|b| - 1];
      SweepAppend(g, id, status, a, init);
      assert (a + b)[..|a + b| - 1] == a + init && (a + b)[|a + b| - 1] == b[|b| - 1];
      var (mid, second) := Sweep(h, id, status, init);
      assert first + (second + [b[|b| - 1]]) == first + second + [b[|b| - 1]];
    }
  }

  lemma SweepLast(g: Graph, id: JobId, status: JobStatus, init: seq<JobId>, x: JobId)
    requires Sweep(g, id, status, init) == (g, []) && Unblocks(g, id, status, x)
    ensures Sweep(g, id, status, init + [x]) == (Resolve(g, x), [x])
  {
    assert (init + [x])[..|init|] == init;
    assert [] + [x] == [x];
  }

  /** Up to the first ready job nothing happens; after it the sweep goes on with that job resolved. */
  lemma SweepFromFirst(g: Graph, id: JobId, status: JobStatus, list: seq<JobId>, k: nat)
    requires k < |list| && Unblocks(g, id, status, list[k])
    requires forall i :: 0 <= i < k ==> !Unblocks(g, id, status, list[i])
    ensures Sweep(g, id, status, list).1 == [list[k]] + Sweep(Resolve(g, list[k]), id, status, list[k + 1..]).1
  {
    SweepNone(g, id, status, list[..k]);
    SweepLast(g, id, status, list[..k], list[k]);
    assert list[..k] + [list[k]] + list[k + 1..] == list;
    SweepAppend(g, id, status, list[..k] + [list[k]], list[k + 1..]);
  }

  lemma {:induction false} FirstReady(g: Graph, id: JobId, status: JobStatus, list: seq<JobId>, i: nat) returns (k: nat)
    requires i < |list| && Unblocks(g, id, status, list[i])
    ensures k <= i && Unblocks(g, id, status, list[k])
    ensures forall j :: 0 <= j < k ==> !Unblocks(g, id, status, list[j])
  {
    if j :| 0 <= j < i && Unblocks(g, id, status, list[j]) {
      k := FirstReady(g, id, status, list, j);
    } else {
      k := i;
    }
  }

  lemma FirstReadyAlone(g: Graph, id: JobId, status: JobStatus, k: nat)
    requires var list := Visited(g, id);
             && k < |list| && Unblocks(g, id, status, list[k])
             && forall i :: 0 <= i < k ==> !Unblocks(g, id, status, list[i])
    ensures AloneReady(g, id, status, k) <==> |StateChanged(g, id, status).1| == 1
    ensures |StateChanged(g, id, status).1| >= 1
  {
    var list := Visited(g, id);
    SweepFromFirst(g, id, status, list, k);
    var rest := list[k + 1..];
    SweepNone(Resolve(g, list[k]), id, status, rest);
    assert forall i :: k < i < |list| ==> list[i] == rest[i - k - 1];
    assert forall i :: 0 <= i < |rest| ==> rest[i] == list[k + 1 + i];
  }

  /**
   * The jobs an event finds ready, told from the graph before it: the first ready one is passed after `gaps[0]`
   * others, and the rest of the list is judged with that job resolved; no gaps left means none is ready.
   */
  ghost predicate ReadyInTurn(g: Graph, id: JobId, status: JobStatus, list: seq<JobId>, gaps: seq<nat>)
    decreases |gaps|
  {
    if gaps == [] then forall i :: 0 <= i < |list| ==> !Unblocks(g, id, status, list[i])
    else
      && gaps[0] < |list| && Unblocks(g, id, status, list[gaps[0]])
      && (forall i :: 0 <= i < gaps[0] ==> !Unblocks(g, id, status, list[i]))
      && ReadyInTurn(Resolve(g, list[gaps[0]]), id, status, list[gaps[0] + 1..], gaps[1..])
  }

  lemma {:induction false} TurnsAreCounted(g: Graph, id: JobId, status: JobStatus, list: seq<JobId>, gaps: seq<nat>)
    requires ReadyInTurn(g, id, status, list, gaps)
    ensures |Sweep(g, id, status, list).1| == |gaps|
    decreases |gaps|
  {
    if gaps == [] {
      SweepNone(g, id, status, list);
    } else {
      SweepFromFirst(g, id, status, list, gaps[0]);
      TurnsAreCounted(Resolve(g, list[gaps[0]]), id, status, list[gaps[0] + 1..], gaps[1..]);
    }
  }

  lemma {:induction false} TurnsExist(g: Graph, id: JobId, status: JobStatus, list: seq<JobId>) returns (gaps: seq<nat>)
    ensures ReadyInTurn(g, id, status, list, gaps)
    decreases |list|
  {
    gaps := [];
    if i :| 0 <= i < |list| && Unblocks(g, id, status, list[i]) {
      var k := FirstReady(g, id, status, list, i);
      var rest := TurnsExist(Resolve(g, list[k]), id, status, list[k + 1..]);
      gaps := [k] + rest;
      assert gaps[1..] == rest;
    }
  }

  /** Exactly `n` visited jobs are ready for the event. */
  ghost predicate ReadyCount(g: Graph, id: JobId, status: JobStatus, n: nat) {
    exists gaps :: |gaps| == n && ReadyInTurn(g, id, status, Visited(g, id), gaps)
  }

  /** How many jobs an event unblocks, told from the graph before it. */
  lemma UnblockedCount(g: Graph, id: JobId, status: JobStatus, n: nat)
    ensures |StateChanged(g, id, status).1| == n <==> ReadyCount(g, id, status, n)
  {
    var list := Visited(g, id);
    assert StateChanged(g, id, status).1 == Sweep(g, id, status, list).1;
    var gaps := TurnsExist(g, id, status, list);
    TurnsAreCounted(g, id, status, list, gaps);
    if ReadyCount(g, id, status, n) {
      var other :| |other| == n && ReadyInTurn(g, id, status, list, other);
      TurnsAreCounted(g, id, status, list, other);
    }
  }

  /** The cases none and one, spelt out. */
  lemma FewUnblocked(g: Graph, id: JobId, status: JobStatus)
    ensures ReadyCount(g, id, status, 0) <==> !SomeReady(g, id, status)
    ensures ReadyCount(g, id, status, 1) <==> exists k :: AloneReady(g, id, status, k)
  {
    var list := Visited(g, id);
    UnblockedCount(g, id, status, 0);
    UnblockedCount(g, id, status, 1);
    SweepNone(g, id, status, list);
    assert StateChanged(g, id, status).1 == Sweep(g, id, status, list).1;
    if SomeReady(g, id, status) {
      var i :| 0 <= i < |list| && Unblocks(g, id, status, list[i]);
      var k := FirstReady(g, id, status, list, i);
      FirstReadyAlone(g, id, status, k);
      if j :| AloneReady(g, id, status, j) {
        FirstReadyAlone(g, id, status, j);
      }
    }
  }

  /**
   * What an event does to any row that waits on the reporting job, told from the state before it: the row becomes
   * claimable if and only if as many visited jobs are ready as the row lacks dependencies, whichever jobs they are.
   */
  lemma ClaimableExactly(s: Scheduler, id: JobId, status: JobStatus, x: JobId)
    requires x in s.jobs && Waits(s.jobs[x], id)
    ensures var row, t := s.jobs[x], Apply(s, Completed(id, status));
            && x in t.jobs
            && (Claimable(t.jobs[x]) <==>
                exists n: nat :: ReadyCount(s.graph, id, status, n) && row.dependencyCount == row.resolvedCount + n)
            && (t.jobs[x] == row <==> !SomeReady(s.graph, id, status))
  {
    var n := |StateChanged(s.graph, id, status).1|;
    UnblockedCount(s.graph, id, status, n);
    BumpsAddUp(s.jobs, id, n);
    if m: nat :| ReadyCount(s.graph, id, status, m) && s.jobs[x].dependencyCount == s.jobs[x].resolvedCount + m {
      UnblockedCount(s.graph, id, status, m);
    }
    UnblockedCount(s.graph, id, status, 0);
    FewUnblocked(s.graph, id, status);
  }

  /** A row that lacks one dependency becomes claimable if and only if some visited job is ready alone. */
  lemma LackingOne(s: Scheduler, id: JobId, status: JobStatus, x: JobId)
    requires x in s.jobs && Waits(s.jobs[x], id) && s.jobs[x].dependencyCount == s.jobs[x].resolvedCount + 1
    ensures var t := Apply(s, Completed(id, status));
            x in t.jobs && (Claimable(t.jobs[x]) <==> exists k :: AloneReady(s.graph, id, status, k))
  {
    ClaimableExactly(s, id, status, x);
    FewUnblocked(s.graph, id, status);
  }

  /** If more jobs are ready than the row lacks dependencies, it is stranded: nothing makes it claimable again. */
  lemma FanOutStrands(s: Scheduler, id: JobId, status: JobStatus, x: JobId, n: nat, later: seq<Step>)
    requires x in s.jobs && Waits(s.jobs[x], id)
    requires ReadyCount(s.graph, id, status, n) && s.jobs[x].dependencyCount < s.jobs[x].resolvedCount + n
    requires forall i :: 0 <= i < |later| ==> !(later[i].Submit? && later[i].id == x)
    ensures var t := From(Apply(s, Completed(id, status)), later); x in t.jobs && !Claimable(t.jobs[x])
  {
    UnblockedCount(s.graph, id, status, n);
    BumpsAddUp(s.jobs, id, n);
    OvershotIsNeverClaimable(Apply(s, Completed(id, status)), later, x);
  }

  // ---- a row claimed too early ----------------------------------------------------------------

  /** Visited jobs that are all ready when the event arrives are all unblocked, in order. */
  lemma {:induction false} AllReadySweep(g: Graph, id: JobId, status: JobStatus, list: seq<JobId>)
    requires NoDuplicates(list) && forall i :: 0 <= i < |list| ==> Unblocks(g, id, status, list[i])
    ensures Sweep(g, id, status, list).1 == list
  {
    if list != [] {
      var init, x := list[..|list| - 1], list[|list| - 1];
      AllReadySweep(g, id, status, init);
      SweepHasEffect(g, id, status, init);
      var h := Sweep(g, id, status, init).0;
      assert x !in init;
      assert h[x] == g[x] && AllMet(h, g[x].dependencies);
      assert list == init + [x];
    }
  }

  /** `x` is submitted with its dependencies, then each of `others` with a dependency on `j` alone. */
  function FanOut(x: JobId, deps: seq<Dependency>, d: Dependency, others: seq<JobId>): seq<Step> {
    if others == [] then [Submit(x, deps)]
    else FanOut(x, deps, d, others[..|others| - 1]) + [Submit(others[|others| - 1], [d])]
  }

  /** What such submissions leave: `x` and the others all wait on `d.jobId`, and every job they name is resolved. */
  ghost predicate FannedOut(s: Scheduler, x: JobId, deps: seq<Dependency>, d: Dependency, others: seq<JobId>) {
    && x in s.jobs && s.jobs[x] == NewRow(deps) && x in s.graph && s.graph[x] == Node(deps, [], false)
    && (forall y :: y in s.jobs ==> y == x || y in others)
    && (forall y :: y in s.graph ==> y == x || y in others || Names(deps, y))
    && (forall y :: Names(deps, y) ==> y in s.graph && s.graph[y].isResolved)
    && d.jobId in s.graph && s.graph[d.jobId].dependents == [x] + others
    && (forall i :: 0 <= i < |others| ==> others[i] in s.graph && s.graph[others[i]] == Node([d], [], false))
  }

  /** The others are jobs of their own: no repetitions, neither `x` nor named by it. */
  ghost predicate Apart(x: JobId, deps: seq<Dependency>, others: seq<JobId>) {
    && !Names(deps, x) && NoDuplicates(others) && x !in others
    && (forall i :: 0 <= i < |others| ==> !Names(deps, others[i]))
  }

  lemma FirstSubmitted(x: JobId, deps: seq<Dependency>, d: Dependency)
    requires !Names(deps, x) && Names(deps, d.jobId)
    ensures FannedOut(After([Submit(x, deps)]), x, deps, d, [])
    ensures ValidRun([Submit(x, deps)])
  {
    RunGoesOn([], Submit(x, deps));
    assert [] + [Submit(x, deps)] == [Submit(x, deps)];
    WireHasEffect(Enter(map[], x, deps), x, deps);
  }

  lemma OneMoreFannedOut(s: Scheduler, x: JobId, deps: seq<Dependency>, d: Dependency, others: seq<JobId>, o: JobId)
    requires FannedOut(s, x, deps, d, others) && Names(deps, d.jobId) && Apart(x, deps, others + [o])
    ensures o !in s.jobs && FannedOut(Apply(s, Submit(o, [d])), x, deps, d, others + [o])
  {
    var all := others + [o];
    assert all[|others|] == o;
    assert forall i :: 0 <= i < |others| ==> all[i] == others[i];
    assert o !in others && o != x && !Names(deps, o);
    WireSingle(Enter(s.graph, o, [d]), o, d);
    var t := Apply(s, Submit(o, [d]));
    assert t.graph[d.jobId].dependents == [x] + others + [o] == [x] + all;
    forall i | 0 <= i < |all| ensures all[i] in t.graph && t.graph[all[i]] == Node([d], [], false) {}
  }

  lemma {:induction false} FanOutReached(x: JobId, deps: seq<Dependency>, d: Dependency, others: seq<JobId>)
    requires Names(deps, d.jobId) && Apart(x, deps, others)
    ensures ValidRun(FanOut(x, deps, d, others)) && FannedOut(After(FanOut(x, deps, d, others)), x, deps, d, others)
  {
    if others == [] {
      FirstSubmitted(x, deps, d);
    } else {
      var init, o := others[..|others| - 1], others[|others| - 1];
      assert others == init + [o];
      assert Apart(x, deps, init);
      FanOutReached(x, deps, d, init);
      OneMoreFannedOut(After(FanOut(x, deps, d, init)), x, deps, d, init, o);
      RunGoesOn(FanOut(x, deps, d, init), Submit(o, [d]));
    }
  }

  lemma FanIsReady(s: Scheduler, x: JobId, deps: seq<Dependency>, d: Dependency, others: seq<JobId>, status: JobStatus)
    requires FannedOut(s, x, deps, d, others) && Names(deps, d.jobId) && Apart(x, deps, others)
    requires status in d.requireStatus && status in FirstOn(deps, d.jobId).value.requireStatus
    ensures StateChanged(s.graph, d.jobId, status).1 == [x] + others
  {
    var list := [x] + others;
    assert [d][0] == d;
    forall i | 0 <= i < |list| ensures Unblocks(s.graph, d.jobId, status, list[i]) {
      if i == 0 {
        assert AllMet(s.graph, deps) by { assert forall k :: 0 <= k < |deps| ==> Names(deps, deps[k].jobId); }
      } else {
        assert list[i] == others[i - 1];
        assert FirstOn([d], d.jobId) == Some(d);
        assert AllMet(s.graph, [d]);
      }
    }
    assert NoDuplicates(list) by { assert forall i :: 0 <= i < |others| ==> others[i] in others; }
    AllReadySweep(s.graph, d.jobId, status, list);
  }

  /**
   * Too early: whatever list of m dependencies a row has, one accepted event on one of them makes it claimable
   * if m - 1 other jobs wait for that event too, although nothing else has been reported.
   */
  lemma ClaimableTooEarly(x: JobId, deps: seq<Dependency>, d: Dependency, others: seq<JobId>, status: JobStatus)
    requires Names(deps, d.jobId) && Apart(x, deps, others) && |others| == |deps| - 1
    requires status in d.requireStatus && status in FirstOn(deps, d.jobId).value.requireStatus
    ensures var steps := FanOut(x, deps, d, others) + [Completed(d.jobId, status)];
            && ValidRun(steps) && x in After(steps).jobs && Claimable(After(steps).jobs[x])
            && (forall i :: 0 <= i < |steps| && steps[i].Completed? ==> steps[i].id == d.jobId)
  {
    var fan := FanOut(x, deps, d, others);
    var s := After(fan);
    FanOutReached(x, deps, d, others);
    RunGoesOn(fan, Completed(d.jobId, status));
    FanIsReady(s, x, deps, d, others, status);
    BumpsAddUp(s.jobs, d.jobId, |deps|);
    FanOutOnlySubmits(x, deps, d, others);
  }

  lemma {:induction false} FanOutOnlySubmits(x: JobId, deps: seq<Dependency>, d: Dependency, others: seq<JobId>)
    ensures forall i :: 0 <= i < |FanOut(x, deps, d, others)| ==> FanOut(x, deps, d, others)[i].Submit?
  {
    if others != [] { FanOutOnlySubmits(x, deps, d, others[..|others| - 1]); }
  }

  // ---- the smallest fan-out -------------------------------------------------------------------

  /** Two jobs, each waiting only on `j`, are both unblocked by its completion. */
  lemma FanOutUnblocksBoth(j: JobId, a: JobId, b: JobId)
    requires j != a && a != b && j != b
    ensures var dep := [Dependency(j, [COMPLETED])];
            StateChanged(After([Submit(j, []), Submit(a, dep), Submit(b, dep)]).graph, j, COMPLETED).1 == [a, b]
  {
    var dep := [Dependency(j, [COMPLETED])];
    var s1, s2, s3 := Submit(j, []), Submit(a, dep), Submit(b, dep);
    RunGoesOn([], s1);
    RunGoesOn([s1], s2);
    RunGoesOn([s1, s2], s3);
    assert [] + [s1] == [s1] && [s1] + [s2] == [s1, s2] && [s1, s2] + [s3] == [s1, s2, s3];
    var g1, g2 := map[j := Node([], [], true)], After([s1, s2]).graph;
    assert After([s1]).graph == g1;
    WireSingle(Enter(g1, a, dep), a, dep[0]);
    WireSingle(Enter(g2, b, dep), b, dep[0]);
    FanOutReady(j, a, b);
    SweepTwo(After([s1, s2, s3]).graph, j, COMPLETED, a, b);
  }

  lemma FanOutReady(j: JobId, a: JobId, b: JobId)
    requires j != a && a != b && j != b
    ensures var dep := [Dependency(j, [COMPLETED])];
            var g2 := WireOne(Enter(map[j := Node([], [], true)], a, dep), a, j);
            var g := WireOne(Enter(g2, b, dep), b, j);
            g[j].dependents == [a, b] && Unblocks(g, j, COMPLETED, a) && Unblocks(Resolve(g, a), j, COMPLETED, b)
  {
    var dep := [Dependency(j, [COMPLETED])];
    assert FirstOn(dep, j) == Some(dep[0]);
    assert [a] + [b] == [a, b];
  }

  lemma WireSingle(g: Graph, id: JobId, d: Dependency)
    ensures Wire(g, id, [d]) == WireOne(g, id, d.jobId)
  {}

  lemma SweepTwo(g: Graph, id: JobId, status: JobStatus, a: JobId, b: JobId)
    requires Unblocks(g, id, status, a) && Unblocks(Resolve(g, a), id, status, b)
    ensures Sweep(g, id, status, [a, b]).1 == [a, b]
  {
    assert [a, b][..1] == [a] && [a][..0] == [];
    assert Sweep(g, id, status, [a][..0]) == (g, []);
    var one := Sweep(g, id, status, [a]);
    assert one.0 == Resolve(g, a) && one.1 == [] + [a];
    assert Sweep(g, id, status, [a, b][..1]) == one;
    assert Sweep(g, id, status, [a, b]).1 == one.1 + [b];
  }
}

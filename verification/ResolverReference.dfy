/** The resolver over arbitrary runs, told from the run alone: whom it knows, whom an event visits, who is resolved. */
module ResolverReference {
  import opened Domain
  import opened Walks
  import opened DependencyResolution
  import opened ResolverRuns

  // ---- the reference --------------------------------------------------------------------------

  predicate Mentions(op: Op, x: JobId) { op.Register? && (op.id == x || Names(op.deps, x)) }

  predicate Mentioned(ops: seq<Op>, x: JobId) {
    exists i :: 0 <= i < |ops| && Mentions(ops[i], x)
  }

  /** What the first registration to mention `x` gave it: its dependencies, or none if it only named `x`. */
  function DepsOf(ops: seq<Op>, x: JobId): seq<Dependency> {
    if ops == [] then []
    else
      var init, op := ops[..|ops| - 1], ops[|ops| - 1];
      if Mentioned(init, x) then DepsOf(init, x) else if op.Register? && op.id == x then op.deps else []
  }

  /** The jobs whose registrations named `y`, in the order in which they first did. */
  function Namers(ops: seq<Op>, y: JobId): seq<JobId> {
    if ops == [] then []
    else
      var before, op := Namers(ops[..|ops| - 1], y), ops[|ops| - 1];
      if op.Register? && Names(op.deps, y) && op.id !in before then before + [op.id] else before
  }

  /** The event reports a status that the first listed dependency on its job accepts. */
  predicate Accepted(deps: seq<Dependency>, e: Op) {
    e.Change? && FirstOn(deps, e.id).Some? && e.status in FirstOn(deps, e.id).value.requireStatus
  }

  /**
   * After the run, event `e` clears the k-th job it visits: its dependencies accept the event, and each job they
   * name was cleared before or is cleared by the same event earlier in the list.
   */
  ghost predicate ClearsAt(ops: seq<Op>, e: Op, list: seq<JobId>, k: nat)
    requires k < |list|
    decreases |ops|, k + 2
  {
    && Accepted(DepsOf(ops, list[k]), e)
    && (forall y :: Names(DepsOf(ops, list[k]), y) ==>
          Cleared(ops, y) || exists j: nat :: j < k && list[j] == y && ClearsAt(ops, e, list, j))
  }

  /** The i-th operation is an event that visits `x` as the k-th job and clears it. */
  ghost predicate EventClears(ops: seq<Op>, i: nat, k: nat, x: JobId)
    decreases |ops|, 0
  {
    i < |ops| && ops[i].Change? &&
    var list := Namers(ops[..i], ops[i].id);
    k < |list| && list[k] == x && ClearsAt(ops[..i], ops[i], list, k)
  }

  /** `x` was mentioned without dependencies, or some event of the run clears it. */
  ghost predicate Cleared(ops: seq<Op>, x: JobId)
    decreases |ops|, 1
  {
    Mentioned(ops, x) && (DepsOf(ops, x) == [] || exists i: nat, k: nat :: EventClears(ops, i, k, x))
  }

  // ---- one operation later --------------------------------------------------------------------

  lemma MentionedOneMore(ops: seq<Op>, op: Op, x: JobId)
    ensures Mentioned(ops + [op], x) <==> Mentioned(ops, x) || Mentions(op, x)
    ensures Mentioned(ops, x) ==> DepsOf(ops + [op], x) == DepsOf(ops, x)
    ensures !Mentioned(ops, x) ==> DepsOf(ops + [op], x) == if op.Register? && op.id == x then op.deps else []
  {
    var all := ops + [op];
    assert all[..|all| - 1] == ops && all[|ops|] == op;
    if i :| 0 <= i < |ops| && Mentions(ops[i], x) { assert all[i] == ops[i]; }
  }

  lemma NamersOneMore(ops: seq<Op>, op: Op, y: JobId)
    ensures Namers(ops + [op], y) ==
            if op.Register? && Names(op.deps, y) && op.id !in Namers(ops, y) then Namers(ops, y) + [op.id]
            else Namers(ops, y)
  {
    assert (ops + [op])[..|ops|] == ops;
  }

  lemma {:induction false} NamersAreMentioned(ops: seq<Op>, y: JobId, x: JobId)
    requires x in Namers(ops, y)
    ensures Mentioned(ops, x) && Mentioned(ops, y)
  {
    var init, op := ops[..|ops| - 1], ops[|ops| - 1];
    assert ops == init + [op];
    MentionedOneMore(init, op, x);
    MentionedOneMore(init, op, y);
    if x in Namers(init, y) { NamersAreMentioned(init, y, x); }
  }

  lemma SameEvent(ops: seq<Op>, op: Op, i: nat, k: nat, x: JobId)
    ensures i < |ops| ==> (EventClears(ops + [op], i, k, x) <==> EventClears(ops, i, k, x))
    ensures EventClears(ops + [op], |ops|, k, x) <==>
              op.Change? && k < |Namers(ops, op.id)| && Namers(ops, op.id)[k] == x
              && ClearsAt(ops, op, Namers(ops, op.id), k)
  {
    var all := ops + [op];
    assert all[..|ops|] == ops && all[|ops|] == op;
    if i < |ops| { assert all[..i] == ops[..i] && all[i] == ops[i]; }
  }

  /** Among the first n jobs that the event visits, `x` is one that it clears. */
  ghost predicate ClearsWithin(ops: seq<Op>, e: Op, list: seq<JobId>, n: nat, x: JobId)
    requires n <= |list|
  {
    exists k: nat :: k < n && list[k] == x && ClearsAt(ops, e, list, k)
  }

  lemma EventClearsMentioned(ops: seq<Op>, i: nat, k: nat, x: JobId)
    requires EventClears(ops, i, k, x)
    ensures Mentioned(ops, x)
  {
    NamersAreMentioned(ops[..i], ops[i].id, x);
    var j :| 0 <= j < i && Mentions(ops[..i][j], x);
    assert ops[j] == ops[..i][j];
  }

  lemma ClearedOneMore(ops: seq<Op>, op: Op, x: JobId)
    ensures Cleared(ops + [op], x) <==>
              || Cleared(ops, x)
              || (op.Change? && ClearsWithin(ops, op, Namers(ops, op.id), |Namers(ops, op.id)|, x))
              || (!Mentioned(ops, x) && Mentions(op, x) && DepsOf(ops + [op], x) == [])
  {
    var all := ops + [op];
    MentionedOneMore(ops, op, x);
    if i: nat, k: nat :| EventClears(all, i, k, x) {
      SameEvent(ops, op, i, k, x);
      if i < |ops| { EventClearsMentioned(ops, i, k, x); }
    }
    if i: nat, k: nat :| EventClears(ops, i, k, x) {
      SameEvent(ops, op, i, k, x);
    }
    if op.Change? && ClearsWithin(ops, op, Namers(ops, op.id), |Namers(ops, op.id)|, x) {
      var k: nat :| k < |Namers(ops, op.id)| && Namers(ops, op.id)[k] == x && ClearsAt(ops, op, Namers(ops, op.id), k);
      SameEvent(ops, op, |ops|, k, x);
      EventClearsMentioned(all, |ops|, k, x);
    }
  }

  // ---- the graph follows the reference --------------------------------------------------------

  ghost predicate Shaped(ops: seq<Op>, g: Graph) {
    && (forall x :: x in g <==> Mentioned(ops, x))
    && (forall x :: x in g ==> g[x].dependencies == DepsOf(ops, x) && g[x].dependents == Namers(ops, x))
  }

  ghost predicate FlagsAreExact(ops: seq<Op>, g: Graph) {
    forall x :: x in g ==> (g[x].isResolved <==> Cleared(ops, x))
  }

  lemma RegisterShaped(ops: seq<Op>, op: Op)
    requires op.Register? && Shaped(ops, After(ops))
    ensures Shaped(ops + [op], After(ops + [op]))
  {
    var g, all := After(ops), ops + [op];
    AfterOneMore(ops, op);
    WireHasEffect(Enter(g, op.id, op.deps), op.id, op.deps);
    var h := After(all);
    forall x ensures x in h <==> Mentioned(all, x) {
      MentionedOneMore(ops, op, x);
    }
    forall x | x in h ensures h[x].dependencies == DepsOf(all, x) && h[x].dependents == Namers(all, x) {
      MentionedOneMore(ops, op, x);
      NamersOneMore(ops, op, x);
      if x !in g && Namers(ops, x) != [] {
        NamersAreMentioned(ops, x, Namers(ops, x)[0]);
      }
    }
  }

  lemma ChangeShaped(ops: seq<Op>, op: Op)
    requires op.Change? && Shaped(ops, After(ops))
    ensures Shaped(ops + [op], After(ops + [op]))
  {
    var g, all := After(ops), ops + [op];
    AfterOneMore(ops, op);
    if op.id in g { SweepHasEffect(g, op.id, op.status, g[op.id].dependents); }
    forall x ensures Mentioned(all, x) <==> Mentioned(ops, x) { MentionedOneMore(ops, op, x); }
    forall x | x in g ensures DepsOf(all, x) == DepsOf(ops, x) && Namers(all, x) == Namers(ops, x) {
      MentionedOneMore(ops, op, x);
      NamersOneMore(ops, op, x);
    }
  }

  lemma RegisterFlags(ops: seq<Op>, op: Op)
    requires op.Register? && Shaped(ops, After(ops)) && FlagsAreExact(ops, After(ops))
    ensures FlagsAreExact(ops + [op], After(ops + [op]))
  {
    var g, all := After(ops), ops + [op];
    AfterOneMore(ops, op);
    WireHasEffect(Enter(g, op.id, op.deps), op.id, op.deps);
    var h := After(all);
    forall x | x in h ensures h[x].isResolved <==> Cleared(all, x) {
      MentionedOneMore(ops, op, x);
      ClearedOneMore(ops, op, x);
    }
  }

  /** Part of the way through the list: the flags are those cleared before or by the event so far. */
  ghost predicate FlagsWithin(ops: seq<Op>, e: Op, list: seq<JobId>, n: nat, h: Graph)
    requires n <= |list|
  {
    forall y :: y in h ==> (h[y].isResolved <==> Cleared(ops, y) || ClearsWithin(ops, e, list, n, y))
  }

  lemma WithinOneMore(ops: seq<Op>, e: Op, list: seq<JobId>, n: nat, y: JobId)
    requires n < |list|
    ensures ClearsWithin(ops, e, list, n + 1, y)
            <==> ClearsWithin(ops, e, list, n, y) || (list[n] == y && ClearsAt(ops, e, list, n))
  {}

  /** The next visited job is unblocked exactly if it is not resolved yet and the reference says it is cleared. */
  lemma VisitIsExact(ops: seq<Op>, e: Op, list: seq<JobId>, n: nat, h: Graph)
    requires e.Change? && n < |list| && list[n] in h && h[list[n]].dependencies == DepsOf(ops, list[n])
    requires FlagsWithin(ops, e, list, n, h)
    requires forall y :: Names(DepsOf(ops, list[n]), y) ==> y in h
    ensures Unblocks(h, e.id, e.status, list[n]) <==> !h[list[n]].isResolved && ClearsAt(ops, e, list, n)
  {
    var deps := DepsOf(ops, list[n]);
    assert AllMet(h, deps) <==> forall y :: Names(deps, y) ==> y in h && h[y].isResolved by {
      assert forall k :: 0 <= k < |deps| ==> Names(deps, deps[k].jobId);
    }
    forall y | Names(deps, y)
      ensures h[y].isResolved <==>
                Cleared(ops, y) || exists j: nat :: j < n && list[j] == y && ClearsAt(ops, e, list, j)
    {
      assert h[y].isResolved <==> Cleared(ops, y) || ClearsWithin(ops, e, list, n, y);
    }
  }

  lemma {:induction false} SweepIsExact(ops: seq<Op>, e: Op, list: seq<JobId>, n: nat)
    requires e.Change? && n <= |list| && Shaped(ops, After(ops)) && FlagsAreExact(ops, After(ops))
    requires EdgesWired(After(ops)) && forall k :: 0 <= k < |list| ==> list[k] in After(ops)
    ensures FlagsWithin(ops, e, list, n, Sweep(After(ops), e.id, e.status, list[..n]).0)
  {
    var g := After(ops);
    if n > 0 {
      var x := list[n - 1];
      SweepIsExact(ops, e, list, n - 1);
      assert list[..n][..n - 1] == list[..n - 1];
      SweepHasEffect(g, e.id, e.status, list[..n - 1]);
      var h := Sweep(g, e.id, e.status, list[..n - 1]).0;
      forall y | Names(DepsOf(ops, x), y) ensures y in h { assert Edge(g, x, y); }
      VisitIsExact(ops, e, list, n - 1, h);
      forall y ensures ClearsWithin(ops, e, list, n, y)
                       <==> ClearsWithin(ops, e, list, n - 1, y) || (x == y && ClearsAt(ops, e, list, n - 1))
      {
        WithinOneMore(ops, e, list, n - 1, y);
      }
    }
  }

  lemma ChangeFlags(ops: seq<Op>, op: Op)
    requires OnlyGrows(ops) && op.Change? && Shaped(ops, After(ops)) && FlagsAreExact(ops, After(ops))
    ensures FlagsAreExact(ops + [op], After(ops + [op]))
  {
    var g, list := After(ops), Namers(ops, op.id);
    AfterOneMore(ops, op);
    RunsStaySound(ops);
    forall k | 0 <= k < |list| ensures list[k] in g && op.id in g { NamersAreMentioned(ops, op.id, list[k]); }
    SweepIsExact(ops, op, list, |list|);
    assert list[..|list|] == list;
    SweepHasEffect(g, op.id, op.status, list);
    var h := After(ops + [op]);
    assert h == Sweep(g, op.id, op.status, list).0;
    forall x | x in h ensures h[x].isResolved <==> Cleared(ops + [op], x) {
      ClearedOneMore(ops, op, x);
    }
  }

  /**
   * The resolver, exactly, over every run of registrations and events: it knows the mentioned jobs, with what their
   * first mention gave them; an event visits the jobs that named its job, in order; and a job is resolved if and
   * only if it has no dependencies or an accepted event came when all the jobs it names were cleared, counting
   * those that the same event cleared before it.
   */
  lemma {:induction false} ReferenceIsExact(ops: seq<Op>)
    requires OnlyGrows(ops)
    ensures Shaped(ops, After(ops)) && FlagsAreExact(ops, After(ops))
  {
    if ops != [] {
      var init, op := ops[..|ops| - 1], ops[|ops| - 1];
      assert ops == init + [op];
      ReferenceIsExact(init);
      match op
      case Register(_, _) =>
        RegisterShaped(init, op);
        RegisterFlags(init, op);
      case Change(_, _) =>
        ChangeShaped(init, op);
        ChangeFlags(init, op);
    }
  }

  /** So an event returns exactly the jobs that are cleared after it and were not before. */
  lemma ReturnedAreNewlyCleared(ops: seq<Op>, op: Op, x: JobId)
    requires OnlyGrows(ops) && op.Change?
    ensures x in Apply(After(ops), op).1 <==> Cleared(ops + [op], x) && !Cleared(ops, x)
  {
    var g, all := After(ops), ops + [op];
    assert OnlyGrows(all);
    ReferenceIsExact(ops);
    ReferenceIsExact(all);
    AfterOneMore(ops, op);
    if op.id in g { SweepHasEffect(g, op.id, op.status, g[op.id].dependents); }
  }
}

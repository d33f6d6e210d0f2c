/** Claiming PENDING jobs: the ordered, limited, lock-skipping query, run by any number of schedulers at once. */
module JobClaims {
  import opened Domain
  import opened PriorityQueues

  datatype Priority = CRITICAL | HIGH | MEDIUM | LOW | BACKGROUND

  /** The columns the claim query reads and writes. */
  datatype Row = Row(status: JobStatus, priority: Priority, scheduledAt: Option<int>, createdAt: int,
                     dependencyCount: nat, resolvedCount: nat)

  type Table = map<JobId, Row>

  function Rank(p: Priority): int {
    match p case CRITICAL => 1 case HIGH => 2 case MEDIUM => 3 case LOW => 4 case BACKGROUND => 5
  }

  /** The query's ORDER BY: rank, then scheduled_at with nulls last, then created_at. */
  predicate Before(a: Row, b: Row) {
    if Rank(a.priority) != Rank(b.priority) then Rank(a.priority) < Rank(b.priority)
    else if a.scheduledAt != b.scheduledAt then
      a.scheduledAt.Some? && (b.scheduledAt.None? || a.scheduledAt.value < b.scheduledAt.value)
    else a.createdAt < b.createdAt
  }

  predicate Eligible(r: Row, now: int) {
    && r.status.PENDING?
    && (r.scheduledAt.None? || r.scheduledAt.value <= now)
    && r.dependencyCount == r.resolvedCount
  }

  function Candidates(jobs: Table, locked: set<JobId>, now: int): set<JobId> {
    set x | x in jobs && x !in locked && Eligible(jobs[x], now)
  }

  /** An arrangement of the candidate rows that the ORDER BY allows; ties may fall either way. */
  ghost predicate Arrangement(jobs: Table, ids: set<JobId>, order: seq<JobId>) {
    && NoDuplicates(order) && ToSet(order) == ids && ids <= jobs.Keys
    && (forall i :: 0 <= i < |order| ==> order[i] in jobs)
    && (forall i, j :: 0 <= i < j < |order| ==> !Before(jobs[order[j]], jobs[order[i]]))
  }

  function Min(a: nat, b: nat): nat { if a <= b then a else b }

  /** What the subquery may select: the first `limit` rows of some arrangement of the unlocked candidates. */
  ghost predicate Selects(jobs: Table, locked: set<JobId>, now: int, limit: nat, batch: set<JobId>) {
    exists order :: Arrangement(jobs, Candidates(jobs, locked, now), order)
      && batch == ToSet(order[..Min(limit, |order|)])
  }

  lemma {:induction false} DistinctCount<T>(s: seq<T>)
    requires NoDuplicates(s)
    ensures |ToSet(s)| == |s|
  {
    if s != [] {
      var init, x := s[..|s| - 1], s[|s| - 1];
      DistinctCount(init);
      assert ToSet(s) == ToSet(init) + {x};
    }
  }

  /** A selected batch is as large as the limit allows and leaves behind nothing that comes strictly before it. */
  lemma BatchIsBest(jobs: Table, locked: set<JobId>, now: int, limit: nat, batch: set<JobId>)
    requires Selects(jobs, locked, now, limit, batch)
    ensures batch <= Candidates(jobs, locked, now)
    ensures |batch| == Min(limit, |Candidates(jobs, locked, now)|)
    ensures forall x, y :: x in batch && y in Candidates(jobs, locked, now) && y !in batch ==> !Before(jobs[y], jobs[x])
  {
    var all := Candidates(jobs, locked, now);
    var order :| Arrangement(jobs, all, order) && batch == ToSet(order[..Min(limit, |order|)]);
    var n := Min(limit, |order|);
    DistinctCount(order);
    DistinctCount(order[..n]);
    forall x, y | x in batch && y in all && y !in batch ensures !Before(jobs[y], jobs[x]) {
      var i :| 0 <= i < n && order[..n][i] == x;
      assert y in order;
      var j :| 0 <= j < |order| && order[j] == y;
      assert forall m :: 0 <= m < n ==> order[..n][m] == order[m];
      assert order[i] == x;
    }
  }

  /** From the most to the least urgent. */
  const URGENCY := [CRITICAL, HIGH, MEDIUM, LOW, BACKGROUND]

  /** What the query demands of a row, column by column. */
  ghost predicate Claimable(r: Row, now: int) {
    && r.status == PENDING
    && (r.scheduledAt == None || exists t :: r.scheduledAt == Some(t) && t <= now)
    && r.resolvedCount == r.dependencyCount
  }

  /** Row `y` does not precede row `x` in urgency, then in schedule with missing ones last, then in age. */
  ghost predicate NoEarlier(x: Row, y: Row) {
    && (forall i, j :: 0 <= j < i < |URGENCY| ==> x.priority != URGENCY[i] || y.priority != URGENCY[j])
    && (x.priority == y.priority && y.scheduledAt.Some? ==> x.scheduledAt.Some?)
    && (x.priority == y.priority && y.scheduledAt.Some? && x.scheduledAt.Some? ==>
          x.scheduledAt.value <= y.scheduledAt.value)
    && (x.priority == y.priority && x.scheduledAt == y.scheduledAt ==> x.createdAt <= y.createdAt)
  }

  lemma RankIsUrgency(i: nat)
    requires i < |URGENCY|
    ensures Rank(URGENCY[i]) == i + 1
  {}

  lemma NotBeforeMeansNoEarlier(x: Row, y: Row)
    ensures !Before(y, x) <==> NoEarlier(x, y)
  {
    assert URGENCY[0] == CRITICAL && URGENCY[1] == HIGH && URGENCY[2] == MEDIUM && URGENCY[3] == LOW
           && URGENCY[4] == BACKGROUND;
    assert exists i :: 0 <= i < |URGENCY| && x.priority == URGENCY[i];
    assert exists j :: 0 <= j < |URGENCY| && y.priority == URGENCY[j];
    forall i | 0 <= i < |URGENCY| ensures Rank(URGENCY[i]) == i + 1 { RankIsUrgency(i); }
  }

  /**
   * A claim, column by column: it takes only unlocked PENDING rows that are due and whose dependencies are all
   * counted, at most `limit` of them; it leaves such a row behind only when it is full, and never one that comes
   * before a claimed one.
   */
  ghost predicate TakesExactly(jobs: Table, locked: set<JobId>, now: int, limit: nat, batch: set<JobId>) {
    && |batch| <= limit
    && (forall x :: x in batch ==> x in jobs && x !in locked && Claimable(jobs[x], now))
    && (forall y :: y in jobs && y !in locked && Claimable(jobs[y], now) && y !in batch ==> |batch| == limit)
    && (forall x, y :: x in batch && y in jobs && y !in locked && Claimable(jobs[y], now) && y !in batch ==>
          NoEarlier(jobs[x], jobs[y]))
  }

  lemma ClaimIsExact(jobs: Table, locked: set<JobId>, now: int, limit: nat, batch: set<JobId>)
    requires Selects(jobs, locked, now, limit, batch)
    ensures TakesExactly(jobs, locked, now, limit, batch)
  {
    BatchIsBest(jobs, locked, now, limit, batch);
    forall x | x in jobs ensures Eligible(jobs[x], now) <==> Claimable(jobs[x], now) {}
    var all := Candidates(jobs, locked, now);
    forall y | y in jobs && y !in locked && Claimable(jobs[y], now) && y !in batch
      ensures |batch| == limit && forall x :: x in batch ==> NoEarlier(jobs[x], jobs[y])
    {
      assert y in all;
      SmallerSubset(batch, all, y);
      forall x | x in batch ensures NoEarlier(jobs[x], jobs[y]) { NotBeforeMeansNoEarlier(jobs[x], jobs[y]); }
    }
  }

  lemma SmallerSubset(a: set<JobId>, b: set<JobId>, y: JobId)
    requires a <= b && y in b && y !in a
    ensures |a| < |b|
  {
    ProperCount(a, b - {y});
  }

  lemma {:induction false} ProperCount(a: set<JobId>, b: set<JobId>)
    requires a <= b
    ensures |a| <= |b|
    decreases |a|
  {
    if a != {} {
      HasMember(a);
      var x :| x in a;
      ProperCount(a - {x}, b - {x});
    }
  }

  // ---- any number of schedulers ---------------------------------------------------------------

  type Txn = int

  /** An open claim: the rows it has locked, under which limit and at which time. */
  datatype Claim = Claim(limit: nat, now: int, batch: set<JobId>)

  datatype State = State(jobs: Table, open: map<Txn, Claim>)

  datatype Step =
    | Lock(t: Txn, claim: Claim)
    | Commit(t: Txn)
    | Abort(t: Txn)
    | Write(id: JobId, row: Row)      // any other statement that inserts or updates a row

  function Locked(s: State): set<JobId> {
    set t, x | t in s.open && x in s.open[t].batch :: x
  }

  ghost predicate Enabled(s: State, step: Step) {
    match step
    case Lock(t, c) => t !in s.open && Selects(s.jobs, Locked(s), c.now, c.limit, c.batch)
    case Commit(t) => t in s.open
    case Abort(t) => t in s.open
    // Row locks hold writers back, and the claim query is the only statement that writes QUEUED.
    case Write(id, row) => id !in Locked(s) && (row.status.QUEUED? ==> id in s.jobs && s.jobs[id].status.QUEUED?)
  }

  function Queued(jobs: Table, batch: set<JobId>): Table {
    map x | x in jobs :: if x in batch then jobs[x].(status := QUEUED) else jobs[x]
  }

  function Apply(s: State, step: Step): State
    requires step.Commit? || step.Abort? ==> step.t in s.open
  {
    match step
    case Lock(t, c) => s.(open := s.open[t := c])
    case Commit(t) => State(Queued(s.jobs, s.open[t].batch), s.open - {t})
    case Abort(t) => s.(open := s.open - {t})
    case Write(id, row) => s.(jobs := s.jobs[id := row])
  }

  /** run[0] holds no locks, and each state follows from the one before by an enabled step. */
  ghost predicate IsRun(run: seq<State>, steps: seq<Step>) {
    && |run| == |steps| + 1
    && run[0].open == map[]
    && (forall i :: 0 <= i < |steps| ==> Enabled(run[i], steps[i]))
    && (forall i :: 0 <= i < |steps| ==> run[i + 1] == Apply(run[i], steps[i]))
  }

  ghost predicate Consistent(s: State) {
    && (forall t, u, x :: t in s.open && u in s.open && x in s.open[t].batch && x in s.open[u].batch ==> t == u)
    && (forall t, x :: t in s.open && x in s.open[t].batch ==> x in s.jobs && Eligible(s.jobs[x], s.open[t].now))
    && (forall t :: t in s.open ==> |s.open[t].batch| <= s.open[t].limit)
  }

  lemma StepConsistent(s: State, step: Step)
    requires Consistent(s) && Enabled(s, step)
    ensures Consistent(Apply(s, step))
  {
    match step
    case Lock(t, c) =>
      BatchIsBest(s.jobs, Locked(s), c.now, c.limit, c.batch);
      forall u, x | u in s.open && x in s.open[u].batch ensures x !in c.batch {
        assert x in Locked(s);
      }
    case Commit(t) =>
    case Abort(t) =>
    case Write(id, row) =>
      forall u, x | u in s.open && x in s.open[u].batch ensures x != id {
        assert x in Locked(s);
      }
  }

  /** In every reachable state the open claims are disjoint, within their limits, and their rows still eligible. */
  lemma {:induction false} RunConsistent(run: seq<State>, steps: seq<Step>, n: nat)
    requires IsRun(run, steps) && n < |run|
    ensures Consistent(run[n])
  {
    if n > 0 {
      RunConsistent(run, steps, n - 1);
      assert run[n - 1 + 1] == Apply(run[n - 1], steps[n - 1]);
      StepConsistent(run[n - 1], steps[n - 1]);
    }
  }

  /** Step `i` moves row `x` from PENDING to QUEUED. */
  ghost predicate Moved(run: seq<State>, i: nat, x: JobId)
    requires i + 1 < |run|
  {
    && x in run[i].jobs && run[i].jobs[x].status.PENDING?
    && x in run[i + 1].jobs && run[i + 1].jobs[x].status.QUEUED?
  }

  /** Step `i` returns `x` in a claimed batch. */
  ghost predicate Returned(run: seq<State>, steps: seq<Step>, i: nat, x: JobId)
    requires i < |run| && i < |steps|
  {
    steps[i].Commit? && steps[i].t in run[i].open && x in run[i].open[steps[i].t].batch
  }

  /**
   * Over every run of any number of schedulers: a row moves from PENDING to QUEUED exactly at the steps that
   * return it in a batch. So every such move is in one returned batch, and no batch returns a row it did not move.
   */
  lemma MovedExactlyWhenReturned(run: seq<State>, steps: seq<Step>, i: nat, x: JobId)
    requires IsRun(run, steps) && i < |steps|
    ensures Moved(run, i, x) <==> Returned(run, steps, i, x)
  {
    RunConsistent(run, steps, i);
    assert Enabled(run[i], steps[i]);
    assert run[i + 1] == Apply(run[i], steps[i]);
  }

  /** What each step does to the table and to the open claims, and nothing else. */
  lemma StepIsExact(run: seq<State>, steps: seq<Step>, i: nat, x: JobId)
    requires IsRun(run, steps) && i < |steps|
    ensures steps[i].Write? && steps[i].id == x ==> x in run[i + 1].jobs && run[i + 1].jobs[x] == steps[i].row
    ensures !(steps[i].Write? && steps[i].id == x) ==>
              && (x in run[i + 1].jobs <==> x in run[i].jobs)
              && (x in run[i].jobs ==>
                    run[i + 1].jobs[x] ==
                    if Returned(run, steps, i, x) then run[i].jobs[x].(status := QUEUED) else run[i].jobs[x])
    ensures forall t :: t in run[i + 1].open <==>
              (steps[i].Lock? && steps[i].t == t) ||
              (t in run[i].open && !((steps[i].Commit? || steps[i].Abort?) && steps[i].t == t))
  {
    assert Enabled(run[i], steps[i]);
    assert run[i + 1] == Apply(run[i], steps[i]);
  }

  ghost function Moves(run: seq<State>, n: nat, x: JobId): nat
    requires n < |run|
  {
    if n == 0 then 0 else Moves(run, n - 1, x) + if Moved(run, n - 1, x) then 1 else 0
  }

  ghost function Returns(run: seq<State>, steps: seq<Step>, n: nat, x: JobId): nat
    requires n < |run| == |steps| + 1
  {
    if n == 0 then 0 else Returns(run, steps, n - 1, x) + if Returned(run, steps, n - 1, x) then 1 else 0
  }

  lemma {:induction false} AsManyMovesAsReturns(run: seq<State>, steps: seq<Step>, n: nat, x: JobId)
    requires IsRun(run, steps) && n < |run|
    ensures Moves(run, n, x) == Returns(run, steps, n, x)
  {
    if n > 0 {
      AsManyMovesAsReturns(run, steps, n - 1, x);
      MovedExactlyWhenReturned(run, steps, n - 1, x);
    }
  }

  /** Two different claims that are open at the same time never hold, and so never return, the same row. */
  lemma OpenClaimsDisjoint(run: seq<State>, steps: seq<Step>, n: nat, t: Txn, u: Txn)
    requires IsRun(run, steps) && n < |run| && t in run[n].open && u in run[n].open && t != u
    ensures run[n].open[t].batch !! run[n].open[u].batch
    ensures |run[n].open[t].batch| <= run[n].open[t].limit
    ensures forall x :: x in run[n].open[t].batch ==> x in run[n].jobs && Eligible(run[n].jobs[x], run[n].open[t].now)
  {
    RunConsistent(run, steps, n);
    assert forall x :: x in run[n].open[t].batch ==> x !in run[n].open[u].batch;
  }

  // ---- the heap selects the same jobs ---------------------------------------------------------

  /** The heap key of a row that is eligible at `now`: a missing schedule ranks after every due one. */
  function HeapKey(r: Row, now: int): Key {
    Key(Rank(r.priority), if r.scheduledAt.Some? then r.scheduledAt.value else now + 1, r.createdAt)
  }

  lemma HeapKeyOrdersLikeQuery(a: Row, b: Row, now: int)
    requires Eligible(a, now) && Eligible(b, now)
    ensures Before(a, b) <==> Compare(HeapKey(a, now), HeapKey(b, now)) < 0
  {}

  function ItemsOf(jobs: Table, order: seq<JobId>, now: int): (items: seq<Item<JobId>>)
    requires forall i :: 0 <= i < |order| ==> order[i] in jobs
    ensures |items| == |order|
    ensures forall i :: 0 <= i < |order| ==> items[i] == Item(HeapKey(jobs[order[i]], now), order[i])
  {
    seq(|order|, i requires 0 <= i < |order| => Item(HeapKey(jobs[order[i]], now), order[i]))
  }

  lemma {:induction false} AtMostLength<T>(s: seq<T>)
    ensures |ToSet(s)| <= |s|
  {
    if s != [] {
      AtMostLength(s[..|s| - 1]);
      assert ToSet(s) == ToSet(s[..|s| - 1]) + {s[|s| - 1]};
    }
  }

  lemma {:induction false} FullCountIsDistinct<T>(s: seq<T>)
    requires |ToSet(s)| == |s|
    ensures NoDuplicates(s)
  {
    if s != [] {
      var init, x := s[..|s| - 1], s[|s| - 1];
      AtMostLength(init);
      assert ToSet(s) == ToSet(init) + {x};
      FullCountIsDistinct(init);
      assert x !in ToSet(init);
    }
  }

  function IdsOf(items: seq<Item<JobId>>): (ids: seq<JobId>)
    ensures |ids| == |items| && forall i :: 0 <= i < |items| ==> ids[i] == items[i].data
  {
    seq(|items|, i requires 0 <= i < |items| => items[i].data)
  }

  lemma SameMembers(s: seq<Item<JobId>>, t: seq<Item<JobId>>)
    requires multiset(s) == multiset(t)
    ensures |s| == |t|
    ensures forall x :: x in s <==> x in t
  {
    assert |multiset(s)| == |s| && |multiset(t)| == |t|;
    forall x ensures x in s <==> x in t {
      assert x in s <==> x in multiset(s);
      assert x in t <==> x in multiset(t);
    }
  }

  /** Items carry their rows' keys, in whatever order they stand. */
  ghost predicate CarriesKeys(jobs: Table, now: int, items: seq<Item<JobId>>) {
    forall i :: 0 <= i < |items| ==> items[i].data in jobs && items[i].key == HeapKey(jobs[items[i].data], now)
  }

  lemma PermutedItems(jobs: Table, now: int, ids: seq<JobId>, sorted: seq<Item<JobId>>)
    requires forall i :: 0 <= i < |ids| ==> ids[i] in jobs
    requires multiset(sorted) == multiset(ItemsOf(jobs, ids, now))
    ensures |sorted| == |ids| && CarriesKeys(jobs, now, sorted) && ToSet(IdsOf(sorted)) == ToSet(ids)
  {
    var items, order := ItemsOf(jobs, ids, now), IdsOf(sorted);
    SameMembers(sorted, items);
    forall i | 0 <= i < |sorted|
      ensures sorted[i].data in ids && sorted[i].data in jobs && sorted[i].key == HeapKey(jobs[sorted[i].data], now)
    {
      assert sorted[i] in items;
      var k :| 0 <= k < |items| && items[k] == sorted[i];
    }
    forall x | x in ids ensures x in order {
      var k :| 0 <= k < |ids| && ids[k] == x;
      assert items[k] in sorted;
      var i :| 0 <= i < |sorted| && sorted[i] == items[k];
      assert order[i] == x;
    }
    forall x | x in order ensures x in ids {
      var i :| 0 <= i < |order| && order[i] == x;
      assert sorted[i].data == x;
    }
  }

  lemma SortedByQueryOrder(jobs: Table, now: int, sorted: seq<Item<JobId>>)
    requires CarriesKeys(jobs, now, sorted) && Sorted(sorted)
    requires forall i :: 0 <= i < |sorted| ==> Eligible(jobs[sorted[i].data], now)
    ensures forall i, j :: 0 <= i < j < |sorted| ==> !Before(jobs[sorted[j].data], jobs[sorted[i].data])
  {}

  /** Any sorting of the candidates by heap key is an arrangement the query allows. */
  lemma SortedIsArrangement(jobs: Table, now: int, ids: seq<JobId>, locked: set<JobId>, sorted: seq<Item<JobId>>)
    requires NoDuplicates(ids) && ToSet(ids) == Candidates(jobs, locked, now)
    requires forall i :: 0 <= i < |ids| ==> ids[i] in jobs
    requires Sorted(sorted) && multiset(sorted) == multiset(ItemsOf(jobs, ids, now))
    ensures Arrangement(jobs, Candidates(jobs, locked, now), IdsOf(sorted))
  {
    var order := IdsOf(sorted);
    PermutedItems(jobs, now, ids, sorted);
    DistinctCount(ids);
    FullCountIsDistinct(order);
    forall i | 0 <= i < |order| ensures order[i] in Candidates(jobs, locked, now) {
      assert order[i] in ToSet(order);
    }
    SortedByQueryOrder(jobs, now, sorted);
  }

  lemma HasMember(s: set<JobId>)
    requires s != {}
    ensures exists x :: x in s
  {
    assert (forall x :: x !in s) ==> s == {};
  }

  /** The members of a set in some order. */
  method ListOf(s: set<JobId>) returns (ids: seq<JobId>)
    ensures NoDuplicates(ids) && ToSet(ids) == s
  {
    var todo := s;
    ids := [];
    while todo != {}
      invariant ToSet(ids) <= s && todo == s - ToSet(ids)
      invariant NoDuplicates(ids)
      decreases |todo|
    {
      HasMember(todo);
      var x :| x in todo;
      todo := todo - {x};
      assert ToSet(ids + [x]) == ToSet(ids) + {x};
      assert x !in ToSet(ids);
      ids := ids + [x];
    }
  }

  /** The claim statement on a table where `locked` rows are skipped: selects, moves to QUEUED and returns a batch. */
  method ClaimPendingJobs(jobs: Table, locked: set<JobId>, now: int, limit: nat)
    returns (after: Table, batch: set<JobId>)
    ensures Selects(jobs, locked, now, limit, batch) && TakesExactly(jobs, locked, now, limit, batch)
    ensures after.Keys == jobs.Keys
    ensures forall x :: x in jobs ==> after[x] == if x in batch then jobs[x].(status := QUEUED) else jobs[x]
  {
    var ids := ListOf(Candidates(jobs, locked, now));
    forall i | 0 <= i < |ids| ensures ids[i] in jobs {
      assert ids[i] in ToSet(ids);
    }
    var order := IdsOf(SortByKey(ItemsOf(jobs, ids, now)));
    SortedIsArrangement(jobs, now, ids, locked, SortByKey(ItemsOf(jobs, ids, now)));
    batch := ToSet(order[..Min(limit, |order|)]);
    after := Queued(jobs, batch);
    ClaimIsExact(jobs, locked, now, limit, batch);
  }

  /** Pushes all items into an empty queue and pops up to `k` of them. */
  method SelectByHeap(items: seq<Item<JobId>>, k: nat) returns (out: seq<Item<JobId>>, ghost rest: seq<Item<JobId>>)
    ensures Sorted(out) && |out| == Min(k, |items|)
    ensures multiset(out) + multiset(rest) == multiset(items)
    ensures forall x, y :: x in out && y in rest ==> Leq(x.key, y.key)
  {
    var q := new PriorityQueue<JobId>();
    for i := 0 to |items|
      invariant q.Valid() && fresh(q)
      invariant multiset(q.heap) == multiset(items[..i])
    {
      assert items[..i + 1] == items[..i] + [items[i]];
      q.Push(items[i]);
    }
    assert items[..|items|] == items;
    assert |q.heap| == |items| by {
      assert |multiset(q.heap)| == |q.heap| && |multiset(items)| == |items|;
    }
    out := q.PopMany(k);
    rest := q.heap;
  }

  lemma SortedConcat<T>(a: seq<Item<T>>, b: seq<Item<T>>)
    requires Sorted(a) && Sorted(b) && forall x, y :: x in a && y in b ==> Leq(x.key, y.key)
    ensures Sorted(a + b)
  {}

  /**
   * What k pops select from a queue loaded with the eligible rows, in any loading order, has exactly the keys
   * of what an uncontended claim with limit k selects, whichever way the query breaks ties.
   */
  lemma HeapMatchesClaim(jobs: Table, now: int, limit: nat, order: seq<JobId>,
                         items: seq<Item<JobId>>, out: seq<Item<JobId>>, rest: seq<Item<JobId>>)
    requires Arrangement(jobs, Candidates(jobs, {}, now), order)
    requires multiset(items) == multiset(ItemsOf(jobs, order, now))
    requires Sorted(out) && |out| == Min(limit, |items|) && multiset(out) + multiset(rest) == multiset(items)
    requires forall x, y :: x in out && y in rest ==> Leq(x.key, y.key)
    ensures Keys(out) == Keys(ItemsOf(jobs, order, now))[..Min(limit, |order|)]
  {
    ArrangementSorted(jobs, {}, now, order);
    PrefixKeys(out, rest, ItemsOf(jobs, order, now));
    SameMembers(items, ItemsOf(jobs, order, now));
  }

  lemma ArrangementSorted(jobs: Table, locked: set<JobId>, now: int, order: seq<JobId>)
    requires Arrangement(jobs, Candidates(jobs, locked, now), order)
    ensures Sorted(ItemsOf(jobs, order, now))
  {
    forall i, j | 0 <= i < j < |order| ensures Leq(HeapKey(jobs[order[i]], now), HeapKey(jobs[order[j]], now)) {
      assert order[i] in ToSet(order) && order[j] in ToSet(order);
      HeapKeyOrdersLikeQuery(jobs[order[j]], jobs[order[i]], now);
    }
  }

  /** Sorted items that come before all the rest have the first keys of any sorted list of everything. */
  lemma PrefixKeys(out: seq<Item<JobId>>, rest: seq<Item<JobId>>, listed: seq<Item<JobId>>)
    requires Sorted(out) && Sorted(listed) && multiset(out) + multiset(rest) == multiset(listed)
    requires forall x, y :: x in out && y in rest ==> Leq(x.key, y.key)
    ensures |out| <= |listed| && Keys(out) == Keys(listed)[..|out|]
  {
    var tail := SortByKey(rest);
    SameMembers(tail, rest);
    SortedConcat(out, tail);
    assert multiset(out + tail) == multiset(out) + multiset(rest);
    SameMembers(out + tail, listed);
    PopsMatchToArray(out + tail, listed);
    assert Keys(out + tail)[..|out|] == Keys(out);
  }

  /** What the pops leave, sorted behind them, is an arrangement that starts with them. */
  lemma PopsAreSelected(jobs: Table, now: int, limit: nat, ids: seq<JobId>,
                        out: seq<Item<JobId>>, rest: seq<Item<JobId>>)
    requires NoDuplicates(ids) && ToSet(ids) == Candidates(jobs, {}, now)
    requires forall i :: 0 <= i < |ids| ==> ids[i] in jobs
    requires Sorted(out) && |out| == Min(limit, |ids|)
    requires multiset(out) + multiset(rest) == multiset(ItemsOf(jobs, ids, now))
    requires forall x, y :: x in out && y in rest ==> Leq(x.key, y.key)
    ensures Selects(jobs, {}, now, limit, ToSet(IdsOf(out))) && CarriesKeys(jobs, now, out)
  {
    var tail := SortByKey(rest);
    SameMembers(tail, rest);
    SortedConcat(out, tail);
    var sorted := out + tail;
    assert multiset(sorted) == multiset(out) + multiset(rest);
    SameMembers(sorted, ItemsOf(jobs, ids, now));
    SortedIsArrangement(jobs, now, ids, {}, sorted);
    assert IdsOf(sorted)[..|out|] == IdsOf(out);
    PermutedItems(jobs, now, ids, sorted);
    assert forall i :: 0 <= i < |out| ==> out[i] == sorted[i];
  }

  /** Two arrangements of one set of rows list the same items. */
  lemma SameItems(jobs: Table, now: int, ids: seq<JobId>, order: seq<JobId>)
    requires NoDuplicates(ids) && NoDuplicates(order) && ToSet(ids) == ToSet(order)
    requires forall i :: 0 <= i < |ids| ==> ids[i] in jobs
    requires forall i :: 0 <= i < |order| ==> order[i] in jobs
    ensures multiset(ItemsOf(jobs, ids, now)) == multiset(ItemsOf(jobs, order, now))
  {
    var a, b := ItemsOf(jobs, ids, now), ItemsOf(jobs, order, now);
    DistinctOnce(a);
    DistinctOnce(b);
    forall x ensures x in a <==> x in b {
      if x in a { assert x.data in ToSet(ids); }
      if x in b { assert x.data in ToSet(order); }
    }
  }

  lemma {:induction false} DistinctOnce<T>(s: seq<T>)
    requires NoDuplicates(s)
    ensures forall x :: multiset(s)[x] == if x in s then 1 else 0
  {
    if s != [] {
      var init, y := s[..|s| - 1], s[|s| - 1];
      DistinctOnce(init);
      assert s == init + [y];
    }
  }

  /** The items have exactly the keys, in order, of whatever an uncontended claim may select. */
  ghost predicate MatchesEveryClaim(jobs: Table, now: int, limit: nat, out: seq<Item<JobId>>) {
    forall order :: Arrangement(jobs, Candidates(jobs, {}, now), order) ==>
      Keys(out) == Keys(ItemsOf(jobs, order, now))[..Min(limit, |order|)]
  }

  lemma PopsMatchEveryClaim(jobs: Table, now: int, limit: nat, ids: seq<JobId>,
                            out: seq<Item<JobId>>, rest: seq<Item<JobId>>)
    requires NoDuplicates(ids) && ToSet(ids) == Candidates(jobs, {}, now)
    requires forall i :: 0 <= i < |ids| ==> ids[i] in jobs
    requires Sorted(out) && |out| == Min(limit, |ids|)
    requires multiset(out) + multiset(rest) == multiset(ItemsOf(jobs, ids, now))
    requires forall x, y :: x in out && y in rest ==> Leq(x.key, y.key)
    ensures MatchesEveryClaim(jobs, now, limit, out)
  {
    forall order | Arrangement(jobs, Candidates(jobs, {}, now), order)
      ensures Keys(out) == Keys(ItemsOf(jobs, order, now))[..Min(limit, |order|)]
    {
      SameItems(jobs, now, ids, order);
      HeapMatchesClaim(jobs, now, limit, order, ItemsOf(jobs, ids, now), out, rest);
    }
  }

  /**
   * Loads a queue with the eligible rows and pops `limit` of them. The popped rows are a batch that an uncontended
   * claim may select, and their keys, in order, are those of every batch it may select, however ties fall.
   */
  method ClaimByHeap(jobs: Table, now: int, limit: nat) returns (out: seq<Item<JobId>>)
    ensures CarriesKeys(jobs, now, out)
    ensures Selects(jobs, {}, now, limit, ToSet(IdsOf(out)))
    ensures MatchesEveryClaim(jobs, now, limit, out)
  {
    var ids := ListOf(Candidates(jobs, {}, now));
    forall i | 0 <= i < |ids| ensures ids[i] in jobs {
      assert ids[i] in ToSet(ids);
    }
    ghost var rest;
    out, rest := SelectByHeap(ItemsOf(jobs, ids, now), limit);
    PopsAreSelected(jobs, now, limit, ids, out, rest);
    PopsMatchEveryClaim(jobs, now, limit, ids, out, rest);
  }
}

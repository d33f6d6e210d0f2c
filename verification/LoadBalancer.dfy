/** Worker selection: the eligibility filter, the four strategies, and what they guarantee over runs of assignments. */
module LoadBalancing {
  import opened Domain

  datatype WorkerStatus = ONLINE | BUSY | DRAINING | OFFLINE | LOST

  type JobType = int
  const CUSTOM: JobType := 0

  datatype Worker = Worker(id: int, status: WorkerStatus, currentJobCount: nat, maxConcurrency: nat,
                           jobTypes: seq<JobType>, region: string, labels: map<string, string>)

  /** `region` and `requiredLabels` are the affinity hints of the job's metadata; an empty region is no hint. */
  datatype Job = Job(jobType: JobType, region: string, requiredLabels: map<string, string>)

  datatype Strategy = LEAST_LOADED | ROUND_ROBIN | AFFINITY | RANDOM

  predicate Eligible(job: Job, w: Worker) {
    && (w.status.ONLINE? || w.status.BUSY?)
    && w.currentJobCount < w.maxConcurrency
    && (job.jobType in w.jobTypes || CUSTOM in w.jobTypes)
  }

  predicate Matches(job: Job, w: Worker) {
    && (job.region == "" || w.region == job.region)
    && (forall k :: k in job.requiredLabels ==> k in w.labels && w.labels[k] == job.requiredLabels[k])
  }

  function Load(w: Worker): real {
    w.currentJobCount as real / (if w.maxConcurrency >= 1 then w.maxConcurrency else 1) as real
  }

  /** Keeps, in order, the workers that satisfy `p`. */
  function Filter(ws: seq<Worker>, p: Worker -> bool): (r: seq<Worker>)
    ensures forall w :: w in r <==> w in ws && p(w)
  {
    if ws == [] then []
    else
      assert ws == ws[..|ws| - 1] + [ws[|ws| - 1]];
      Filter(ws[..|ws| - 1], p) + if p(ws[|ws| - 1]) then [ws[|ws| - 1]] else []
  }

  /** `r` lists the workers at positions `at`: exactly the positions that satisfy `p`, each once and in order. */
  ghost predicate Picked(ws: seq<Worker>, p: Worker -> bool, r: seq<Worker>, at: seq<nat>) {
    && |at| == |r|
    && (forall i :: 0 <= i < |at| ==> at[i] < |ws| && r[i] == ws[at[i]])
    && (forall i, j :: 0 <= i < j < |at| ==> at[i] < at[j])
    && (forall k :: 0 <= k < |ws| ==> (k in at <==> p(ws[k])))
  }

  lemma PickedOneMore(ws: seq<Worker>, p: Worker -> bool, r: seq<Worker>, at: seq<nat>, w: Worker)
    requires Picked(ws, p, r, at)
    ensures if p(w) then Picked(ws + [w], p, r + [w], at + [|ws|]) else Picked(ws + [w], p, r, at)
  {
    var all := ws + [w];
    assert all[|ws|] == w && forall k :: 0 <= k < |ws| ==> all[k] == ws[k];
    assert forall k :: k in at ==> k < |ws|;
    assert forall k :: k in at + [|ws|] <==> k in at || k == |ws|;
  }

  /** The filter keeps the order and the multiplicity of what it keeps. */
  lemma {:induction false} FilterKeepsOrder(ws: seq<Worker>, p: Worker -> bool) returns (at: seq<nat>)
    ensures Picked(ws, p, Filter(ws, p), at)
  {
    at := [];
    if ws != [] {
      var init, w := ws[..|ws| - 1], ws[|ws| - 1];
      at := FilterKeepsOrder(init, p);
      PickedOneMore(init, p, Filter(init, p), at, w);
      assert ws == init + [w];
      if p(w) { at := at + [|init|]; } else { assert Filter(init, p) + [] == Filter(init, p); }
    }
  }

  function FilterEligible(job: Job, ws: seq<Worker>): (r: seq<Worker>)
    ensures forall w :: w in r <==> w in ws && Eligible(job, w)
  {
    Filter(ws, w => Eligible(job, w))
  }

  ghost predicate IsLeastLoaded(w: Worker, ws: seq<Worker>) {
    w in ws && forall v :: v in ws ==> Load(w) <= Load(v)
  }

  /** The first one among the least loaded. */
  ghost predicate IsFirstLeast(w: Worker, ws: seq<Worker>) {
    IsLeastLoaded(w, ws) && exists k :: 0 <= k < |ws| && ws[k] == w && forall j :: 0 <= j < k ==> Load(ws[j]) > Load(w)
  }

  /** The worker is up, has room and can run the job. */
  ghost predicate CanTake(job: Job, w: Worker) {
    && w.status != DRAINING && w.status != OFFLINE && w.status != LOST
    && w.maxConcurrency > w.currentJobCount
    && (exists t :: t in w.jobTypes && (t == job.jobType || t == CUSTOM))
  }

  /** It is where the job wants to run, as far as the job says, and carries the labels the job asks for. */
  ghost predicate Suits(job: Job, w: Worker) {
    && (job.region != "" ==> w.region == job.region)
    && job.requiredLabels.Items <= w.labels.Items
  }

  lemma EligibleExactly(job: Job, w: Worker)
    ensures Eligible(job, w) <==> CanTake(job, w)
    ensures Matches(job, w) <==> Suits(job, w)
  {
    var wanted, has := job.requiredLabels, w.labels;
    if wanted.Items <= has.Items {
      forall k | k in wanted ensures k in has && has[k] == wanted[k] { assert (k, wanted[k]) in wanted.Items; }
    }
  }

  /** The reduction over the list; among equally loaded workers the first one stays. */
  method LeastLoaded(ws: seq<Worker>) returns (best: Worker, ghost at: nat)
    requires ws != []
    ensures IsFirstLeast(best, ws)
    ensures at < |ws| && ws[at] == best && forall k :: 0 <= k < at ==> Load(ws[k]) > Load(best)
  {
    best, at := ws[0], 0;
    for i := 1 to |ws|
      invariant at < i && ws[at] == best
      invariant forall k :: 0 <= k < i ==> Load(best) <= Load(ws[k])
      invariant forall k :: 0 <= k < at ==> Load(ws[k]) > Load(best)
    {
      if Load(ws[i]) < Load(best) {
        best, at := ws[i], i;
      }
    }
  }

  class LoadBalancer {
    var rrIndex: nat
    const strategy: Strategy

    constructor (strategy: Strategy)
      ensures rrIndex == 0 && this.strategy == strategy
    {
      this.strategy := strategy;
      rrIndex := 0;
    }

    method RoundRobin(ws: seq<Worker>) returns (w: Worker)
      requires ws != []
      modifies this
      ensures w == ws[old(rrIndex) % |ws|] && rrIndex == (old(rrIndex) + 1) % |ws|
    {
      var idx := rrIndex % |ws|;
      rrIndex := (rrIndex + 1) % |ws|;
      w := ws[idx];
    }

    method Affinity(job: Job, ws: seq<Worker>) returns (w: Worker)
      requires ws != []
      ensures w in ws
      ensures if exists v :: v in ws && Matches(job, v)
              then Matches(job, w) && IsFirstLeast(w, Filter(ws, v => Matches(job, v)))
              else IsFirstLeast(w, ws)
    {
      var matching := Filter(ws, v => Matches(job, v));
      ghost var at;
      if matching != [] {
        w, at := LeastLoaded(matching);
      } else {
        w, at := LeastLoaded(ws);
        assert forall v :: v in ws ==> !Matches(job, v) by {
          forall v | v in ws ensures !Matches(job, v) { assert v !in matching; }
        }
      }
    }

    /** Refuses exactly when no worker is eligible; otherwise an eligible worker, the best one where load decides. */
    method SelectWorker(job: Job, workers: seq<Worker>) returns (w: Option<Worker>)
      modifies this
      ensures w.None? <==> forall v :: v in workers ==> !CanTake(job, v)
      ensures w.Some? ==> w.value in workers && CanTake(job, w.value)
      ensures w.Some? && strategy.LEAST_LOADED? ==> IsFirstLeast(w.value, FilterEligible(job, workers))
      ensures w.Some? && strategy.AFFINITY? ==>
                var e := FilterEligible(job, workers);
                if exists v :: v in workers && CanTake(job, v) && Suits(job, v)
                then Suits(job, w.value) && IsFirstLeast(w.value, Filter(e, v => Matches(job, v)))
                else IsFirstLeast(w.value, e)
      ensures w.Some? && strategy.ROUND_ROBIN? ==>
                var e := FilterEligible(job, workers);
                e != [] && w.value == e[old(rrIndex) % |e|] && rrIndex == (old(rrIndex) + 1) % |e|
      ensures w.None? || !strategy.ROUND_ROBIN? ==> rrIndex == old(rrIndex)
    {
      var eligible := FilterEligible(job, workers);
      forall v ensures Eligible(job, v) <==> CanTake(job, v) { EligibleExactly(job, v); }
      forall v ensures Matches(job, v) <==> Suits(job, v) { EligibleExactly(job, v); }
      if eligible == [] {
        forall v | v in workers ensures !Eligible(job, v) { assert v !in eligible; }
        return None;
      }
      assert eligible[0] in eligible;
      ghost var at;
      var chosen;
      match strategy {
        case LEAST_LOADED => chosen, at := LeastLoaded(eligible);
        case ROUND_ROBIN => chosen := RoundRobin(eligible);
        case AFFINITY => chosen := Affinity(job, eligible);
        case RANDOM =>
          var k :| 0 <= k < |eligible|;
          chosen := eligible[k];
      }
      w := Some(chosen);
    }
  }

  // ---- balance of least-loaded assignment -----------------------------------------------------

  /** The table's counter update; it never goes below zero. */
  function Incremented(w: Worker, delta: int): Worker {
    w.(currentJobCount := if w.currentJobCount + delta >= 0 then w.currentJobCount + delta else 0)
  }

  predicate Serves(job: Job, w: Worker) {
    (w.status.ONLINE? || w.status.BUSY?) && (job.jobType in w.jobTypes || CUSTOM in w.jobTypes)
  }

  /** The balancer picked worker `i` for the job, by load. */
  ghost predicate Picks(job: Job, ws: seq<Worker>, i: nat) {
    && i < |ws| && Eligible(job, ws[i])
    && (forall j :: 0 <= j < |ws| && Eligible(job, ws[j]) ==> Load(ws[i]) <= Load(ws[j]))
  }

  /** One assignment: pick by load and count one more, or refuse because no worker is eligible. */
  ghost predicate Assigns(job: Job, ws: seq<Worker>, pick: Option<nat>, next: seq<Worker>) {
    if pick.Some? then Picks(job, ws, pick.value) && next == ws[pick.value := Incremented(ws[pick.value], 1)]
    else (forall j :: 0 <= j < |ws| ==> !Eligible(job, ws[j])) && next == ws
  }

  ghost predicate IsAssignmentRun(run: seq<seq<Worker>>, jobs: seq<Job>, picks: seq<Option<nat>>) {
    && |run| == |jobs| + 1 == |picks| + 1
    && (forall j :: 0 <= j < |run[0]| ==> run[0][j].currentJobCount == 0)
    && (forall n :: 0 <= n < |jobs| ==> Assigns(jobs[n], run[n], picks[n], run[n + 1]))
    && (forall n, j :: 0 <= n < |jobs| && 0 <= j < |run[0]| ==> Serves(jobs[n], run[0][j]))
  }

  /** For any two workers, taking one job off the first leaves it no fuller than the second. */
  ghost predicate Balanced(ws: seq<Worker>) {
    && (forall i :: 0 <= i < |ws| ==> ws[i].currentJobCount <= ws[i].maxConcurrency)
    && (forall i, j :: 0 <= i < |ws| && 0 <= j < |ws| && ws[i].currentJobCount > 0 ==>
          (ws[i].currentJobCount - 1) * ws[j].maxConcurrency <= ws[j].currentJobCount * ws[i].maxConcurrency)
  }

  /** Loads compare as the shares of capacity in use. */
  lemma LoadCompare(v: Worker, w: Worker)
    requires v.maxConcurrency >= 1 && w.maxConcurrency >= 1
    ensures Load(v) <= Load(w) <==> v.currentJobCount * w.maxConcurrency <= w.currentJobCount * v.maxConcurrency
  {
    var a, m := v.currentJobCount as real, v.maxConcurrency as real;
    var b, n := w.currentJobCount as real, w.maxConcurrency as real;
    CrossMultiply(a, m, b, n);
    assert (v.currentJobCount * w.maxConcurrency) as real == a * n;
    assert (w.currentJobCount * v.maxConcurrency) as real == b * m;
  }

  lemma CrossMultiply(a: real, m: real, b: real, n: real)
    requires m > 0.0 && n > 0.0
    ensures a / m <= b / n <==> a * n <= b * m
  {
    var p, q := a / m, b / n;
    assert a == p * m && b == q * n;
    assert a * n == p * (m * n) && b * m == q * (m * n);
    SignOf(q - p, m * n);
    assert (q - p) * (m * n) == q * (m * n) - p * (m * n);
  }

  lemma SignOf(x: real, y: real)
    requires y > 0.0
    ensures x * y >= 0.0 <==> x >= 0.0
  {
    if x < 0.0 { assert (-x) * y > 0.0; }
  }

  /** Workers never change anything but their counters. */
  ghost predicate SameWorkers(a: seq<Worker>, b: seq<Worker>) {
    |a| == |b| && forall i :: 0 <= i < |a| ==> b[i] == a[i].(currentJobCount := b[i].currentJobCount)
  }

  lemma FullerThanPicked(job: Job, ws: seq<Worker>, i: nat, j: nat)
    requires Picks(job, ws, i) && j < |ws| && Serves(job, ws[j]) && ws[j].currentJobCount <= ws[j].maxConcurrency
    ensures ws[i].currentJobCount * ws[j].maxConcurrency <= ws[j].currentJobCount * ws[i].maxConcurrency
  {
    var a, b, m, n := ws[i].currentJobCount, ws[j].currentJobCount, ws[i].maxConcurrency, ws[j].maxConcurrency;
    if Eligible(job, ws[j]) {
      LoadCompare(ws[i], ws[j]);
    } else {
      assert b == n;
      assert (m - a) * n >= 0;
    }
  }

  lemma PickKeepsBalance(job: Job, ws: seq<Worker>, i: nat)
    requires Balanced(ws) && Picks(job, ws, i) && forall j :: 0 <= j < |ws| ==> Serves(job, ws[j])
    ensures Balanced(ws[i := Incremented(ws[i], 1)])
  {
    var next := ws[i := Incremented(ws[i], 1)];
    forall k, j | 0 <= k < |ws| && 0 <= j < |ws| && next[k].currentJobCount > 0
      ensures (next[k].currentJobCount - 1) * next[j].maxConcurrency <= next[j].currentJobCount * next[k].maxConcurrency
    {
      if k == i && j != i {
        FullerThanPicked(job, ws, i, j);
      } else if k == i {
        assert ws[i].currentJobCount * ws[i].maxConcurrency <= (ws[i].currentJobCount + 1) * ws[i].maxConcurrency;
      } else if j == i {
        assert ws[i].currentJobCount * ws[k].maxConcurrency <= (ws[i].currentJobCount + 1) * ws[k].maxConcurrency;
      }
    }
  }

  /**
   * Starting idle, with every worker able to serve every job: no assignment run exceeds a worker's concurrency, it
   * stays balanced throughout, and it refuses a job only when every worker is full.
   */
  lemma {:induction false} AssignmentsStayBalanced(run: seq<seq<Worker>>, jobs: seq<Job>, picks: seq<Option<nat>>,
                                                   n: nat)
    requires IsAssignmentRun(run, jobs, picks) && n < |run|
    ensures SameWorkers(run[0], run[n]) && Balanced(run[n])
    ensures n < |picks| && picks[n].None? ==>
              forall j :: 0 <= j < |run[n]| ==> run[n][j].currentJobCount == run[n][j].maxConcurrency
  {
    if n > 0 {
      AssignmentsStayBalanced(run, jobs, picks, n - 1);
      assert Assigns(jobs[n - 1], run[n - 1], picks[n - 1], run[n - 1 + 1]);
      if picks[n - 1].Some? {
        var job, ws := jobs[n - 1], run[n - 1];
        forall j | 0 <= j < |ws| ensures Serves(job, ws[j]) {
          assert Serves(job, run[0][j]);
        }
        PickKeepsBalance(job, ws, picks[n - 1].value);
      }
    }
    if n < |picks| && picks[n].None? {
      assert Assigns(jobs[n], run[n], picks[n], run[n + 1]);
      forall j | 0 <= j < |run[n]| ensures run[n][j].currentJobCount == run[n][j].maxConcurrency {
        assert Serves(jobs[n], run[0][j]);
      }
    }
  }

  // ---- runs of the balancer itself ------------------------------------------------------------

  /** Worker ids are the table's primary key. */
  ghost predicate UniqueIds(ws: seq<Worker>) {
    forall i, j :: 0 <= i < j < |ws| ==> ws[i].id != ws[j].id
  }

  /** The counter statement on the whole table. */
  function IncrementJobCount(ws: seq<Worker>, id: int, delta: int): (r: seq<Worker>)
    ensures SameWorkers(ws, r)
    ensures UniqueIds(ws) ==> forall i :: 0 <= i < |ws| && ws[i].id == id ==> r == ws[i := Incremented(ws[i], delta)]
  {
    seq(|ws|, i requires 0 <= i < |ws| => if ws[i].id == id then Incremented(ws[i], delta) else ws[i])
  }

  /** Finishing a job takes off what assigning it added, and an idle worker stays idle. */
  lemma DecrementUndoesIncrement(w: Worker)
    ensures Incremented(Incremented(w, 1), -1) == w
    ensures Incremented(w, 1).currentJobCount == w.currentJobCount + 1
    ensures Incremented(w, -1).currentJobCount == if w.currentJobCount == 0 then 0 else w.currentJobCount - 1
  {}

  /** One job through the balancer, with its worker's counter incremented, is one assignment. */
  method Assign(lb: LoadBalancer, job: Job, ws: seq<Worker>) returns (after: seq<Worker>, ghost pick: Option<nat>)
    requires lb.strategy.LEAST_LOADED? && UniqueIds(ws)
    modifies lb
    ensures Assigns(job, ws, pick, after) && UniqueIds(after)
  {
    var w := lb.SelectWorker(job, ws);
    forall j | 0 <= j < |ws| ensures Eligible(job, ws[j]) <==> CanTake(job, ws[j]) { EligibleExactly(job, ws[j]); }
    if w.None? {
      return ws, None;
    }
    ghost var i :| 0 <= i < |ws| && ws[i] == w.value;
    after, pick := IncrementJobCount(ws, w.value.id, 1), Some(i);
  }

  /**
   * Selecting a worker for job after job and counting each assignment makes an assignment run. So from an idle table
   * in which every worker serves every job, the result is balanced and only a full table ever refused.
   */
  method AssignAll(lb: LoadBalancer, jobs: seq<Job>, ws: seq<Worker>)
    returns (after: seq<Worker>, ghost run: seq<seq<Worker>>, ghost picks: seq<Option<nat>>)
    requires lb.strategy.LEAST_LOADED? && UniqueIds(ws)
    requires forall j :: 0 <= j < |ws| ==> ws[j].currentJobCount == 0
    requires forall n, j :: 0 <= n < |jobs| && 0 <= j < |ws| ==> Serves(jobs[n], ws[j])
    modifies lb
    ensures IsAssignmentRun(run, jobs, picks) && run[0] == ws && run[|jobs|] == after
    ensures SameWorkers(ws, after) && Balanced(after)
    ensures forall n, j :: 0 <= n < |jobs| && picks[n].None? && 0 <= j < |run[n]| ==>
              run[n][j].currentJobCount == run[n][j].maxConcurrency
  {
    after, run, picks := ws, [ws], [];
    for n := 0 to |jobs|
      invariant |run| == n + 1 == |picks| + 1 && run[0] == ws && run[n] == after && UniqueIds(after)
      invariant forall m :: 0 <= m < n ==> Assigns(jobs[m], run[m], picks[m], run[m + 1])
    {
      ghost var pick;
      after, pick := Assign(lb, jobs[n], after);
      run, picks := run + [after], picks + [pick];
    }
    forall n | 0 <= n <= |jobs|
      ensures SameWorkers(ws, run[n]) && Balanced(run[n])
      ensures n < |jobs| && picks[n].None? ==>
                forall j :: 0 <= j < |run[n]| ==> run[n][j].currentJobCount == run[n][j].maxConcurrency
    {
      AssignmentsStayBalanced(run, jobs, picks, n);
    }
  }

  // ---- fairness of round robin ----------------------------------------------------------------

  /** `rrIndex` after `k` calls on a list of `n` workers. */
  function IndexAfter(r: nat, n: nat, k: nat): nat
    requires n > 0
  {
    if k == 0 then r else (IndexAfter(r, n, k - 1) + 1) % n
  }

  /** How often worker `w` was chosen in the first `k` calls. */
  function Chosen(r: nat, n: nat, k: nat, w: nat): nat
    requires n > 0
  {
    if k == 0 then 0 else Chosen(r, n, k - 1, w) + if IndexAfter(r, n, k - 1) % n == w then 1 else 0
  }

  lemma TimesAtLeastOnce(d: int, n: nat)
    requires d >= 1
    ensures d * n >= n
  {
    assert (d - 1) * n >= 0;
  }

  lemma SplitUnique(n: nat, q: int, m: int, p: int, l: int)
    requires 0 <= m < n && 0 <= l < n && q * n + m == p * n + l
    ensures q == p && m == l
  {
    var d := q - p;
    assert d * n == l - m;
    assert (-d) * n == -(d * n);
    if d >= 1 { TimesAtLeastOnce(d, n); }
    if d <= -1 { TimesAtLeastOnce(-d, n); }
  }

  lemma DivisionUnique(a: nat, n: nat, q: nat, m: nat)
    requires n > 0 && a == q * n + m && m < n
    ensures a / n == q && a % n == m
  {
    SplitUnique(n, q, m, a / n, a % n);
  }

  lemma NextRemainder(r: nat, n: nat)
    requires n > 0
    ensures (r + 1) % n == if r % n + 1 == n then 0 else r % n + 1
  {
    var q, m := r / n, r % n;
    assert r == q * n + m;
    if m + 1 == n {
      assert r + 1 == (q + 1) * n;
      DivisionUnique(r + 1, n, q + 1, 0);
    } else {
      DivisionUnique(r + 1, n, q, m + 1);
    }
  }

  /** Position of worker `w` in the rotation that starts at worker `start`. */
  function Offset(start: nat, n: nat, w: nat): int {
    if w >= start then w - start else w - start + n
  }

  /** After q full rounds and m more calls, the first m workers of the rotation have been chosen once more. */
  lemma {:induction false} RotationState(r: nat, n: nat, k: nat) returns (q: nat, m: nat)
    requires n > 0
    ensures k == q * n + m && m < n
    ensures IndexAfter(r, n, k) % n == if r % n + m < n then r % n + m else r % n + m - n
    ensures forall w :: 0 <= w < n ==> Chosen(r, n, k, w) == q + if Offset(r % n, n, w) < m then 1 else 0
  {
    if k == 0 {
      q, m := 0, 0;
    } else {
      q, m := RotationState(r, n, k - 1);
      var before := IndexAfter(r, n, k - 1);
      NextRemainder(before, n);
      SmallRemainder((before + 1) % n, n);
      if m + 1 == n {
        assert (q + 1) * n == q * n + n;
        q, m := q + 1, 0;
      } else {
        m := m + 1;
      }
    }
  }

  lemma SmallRemainder(x: nat, n: nat)
    requires x < n
    ensures x % n == x
  {}

  /** From any starting index, k calls on n workers choose each worker floor(k/n) or ceil(k/n) times. */
  lemma RoundRobinIsFair(r: nat, n: nat, k: nat, w: nat)
    requires n > 0 && w < n
    ensures k / n <= Chosen(r, n, k, w) <= k / n + if k % n == 0 then 0 else 1
  {
    var q, m := RotationState(r, n, k);
    DivisionUnique(k, n, q, m);
  }

  /** Among `n` workers, `count` of `k` calls is a fair share: the quotient, rounded down or up. */
  ghost predicate FairShare(k: nat, n: nat, count: nat)
    requires n > 0
  {
    k / n <= count <= k / n + if k % n == 0 then 0 else 1
  }

  /** The workers that `k` calls choose in turn from a fixed list. */
  function Turns(e: seq<Worker>, r: nat, k: nat): seq<Worker>
    requires e != []
  {
    if k == 0 then [] else Turns(e, r, k - 1) + [e[IndexAfter(r, |e|, k - 1) % |e|]]
  }

  lemma {:induction false} TurnsOfWorker(e: seq<Worker>, r: nat, k: nat, i: nat)
    requires e != [] && NoDuplicates(e) && i < |e|
    ensures |Turns(e, r, k)| == k && multiset(Turns(e, r, k))[e[i]] == Chosen(r, |e|, k, i)
  {
    if k > 0 {
      TurnsOfWorker(e, r, k - 1, i);
      var at := IndexAfter(r, |e|, k - 1) % |e|;
      assert e[at] == e[i] <==> at == i;
    }
  }

  lemma TurnsAreFair(e: seq<Worker>, r: nat, k: nat, w: Worker)
    requires NoDuplicates(e) && w in e
    ensures FairShare(k, |e|, multiset(Turns(e, r, k))[w])
  {
    var i :| 0 <= i < |e| && e[i] == w;
    TurnsOfWorker(e, r, k, i);
    RoundRobinIsFair(r, |e|, k, i);
  }

  /**
   * k selections in turn from a fixed list of workers, from whatever index earlier calls left: each of the n eligible
   * workers is chosen floor(k/n) or ceil(k/n) times.
   */
  method SelectInTurn(lb: LoadBalancer, job: Job, workers: seq<Worker>, k: nat) returns (chosen: seq<Worker>)
    requires lb.strategy.ROUND_ROBIN?
    requires var e := FilterEligible(job, workers); e != [] && NoDuplicates(e)
    modifies lb
    ensures |chosen| == k
    ensures forall w :: w in workers && Eligible(job, w) ==>
              FairShare(k, |FilterEligible(job, workers)|, multiset(chosen)[w])
  {
    ghost var e, r := FilterEligible(job, workers), lb.rrIndex;
    chosen := TakeTurns(lb, job, workers, k);
    TurnsOfWorker(e, r, k, 0);
    forall w | w in workers && Eligible(job, w) ensures FairShare(k, |e|, multiset(chosen)[w]) {
      TurnsAreFair(e, r, k, w);
    }
  }

  method NextInTurn(lb: LoadBalancer, job: Job, workers: seq<Worker>) returns (w: Worker)
    requires lb.strategy.ROUND_ROBIN? && FilterEligible(job, workers) != []
    modifies lb
    ensures var e := FilterEligible(job, workers);
            w == e[old(lb.rrIndex) % |e|] && lb.rrIndex == (old(lb.rrIndex) + 1) % |e|
  {
    ghost var e := FilterEligible(job, workers);
    assert e[0] in e;
    var found := lb.SelectWorker(job, workers);
    w := found.value;
  }

  lemma OneMoreTurn(e: seq<Worker>, r: nat, j: nat)
    requires e != []
    ensures IndexAfter(r, |e|, j + 1) == (IndexAfter(r, |e|, j) + 1) % |e|
    ensures Turns(e, r, j + 1) == Turns(e, r, j) + [e[IndexAfter(r, |e|, j) % |e|]]
  {}

  method TakeTurns(lb: LoadBalancer, job: Job, workers: seq<Worker>, k: nat) returns (chosen: seq<Worker>)
    requires lb.strategy.ROUND_ROBIN? && FilterEligible(job, workers) != []
    modifies lb
    ensures chosen == Turns(FilterEligible(job, workers), old(lb.rrIndex), k)
    ensures lb.rrIndex == IndexAfter(old(lb.rrIndex), |FilterEligible(job, workers)|, k)
  {
    ghost var e, r := FilterEligible(job, workers), lb.rrIndex;
    chosen := [];
    for j := 0 to k
      invariant lb.rrIndex == IndexAfter(r, |e|, j)
      invariant chosen == Turns(e, r, j)
    {
      OneMoreTurn(e, r, j);
      var w := NextInTurn(lb, job, workers);
      chosen := chosen + [w];
    }
  }
}

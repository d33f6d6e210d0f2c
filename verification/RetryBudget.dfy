/**
 * Failure handling under interference. Every operation reads the job row, waits, and writes it back later; any
 * number of such operations on one job may be under way at once.
 */
module RetryBudget {
  import opened Domain

  /** `ended` says that the row's completion time is set. */
  datatype Job = Job(status: JobStatus, retryCount: int, maxRetries: int, ended: bool)

  type OpId = int

  /** An operation between its read and its write, with what it read. */
  datatype Pending =
    | HandlingFailure(id: JobId, seen: Job)     // WorkerNode.handleFailure
    | ManualRetry(id: JobId, seen: Job)         // RetryService.manualRetry
    | RetryingJob(id: JobId, seen: Job)         // JobService.retryJob
    | Cancelling(id: JobId, seen: Job)          // JobService.cancelJob
    | Recovering(id: JobId, seen: Job)          // JobScheduler.recoverStalledJobs

  datatype DeadLetter = DeadLetter(id: JobId, totalAttempts: int)

  /** `retries` records every write of RETRYING, with the retry count it wrote. */
  datatype Retry = Retry(id: JobId, count: int)

  datatype State = State(jobs: map<JobId, Job>, pending: map<OpId, Pending>, dlq: seq<DeadLetter>, retries: seq<Retry>)

  datatype Step =
    | Create(id: JobId, maxRetries: int)
    | Read(o: OpId, op: Pending)
    | Write(o: OpId)
    | SetStatus(id: JobId, status: JobStatus)   // claim, start, success, revert: rows written without a retry count

  const EMPTY := State(map[], map[], [], [])

  predicate Enabled(s: State, step: Step) {
    match step
    case Create(id, maxRetries) => id !in s.jobs && maxRetries >= 0
    case Read(o, op) => o !in s.pending && op.id in s.jobs && op.seen == s.jobs[op.id] && Proceeds(op)
    case Write(o) => o in s.pending && s.pending[o].id in s.jobs
    case SetStatus(id, status) => id in s.jobs && !status.RETRYING?
  }

  /** The check between read and write; an operation that fails it throws and writes nothing. */
  predicate Proceeds(op: Pending) {
    match op
    case RetryingJob(_, seen) => seen.status in {FAILED, CANCELLED, TIMED_OUT}
    case Cancelling(_, seen) => seen.status !in {COMPLETED, FAILED, CANCELLED}
    case Recovering(_, seen) => seen.status.RUNNING?
    case _ => true
  }

  function Update(s: State, id: JobId, job: Job): State { s.(jobs := s.jobs[id := job]) }

  function Written(s: State, op: Pending): State
    requires op.id in s.jobs
  {
    var row := s.jobs[op.id];
    match op
    case HandlingFailure(id, seen) =>
      var count := seen.retryCount + 1;
      if count <= seen.maxRetries then
        Update(s, id, row.(status := RETRYING, retryCount := count)).(retries := s.retries + [Retry(id, count)])
      else
        Update(s, id, row.(status := FAILED, ended := true)).(dlq := s.dlq + [DeadLetter(id, count)])
    // The retries below pass undefined for the completion time, and undefined fields are not written.
    case ManualRetry(id, seen) => Update(s, id, row.(status := PENDING, retryCount := seen.retryCount))
    case RetryingJob(id, _) => Update(s, id, row.(status := PENDING))
    case Cancelling(id, _) => Update(s, id, row.(status := CANCELLED, ended := true))
    case Recovering(id, seen) =>
      if seen.retryCount < seen.maxRetries then Update(s, id, row.(status := PENDING))
      else Update(s, id, row.(status := FAILED, ended := true))
  }

  function Apply(s: State, step: Step): State
    requires Enabled(s, step)
  {
    match step
    case Create(id, maxRetries) => Update(s, id, Job(PENDING, 0, maxRetries, false))
    case Read(o, op) => s.(pending := s.pending[o := op])
    case Write(o) => Written(s, s.pending[o]).(pending := s.pending - {o})
    case SetStatus(id, status) =>
      Update(s, id, s.jobs[id].(status := status, ended := s.jobs[id].ended || status.COMPLETED?))
  }

  ghost predicate IsRun(run: seq<State>, steps: seq<Step>) {
    && |run| == |steps| + 1
    && run[0] == EMPTY
    && (forall i :: 0 <= i < |steps| ==> Enabled(run[i], steps[i]))
    && (forall i :: 0 <= i < |steps| ==> run[i + 1] == Apply(run[i], steps[i]))
  }

  // ---- the budget, under every interleaving ---------------------------------------------------

  /** The retry counts written for one job, in order. */
  ghost function CountsOf(retries: seq<Retry>, id: JobId): seq<int> {
    if retries == [] then []
    else
      var init, last := retries[..|retries| - 1], retries[|retries| - 1];
      CountsOf(init, id) + if last.id == id then [last.count] else []
  }

  lemma CountsOneMore(retries: seq<Retry>, r: Retry, id: JobId)
    ensures CountsOf(retries + [r], id) == CountsOf(retries, id) + if r.id == id then [r.count] else []
  {}

  ghost predicate JobInBudget(s: State, id: JobId, job: Job) {
    0 <= job.retryCount <= job.maxRetries && job.retryCount <= |CountsOf(s.retries, id)|
  }

  ghost predicate InBudget(s: State) {
    && (forall id :: id in s.jobs ==> JobInBudget(s, id, s.jobs[id]))
    && (forall o :: o in s.pending ==>
          && s.pending[o].id in s.jobs && JobInBudget(s, s.pending[o].id, s.pending[o].seen)
          && s.pending[o].seen.maxRetries == s.jobs[s.pending[o].id].maxRetries)
    && (forall k :: 0 <= k < |s.dlq| ==>
          s.dlq[k].id in s.jobs && s.dlq[k].totalAttempts == s.jobs[s.dlq[k].id].maxRetries + 1)
  }

  /** One row is rewritten within its budget; operations may start or end; retries and dead letters may be added. */
  ghost predicate RowRewritten(s: State, n: State, id: JobId) {
    && id in n.jobs && JobInBudget(n, id, n.jobs[id])
    && (id in s.jobs ==> n.jobs[id].maxRetries == s.jobs[id].maxRetries)
    && n.jobs == s.jobs[id := n.jobs[id]]
    && (forall o :: o in n.pending ==> o in s.pending && n.pending[o] == s.pending[o])
    && (forall x :: |CountsOf(n.retries, x)| >= |CountsOf(s.retries, x)|)
  }

  lemma RewriteInBudget(s: State, n: State, id: JobId)
    requires InBudget(s) && RowRewritten(s, n, id)
    requires n.dlq == s.dlq || (n.dlq == s.dlq + [DeadLetter(id, n.jobs[id].maxRetries + 1)])
    ensures InBudget(n)
  {}

  lemma WriteInBudget(s: State, o: OpId)
    requires InBudget(s) && Enabled(s, Write(o))
    ensures InBudget(Apply(s, Write(o)))
  {}

  lemma StepInBudget(s: State, step: Step)
    requires InBudget(s) && Enabled(s, step)
    ensures InBudget(Apply(s, step))
  {
    match step
    case Create(id, _) => RewriteInBudget(s, Apply(s, step), id);
    case Read(o, op) =>
    case Write(o) => WriteInBudget(s, o);
    case SetStatus(id, _) => RewriteInBudget(s, Apply(s, step), id);
  }

  /**
   * However failures, manual retries, cancels and stall recoveries interleave: every retry count stays within
   * 0..maxRetries, never exceeds the number of RETRYING writes, and every dead letter says maxRetries + 1 attempts.
   */
  lemma {:induction false} BudgetHolds(run: seq<State>, steps: seq<Step>, n: nat)
    requires IsRun(run, steps) && n < |run|
    ensures InBudget(run[n])
  {
    if n > 0 {
      BudgetHolds(run, steps, n - 1);
      assert run[n - 1 + 1] == Apply(run[n - 1], steps[n - 1]);
      StepInBudget(run[n - 1], steps[n - 1]);
    }
  }

  // ---- what a write rests on ------------------------------------------------------------------

  /** An operation under way began by reading the row as it then was, and has not written since. */
  lemma {:induction false} PendingWasRead(run: seq<State>, steps: seq<Step>, n: nat, o: OpId) returns (i: nat)
    requires IsRun(run, steps) && n < |run| && o in run[n].pending
    ensures i < n && steps[i] == Read(o, run[n].pending[o])
    ensures run[n].pending[o].id in run[i].jobs && run[n].pending[o].seen == run[i].jobs[run[n].pending[o].id]
    ensures forall k :: i < k < n ==> steps[k] != Write(o)
  {
    assert Enabled(run[n - 1], steps[n - 1]);
    assert run[n - 1 + 1] == Apply(run[n - 1], steps[n - 1]);
    if o in run[n - 1].pending {
      i := PendingWasRead(run, steps, n - 1, o);
    } else {
      i := n - 1;
    }
  }

  /** What each operation may have read, and what it then makes of the row as it finds it. */
  ghost predicate Effect(op: Pending, row: Job, next: Job) {
    var was := op.seen;
    match op
    case HandlingFailure(_, _) =>
      if was.retryCount < was.maxRetries then next == row.(status := RETRYING, retryCount := was.retryCount + 1)
      else next == row.(status := FAILED, ended := true)
    case ManualRetry(_, _) => next == row.(status := PENDING, retryCount := was.retryCount)
    case RetryingJob(_, _) =>
      (was.status == FAILED || was.status == CANCELLED || was.status == TIMED_OUT) && next == row.(status := PENDING)
    case Cancelling(_, _) =>
      && was.status != COMPLETED && was.status != FAILED && was.status != CANCELLED
      && next == row.(status := CANCELLED, ended := true)
    case Recovering(_, _) =>
      && was.status == RUNNING
      && next == if was.retryCount < was.maxRetries then row.(status := PENDING)
                 else row.(status := FAILED, ended := true)
  }

  /**
   * Every write in every run goes back to a read of the same row that passed the operation's check, changes that row
   * as the operation promises and no other, and adds a dead letter exactly when a failure found the retries used up.
   */
  lemma WriteIsBacked(run: seq<State>, steps: seq<Step>, n: nat) returns (i: nat, op: Pending)
    requires IsRun(run, steps) && n < |steps| && steps[n].Write?
    ensures i < n && steps[i] == Read(steps[n].o, op) && op.id in run[i].jobs && op.seen == run[i].jobs[op.id]
    ensures op.id in run[n].jobs && op.id in run[n + 1].jobs
    ensures Effect(op, run[n].jobs[op.id], run[n + 1].jobs[op.id])
    ensures run[n + 1].jobs == run[n].jobs[op.id := run[n + 1].jobs[op.id]]
    ensures run[n + 1].dlq == run[n].dlq +
            if op.HandlingFailure? && op.seen.retryCount >= op.seen.maxRetries
            then [DeadLetter(op.id, op.seen.retryCount + 1)] else []
  {
    assert Enabled(run[n], steps[n]);
    assert run[n + 1] == Apply(run[n], steps[n]);
    i := PendingWasRead(run, steps, n, steps[n].o);
    op := run[n].pending[steps[n].o];
    assert Enabled(run[i], steps[i]);
  }

  /** A status update changes the status alone, and sets the completion time on success; a read changes no row. */
  lemma StatusUpdateIsExact(run: seq<State>, steps: seq<Step>, n: nat, x: JobId)
    requires IsRun(run, steps) && n < |steps| && (steps[n].SetStatus? || steps[n].Read?) && x in run[n].jobs
    ensures x in run[n + 1].jobs && run[n + 1].dlq == run[n].dlq && run[n + 1].retries == run[n].retries
    ensures var row, next := run[n].jobs[x], run[n + 1].jobs[x];
            && next.retryCount == row.retryCount && next.maxRetries == row.maxRetries
            && next.status == (if steps[n].SetStatus? && steps[n].id == x then steps[n].status else row.status)
            && (next.ended <==> row.ended || (steps[n].SetStatus? && steps[n].id == x && steps[n].status == COMPLETED))
  {
    assert Enabled(run[n], steps[n]);
    assert run[n + 1] == Apply(run[n], steps[n]);
  }

  /** A row becomes RETRYING only by a failure handler's write, which is recorded with the count it wrote. */
  lemma RetryingIsRecorded(run: seq<State>, steps: seq<Step>, n: nat, x: JobId)
    requires IsRun(run, steps) && n < |steps| && x in run[n + 1].jobs && run[n + 1].jobs[x].status == RETRYING
    requires x in run[n].jobs ==> run[n].jobs[x].status != RETRYING
    ensures steps[n].Write? && steps[n].o in run[n].pending
    ensures run[n].pending[steps[n].o].HandlingFailure? && run[n].pending[steps[n].o].id == x
    ensures run[n + 1].retries == run[n].retries + [Retry(x, run[n + 1].jobs[x].retryCount)]
  {
    assert Enabled(run[n], steps[n]);
    assert run[n + 1] == Apply(run[n], steps[n]);
  }

  /** An operation gets past its check exactly in these statuses. */
  lemma ChecksAreExact(s: State, o: OpId, op: Pending)
    requires o !in s.pending && op.id in s.jobs && op.seen == s.jobs[op.id]
    ensures Enabled(s, Read(o, op)) <==>
              match op
              case HandlingFailure(_, _) => true
              case ManualRetry(_, _) => true
              case RetryingJob(_, was) => was.status == FAILED || was.status == CANCELLED || was.status == TIMED_OUT
              case Cancelling(_, was) => was.status != COMPLETED && was.status != FAILED && was.status != CANCELLED
              case Recovering(_, was) => was.status == RUNNING
  {}

  /** A job starts out PENDING without retries, with the limit it was created with, and keeps that limit. */
  lemma {:induction false} LimitIsGiven(run: seq<State>, steps: seq<Step>, n: nat, id: JobId) returns (i: nat)
    requires IsRun(run, steps) && n < |run| && id in run[n].jobs
    ensures i < n && steps[i] == Create(id, run[n].jobs[id].maxRetries)
    ensures run[i + 1].jobs == run[i].jobs[id := Job(PENDING, 0, run[n].jobs[id].maxRetries, false)]
  {
    assert Enabled(run[n - 1], steps[n - 1]);
    assert run[n - 1 + 1] == Apply(run[n - 1], steps[n - 1]);
    if id in run[n - 1].jobs {
      BudgetHolds(run, steps, n - 1);
      i := LimitIsGiven(run, steps, n - 1, id);
    } else {
      i := n - 1;
    }
  }

  // ---- counting retries -----------------------------------------------------------------------

  /** The job's RETRYING writes carried 1, 2, ..., retryCount, each exactly once. */
  ghost predicate CountedFor(s: State, id: JobId) {
    && |CountsOf(s.retries, id)| == (if id in s.jobs then s.jobs[id].retryCount else 0)
    && (forall k :: 0 <= k < |CountsOf(s.retries, id)| ==> CountsOf(s.retries, id)[k] == k + 1)
  }

  /** Operations that write a retry count. */
  predicate WritesCount(op: Pending) {
    op.ManualRetry? || (op.HandlingFailure? && op.seen.retryCount + 1 <= op.seen.maxRetries)
  }

  /** If the step writes the job's retry count, it does so from a read that is still current. */
  predicate FreshAt(s: State, step: Step, id: JobId) {
    step.Write? && step.o in s.pending && id in s.jobs ==>
      var op := s.pending[step.o];
      op.id == id && WritesCount(op) ==> op.seen.retryCount == s.jobs[id].retryCount
  }

  /** Recording one more retry keeps the recorded counts at 1, 2, 3, ... exactly if it carries the next one. */
  lemma RetryCounts(retries: seq<Retry>, r: Retry, id: JobId, count: int)
    requires |CountsOf(retries, id)| == count
    requires forall k :: 0 <= k < count ==> CountsOf(retries, id)[k] == k + 1
    ensures r.id != id ==> CountsOf(retries + [r], id) == CountsOf(retries, id)
    ensures r.id == id ==>
              var counts := CountsOf(retries + [r], id);
              r.count == count + 1 <==> |counts| == r.count && forall k :: 0 <= k < |counts| ==> counts[k] == k + 1
  {
    CountsOneMore(retries, r, id);
  }

  lemma RetryStepCounts(s: State, o: OpId, id: JobId)
    requires CountedFor(s, id) && Enabled(s, Write(o)) && s.pending[o].HandlingFailure? && WritesCount(s.pending[o])
    ensures CountedFor(Apply(s, Write(o)), id) <==> FreshAt(s, Write(o), id)
  {
    var op := s.pending[o];
    RetryCounts(s.retries, Retry(op.id, op.seen.retryCount + 1), id, |CountsOf(s.retries, id)|);
  }

  lemma OtherStepCounts(s: State, step: Step, id: JobId)
    requires CountedFor(s, id) && Enabled(s, step)
    requires step.Write? ==> !s.pending[step.o].HandlingFailure? || !WritesCount(s.pending[step.o])
    ensures CountedFor(Apply(s, step), id) <==> FreshAt(s, step, id)
  {
    assert Apply(s, step).retries == s.retries;
  }

  /** One step keeps a job's retries counted exactly if its write, if any, is fresh. */
  lemma StepCounts(s: State, step: Step, id: JobId)
    requires CountedFor(s, id) && Enabled(s, step)
    ensures CountedFor(Apply(s, step), id) <==> FreshAt(s, step, id)
  {
    if step.Write? && s.pending[step.o].HandlingFailure? && WritesCount(s.pending[step.o]) {
      RetryStepCounts(s, step.o, id);
    } else {
      OtherStepCounts(s, step, id);
    }
  }

  /**
   * Job by job and whatever happens to the others: its RETRYING transitions number exactly its retry count, and
   * carried the counts 1, 2, 3, ... in order, all along a run if and only if every write of its count was fresh.
   */
  lemma {:induction false} CountedExactlyWhenFresh(run: seq<State>, steps: seq<Step>, n: nat, id: JobId)
    requires IsRun(run, steps) && n < |run|
    ensures (forall i :: 0 <= i <= n ==> CountedFor(run[i], id))
            <==> (forall i :: 0 <= i < n ==> FreshAt(run[i], steps[i], id))
  {
    if n > 0 {
      CountedExactlyWhenFresh(run, steps, n - 1, id);
      assert run[n - 1 + 1] == Apply(run[n - 1], steps[n - 1]);
      if CountedFor(run[n - 1], id) {
        StepCounts(run[n - 1], steps[n - 1], id);
      }
    }
  }

  // ---- without overlap ------------------------------------------------------------------------

  /** A failure handler or manual retry of the job. */
  predicate Counts(op: Pending, id: JobId) { op.id == id && (op.HandlingFailure? || op.ManualRetry?) }

  /** At most one failure handler or manual retry of the job is under way. */
  ghost predicate NoOverlap(s: State, id: JobId) {
    forall o, u :: o in s.pending && u in s.pending && Counts(s.pending[o], id) && Counts(s.pending[u], id) ==> o == u
  }

  /** Whatever handles a failure of the job or retries it by hand has seen its current count. */
  ghost predicate SeesCurrent(s: State, id: JobId) {
    forall o :: o in s.pending && Counts(s.pending[o], id) ==>
      id in s.jobs && s.pending[o].seen.retryCount == s.jobs[id].retryCount
  }

  lemma StepSeesCurrent(s: State, step: Step, id: JobId)
    requires SeesCurrent(s, id) && NoOverlap(s, id) && Enabled(s, step)
    ensures SeesCurrent(Apply(s, step), id) && FreshAt(s, step, id)
  {}

  lemma {:induction false} RunSeesCurrent(run: seq<State>, steps: seq<Step>, n: nat, id: JobId)
    requires IsRun(run, steps) && n < |run|
    requires forall i :: 0 <= i < n ==> NoOverlap(run[i], id)
    ensures SeesCurrent(run[n], id)
    ensures forall i :: 0 <= i < n ==> FreshAt(run[i], steps[i], id)
  {
    if n > 0 {
      RunSeesCurrent(run, steps, n - 1, id);
      assert run[n - 1 + 1] == Apply(run[n - 1], steps[n - 1]);
      StepSeesCurrent(run[n - 1], steps[n - 1], id);
    }
  }

  /** If handleFailure and manualRetry never overlap on a job, its retries are counted, however other jobs fare. */
  lemma RetriesAreCounted(run: seq<State>, steps: seq<Step>, n: nat, id: JobId)
    requires IsRun(run, steps) && n < |run|
    requires forall i :: 0 <= i < n ==> NoOverlap(run[i], id)
    ensures CountedFor(run[n], id)
  {
    RunSeesCurrent(run, steps, n, id);
    CountedExactlyWhenFresh(run, steps, n, id);
  }

  // ---- lost updates ---------------------------------------------------------------------------

  lemma Extend(run: seq<State>, steps: seq<Step>, step: Step) returns (run': seq<State>, steps': seq<Step>)
    requires IsRun(run, steps) && Enabled(run[|run| - 1], step)
    ensures IsRun(run', steps') && run'[|run'| - 1] == Apply(run[|run| - 1], step)
  {
    run', steps' := run + [Apply(run[|run| - 1], step)], steps + [step];
  }

  /** With overlap the count can fall behind: two failure handlers that read the same row count one retry for two. */
  lemma OverlapLosesRetry(id: JobId, maxRetries: int) returns (run: seq<State>, steps: seq<Step>)
    requires maxRetries >= 1
    ensures IsRun(run, steps)
    ensures var last := run[|run| - 1];
            id in last.jobs && last.jobs[id].retryCount == 1 && CountsOf(last.retries, id) == [1, 1]
  {
    var created := Job(PENDING, 0, maxRetries, false);
    run, steps := [EMPTY], [];
    run, steps := Extend(run, steps, Create(id, maxRetries));
    run, steps := Extend(run, steps, Read(1, HandlingFailure(id, created)));
    run, steps := Extend(run, steps, Read(2, HandlingFailure(id, created)));
    run, steps := Extend(run, steps, Write(1));
    run, steps := Extend(run, steps, Write(2));
    var r := Retry(id, 1);
    CountsOneMore([], r, id);
    CountsOneMore([r], r, id);
    assert [] + [r] == [r] && [r] + [r] == [r, r];
    assert run[|run| - 1].retries == [] + [r] + [r];
  }

  // ---- uninterrupted operations ---------------------------------------------------------------

  /** One failure handled without interference. */
  function Fails(s: State, id: JobId): State
    requires id in s.jobs
  {
    Written(s, HandlingFailure(id, s.jobs[id]))
  }

  ghost function FailsTimes(s: State, id: JobId, k: nat): (n: State)
    requires id in s.jobs
    ensures id in n.jobs
  {
    if k == 0 then s else Fails(FailsTimes(s, id, k - 1), id)
  }

  /** A fresh job is retried maxRetries times; the next failure makes it FAILED and adds its one dead letter. */
  lemma {:induction false} FailuresEndInDeadLetter(s: State, id: JobId, k: nat)
    requires id in s.jobs && s.jobs[id].retryCount == 0 <= s.jobs[id].maxRetries
    requires k <= s.jobs[id].maxRetries + 1
    ensures var n, max := FailsTimes(s, id, k), s.jobs[id].maxRetries;
            && n.jobs[id].maxRetries == max
            && (0 < k <= max ==> n.jobs[id].status == RETRYING)
            && (k <= max ==> n.jobs[id].retryCount == k && n.dlq == s.dlq)
            && (k == max + 1 ==> n.jobs[id].status == FAILED && n.dlq == s.dlq + [DeadLetter(id, max + 1)])
  {
    if k > 0 { FailuresEndInDeadLetter(s, id, k - 1); }
  }

  /** Stall recovery requeues a job exactly when its failure would have been retried, and fails it exactly otherwise. */
  lemma RecoveryAgreesWithFailure(s: State, id: JobId)
    requires id in s.jobs
    ensures var failed := Fails(s, id).jobs[id].status;
            var recovered := Written(s, Recovering(id, s.jobs[id])).jobs[id].status;
            (recovered == PENDING <==> failed == RETRYING) && (recovered == FAILED <==> failed == FAILED)
  {}

  /** A cancelled job can always be retried; that undoes the status, not the completion time that cancelling set. */
  lemma CancelThenRetry(s: State, id: JobId)
    requires id in s.jobs && Proceeds(Cancelling(id, s.jobs[id]))
    ensures var cancelled := Written(s, Cancelling(id, s.jobs[id]));
            && Proceeds(RetryingJob(id, cancelled.jobs[id])) && !Proceeds(Cancelling(id, cancelled.jobs[id]))
            && Written(cancelled, RetryingJob(id, cancelled.jobs[id]))
               == Update(s, id, s.jobs[id].(status := PENDING, ended := true))
  {
    var cancelled := Written(s, Cancelling(id, s.jobs[id]));
    assert Written(cancelled, RetryingJob(id, cancelled.jobs[id])).jobs
           == s.jobs[id := s.jobs[id].(status := PENDING, ended := true)];
  }

  lemma StepKeepsEnd(s: State, step: Step, id: JobId)
    requires id in s.jobs && s.jobs[id].ended && Enabled(s, step)
    ensures id in Apply(s, step).jobs && Apply(s, step).jobs[id].ended
  {}

  /** No retry clears the completion time: once a job has one, every later state of every run has one. */
  lemma {:induction false} EndIsNeverCleared(run: seq<State>, steps: seq<Step>, i: nat, j: nat, id: JobId)
    requires IsRun(run, steps) && i <= j < |run| && id in run[i].jobs && run[i].jobs[id].ended
    ensures id in run[j].jobs && run[j].jobs[id].ended
    decreases j - i
  {
    if i < j {
      assert run[i + 1] == Apply(run[i], steps[i]);
      StepKeepsEnd(run[i], steps[i], id);
      EndIsNeverCleared(run, steps, i + 1, j, id);
    }
  }

  // ---- delays ---------------------------------------------------------------------------------

  datatype Backoff = FIXED | EXPONENTIAL | JITTER

  const DELAY_CAP := 60000.0

  /** base * 2^n. */
  function Doubled(base: real, n: nat): real { if n == 0 then base else 2.0 * Doubled(base, n - 1) }

  function Least(a: real, b: real): real { if a <= b then a else b }

  /** `random` is the draw from [0, 1). */
  function ComputeRetryDelay(base: real, attempt: int, strategy: Backoff, random: real): real
    requires attempt >= 1
  {
    match strategy
    case FIXED => base
    case EXPONENTIAL => Least(Doubled(base, attempt - 1), DELAY_CAP)
    case JITTER =>
      var exponential := Doubled(base, attempt - 1);
      Least(exponential + random * exponential * 0.2, DELAY_CAP)
  }

  lemma {:induction false} DoubledGrows(base: real, a: nat, b: nat)
    requires base >= 0.0 && a <= b
    ensures base <= Doubled(base, a) <= Doubled(base, b)
  {
    if a < b {
      DoubledGrows(base, a, b - 1);
    } else if a > 0 {
      DoubledGrows(base, a - 1, a - 1);
    }
  }

  /** 2^n. */
  function PowerOfTwo(n: nat): nat { if n == 0 then 1 else 2 * PowerOfTwo(n - 1) }

  lemma {:induction false} DoubledIsPower(base: real, n: nat)
    ensures Doubled(base, n) == base * PowerOfTwo(n) as real
  {
    if n > 0 {
      DoubledIsPower(base, n - 1);
      assert PowerOfTwo(n) as real == 2.0 * PowerOfTwo(n - 1) as real;
      assert base * (2.0 * PowerOfTwo(n - 1) as real) == 2.0 * (base * PowerOfTwo(n - 1) as real);
    }
  }

  /** What each strategy computes: always the base; the base times 2^(attempt - 1); that and up to a fifth more. */
  lemma DelayIsExact(base: real, attempt: int, random: real)
    requires attempt >= 1
    ensures ComputeRetryDelay(base, attempt, FIXED, random) == base
    ensures var raw := base * PowerOfTwo(attempt - 1) as real;
            && (ComputeRetryDelay(base, attempt, EXPONENTIAL, random) == if raw <= 60000.0 then raw else 60000.0)
            && (ComputeRetryDelay(base, attempt, JITTER, random) ==
                if (1.0 + random / 5.0) * raw <= 60000.0 then (1.0 + random / 5.0) * raw else 60000.0)
  {
    DoubledIsPower(base, attempt - 1);
    var raw := Doubled(base, attempt - 1);
    AFifth(random, raw);
  }

  lemma AFifth(r: real, e: real)
    ensures e + r * e * 0.2 == (1.0 + r / 5.0) * e
  {
    assert r / 5.0 == r * 0.2;
    assert r * 0.2 * e == r * e * 0.2;
  }

  /** The first exponential delay is the base, and each further one doubles the one before, all under the cap. */
  lemma DelayRecurrence(base: real, a: int, random: real)
    requires base >= 0.0 && a >= 1
    ensures ComputeRetryDelay(base, 1, EXPONENTIAL, random) == if base <= 60000.0 then base else 60000.0
    ensures var before := ComputeRetryDelay(base, a, EXPONENTIAL, random);
            ComputeRetryDelay(base, a + 1, EXPONENTIAL, random) ==
            if 2.0 * before <= 60000.0 then 2.0 * before else 60000.0
  {
    DoubledGrows(base, a - 1, a);
    assert Doubled(base, a) == 2.0 * Doubled(base, a - 1);
  }

  /** RetryService's delay for a job is the one a failure handler that reads the same row computes. */
  function GetRetryDelay(base: real, job: Job, strategy: Backoff, random: real): real
    requires job.retryCount >= 0
  {
    ComputeRetryDelay(base, job.retryCount + 1, strategy, random)
  }

  lemma ServiceAgreesWithHandler(s: State, id: JobId, base: real, strategy: Backoff, random: real)
    requires id in s.jobs && 0 <= s.jobs[id].retryCount < s.jobs[id].maxRetries
    ensures var retries := Fails(s, id).retries;
            && |retries| == |s.retries| + 1 && retries[|s.retries|].id == id && retries[|s.retries|].count >= 1
            && GetRetryDelay(base, s.jobs[id], strategy, random)
               == ComputeRetryDelay(base, retries[|s.retries|].count, strategy, random)
  {}

  /** Exponential delays grow with the attempt, up to the cap. */
  lemma DelaysGrowToCap(base: real, a: int, b: int, random: real)
    requires base >= 0.0 && 1 <= a <= b
    ensures ComputeRetryDelay(base, a, EXPONENTIAL, random)
            <= ComputeRetryDelay(base, b, EXPONENTIAL, random) <= DELAY_CAP
  {
    DoubledGrows(base, a - 1, b - 1);
  }

  lemma FractionOf(r: real, e: real)
    requires 0.0 <= r < 1.0 && e >= 0.0
    ensures 0.0 <= r * e <= e
  {
    assert r * e <= 1.0 * e;
  }

  /** Jitter only lengthens the exponential delay, by at most a fifth, and stays under the cap. */
  lemma JitterIsBounded(base: real, a: int, random: real)
    requires base >= 0.0 && a >= 1 && 0.0 <= random < 1.0
    ensures ComputeRetryDelay(base, a, EXPONENTIAL, random) <= ComputeRetryDelay(base, a, JITTER, random)
            <= Least(ComputeRetryDelay(base, a, EXPONENTIAL, random) * 1.2, DELAY_CAP)
  {
    DoubledGrows(base, a - 1, a - 1);
    var e := Doubled(base, a - 1);
    var x := random * e;
    FractionOf(random, e);
    FifthMore(e, x);
    assert ComputeRetryDelay(base, a, JITTER, random) == Least(e + x * 0.2, DELAY_CAP);
    assert ComputeRetryDelay(base, a, EXPONENTIAL, random) == Least(e, DELAY_CAP);
  }

  lemma FifthMore(e: real, x: real)
    requires 0.0 <= x <= e
    ensures Least(e, DELAY_CAP) <= Least(e + x * 0.2, DELAY_CAP) <= Least(Least(e, DELAY_CAP) * 1.2, DELAY_CAP)
  {
    if e <= DELAY_CAP {
      assert x * 0.2 <= e * 0.2;
      assert e + e * 0.2 == e * 1.2;
    }
  }

  /**
   * As long as every write of a job's count is fresh, the exponential delays of its successive retries never
   * decrease and stay under the cap.
   */
  lemma RetryDelaysNeverShrink(run: seq<State>, steps: seq<Step>, n: nat, id: JobId, base: real, j: nat, k: nat)
    requires IsRun(run, steps) && n < |run| && base >= 0.0
    requires forall i :: 0 <= i < n ==> FreshAt(run[i], steps[i], id)
    requires j <= k < |CountsOf(run[n].retries, id)|
    ensures CountsOf(run[n].retries, id)[j] == j + 1 && CountsOf(run[n].retries, id)[k] == k + 1
    ensures ComputeRetryDelay(base, CountsOf(run[n].retries, id)[j], EXPONENTIAL, 0.0)
            <= ComputeRetryDelay(base, CountsOf(run[n].retries, id)[k], EXPONENTIAL, 0.0) <= DELAY_CAP
  {
    CountedExactlyWhenFresh(run, steps, n, id);
    assert CountedFor(run[n], id);
    DelaysGrowToCap(base, j + 1, k + 1, 0.0);
  }
}

/** The claim query on the table whose counters the completion events drive. */
module CountedClaims {
  import opened Domain
  import C = JobClaims
  import D = DependencyCounter

  /** The two views of one table: what the claim query reads, and what dependency handling reads. */
  ghost predicate Agree(jobs: C.Table, rows: D.Table) {
    && jobs.Keys == rows.Keys
    && (forall x :: x in jobs ==>
          && jobs[x].status == rows[x].status
          && jobs[x].dependencyCount == rows[x].dependencyCount && jobs[x].resolvedCount == rows[x].resolvedCount)
  }

  /** A row is a candidate exactly if it is claimable by its counters, due and not locked. */
  lemma CandidateExactly(jobs: C.Table, rows: D.Table, locked: set<JobId>, now: int, x: JobId)
    requires Agree(jobs, rows)
    ensures x in C.Candidates(jobs, locked, now) <==>
              && x in rows && D.Claimable(rows[x]) && x !in locked
              && (jobs[x].scheduledAt.None? || jobs[x].scheduledAt.value <= now)
  {}

  /** What a claim selects is a claim of the counter's runs, and leaves the two views in agreement. */
  lemma SelectedIsClaim(steps: seq<D.Step>, jobs: C.Table, locked: set<JobId>, now: int, limit: nat, batch: set<JobId>)
    requires D.ValidRun(steps) && Agree(jobs, D.After(steps).jobs) && C.Selects(jobs, locked, now, limit, batch)
    ensures D.ValidRun(steps + [D.Claim(batch)])
    ensures Agree(C.Queued(jobs, batch), D.After(steps + [D.Claim(batch)]).jobs)
  {
    C.BatchIsBest(jobs, locked, now, limit, batch);
    D.RunGoesOn(steps, D.Claim(batch));
    forall x | x in batch ensures x in D.After(steps).jobs && D.Claimable(D.After(steps).jobs[x]) {
      CandidateExactly(jobs, D.After(steps).jobs, locked, now, x);
    }
  }

  /** Every claimed row that has dependencies has exactly one, which has reported a status the row requires. */
  ghost predicate AllReady(steps: seq<D.Step>, rows: D.Table, batch: set<JobId>) {
    forall x :: x in batch && x in rows && rows[x].dependencies != [] ==>
      |rows[x].dependencies| == 1 && D.Reported(steps, rows[x].dependencies)
  }

  lemma ClaimedAreReady(steps: seq<D.Step>, batch: set<JobId>)
    requires D.ValidRun(steps) && D.SingleDependents(D.After(steps).jobs) && AllCounted(D.After(steps).jobs, batch)
    ensures AllReady(steps, D.After(steps).jobs, batch)
  {
    var rows := D.After(steps).jobs;
    forall x | x in batch && x in rows && rows[x].dependencies != []
      ensures |rows[x].dependencies| == 1 && D.Reported(steps, rows[x].dependencies)
    {
      D.ClaimableIsReady(steps, x);
    }
  }

  ghost predicate AllCounted(rows: D.Table, batch: set<JobId>) {
    forall x :: x in batch ==>
      x in rows && rows[x].status == PENDING && rows[x].resolvedCount == rows[x].dependencyCount
  }

  lemma ClaimedWereCounted(jobs: C.Table, rows: D.Table, locked: set<JobId>, now: int, limit: nat, batch: set<JobId>)
    requires Agree(jobs, rows) && C.Selects(jobs, locked, now, limit, batch)
    ensures AllCounted(rows, batch)
  {
    C.ClaimIsExact(jobs, locked, now, limit, batch);
  }

  /** What a claim after a run guarantees: the run goes on with it, and all it takes was counted, and ready. */
  ghost predicate ClaimGoesOn(steps: seq<D.Step>, after: C.Table, batch: set<JobId>) {
    && D.ValidRun(steps + [D.Claim(batch)]) && Agree(after, D.After(steps + [D.Claim(batch)]).jobs)
    && AllCounted(D.After(steps).jobs, batch)
    && (D.SingleDependents(D.After(steps).jobs) ==> AllReady(steps, D.After(steps).jobs, batch))
  }

  lemma SelectedGoesOn(steps: seq<D.Step>, jobs: C.Table, locked: set<JobId>, now: int, limit: nat, batch: set<JobId>)
    requires D.ValidRun(steps) && Agree(jobs, D.After(steps).jobs) && C.Selects(jobs, locked, now, limit, batch)
    ensures ClaimGoesOn(steps, C.Queued(jobs, batch), batch)
  {
    SelectedIsClaim(steps, jobs, locked, now, limit, batch);
    ClaimedWereCounted(jobs, D.After(steps).jobs, locked, now, limit, batch);
    if D.SingleDependents(D.After(steps).jobs) { ClaimedAreReady(steps, batch); }
  }

  lemma IsQueued(jobs: C.Table, after: C.Table, batch: set<JobId>)
    requires after.Keys == jobs.Keys
    requires forall x :: x in jobs ==> after[x] == if x in batch then jobs[x].(status := QUEUED) else jobs[x]
    ensures after == C.Queued(jobs, batch)
  {
    var queued := C.Queued(jobs, batch);
    assert forall x :: x in after ==> x in jobs;
    assert queued.Keys == jobs.Keys;
    assert forall x :: x in jobs ==> queued[x] == after[x];
  }

  /**
   * One claim after a run of submissions, events and status writes: the claimed rows were PENDING with all their
   * dependencies counted; the run goes on with the claim; and if no job has more than one dependent, each claimed row
   * with dependencies has exactly one, which has reported a status the row requires.
   */
  method ClaimAfter(ghost steps: seq<D.Step>, jobs: C.Table, locked: set<JobId>, now: int, limit: nat)
    returns (after: C.Table, batch: set<JobId>)
    requires D.ValidRun(steps) && Agree(jobs, D.After(steps).jobs)
    ensures ClaimGoesOn(steps, after, batch)
  {
    after, batch := C.ClaimPendingJobs(jobs, locked, now, limit);
    SelectedGoesOn(steps, jobs, locked, now, limit, batch);
    IsQueued(jobs, after, batch);
  }
}

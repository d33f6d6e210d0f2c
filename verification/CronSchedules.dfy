/**
 * One cron schedule row: ticks that read it and later trigger it, and the pause and resume requests that may land
 * in between. Occurrences are an arbitrary set of times; the cron library is "least occurrence strictly after now".
 */
module CronSchedules {
  import opened Domain

  type Time = int

  ghost predicate IsNext(occurrences: iset<Time>, now: Time, t: Time) {
    t in occurrences && t > now && forall u :: u in occurrences && now < u ==> t <= u
  }

  datatype Schedule = Schedule(active: bool, nextTriggerAt: Time, triggered: nat)

  datatype Due = Due(slot: Time, fetchedAt: Time)

  /**
   * `due` is what a running tick fetched: the row's next trigger time, and when it was fetched. `resumes` holds
   * resume requests that have computed their next trigger time but not written it. `slots` records the fetched time
   * of each trigger and `times` when it happened; `jobs` counts the jobs created.
   */
  datatype State = State(now: Time, row: Schedule, due: Option<Due>, resumes: multiset<Time>,
                         slots: seq<Time>, times: seq<Time>, jobs: nat)

  datatype Step =
    | Wait(d: nat)
    | Fetch                        // tick: the row is due
    | Trigger(at: Time, next: Time, created: bool)   // write the next time computed at `at`, then try to create the job
    | Skip                         // the tick fails before it comes to this schedule
    | Pause
    | ComputeResume(next: Time)
    | WriteResume(next: Time)

  ghost predicate Enabled(occ: iset<Time>, s: State, step: Step) {
    match step
    case Wait(_) => true
    case Fetch => s.due.None? && s.row.active && s.row.nextTriggerAt <= s.now     // ticks do not overlap
    case Trigger(at, next, _) => s.due.Some? && s.due.value.fetchedAt <= at <= s.now && IsNext(occ, at, next)
    case Skip => s.due.Some?
    case Pause => true
    case ComputeResume(next) => IsNext(occ, s.now, next)
    case WriteResume(next) => next in s.resumes
  }

  function Apply(s: State, step: Step): State {
    match step
    case Wait(d) => s.(now := s.now + d)
    case Fetch => s.(due := Some(Due(s.row.nextTriggerAt, s.now)))
    case Trigger(_, next, created) =>
      if s.due.None? then s
      else s.(row := s.row.(nextTriggerAt := next, triggered := s.row.triggered + 1), due := None,
              slots := s.slots + [s.due.value.slot], times := s.times + [s.now],
              jobs := s.jobs + if created then 1 else 0)
    case Skip => s.(due := None)
    case Pause => s.(row := s.row.(active := false))
    case ComputeResume(next) => s.(resumes := s.resumes + multiset{next})
    case WriteResume(next) =>
      s.(row := s.row.(active := true, nextTriggerAt := next), resumes := s.resumes - multiset{next})
  }

  /** The row as the create route inserts it at time `created`. */
  ghost predicate IsCreated(occ: iset<Time>, s: State, created: Time) {
    && s.now == created && IsNext(occ, created, s.row.nextTriggerAt) && s.row.triggered == 0
    && s.due.None? && s.resumes == multiset{} && s.slots == [] && s.times == [] && s.jobs == 0
  }

  ghost predicate IsRun(occ: iset<Time>, created: Time, run: seq<State>, steps: seq<Step>) {
    && |run| == |steps| + 1
    && IsCreated(occ, run[0], created)
    && (forall i :: 0 <= i < |steps| ==> Enabled(occ, run[i], steps[i]))
    && (forall i :: 0 <= i < |steps| ==> run[i + 1] == Apply(run[i], steps[i]))
  }

  // ---- what every run keeps -------------------------------------------------------------------

  /** Every trigger is charged to a past occurrence; a running tick fetched after all earlier triggers. */
  ghost predicate Past(occ: iset<Time>, created: Time, s: State) {
    && created <= s.now
    && |s.slots| == |s.times| == s.row.triggered && s.jobs <= s.row.triggered
    && (forall k :: 0 <= k < |s.slots| ==> s.slots[k] in occ && created < s.slots[k] <= s.times[k] <= s.now)
    && s.row.nextTriggerAt in occ && created < s.row.nextTriggerAt
    && (forall r :: r in s.resumes ==> r in occ && created < r)
    && (s.due.Some? ==>
          && s.due.value.slot in occ && created < s.due.value.slot <= s.due.value.fetchedAt <= s.now
          && (forall k :: 0 <= k < |s.times| ==> s.times[k] <= s.due.value.fetchedAt))
  }

  /** No occurrence has been charged twice, nor is the row or a running tick about to charge one again. */
  ghost predicate Fresh(s: State) {
    && NoDuplicates(s.slots)
    && s.row.nextTriggerAt !in s.slots
    && (s.due.Some? ==> s.due.value.slot !in s.slots)
  }

  /** A resume that writes a time already charged is the only step that can spoil freshness, and it always does. */
  lemma StepKeeps(occ: iset<Time>, created: Time, s: State, step: Step)
    requires Past(occ, created, s) && Enabled(occ, s, step)
    ensures Past(occ, created, Apply(s, step))
    ensures Fresh(s) ==> (Fresh(Apply(s, step)) <==> (step.WriteResume? ==> step.next !in s.slots))
  {
    if step.Trigger? && Fresh(s) {
      assert forall k :: 0 <= k < |s.slots| ==> s.slots[k] <= s.times[k];
    }
  }

  /** Every resume writes a time that no trigger has been charged to. */
  ghost predicate FreshWrites(run: seq<State>, steps: seq<Step>) {
    forall i :: 0 <= i < |steps| && i < |run| && steps[i].WriteResume? ==> steps[i].next !in run[i].slots
  }

  lemma {:induction false} RunKeeps(occ: iset<Time>, created: Time, run: seq<State>, steps: seq<Step>, n: nat)
    requires IsRun(occ, created, run, steps) && n < |run|
    ensures Past(occ, created, run[n])
    ensures FreshWrites(run, steps) ==> Fresh(run[n])
  {
    if n > 0 {
      RunKeeps(occ, created, run, steps, n - 1);
      assert Enabled(occ, run[n - 1], steps[n - 1]);
      assert run[n - 1 + 1] == Apply(run[n - 1], steps[n - 1]);
      StepKeeps(occ, created, run[n - 1], steps[n - 1]);
    }
  }

  lemma {:induction false} DistinctFitIn(slots: seq<Time>, s: set<Time>)
    requires NoDuplicates(slots)
    requires forall k :: 0 <= k < |slots| ==> slots[k] in s
    ensures |slots| <= |s|
  {
    if slots != [] {
      var x := slots[|slots| - 1];
      DistinctFitIn(slots[..|slots| - 1], s - {x});
    }
  }

  /** Each trigger is charged to its own occurrence, one that was not later than the trigger. */
  ghost predicate ChargedOnce(occ: iset<Time>, created: Time, s: State) {
    && |s.slots| == |s.times| == s.row.triggered
    && (forall k :: 0 <= k < |s.slots| ==> s.slots[k] in occ && created < s.slots[k] <= s.times[k] <= s.now)
    && NoDuplicates(s.slots)
  }

  /**
   * At most once: with non-overlapping ticks, over every run in which no resume writes a time already charged,
   * triggers map injectively to occurrences no later than the trigger. So jobs created, triggers counted and
   * occurrences since creation never exceed one another in that order; missed occurrences coalesce.
   */
  lemma TriggersAtMostOncePerOccurrence(occ: iset<Time>, created: Time, run: seq<State>, steps: seq<Step>,
                                        n: nat, all: set<Time>)
    requires IsRun(occ, created, run, steps) && FreshWrites(run, steps) && n < |run|
    requires forall t :: t in occ && created < t <= run[n].now ==> t in all
    ensures ChargedOnce(occ, created, run[n])
    ensures run[n].jobs <= run[n].row.triggered <= |all|
  {
    RunKeeps(occ, created, run, steps, n);
    DistinctFitIn(run[n].slots, all);
  }

  // ---- counting -------------------------------------------------------------------------------

  /** The triggers among the first n steps. */
  function TriggersIn(steps: seq<Step>, n: nat): nat
    requires n <= |steps|
  {
    if n == 0 then 0 else TriggersIn(steps, n - 1) + if steps[n - 1].Trigger? then 1 else 0
  }

  /** Those whose job creation succeeded. */
  function CreationsIn(steps: seq<Step>, n: nat): nat
    requires n <= |steps|
  {
    if n == 0 then 0
    else CreationsIn(steps, n - 1) + if steps[n - 1].Trigger? && steps[n - 1].created then 1 else 0
  }

  /** The counters are exact in every run: one counted for each trigger, one job for each successful creation. */
  lemma {:induction false} CountersAreExact(occ: iset<Time>, created: Time, run: seq<State>, steps: seq<Step>, n: nat)
    requires IsRun(occ, created, run, steps) && n < |run|
    ensures run[n].row.triggered == TriggersIn(steps, n)
    ensures run[n].jobs == CreationsIn(steps, n)
  {
    if n > 0 {
      CountersAreExact(occ, created, run, steps, n - 1);
      assert Enabled(occ, run[n - 1], steps[n - 1]);
      assert run[n - 1 + 1] == Apply(run[n - 1], steps[n - 1]);
    }
  }

  lemma {:induction false} AllCreatedExactly(steps: seq<Step>, n: nat)
    requires n <= |steps|
    ensures CreationsIn(steps, n) <= TriggersIn(steps, n)
    ensures CreationsIn(steps, n) == TriggersIn(steps, n) <==>
              forall i :: 0 <= i < n && steps[i].Trigger? ==> steps[i].created
  {
    if n > 0 { AllCreatedExactly(steps, n - 1); }
  }

  /** As many jobs as triggers were created if and only if no creation failed. */
  lemma JobPerTriggerExactly(occ: iset<Time>, created: Time, run: seq<State>, steps: seq<Step>, n: nat)
    requires IsRun(occ, created, run, steps) && n < |run|
    ensures run[n].jobs <= run[n].row.triggered
    ensures run[n].jobs == run[n].row.triggered <==>
              forall i :: 0 <= i < n && steps[i].Trigger? ==> steps[i].created
  {
    CountersAreExact(occ, created, run, steps, n);
    AllCreatedExactly(steps, n);
  }

  /** A running tick holds what the row said when it fetched it, and has neither triggered nor skipped since. */
  lemma {:induction false} DueWasFetched(occ: iset<Time>, created: Time, run: seq<State>, steps: seq<Step>, n: nat)
    returns (i: nat)
    requires IsRun(occ, created, run, steps) && n < |run| && run[n].due.Some?
    ensures i < n && steps[i] == Fetch && run[i].row.active && run[i].row.nextTriggerAt <= run[i].now
    ensures run[n].due.value == Due(run[i].row.nextTriggerAt, run[i].now)
    ensures forall k :: i < k < n ==> !steps[k].Fetch? && !steps[k].Trigger? && !steps[k].Skip?
  {
    assert Enabled(occ, run[n - 1], steps[n - 1]);
    assert run[n - 1 + 1] == Apply(run[n - 1], steps[n - 1]);
    if steps[n - 1].Fetch? {
      i := n - 1;
    } else {
      i := DueWasFetched(occ, created, run, steps, n - 1);
    }
  }

  /**
   * A trigger is charged to the time its tick found in the row, at the time it happens, and moves the row on to the
   * least occurrence after a moment between the two; it does not undo a pause.
   */
  lemma TriggerIsExact(occ: iset<Time>, created: Time, run: seq<State>, steps: seq<Step>, n: nat)
    returns (i: nat, at: Time)
    requires IsRun(occ, created, run, steps) && n < |steps| && steps[n].Trigger?
    ensures i < n && steps[i] == Fetch && forall k :: i < k < n ==> !steps[k].Fetch?
    ensures run[n + 1].slots == run[n].slots + [run[i].row.nextTriggerAt]
    ensures run[n + 1].times == run[n].times + [run[n].now]
    ensures run[i].now <= at <= run[n].now && IsNext(occ, at, run[n + 1].row.nextTriggerAt)
    ensures run[n + 1].row.active == run[n].row.active && run[n + 1].due.None?
  {
    assert Enabled(occ, run[n], steps[n]);
    assert run[n + 1] == Apply(run[n], steps[n]);
    i := DueWasFetched(occ, created, run, steps, n);
    at := steps[n].at;
  }

  /** Resumes computed for time `r`, less those written, among the first n steps. */
  function OpenResumes(steps: seq<Step>, n: nat, r: Time): int
    requires n <= |steps|
  {
    if n == 0 then 0
    else
      OpenResumes(steps, n - 1, r)
      + (if steps[n - 1] == ComputeResume(r) then 1 else 0) - if steps[n - 1] == WriteResume(r) then 1 else 0
  }

  /** Each computed resume is written at most once: what is pending is what was computed and not written. */
  lemma {:induction false} ResumesAreCounted(occ: iset<Time>, created: Time, run: seq<State>, steps: seq<Step>,
                                             n: nat, r: Time)
    requires IsRun(occ, created, run, steps) && n < |run|
    ensures run[n].resumes[r] == OpenResumes(steps, n, r)
  {
    if n > 0 {
      ResumesAreCounted(occ, created, run, steps, n - 1, r);
      assert Enabled(occ, run[n - 1], steps[n - 1]);
      assert run[n - 1 + 1] == Apply(run[n - 1], steps[n - 1]);
    }
  }

  // ---- a stale resume -------------------------------------------------------------------------

  lemma Extend(occ: iset<Time>, created: Time, run: seq<State>, steps: seq<Step>, step: Step)
    returns (run': seq<State>, steps': seq<Step>)
    requires IsRun(occ, created, run, steps) && Enabled(occ, run[|run| - 1], step)
    ensures IsRun(occ, created, run', steps') && run'[|run'| - 1] == Apply(run[|run| - 1], step)
    ensures run' == run + [run'[|run'| - 1]] && steps' == steps + [step]
  {
    run', steps' := run + [Apply(run[|run| - 1], step)], steps + [step];
  }

  /** A continuation of the run starts by writing `r`, writes no later stale resume, and charges an occurrence twice. */
  ghost predicate DoubleCharge(occ: iset<Time>, created: Time, run: seq<State>, steps: seq<Step>, r: Time,
                               run': seq<State>, steps': seq<Step>) {
    && IsRun(occ, created, run', steps') && run <= run' && steps + [WriteResume(r)] <= steps'
    && (forall i :: |steps| < i < |steps'| && steps'[i].WriteResume? ==> steps'[i].next !in run'[i].slots)
    && !NoDuplicates(run'[|run'| - 1].slots)
  }

  /** Once a resume may write a time already charged, the next tick charges that time again. */
  lemma StaleWriteTriggersTwice(occ: iset<Time>, created: Time, run: seq<State>, steps: seq<Step>, r: Time, next: Time)
    returns (run': seq<State>, steps': seq<Step>)
    requires IsRun(occ, created, run, steps)
    requires var s := run[|run| - 1]; r in s.resumes && r in s.slots && IsNext(occ, s.now, next)
    ensures DoubleCharge(occ, created, run, steps, r, run', steps')
    ensures run'[|run'| - 1].slots == run[|run| - 1].slots + [r]
  {
    var s := run[|run| - 1];
    RunKeeps(occ, created, run, steps, |run| - 1);
    run', steps' := ResumeWritten(occ, created, run, steps, r);
    run', steps' := Extend(occ, created, run', steps', Fetch);
    run', steps' := Extend(occ, created, run', steps', Trigger(s.now, next, true));
    var last := run'[|run'| - 1].slots;
    assert last == s.slots + [r];
    RepeatedAtEnd(s.slots, r);
  }

  lemma RepeatedAtEnd(slots: seq<Time>, r: Time)
    requires r in slots
    ensures !NoDuplicates(slots + [r])
  {
    var k :| 0 <= k < |slots| && slots[k] == r;
    assert (slots + [r])[k] == (slots + [r])[|slots|];
  }

  /** The resume is written, and a tick that was running fails. */
  lemma ResumeWritten(occ: iset<Time>, created: Time, run: seq<State>, steps: seq<Step>, r: Time)
    returns (run': seq<State>, steps': seq<Step>)
    requires IsRun(occ, created, run, steps) && r in run[|run| - 1].resumes
    ensures IsRun(occ, created, run', steps') && run <= run'
    ensures steps' == steps + [WriteResume(r)] || steps' == steps + [WriteResume(r), Skip]
    ensures var s, n := run[|run| - 1], run'[|run'| - 1];
            n.now == s.now && n.row.active && n.row.nextTriggerAt == r && n.due.None? && n.slots == s.slots
  {
    run', steps' := Extend(occ, created, run, steps, WriteResume(r));
    if run[|run| - 1].due.Some? {
      run', steps' := Extend(occ, created, run', steps', Skip);
    }
  }

  /** Writing a resume is harmless, whatever follows, exactly when its time has not been charged before. */
  lemma ResumeWriteExact(occ: iset<Time>, created: Time, run: seq<State>, steps: seq<Step>, r: Time, next: Time)
    requires IsRun(occ, created, run, steps) && FreshWrites(run, steps)
    requires r in run[|run| - 1].resumes && IsNext(occ, run[|run| - 1].now, next)
    ensures (exists run', steps' :: DoubleCharge(occ, created, run, steps, r, run', steps'))
            <==> r in run[|run| - 1].slots
  {
    if r in run[|run| - 1].slots {
      var run', steps' := StaleWriteTriggersTwice(occ, created, run, steps, r, next);
    } else {
      forall run', steps' | IsRun(occ, created, run', steps')
        ensures !DoubleCharge(occ, created, run, steps, r, run', steps')
      {
        if DoubleCharge(occ, created, run, steps, r, run', steps') {
          FreshAllAlong(run, steps, r, run', steps');
          RunKeeps(occ, created, run', steps', |run'| - 1);
          assert false;
        }
      }
    }
  }

  lemma FreshAllAlong(run: seq<State>, steps: seq<Step>, r: Time, run': seq<State>, steps': seq<Step>)
    requires |run| == |steps| + 1 && FreshWrites(run, steps) && r !in run[|run| - 1].slots
    requires |run'| == |steps'| + 1 && run <= run' && steps + [WriteResume(r)] <= steps'
    requires forall i :: |steps| < i < |steps'| && steps'[i].WriteResume? ==> steps'[i].next !in run'[i].slots
    ensures FreshWrites(run', steps')
  {
    forall i | 0 <= i < |steps'| && steps'[i].WriteResume? ensures steps'[i].next !in run'[i].slots {
      if i <= |steps| {
        assert steps'[i] == (steps + [WriteResume(r)])[i] && run'[i] == run[i];
      }
    }
  }

  /** Any schedule with two occurrences to come can be triggered twice for the first of them. */
  lemma AnyScheduleCanTriggerTwice(occ: iset<Time>, created: Time, a: Time, b: Time)
    returns (run: seq<State>, steps: seq<Step>)
    requires IsNext(occ, created, a) && IsNext(occ, a, b)
    ensures IsRun(occ, created, run, steps)
    ensures run[|run| - 1].slots == [a, a]
  {
    run, steps := [State(created, Schedule(true, a, 0), None, multiset{}, [], [], 0)], [];
    run, steps := Extend(occ, created, run, steps, ComputeResume(a));
    run, steps := Extend(occ, created, run, steps, Wait(a - created));
    run, steps := Extend(occ, created, run, steps, Fetch);
    run, steps := Extend(occ, created, run, steps, Trigger(a, b, true));
    run, steps := StaleWriteTriggersTwice(occ, created, run, steps, a, b);
  }

  // ---- resumes that no tick splits ------------------------------------------------------------

  /** No tick reads the row while a resume is between computing its time and writing it. */
  ghost predicate ResumesAtomic(run: seq<State>, steps: seq<Step>) {
    forall i :: 0 <= i < |steps| && i < |run| && steps[i].Fetch? ==> run[i].resumes == multiset{}
  }

  /** Occurrences are charged in order, and every time still held by the row, a tick or a resume comes later. */
  ghost predicate InOrder(s: State) {
    && (forall j, k :: 0 <= j < k < |s.slots| ==> s.slots[j] < s.slots[k])
    && (forall k :: 0 <= k < |s.slots| ==> s.slots[k] < s.row.nextTriggerAt)
    && (forall k :: 0 <= k < |s.slots| && s.due.Some? ==> s.slots[k] < s.due.value.slot)
    && (forall r, k :: r in s.resumes && 0 <= k < |s.slots| ==> s.slots[k] < r)
    && (forall r :: r in s.resumes && s.due.Some? ==> s.due.value.slot < r)
  }

  lemma StepStaysInOrder(occ: iset<Time>, created: Time, s: State, step: Step)
    requires Past(occ, created, s) && InOrder(s) && Enabled(occ, s, step)
    requires step.Fetch? ==> s.resumes == multiset{}
    ensures InOrder(Apply(s, step))
    ensures step.WriteResume? ==> step.next !in s.slots
  {
    assert forall k :: 0 <= k < |s.slots| ==> s.slots[k] <= s.times[k] <= s.now;
  }

  /** If no tick splits a resume, occurrences are charged in order. */
  lemma {:induction false} AtomicResumesStayInOrder(occ: iset<Time>, created: Time, run: seq<State>, steps: seq<Step>,
                                                    n: nat)
    requires IsRun(occ, created, run, steps) && ResumesAtomic(run, steps) && n < |run|
    ensures Past(occ, created, run[n]) && InOrder(run[n])
  {
    RunKeeps(occ, created, run, steps, n);
    if n > 0 {
      AtomicResumesStayInOrder(occ, created, run, steps, n - 1);
      assert Enabled(occ, run[n - 1], steps[n - 1]);
      assert run[n - 1 + 1] == Apply(run[n - 1], steps[n - 1]);
      StepStaysInOrder(occ, created, run[n - 1], steps[n - 1]);
    }
  }

  /** So with resumes that no tick splits, triggering is at most once and in the order of the occurrences. */
  lemma AtomicResumesTriggerOnce(occ: iset<Time>, created: Time, run: seq<State>, steps: seq<Step>,
                                 n: nat, all: set<Time>)
    requires IsRun(occ, created, run, steps) && ResumesAtomic(run, steps) && n < |run|
    requires forall t :: t in occ && created < t <= run[n].now ==> t in all
    ensures FreshWrites(run, steps) && ChargedOnce(occ, created, run[n])
    ensures run[n].jobs <= run[n].row.triggered <= |all|
    ensures forall j, k :: 0 <= j < k < |run[n].slots| ==> run[n].slots[j] < run[n].slots[k]
  {
    forall i | 0 <= i < |steps| && steps[i].WriteResume? ensures steps[i].next !in run[i].slots {
      AtomicResumesStayInOrder(occ, created, run, steps, i);
      StepStaysInOrder(occ, created, run[i], steps[i]);
    }
    AtomicResumesStayInOrder(occ, created, run, steps, n);
    TriggersAtMostOncePerOccurrence(occ, created, run, steps, n, all);
  }

  // ---- pausing --------------------------------------------------------------------------------

  /** From a pause until a resume is written, no tick fetches the schedule. */
  lemma {:induction false} PausedUntilResumed(occ: iset<Time>, created: Time, run: seq<State>, steps: seq<Step>,
                                              i: nat, j: nat)
    requires IsRun(occ, created, run, steps) && i < j < |run| && steps[i].Pause?
    requires forall k :: i < k < j ==> !steps[k].WriteResume?
    ensures !run[j].row.active && !Enabled(occ, run[j], Fetch)
    decreases j - i
  {
    assert run[j - 1 + 1] == Apply(run[j - 1], steps[j - 1]);
    if j > i + 1 {
      PausedUntilResumed(occ, created, run, steps, i, j - 1);
    }
  }
}

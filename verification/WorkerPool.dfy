/** The autoscaler of the embedded worker pool: a threshold controller with ceiling arithmetic, on exact numbers. */
module WorkerPools {

  datatype PoolConfig = PoolConfig(minWorkers: nat, maxWorkers: nat, scaleUpThreshold: real, scaleDownThreshold: real)

  const DEFAULT_POOL_CONFIG := PoolConfig(1, 10, 20.0, 5.0)

  function Ceil(x: real): (n: int)
    ensures n as real - 1.0 < x <= n as real
  {
    -((-x).Floor)
  }

  function Least(a: int, b: int): int { if a <= b then a else b }

  function JobsPerWorker(depth: nat, current: nat): real {
    if current > 0 then depth as real / current as real else depth as real
  }

  /** The workers a load asks for. Dividing a positive load by a zero threshold asks for more than any maximum. */
  function Wanted(cfg: PoolConfig, load: real): int {
    if cfg.scaleUpThreshold == 0.0 then cfg.maxWorkers else Ceil(load / cfg.scaleUpThreshold)
  }

  /** The pool size after one scaling run at a given queue depth. A negative number to add adds nothing. */
  function Scaled(cfg: PoolConfig, depth: nat, current: nat): nat {
    var load := JobsPerWorker(depth, current);
    if load > cfg.scaleUpThreshold && current < cfg.maxWorkers then
      var toAdd := Least(Wanted(cfg, load) - current, cfg.maxWorkers - current);
      if toAdd > 0 then current + toAdd else current
    else if load < cfg.scaleDownThreshold && current > cfg.minWorkers then cfg.minWorkers
    else current
  }

  class WorkerPool {
    var workers: seq<int>
    var created: int
    const cfg: PoolConfig

    /** Every worker is a new one. */
    ghost predicate Valid()
      reads this
    {
      && (forall i :: 0 <= i < |workers| ==> workers[i] < created)
      && (forall i, j :: 0 <= i < j < |workers| ==> workers[i] != workers[j])
    }

    constructor (cfg: PoolConfig)
      ensures Valid() && workers == [] && this.cfg == cfg
    {
      this.cfg := cfg;
      workers, created := [], 0;
    }

    method AddWorker()
      requires Valid()
      modifies this
      ensures Valid() && |workers| == |old(workers)| + 1 && old(workers) < workers
    {
      workers, created := workers + [created], created + 1;
    }

    method AddWorkers(n: int)
      requires Valid()
      modifies this
      ensures Valid() && old(workers) <= workers && |workers| == |old(workers)| + if n > 0 then n else 0
    {
      var i := 0;
      while i < n
        invariant 0 <= i && (n > 0 ==> i <= n) && (n <= 0 ==> i == 0)
        invariant Valid() && old(workers) <= workers && |workers| == |old(workers)| + i
      {
        AddWorker();
        i := i + 1;
      }
    }

    method Start()
      requires Valid()
      modifies this
      ensures Valid() && |workers| == |old(workers)| + cfg.minWorkers && old(workers) <= workers
    {
      AddWorkers(cfg.minWorkers);
    }

    /** Scaling up only appends workers, scaling down only drops the last ones. */
    method AutoScale(depth: nat)
      requires Valid()
      modifies this
      ensures Valid() && |workers| == Scaled(cfg, depth, |old(workers)|)
      ensures old(workers) <= workers || workers <= old(workers)
    {
      var current := |workers|;
      var jobsPerWorker := JobsPerWorker(depth, current);
      if jobsPerWorker > cfg.scaleUpThreshold && current < cfg.maxWorkers {
        var toAdd := Least(Wanted(cfg, jobsPerWorker) - current, cfg.maxWorkers - current);
        AddWorkers(toAdd);
      } else if jobsPerWorker < cfg.scaleDownThreshold && current > cfg.minWorkers {
        var toRemove := current - cfg.minWorkers;
        workers := workers[..current - toRemove];
      }
    }
  }

  // ---- arithmetic -----------------------------------------------------------------------------

  lemma DivideCompare(a: real, b: real, x: real)
    requires b > 0.0
    ensures a / b > x <==> a > x * b
    ensures a / b < x <==> a < x * b
  {
    var q := a / b;
    assert q * b == a;
    if q > x { assert (q - x) * b > 0.0; }
    if q < x { assert (x - q) * b > 0.0; }
  }

  lemma MoreWorkersLessLoad(depth: nat, c: nat, k: nat)
    requires c <= k && k >= 1
    ensures 0.0 <= JobsPerWorker(depth, k) <= JobsPerWorker(depth, c) <= depth as real
  {
    var d := depth as real;
    DivideCompare(d, k as real, 0.0);
    if c >= 1 {
      var l := JobsPerWorker(depth, c);
      DivideCompare(d, c as real, d);
      assert d * c as real >= d;
      assert l * c as real == d;
      assert l >= 0.0 by { DivideCompare(d, c as real, 0.0); }
      assert l * k as real >= l * c as real;
      DivideCompare(d, k as real, l);
    } else {
      assert d * k as real >= d;
      DivideCompare(d, k as real, d);
    }
  }

  // ---- convergence ----------------------------------------------------------------------------

  ghost predicate Sensible(cfg: PoolConfig) {
    && 1 <= cfg.minWorkers <= cfg.maxWorkers
    && cfg.scaleUpThreshold > 0.0
    && 2.0 * cfg.scaleDownThreshold <= cfg.scaleUpThreshold
  }

  lemma DefaultsAreSensible()
    ensures Sensible(DEFAULT_POOL_CONFIG)
  {}

  lemma SizeStaysInBounds(cfg: PoolConfig, depth: nat, c: nat)
    requires cfg.minWorkers <= c <= cfg.maxWorkers
    ensures cfg.minWorkers <= Scaled(cfg, depth, c) <= cfg.maxWorkers
  {}

  lemma GrowsExactly(cfg: PoolConfig, depth: nat, c: nat)
    requires cfg.scaleUpThreshold > 0.0
    ensures var load, u := JobsPerWorker(depth, c), cfg.scaleUpThreshold;
            Scaled(cfg, depth, c) > c <==> load > u && load > c as real * u && c < cfg.maxWorkers
  {
    DivideCompare(JobsPerWorker(depth, c), cfg.scaleUpThreshold, c as real);
  }

  lemma GrowsToLeast(cfg: PoolConfig, depth: nat, c: nat)
    requires cfg.scaleUpThreshold > 0.0 && Scaled(cfg, depth, c) > c
    ensures var n, load, u := Scaled(cfg, depth, c), JobsPerWorker(depth, c), cfg.scaleUpThreshold;
            n <= cfg.maxWorkers && load > (n as real - 1.0) * u && (n == cfg.maxWorkers || load <= n as real * u)
  {
    var n, load, u := Scaled(cfg, depth, c), JobsPerWorker(depth, c), cfg.scaleUpThreshold;
    var wanted := Wanted(cfg, load);
    assert n <= wanted && (n == cfg.maxWorkers || n == wanted);
    DivideCompare(load, u, n as real - 1.0);
    DivideCompare(load, u, n as real);
  }

  lemma ShrinksExactly(cfg: PoolConfig, depth: nat, c: nat)
    ensures var load := JobsPerWorker(depth, c);
            && (Scaled(cfg, depth, c) < c <==>
                && load < cfg.scaleDownThreshold && c > cfg.minWorkers
                && (load <= cfg.scaleUpThreshold || c >= cfg.maxWorkers))
            && (Scaled(cfg, depth, c) < c ==> Scaled(cfg, depth, c) == cfg.minWorkers)
  {}

  /**
   * What one run decides: it grows exactly when the load asks for more workers than there are, and then to the least
   * size that meets the load, or to the maximum; it shrinks, to the minimum, exactly when the load is low and the
   * upper threshold, which is looked at first, does not apply.
   */
  lemma LoadDecides(cfg: PoolConfig, depth: nat, c: nat)
    requires cfg.scaleUpThreshold > 0.0
    ensures var n, load, u := Scaled(cfg, depth, c), JobsPerWorker(depth, c), cfg.scaleUpThreshold;
            && (n > c <==> load > u && load > c as real * u && c < cfg.maxWorkers)
            && (n > c ==> n <= cfg.maxWorkers && load > (n as real - 1.0) * u)
            && (n > c ==> n == cfg.maxWorkers || load <= n as real * u)
            && (n < c <==> load < cfg.scaleDownThreshold && c > cfg.minWorkers && (load <= u || c >= cfg.maxWorkers))
            && (n < c ==> n == cfg.minWorkers)
  {
    GrowsExactly(cfg, depth, c);
    if Scaled(cfg, depth, c) > c { GrowsToLeast(cfg, depth, c); }
    ShrinksExactly(cfg, depth, c);
  }

  /** Comparing the load is comparing the depth, whatever the threshold; a pool of none counts as one worker. */
  lemma LoadIsDepth(depth: nat, c: nat, x: real)
    ensures var w := (if c >= 1 then c else 1) as real;
            && (JobsPerWorker(depth, c) > x <==> depth as real > x * w)
            && (JobsPerWorker(depth, c) < x <==> depth as real < x * w)
  {
    if c >= 1 { DivideCompare(depth as real, c as real, x); } else { assert x * 1.0 == x; }
  }

  /** When a run grows the pool, in depth and size alone. */
  lemma GrowthInDepth(cfg: PoolConfig, depth: nat, c: nat)
    requires cfg.scaleUpThreshold > 0.0
    ensures var d, u, w := depth as real, cfg.scaleUpThreshold, (if c >= 1 then c else 1) as real;
            Scaled(cfg, depth, c) > c <==> d > u * w && d > c as real * u * w && c < cfg.maxWorkers
  {
    GrowsExactly(cfg, depth, c);
    LoadIsDepth(depth, c, cfg.scaleUpThreshold);
    LoadIsDepth(depth, c, c as real * cfg.scaleUpThreshold);
  }

  /** To what size. */
  lemma GrownSizeInDepth(cfg: PoolConfig, depth: nat, c: nat)
    requires cfg.scaleUpThreshold > 0.0 && Scaled(cfg, depth, c) > c
    ensures var n, u := Scaled(cfg, depth, c), cfg.scaleUpThreshold;
            var d, w := depth as real, (if c >= 1 then c else 1) as real;
            && n <= cfg.maxWorkers && d > (n as real - 1.0) * u * w
            && (n == cfg.maxWorkers || d <= n as real * u * w)
  {
    var n, u := Scaled(cfg, depth, c), cfg.scaleUpThreshold;
    GrowsToLeast(cfg, depth, c);
    LoadIsDepth(depth, c, (n as real - 1.0) * u);
    LoadIsDepth(depth, c, n as real * u);
  }

  lemma ShrinkageInDepth(cfg: PoolConfig, depth: nat, c: nat)
    ensures var n, d, w := Scaled(cfg, depth, c), depth as real, (if c >= 1 then c else 1) as real;
            && (n < c <==> && d < cfg.scaleDownThreshold * w && c > cfg.minWorkers
                           && (d <= cfg.scaleUpThreshold * w || c >= cfg.maxWorkers))
            && (n < c ==> n == cfg.minWorkers)
  {
    ShrinksExactly(cfg, depth, c);
    LoadIsDepth(depth, c, cfg.scaleDownThreshold);
    LoadIsDepth(depth, c, cfg.scaleUpThreshold);
  }

  /** The thresholds a configuration should not have: zero grows any loaded pool to the maximum, less never grows. */
  lemma DegenerateGrowth(cfg: PoolConfig, depth: nat, c: nat)
    requires cfg.scaleUpThreshold <= 0.0
    ensures Scaled(cfg, depth, c) > c <==> cfg.scaleUpThreshold == 0.0 && depth > 0 && c < cfg.maxWorkers
    ensures Scaled(cfg, depth, c) > c ==> Scaled(cfg, depth, c) == cfg.maxWorkers
  {
    if cfg.scaleUpThreshold < 0.0 {
      NegativeThresholdNeverGrows(cfg, depth, c);
    } else {
      LoadIsDepth(depth, c, 0.0);
    }
  }

  /**
   * The decision of one run in depth and size alone, with w = max(c, 1): the pool grows if and only if the depth
   * exceeds U * w and c * U * w, to the least size n with depth <= n * U * w or to the maximum; it shrinks, to the
   * minimum, if and only if the depth is below D * w and growth is not considered.
   */
  lemma ScalingIsExact(cfg: PoolConfig, depth: nat, c: nat)
    requires cfg.scaleUpThreshold > 0.0
    ensures var n, u := Scaled(cfg, depth, c), cfg.scaleUpThreshold;
            var d, w := depth as real, (if c >= 1 then c else 1) as real;
            && (n > c <==> d > u * w && d > c as real * u * w && c < cfg.maxWorkers)
            && (n > c ==> n <= cfg.maxWorkers && d > (n as real - 1.0) * u * w)
            && (n > c ==> n == cfg.maxWorkers || d <= n as real * u * w)
            && (n < c <==> && d < cfg.scaleDownThreshold * w && c > cfg.minWorkers
                           && (d <= u * w || c >= cfg.maxWorkers))
            && (n < c ==> n == cfg.minWorkers)
  {
    GrowthInDepth(cfg, depth, c);
    if Scaled(cfg, depth, c) > c { GrownSizeInDepth(cfg, depth, c); }
    ShrinkageInDepth(cfg, depth, c);
  }

  /** A pool grows to k workers only if the depth exceeds what k - 1 of them may hold. */
  lemma GrowthNeedsDepth(cfg: PoolConfig, depth: nat, c: nat)
    requires Sensible(cfg) && Scaled(cfg, depth, c) > c
    ensures depth as real > (Scaled(cfg, depth, c) - 1) as real * cfg.scaleUpThreshold
  {
    var k, u := Scaled(cfg, depth, c), cfg.scaleUpThreshold;
    var load := JobsPerWorker(depth, c);
    MoreWorkersLessLoad(depth, c, k);
    DivideCompare(load, u, (k - 1) as real);
  }

  /** After growing, the load is still above the scale-down threshold. */
  lemma GrownIsNotShrunk(cfg: PoolConfig, depth: nat, c: nat)
    requires Sensible(cfg) && Scaled(cfg, depth, c) > c && Scaled(cfg, depth, c) > cfg.minWorkers
    ensures JobsPerWorker(depth, Scaled(cfg, depth, c)) >= cfg.scaleDownThreshold
  {
    GrowthNeedsDepth(cfg, depth, c);
    LoadAbove(depth, Scaled(cfg, depth, c), cfg.scaleUpThreshold, cfg.scaleDownThreshold);
  }

  lemma LoadAbove(depth: nat, k: nat, up: real, down: real)
    requires k >= 2 && up > 0.0 && 2.0 * down <= up && depth as real > (k - 1) as real * up
    ensures JobsPerWorker(depth, k) >= down
  {
    var r := k as real;
    HalfOf(k, up);
    assert (up / 2.0 - down) * r >= 0.0;
    assert down * r <= up / 2.0 * r;
    DivideCompare(depth as real, r, down);
  }

  lemma HalfOf(k: nat, u: real)
    requires k >= 2 && u > 0.0
    ensures (k - 1) as real * u >= u / 2.0 * k as real
  {
    assert ((k - 1) as real - k as real / 2.0) * u >= 0.0;
  }

  lemma DivideMonotone(a: real, b: real, u: real)
    requires u > 0.0 && a <= b
    ensures a / u <= b / u
  {
    DivideCompare(a, u, b / u);
    assert (b / u) * u == b;
  }

  lemma MoreLoadWantsMore(cfg: PoolConfig, a: real, b: real)
    requires cfg.scaleUpThreshold >= 0.0 && a <= b
    ensures Wanted(cfg, a) <= Wanted(cfg, b)
  {
    if cfg.scaleUpThreshold > 0.0 { DivideMonotone(a, b, cfg.scaleUpThreshold); }
  }

  /** With a negative threshold no load asks for workers. */
  lemma NegativeThresholdNeverGrows(cfg: PoolConfig, depth: nat, c: nat)
    requires cfg.scaleUpThreshold < 0.0
    ensures Scaled(cfg, depth, c) <= c
  {
    var load, v := JobsPerWorker(depth, c), -cfg.scaleUpThreshold;
    if c > 0 { DivideCompare(depth as real, c as real, 0.0); }
    DivideCompare(load, v, 0.0);
    assert load / cfg.scaleUpThreshold == -(load / v);
  }

  /** After growing, the pool does not grow again at the same depth. */
  lemma GrownIsNotGrown(cfg: PoolConfig, depth: nat, c: nat)
    requires Scaled(cfg, depth, c) > c
    ensures Scaled(cfg, depth, Scaled(cfg, depth, c)) <= Scaled(cfg, depth, c)
  {
    var k := Scaled(cfg, depth, c);
    if cfg.scaleUpThreshold < 0.0 {
      NegativeThresholdNeverGrows(cfg, depth, c);
    } else {
      MoreWorkersLessLoad(depth, c, k);
      MoreLoadWantsMore(cfg, JobsPerWorker(depth, k), JobsPerWorker(depth, c));
    }
  }

  lemma GrownIsSettled(cfg: PoolConfig, depth: nat, c: nat)
    requires Sensible(cfg) && Scaled(cfg, depth, c) > c
    ensures Scaled(cfg, depth, Scaled(cfg, depth, c)) == Scaled(cfg, depth, c)
  {
    if Scaled(cfg, depth, c) > cfg.minWorkers {
      GrownIsNotShrunk(cfg, depth, c);
    }
    GrownIsNotGrown(cfg, depth, c);
  }

  // ---- when the pool settles ------------------------------------------------------------------

  /** The size the pool grows to from its minimum. */
  function Target(cfg: PoolConfig, depth: nat): int {
    Least(Wanted(cfg, JobsPerWorker(depth, cfg.minWorkers)), cfg.maxWorkers)
  }

  /** At its minimum the pool is overloaded, and at the size it then grows to it is underloaded. */
  predicate Flips(cfg: PoolConfig, depth: nat) {
    && JobsPerWorker(depth, cfg.minWorkers) > cfg.scaleUpThreshold
    && Target(cfg, depth) > cfg.minWorkers
    && var load := JobsPerWorker(depth, Target(cfg, depth));
    && load < cfg.scaleDownThreshold
    && (load <= cfg.scaleUpThreshold || Target(cfg, depth) == cfg.maxWorkers)
  }

  predicate Settled(cfg: PoolConfig, depth: nat, c: nat) { Scaled(cfg, depth, c) == c }

  /** The size after n non-overlapping scaling runs at one depth. */
  function AfterRuns(cfg: PoolConfig, depth: nat, c: nat, n: nat): nat {
    if n == 0 then c else Scaled(cfg, depth, AfterRuns(cfg, depth, c, n - 1))
  }

  /** After some number of runs the size no longer changes. */
  ghost predicate Settles(cfg: PoolConfig, depth: nat, c: nat) {
    exists n: nat :: Settled(cfg, depth, AfterRuns(cfg, depth, c, n))
  }

  /** A pool above its minimum that grows would have grown at least as far from the minimum. */
  lemma GrowsFurtherFromMin(cfg: PoolConfig, depth: nat, c: nat)
    requires cfg.minWorkers <= c < Scaled(cfg, depth, c)
    ensures Scaled(cfg, depth, cfg.minWorkers) == Target(cfg, depth) >= Scaled(cfg, depth, c)
    ensures JobsPerWorker(depth, cfg.minWorkers) > cfg.scaleUpThreshold
  {
    if cfg.scaleUpThreshold < 0.0 {
      NegativeThresholdNeverGrows(cfg, depth, c);
    } else {
      if c > 0 { MoreWorkersLessLoad(depth, cfg.minWorkers, c); }
      MoreLoadWantsMore(cfg, JobsPerWorker(depth, c), JobsPerWorker(depth, cfg.minWorkers));
    }
  }

  /** Only a flipping pool that is not below its minimum shrinks right after growing. */
  lemma GrownThenShrunkFlips(cfg: PoolConfig, depth: nat, c: nat)
    requires cfg.minWorkers <= c < Scaled(cfg, depth, c)
    requires Scaled(cfg, depth, Scaled(cfg, depth, c)) < Scaled(cfg, depth, c)
    ensures Flips(cfg, depth)
  {
    GrowsFurtherFromMin(cfg, depth, c);
    MoreWorkersLessLoad(depth, Scaled(cfg, depth, c), Target(cfg, depth));
  }

  lemma GrownSettlesUnlessFlips(cfg: PoolConfig, depth: nat, c: nat)
    requires !Flips(cfg, depth) && cfg.minWorkers <= c < Scaled(cfg, depth, c)
    ensures Settled(cfg, depth, Scaled(cfg, depth, c))
  {
    GrownIsNotGrown(cfg, depth, c);
    if Scaled(cfg, depth, Scaled(cfg, depth, c)) < Scaled(cfg, depth, c) {
      GrownThenShrunkFlips(cfg, depth, c);
    }
  }

  /** A pool that does not flip settles after two runs from its minimum or more, after three from below. */
  lemma SettlesUnlessFlips(cfg: PoolConfig, depth: nat, c: nat)
    requires !Flips(cfg, depth)
    ensures cfg.minWorkers <= c ==> Settled(cfg, depth, Scaled(cfg, depth, Scaled(cfg, depth, c)))
    ensures Settled(cfg, depth, Scaled(cfg, depth, Scaled(cfg, depth, Scaled(cfg, depth, c))))
  {
    var min, one := cfg.minWorkers, Scaled(cfg, depth, c);
    if Scaled(cfg, depth, min) > min { GrownSettlesUnlessFlips(cfg, depth, min); }
    if one > c {
      GrownIsNotGrown(cfg, depth, c);
      if min <= c { GrownSettlesUnlessFlips(cfg, depth, c); }
    }
  }

  /** A flipping pool goes from its minimum to the target and back, for ever. */
  lemma {:induction false} FlipsForever(cfg: PoolConfig, depth: nat, n: nat)
    requires Flips(cfg, depth)
    ensures AfterRuns(cfg, depth, cfg.minWorkers, n) == if n % 2 == 0 then cfg.minWorkers else Target(cfg, depth)
    ensures Target(cfg, depth) > cfg.minWorkers
  {
    if n > 0 { FlipsForever(cfg, depth, n - 1); }
  }

  /**
   * Exactly when the pool settles, for any thresholds and bounds: from every size it reaches a fixed point if and
   * only if it does not flip at this depth, and then two runs suffice from every size within the bounds.
   */
  lemma SettlesExactly(cfg: PoolConfig, depth: nat)
    requires cfg.minWorkers <= cfg.maxWorkers
    ensures (forall c: nat :: Settles(cfg, depth, c)) <==> !Flips(cfg, depth)
    ensures (forall c: nat :: cfg.minWorkers <= c <= cfg.maxWorkers ==>
               Settled(cfg, depth, AfterRuns(cfg, depth, c, 2))) <==> !Flips(cfg, depth)
  {
    var min := cfg.minWorkers;
    if Flips(cfg, depth) {
      forall n: nat ensures !Settled(cfg, depth, AfterRuns(cfg, depth, min, n)) {
        FlipsForever(cfg, depth, n);
        FlipsForever(cfg, depth, n + 1);
      }
      assert !Settles(cfg, depth, min);
      assert !Settled(cfg, depth, AfterRuns(cfg, depth, min, 2));
    } else {
      forall c: nat
        ensures min <= c ==> Settled(cfg, depth, AfterRuns(cfg, depth, c, 2))
        ensures Settles(cfg, depth, c)
      {
        SettlesUnlessFlips(cfg, depth, c);
        ThreeRuns(cfg, depth, c);
        assert Settled(cfg, depth, AfterRuns(cfg, depth, c, 3));
      }
    }
  }

  lemma ThreeRuns(cfg: PoolConfig, depth: nat, c: nat)
    ensures AfterRuns(cfg, depth, c, 2) == Scaled(cfg, depth, Scaled(cfg, depth, c))
    ensures AfterRuns(cfg, depth, c, 3) == Scaled(cfg, depth, Scaled(cfg, depth, Scaled(cfg, depth, c)))
  {
    assert AfterRuns(cfg, depth, c, 1) == Scaled(cfg, depth, AfterRuns(cfg, depth, c, 0));
  }

  /** With the thresholds a factor of two apart the pool flips at no depth. */
  lemma SensibleNeverFlips(cfg: PoolConfig, depth: nat)
    requires Sensible(cfg)
    ensures !Flips(cfg, depth)
  {
    if Flips(cfg, depth) {
      FlipsForever(cfg, depth, 1);
      assert Scaled(cfg, depth, cfg.minWorkers) == Target(cfg, depth);
      GrownIsNotShrunk(cfg, depth, cfg.minWorkers);
      assert false;
    }
  }

  /** So at a constant depth such a pool reaches a fixed point after at most two scaling runs, from any size. */
  lemma SettlesInTwo(cfg: PoolConfig, depth: nat, c: nat)
    requires Sensible(cfg)
    ensures Settled(cfg, depth, Scaled(cfg, depth, Scaled(cfg, depth, c)))
  {
    if cfg.minWorkers <= c {
      SensibleNeverFlips(cfg, depth);
      SettlesUnlessFlips(cfg, depth, c);
    } else if Scaled(cfg, depth, c) > c {
      GrownIsSettled(cfg, depth, c);
    }
  }

  /** From any size, every run after the second leaves the pool as it is; from a size in bounds it never leaves them. */
  lemma {:induction false} PoolConverges(cfg: PoolConfig, depth: nat, c: nat, n: nat)
    requires Sensible(cfg)
    ensures n >= 2 ==> AfterRuns(cfg, depth, c, n) == AfterRuns(cfg, depth, c, 2)
    ensures cfg.minWorkers <= c <= cfg.maxWorkers ==> cfg.minWorkers <= AfterRuns(cfg, depth, c, n) <= cfg.maxWorkers
  {
    if n > 0 {
      PoolConverges(cfg, depth, c, n - 1);
      if cfg.minWorkers <= c <= cfg.maxWorkers {
        SizeStaysInBounds(cfg, depth, AfterRuns(cfg, depth, c, n - 1));
      }
      if n >= 3 {
        ThreeRuns(cfg, depth, c);
        SettlesInTwo(cfg, depth, c);
      }
    }
  }

  /** Thresholds closer than that flip a pool of one at every depth between the upper one and twice the lower one. */
  lemma CloseThresholdsOscillate(cfg: PoolConfig, depth: nat)
    requires cfg.minWorkers == 1 && cfg.maxWorkers >= 2
    requires 0.0 < cfg.scaleDownThreshold <= cfg.scaleUpThreshold < depth as real < 2.0 * cfg.scaleDownThreshold
    ensures Flips(cfg, depth) && Target(cfg, depth) == 2
  {
    var u, d := cfg.scaleUpThreshold, depth as real;
    DivideCompare(d, u, 1.0);
    DivideCompare(d, u, 2.0);
    assert Ceil(d / u) == 2;
    assert d / 1.0 == d;
    DivideCompare(d, 2.0, cfg.scaleDownThreshold);
  }
}

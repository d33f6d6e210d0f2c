/**
 * Leader election on top of the lock: campaigns, renewals and stops of any number of processes, interleaved freely.
 * Timers are over-approximated: a campaign may begin whenever its process is running, a renewal at any time.
 */
module LeaderElection {
  import opened Domain
  import L = LockProtocol
  import opened LockProtocol

  datatype Role = LEADER | FOLLOWER | CANDIDATE

  datatype Proc = Proc(role: Role, running: bool)

  /**
   * `leads` is the token a process last became leader with. `reached` is when a SET or PEXPIRE script carrying a
   * token last reached Redis, `deleted` the tokens a release removed; both only record what Redis has executed.
   */
  datatype Cluster = Cluster(lock: State, procs: map<Pid, Proc>, leads: map<Pid, Token>,
                             reached: map<Token, int>, deleted: set<Token>)

  datatype Move =
    | Wait(d: nat)
    | Start(p: Pid, c: CallId, t: Token)       // start(): running, then campaign
    | Campaign(p: Pid, c: CallId, t: Token)    // a campaign from a timer or after stepping down
    | RenewalDue(p: Pid, c: CallId)            // the renewal timer fires
    | Stop(p: Pid, c: CallId)
    | AtRedis(c: CallId)
    | Reply(c: CallId)
    | Lost(c: CallId)                          // the call rejects in the process

  function ProcOf(s: Cluster, p: Pid): Proc {
    if p in s.procs then s.procs[p] else Proc(FOLLOWER, false)
  }

  function SetRole(s: Cluster, p: Pid, role: Role): Cluster {
    s.(procs := s.procs[p := ProcOf(s, p).(role := role)])
  }

  const IDLE := Cluster(INITIAL, map[], map[], map[], {})

  /** The lock step a move takes, if any: renewals and stops without a local entry return without asking Redis. */
  function LockStep(ttl: nat, s: Cluster, m: Move): Option<Step> {
    match m
    case Wait(d) => Some(Tick(d))
    case Start(p, c, t) => Some(BeginAcquire(p, c, t, ttl))
    case Campaign(p, c, t) => Some(BeginAcquire(p, c, t, ttl))
    case RenewalDue(p, c) => if p in s.lock.locks then Some(BeginRenew(p, c, ttl)) else None
    case Stop(p, c) => if ProcOf(s, p).role.LEADER? && p in s.lock.locks then Some(BeginRelease(p, c)) else None
    case AtRedis(c) => Some(Execute(c))
    case Reply(c) => Some(Finish(c))
    case Lost(c) => Some(Fail(c))
  }

  predicate CanMove(ttl: nat, s: Cluster, m: Move) {
    && (m.Campaign? ==> ProcOf(s, m.p).running)
    && (LockStep(ttl, s, m).Some? ==> L.Enabled(s.lock, LockStep(ttl, s, m).value))
  }

  function Locked(ttl: nat, s: Cluster, m: Move): Cluster
    requires CanMove(ttl, s, m)
  {
    var step := LockStep(ttl, s, m);
    if step.Some? then s.(lock := L.Apply(s.lock, step.value)) else s
  }

  /** What Redis executed is recorded. */
  function Recorded(s: Cluster, c: CallId): Cluster
    requires c in s.lock.calls
  {
    var call := s.lock.calls[c];
    match call.kind
    case Acquire => if Live(s.lock) then s else s.(reached := s.reached[call.token := s.lock.now])
    case Renew => s.(reached := s.reached[call.token := s.lock.now])
    case Release => if Owns(s.lock, call.token) then s.(deleted := s.deleted + {call.token}) else s
  }

  function Moved(ttl: nat, s: Cluster, m: Move): Cluster
    requires CanMove(ttl, s, m)
  {
    var n := Locked(ttl, s, m);
    match m
    case Wait(_) => n
    case Start(p, _, _) => n.(procs := n.procs[p := Proc(CANDIDATE, true)])
    case Campaign(p, _, _) => SetRole(n, p, CANDIDATE)
    case RenewalDue(p, _) => if p in s.lock.locks then n else SetRole(n, p, FOLLOWER)
    case Stop(p, _) =>
      var stopped := n.(procs := n.procs[p := ProcOf(s, p).(running := false)]);
      if ProcOf(s, p).role.LEADER? && p !in s.lock.locks then SetRole(stopped, p, FOLLOWER) else stopped
    case AtRedis(c) => Recorded(s, c).(lock := n.lock)
    case Reply(c) =>
      var call := s.lock.calls[c];
      if call.kind.Acquire? && call.phase.ok then
        SetRole(n, call.pid, LEADER).(leads := n.leads[call.pid := call.token])
      else if call.kind.Renew? && call.phase.ok then n
      else SetRole(n, call.pid, FOLLOWER)
    case Lost(c) =>
      var call := s.lock.calls[c];
      if call.kind.Acquire? then SetRole(n, call.pid, FOLLOWER) else n
  }

  ghost predicate IsElection(ttl: nat, run: seq<Cluster>, moves: seq<Move>) {
    && |run| == |moves| + 1
    && run[0] == IDLE
    && (forall i :: 0 <= i < |moves| ==> CanMove(ttl, run[i], moves[i]))
    && (forall i :: 0 <= i < |moves| ==> run[i + 1] == Moved(ttl, run[i], moves[i]))
  }

  /** A process in the LEADER role, not counting one whose own release has already deleted the key. */
  ghost predicate Leads(s: Cluster, p: Pid) {
    p in s.procs && s.procs[p].role.LEADER? && !(p in s.leads && s.leads[p] in s.deleted)
  }

  /** The timing assumption: no leader is ttl or more past the last SET or PEXPIRE with its token to reach Redis. */
  ghost predicate OnTime(ttl: nat, s: Cluster) {
    forall p :: Leads(s, p) && p in s.leads && s.leads[p] in s.reached ==> s.lock.now < s.reached[s.leads[p]] + ttl
  }

  /** An acquire that Redis granted and whose process will still hear of it. */
  predicate Granted(s: Cluster, c: CallId) {
    && c in s.lock.calls && s.lock.calls[c].kind.Acquire?
    && s.lock.calls[c].waiting && s.lock.calls[c].phase == Replied(true)
  }

  ghost predicate LeadersHoldKey(ttl: nat, s: Cluster) {
    forall p :: Leads(s, p) ==>
      && p in s.leads && IssuedTo(s.lock, s.leads[p], p) && s.leads[p] in s.reached
      && s.lock.cell == Held(s.leads[p], s.reached[s.leads[p]] + ttl)
      && (forall c :: !IsAcquire(s.lock, c, s.leads[p]))
  }

  ghost predicate GrantsHoldKey(ttl: nat, s: Cluster) {
    forall c :: Granted(s, c) ==>
      var t := s.lock.calls[c].token;
      && t in s.reached && t !in s.deleted
      && (s.lock.now < s.reached[t] + ttl ==> s.lock.cell == Held(t, s.reached[t] + ttl))
  }

  ghost predicate CallsUse(ttl: nat, s: Cluster) {
    forall c :: c in s.lock.calls && !s.lock.calls[c].kind.Release? ==> s.lock.calls[c].ttl == ttl
  }

  /** Deleted tokens are past their acquire call. */
  ghost predicate DeletedAreOld(s: Cluster) {
    forall t :: t in s.deleted ==> t in s.lock.issued && forall c :: !IsAcquire(s.lock, c, t)
  }

  ghost predicate Invariant(ttl: nat, s: Cluster) {
    Consistent(s.lock) && CallsUse(ttl, s) && DeletedAreOld(s) && LeadersHoldKey(ttl, s) && GrantsHoldKey(ttl, s)
  }

  // ---- moves that leave the key alone ---------------------------------------------------------

  /** Nothing about the key changes, nobody newly leads, no grant appears, and a new acquire call has a fresh token. */
  ghost predicate Calm(s: Cluster, n: Cluster) {
    && n.lock.cell == s.lock.cell && n.lock.now >= s.lock.now
    && n.leads == s.leads && n.reached == s.reached && n.deleted == s.deleted
    && (forall p :: Leads(n, p) ==> Leads(s, p))
    && (forall c :: Granted(n, c) ==> Granted(s, c) && n.lock.calls[c].token == s.lock.calls[c].token)
    && (forall c, t :: IsAcquire(n.lock, c, t) ==> IsAcquire(s.lock, c, t) || t !in s.lock.issued)
    && (forall t :: t in s.lock.issued ==> t in n.lock.issued && n.lock.issued[t] == s.lock.issued[t])
  }

  lemma CalmKeepsInvariant(ttl: nat, s: Cluster, n: Cluster)
    requires Invariant(ttl, s) && Calm(s, n) && Consistent(n.lock) && CallsUse(ttl, n)
    ensures Invariant(ttl, n)
  {}

  lemma LockStepConsistent(ttl: nat, s: Cluster, m: Move)
    requires Consistent(s.lock) && CallsUse(ttl, s) && CanMove(ttl, s, m)
    ensures Consistent(Moved(ttl, s, m).lock) && CallsUse(ttl, Moved(ttl, s, m))
  {
    var step := LockStep(ttl, s, m);
    MovesRefineLock(ttl, s, m);
    if step.Some? {
      L.StepConsistent(s.lock, step.value);
      StepUsesTtl(ttl, s.lock, step.value);
    }
  }

  lemma StepUsesTtl(ttl: nat, s: State, step: Step)
    requires L.Enabled(s, step)
    requires step.BeginAcquire? || step.BeginRenew? ==> step.ttl == ttl
    requires forall c :: c in s.calls && !s.calls[c].kind.Release? ==> s.calls[c].ttl == ttl
    ensures var n := L.Apply(s, step); forall c :: c in n.calls && !n.calls[c].kind.Release? ==> n.calls[c].ttl == ttl
  {}

  lemma BeginMakesNoLeader(ttl: nat, s: Cluster, m: Move, p: Pid)
    requires CanMove(ttl, s, m) && !m.AtRedis? && !m.Reply? && Leads(Moved(ttl, s, m), p)
    ensures Leads(s, p)
  {}

  lemma BeginIsCalm(ttl: nat, s: Cluster, m: Move)
    requires CanMove(ttl, s, m) && !m.AtRedis? && !m.Reply?
    ensures Calm(s, Moved(ttl, s, m))
  {
    forall p | Leads(Moved(ttl, s, m), p) ensures Leads(s, p) {
      BeginMakesNoLeader(ttl, s, m, p);
    }
  }

  lemma OtherReplyIsCalm(ttl: nat, s: Cluster, c: CallId)
    requires CanMove(ttl, s, Reply(c)) && !Granted(s, c)
    ensures Calm(s, Moved(ttl, s, Reply(c)))
  {
    var n := Moved(ttl, s, Reply(c));
    forall p | Leads(n, p) ensures Leads(s, p) {}
  }

  // ---- becoming leader ------------------------------------------------------------------------

  lemma GrantHeardInTime(ttl: nat, s: Cluster, c: CallId)
    requires Invariant(ttl, s) && CanMove(ttl, s, Reply(c)) && Granted(s, c)
    requires OnTime(ttl, Moved(ttl, s, Reply(c)))
    ensures Invariant(ttl, Moved(ttl, s, Reply(c)))
  {
    var n, call := Moved(ttl, s, Reply(c)), s.lock.calls[c];
    var t := call.token;
    LockStepConsistent(ttl, s, Reply(c));
    assert IsAcquire(s.lock, c, t);
    assert forall d, u :: IsAcquire(n.lock, d, u) <==> IsAcquire(s.lock, d, u) && d != c;
    assert forall d :: Granted(n, d) ==> Granted(s, d);
    assert IssuedTo(s.lock, t, call.pid);
    assert Leads(n, call.pid);
    forall p | Leads(n, p) && p != call.pid ensures Leads(s, p) && n.leads[p] == s.leads[p] {}
  }

  // ---- what Redis executes --------------------------------------------------------------------

  lemma RefusedIsCalm(ttl: nat, s: Cluster, c: CallId)
    requires CanMove(ttl, s, AtRedis(c)) && !s.lock.calls[c].kind.Renew?
    requires if s.lock.calls[c].kind.Acquire? then Live(s.lock) else !Owns(s.lock, s.lock.calls[c].token)
    ensures Calm(s, Moved(ttl, s, AtRedis(c)))
  {}

  /** With the key free, nobody leads, and no earlier grant is still within its ttl. */
  lemma FreeKeyMeansNoLeader(ttl: nat, s: Cluster)
    requires Invariant(ttl, s) && OnTime(ttl, s) && !Live(s.lock)
    ensures forall p :: !Leads(s, p)
    ensures forall c :: Granted(s, c) ==> s.lock.now >= s.reached[s.lock.calls[c].token] + ttl
  {}

  /** Redis set the key for call `c`, and nothing else changed. */
  ghost predicate KeySet(ttl: nat, s: Cluster, n: Cluster, c: CallId)
    requires c in s.lock.calls
  {
    var call := s.lock.calls[c];
    && n.procs == s.procs && n.leads == s.leads && n.deleted == s.deleted
    && n.reached == s.reached[call.token := s.lock.now]
    && n.lock == s.lock.(cell := Held(call.token, s.lock.now + ttl),
                         calls := s.lock.calls[c := call.(phase := Replied(true))])
  }

  lemma KeySetGrants(ttl: nat, s: Cluster, n: Cluster, c: CallId)
    requires Invariant(ttl, s) && OnTime(ttl, s) && !Live(s.lock)
    requires c in s.lock.calls && s.lock.calls[c].kind.Acquire? && KeySet(ttl, s, n, c)
    ensures GrantsHoldKey(ttl, n)
  {
    var t := s.lock.calls[c].token;
    FreeKeyMeansNoLeader(ttl, s);
    assert IsAcquire(s.lock, c, t);
    forall d | Granted(n, d) && d != c ensures Granted(s, d) && n.lock.calls[d].token == s.lock.calls[d].token != t {
      assert IsAcquire(s.lock, d, s.lock.calls[d].token);
    }
  }

  lemma KeySetLeaders(ttl: nat, s: Cluster, n: Cluster, c: CallId)
    requires Invariant(ttl, s) && OnTime(ttl, s) && !Live(s.lock)
    requires c in s.lock.calls && s.lock.calls[c].kind.Acquire? && KeySet(ttl, s, n, c)
    ensures LeadersHoldKey(ttl, n) && DeletedAreOld(n)
  {
    FreeKeyMeansNoLeader(ttl, s);
    forall d, u ensures IsAcquire(n.lock, d, u) <==> IsAcquire(s.lock, d, u) {}
    forall p ensures !Leads(n, p) { assert !Leads(s, p); }
  }

  lemma SetKeepsInvariant(ttl: nat, s: Cluster, c: CallId)
    requires Invariant(ttl, s) && OnTime(ttl, s) && CanMove(ttl, s, AtRedis(c))
    requires s.lock.calls[c].kind.Acquire? && !Live(s.lock)
    ensures Invariant(ttl, Moved(ttl, s, AtRedis(c)))
  {
    LockStepConsistent(ttl, s, AtRedis(c));
    KeySetGrants(ttl, s, Moved(ttl, s, AtRedis(c)), c);
    KeySetLeaders(ttl, s, Moved(ttl, s, AtRedis(c)), c);
  }

  /** A renewal with token `t` reached Redis: it extended the key if the token matched, and nothing else changed. */
  ghost predicate KeyRenewed(ttl: nat, s: Cluster, n: Cluster, c: CallId)
    requires c in s.lock.calls
  {
    var call := s.lock.calls[c];
    var ok := Owns(s.lock, call.token);
    && n.procs == s.procs && n.leads == s.leads && n.deleted == s.deleted
    && n.reached == s.reached[call.token := s.lock.now]
    && n.lock == s.lock.(cell := if ok then Held(call.token, s.lock.now + ttl) else s.lock.cell,
                         calls := s.lock.calls[c := call.(phase := Replied(ok))])
  }

  /** A renewal with a leader's token arrives in time, so it is granted. */
  lemma KeyRenewedGrants(ttl: nat, s: Cluster, n: Cluster, c: CallId)
    requires Invariant(ttl, s) && OnTime(ttl, s)
    requires c in s.lock.calls && s.lock.calls[c].kind.Renew? && KeyRenewed(ttl, s, n, c)
    ensures GrantsHoldKey(ttl, n) && LeadersHoldKey(ttl, n) && DeletedAreOld(n)
  {
    var t := s.lock.calls[c].token;
    forall d, u ensures IsAcquire(n.lock, d, u) <==> IsAcquire(s.lock, d, u) {}
    forall d | Granted(n, d) ensures Granted(s, d) && n.lock.calls[d].token == s.lock.calls[d].token != t {
      assert IsAcquire(s.lock, d, s.lock.calls[d].token);
    }
    forall p | Leads(n, p) ensures Leads(s, p) && n.lock.cell == Held(n.leads[p], n.reached[n.leads[p]] + ttl) {
      assert Leads(s, p);
      assert Owns(s.lock, s.leads[p]);
    }
  }

  lemma RenewKeepsInvariant(ttl: nat, s: Cluster, c: CallId)
    requires Invariant(ttl, s) && OnTime(ttl, s) && CanMove(ttl, s, AtRedis(c)) && s.lock.calls[c].kind.Renew?
    ensures Invariant(ttl, Moved(ttl, s, AtRedis(c)))
  {
    LockStepConsistent(ttl, s, AtRedis(c));
    KeyRenewedGrants(ttl, s, Moved(ttl, s, AtRedis(c)), c);
  }

  lemma DeleteKeepsInvariant(ttl: nat, s: Cluster, c: CallId)
    requires Invariant(ttl, s) && CanMove(ttl, s, AtRedis(c))
    requires s.lock.calls[c].kind.Release? && Owns(s.lock, s.lock.calls[c].token)
    ensures Invariant(ttl, Moved(ttl, s, AtRedis(c)))
  {
    var n, t := Moved(ttl, s, AtRedis(c)), s.lock.calls[c].token;
    LockStepConsistent(ttl, s, AtRedis(c));
    assert IssuedTo(s.lock, t, s.lock.calls[c].pid);
    forall d, u ensures IsAcquire(n.lock, d, u) <==> IsAcquire(s.lock, d, u) {}
    forall p ensures !Leads(n, p) {
      assert Leads(n, p) ==> Leads(s, p);
      assert Leads(s, p) ==> s.leads[p] == t;
    }
    forall d | Granted(n, d) ensures Granted(s, d) && n.lock.calls[d].token == s.lock.calls[d].token != t {
      assert IsAcquire(s.lock, d, s.lock.calls[d].token);
    }
  }

  lemma MoveKeepsInvariant(ttl: nat, s: Cluster, m: Move)
    requires Invariant(ttl, s) && CanMove(ttl, s, m)
    requires OnTime(ttl, s) && OnTime(ttl, Moved(ttl, s, m))
    ensures Invariant(ttl, Moved(ttl, s, m))
  {
    LockStepConsistent(ttl, s, m);
    if m.AtRedis? && s.lock.calls[m.c].kind.Renew? {
      RenewKeepsInvariant(ttl, s, m.c);
    } else if m.AtRedis? && s.lock.calls[m.c].kind.Acquire? && !Live(s.lock) {
      SetKeepsInvariant(ttl, s, m.c);
    } else if m.AtRedis? && s.lock.calls[m.c].kind.Release? && Owns(s.lock, s.lock.calls[m.c].token) {
      DeleteKeepsInvariant(ttl, s, m.c);
    } else if m.Reply? && Granted(s, m.c) {
      GrantHeardInTime(ttl, s, m.c);
    } else {
      if m.AtRedis? { RefusedIsCalm(ttl, s, m.c); }
      else if m.Reply? { OtherReplyIsCalm(ttl, s, m.c); }
      else { BeginIsCalm(ttl, s, m); }
      CalmKeepsInvariant(ttl, s, Moved(ttl, s, m));
    }
  }

  lemma {:induction false} ElectionInvariant(ttl: nat, run: seq<Cluster>, moves: seq<Move>, n: nat)
    requires IsElection(ttl, run, moves) && n < |run|
    requires forall i :: 0 <= i <= n ==> OnTime(ttl, run[i])
    ensures Invariant(ttl, run[n])
  {
    if n > 0 {
      ElectionInvariant(ttl, run, moves, n - 1);
      assert CanMove(ttl, run[n - 1], moves[n - 1]);
      assert run[n - 1 + 1] == Moved(ttl, run[n - 1], moves[n - 1]);
      MoveKeepsInvariant(ttl, run[n - 1], moves[n - 1]);
    }
  }

  /**
   * Timed mutual exclusion: whatever the number of processes and the interleaving, as long as every leader's
   * scripts keep reaching Redis within ttl of each other, at most one process leads, and it holds the live key.
   */
  lemma AtMostOneLeader(ttl: nat, run: seq<Cluster>, moves: seq<Move>, n: nat, p: Pid, q: Pid)
    requires IsElection(ttl, run, moves) && n < |run|
    requires forall i :: 0 <= i <= n ==> OnTime(ttl, run[i])
    requires Leads(run[n], p) && Leads(run[n], q)
    ensures p == q
    ensures OwnedBy(run[n].lock, p)
  {
    ElectionInvariant(ttl, run, moves, n);
    assert IssuedTo(run[n].lock, run[n].leads[p], p);
    assert IssuedTo(run[n].lock, run[n].leads[q], q);
  }

  // ---- leaders that are not counted -----------------------------------------------------------

  predicate InLeaderRole(s: Cluster, p: Pid) { ProcOf(s, p).role.LEADER? }

  /**
   * A release by `p` of the token it leads with has deleted the key, and `p` has not handled the reply: it still
   * awaits it, or, with `waiting` off, the call was rejected and its stop ended without resetting the role.
   */
  predicate Released(s: Cluster, c: CallId, p: Pid) {
    && c in s.lock.calls && s.lock.calls[c].kind.Release? && s.lock.calls[c].pid == p
    && s.lock.calls[c].phase == Replied(true)
    && p in s.leads && s.lock.calls[c].token == s.leads[p]
  }

  ghost predicate LeadersKnown(s: Cluster) {
    && (forall p :: InLeaderRole(s, p) ==> p in s.leads)
    && (forall p :: p in s.leads ==> IssuedTo(s.lock, s.leads[p], p))
  }

  /** The deleted tokens own nothing, they include those of every answered release, and their leaders have released. */
  ghost predicate DeletesAccounted(s: Cluster) {
    && (forall t :: t in s.deleted ==> !Owns(s.lock, t))
    && (forall c :: c in s.lock.calls && s.lock.calls[c].kind.Release? && s.lock.calls[c].phase == Replied(true) ==>
          s.lock.calls[c].token in s.deleted)
    && (forall p :: InLeaderRole(s, p) && p in s.leads && s.leads[p] in s.deleted ==> exists c :: Released(s, c, p))
  }

  ghost predicate Accounted(s: Cluster) {
    Consistent(s.lock) && DeletedAreOld(s) && LeadersKnown(s) && DeletesAccounted(s)
  }

  /** The reply handled by the move makes `p` leader. */
  predicate Promotes(s: Cluster, m: Move, p: Pid) {
    m.Reply? && Granted(s, m.c) && s.lock.calls[m.c].pid == p
  }

  lemma RoleComesFrom(ttl: nat, s: Cluster, m: Move, p: Pid)
    requires CanMove(ttl, s, m) && InLeaderRole(Moved(ttl, s, m), p)
    ensures InLeaderRole(s, p) || Promotes(s, m, p)
  {}

  lemma LeadsComeFrom(ttl: nat, s: Cluster, m: Move)
    requires CanMove(ttl, s, m)
    ensures Moved(ttl, s, m).leads ==
            if m.Reply? && Granted(s, m.c) then s.leads[s.lock.calls[m.c].pid := s.lock.calls[m.c].token] else s.leads
  {}

  lemma DeletedComeFrom(ttl: nat, s: Cluster, m: Move)
    requires CanMove(ttl, s, m)
    ensures Moved(ttl, s, m).deleted ==
            if m.AtRedis? && s.lock.calls[m.c].kind.Release? && Owns(s.lock, s.lock.calls[m.c].token)
            then s.deleted + {s.lock.calls[m.c].token} else s.deleted
  {}

  /** Tokens stay issued, and a new acquire call has a fresh one. */
  ghost predicate TokensGoOn(s: State, n: State) {
    && (forall t :: t in s.issued ==> t in n.issued && n.issued[t] == s.issued[t])
    && (forall c, t :: IsAcquire(n, c, t) ==> IsAcquire(s, c, t) || t !in s.issued)
  }

  lemma StepTokensGoOn(s: State, step: Step)
    requires L.Enabled(s, step)
    ensures TokensGoOn(s, L.Apply(s, step))
  {}

  lemma MoveTokensGoOn(ttl: nat, s: Cluster, m: Move)
    requires CanMove(ttl, s, m)
    ensures TokensGoOn(s.lock, Moved(ttl, s, m).lock)
  {
    MovesRefineLock(ttl, s, m);
    if LockStep(ttl, s, m).Some? { StepTokensGoOn(s.lock, LockStep(ttl, s, m).value); }
  }

  lemma DeletedStayOld(s: Cluster, n: Cluster, t: Token)
    requires Consistent(s.lock) && DeletedAreOld(s) && TokensGoOn(s.lock, n.lock)
    requires n.deleted == s.deleted || (n.deleted == s.deleted + {t}
             && exists c :: c in s.lock.calls && s.lock.calls[c].kind.Release? && s.lock.calls[c].token == t)
    ensures DeletedAreOld(n)
  {
    if n.deleted != s.deleted {
      var c :| c in s.lock.calls && s.lock.calls[c].kind.Release? && s.lock.calls[c].token == t;
      assert IssuedTo(s.lock, t, s.lock.calls[c].pid);
      assert forall d :: !IsAcquire(s.lock, d, t);
    }
  }

  lemma LeadersStayKnown(s: Cluster, n: Cluster, p: Pid, t: Token)
    requires LeadersKnown(s) && TokensGoOn(s.lock, n.lock)
    requires n.leads == s.leads || (n.leads == s.leads[p := t] && IssuedTo(s.lock, t, p))
    requires forall q :: InLeaderRole(n, q) ==> InLeaderRole(s, q) || q in n.leads
    ensures LeadersKnown(n)
  {}

  lemma MoveKeepsDeletedOld(ttl: nat, s: Cluster, m: Move)
    requires Consistent(s.lock) && DeletedAreOld(s) && CanMove(ttl, s, m)
    ensures DeletedAreOld(Moved(ttl, s, m))
  {
    MoveTokensGoOn(ttl, s, m);
    DeletedComeFrom(ttl, s, m);
    DeletedStayOld(s, Moved(ttl, s, m), if m.AtRedis? then s.lock.calls[m.c].token else 0);
  }

  lemma MoveKeepsLeadersKnown(ttl: nat, s: Cluster, m: Move)
    requires Consistent(s.lock) && LeadersKnown(s) && CanMove(ttl, s, m)
    ensures LeadersKnown(Moved(ttl, s, m))
  {
    var n := Moved(ttl, s, m);
    MoveTokensGoOn(ttl, s, m);
    LeadsComeFrom(ttl, s, m);
    forall q | InLeaderRole(n, q) ensures InLeaderRole(s, q) || q in n.leads { RoleComesFrom(ttl, s, m, q); }
    if m.Reply? && Granted(s, m.c) {
      var call := s.lock.calls[m.c];
      assert IssuedTo(s.lock, call.token, call.pid);
      LeadersStayKnown(s, n, call.pid, call.token);
    } else {
      LeadersStayKnown(s, n, 0, 0);
    }
  }

  lemma DeletedOwnNothing(ttl: nat, s: Cluster, m: Move, t: Token)
    requires Accounted(s) && CanMove(ttl, s, m) && t in Moved(ttl, s, m).deleted
    ensures !Owns(Moved(ttl, s, m).lock, t)
  {
    MovesRefineLock(ttl, s, m);
    if t in s.deleted && LockStep(ttl, s, m).Some? {
      L.SpentStays(s.lock, LockStep(ttl, s, m).value, t);
    }
  }

  /** A call is answered only when Redis executes it. */
  lemma AnsweredBefore(s: State, step: Step, c: CallId)
    requires L.Enabled(s, step) && c in L.Apply(s, step).calls && L.Apply(s, step).calls[c].phase.Replied?
    requires step != Execute(c)
    ensures c in s.calls && L.Apply(s, step).calls[c] == s.calls[c].(waiting := L.Apply(s, step).calls[c].waiting)
  {}

  lemma AnsweredIsDeleted(ttl: nat, s: Cluster, m: Move, c: CallId)
    requires DeletesAccounted(s) && CanMove(ttl, s, m)
    requires var n := Moved(ttl, s, m);
             c in n.lock.calls && n.lock.calls[c].kind.Release? && n.lock.calls[c].phase == Replied(true)
    ensures Moved(ttl, s, m).lock.calls[c].token in Moved(ttl, s, m).deleted
  {
    MovesRefineLock(ttl, s, m);
    assert s.deleted <= Moved(ttl, s, m).deleted;
    if m != AtRedis(c) && LockStep(ttl, s, m).Some? {
      AnsweredBefore(s.lock, LockStep(ttl, s, m).value, c);
    }
  }

  /** A release stays with its process until that handles the reply. */
  lemma ReleaseStays(ttl: nat, s: Cluster, m: Move, c: CallId, p: Pid)
    requires CanMove(ttl, s, m) && Released(s, c, p) && InLeaderRole(Moved(ttl, s, m), p)
    ensures Released(Moved(ttl, s, m), c, p) || Promotes(s, m, p)
  {}

  lemma DeletingRelease(ttl: nat, s: Cluster, m: Move, p: Pid)
    requires CanMove(ttl, s, m) && m.AtRedis? && Owns(s.lock, s.lock.calls[m.c].token)
    requires s.lock.calls[m.c].kind.Release? && s.lock.calls[m.c].pid == p
    requires p in s.leads && s.leads[p] == s.lock.calls[m.c].token
    ensures Released(Moved(ttl, s, m), m.c, p)
  {}

  /** A leader whose token has been deleted has a release to show for it. */
  lemma DeletedHasRelease(ttl: nat, s: Cluster, m: Move, p: Pid)
    requires Accounted(s) && CanMove(ttl, s, m) && InLeaderRole(Moved(ttl, s, m), p)
    requires p in Moved(ttl, s, m).leads && Moved(ttl, s, m).leads[p] in Moved(ttl, s, m).deleted
    ensures exists c :: Released(Moved(ttl, s, m), c, p)
  {
    RoleComesFrom(ttl, s, m, p);
    LeadsComeFrom(ttl, s, m);
    DeletedComeFrom(ttl, s, m);
    if Promotes(s, m, p) {
      assert IsAcquire(s.lock, m.c, s.lock.calls[m.c].token);
      assert false;
    } else if s.leads[p] in s.deleted {
      var c :| Released(s, c, p);
      ReleaseStays(ttl, s, m, c, p);
    } else {
      var call := s.lock.calls[m.c];
      assert IssuedTo(s.lock, call.token, call.pid) && IssuedTo(s.lock, s.leads[p], p);
      DeletingRelease(ttl, s, m, p);
    }
  }

  lemma MoveKeepsDeletesAccounted(ttl: nat, s: Cluster, m: Move)
    requires Accounted(s) && CanMove(ttl, s, m)
    ensures DeletesAccounted(Moved(ttl, s, m))
  {
    var n := Moved(ttl, s, m);
    forall t | t in n.deleted ensures !Owns(n.lock, t) { DeletedOwnNothing(ttl, s, m, t); }
    forall c | c in n.lock.calls && n.lock.calls[c].kind.Release? && n.lock.calls[c].phase == Replied(true)
      ensures n.lock.calls[c].token in n.deleted
    {
      AnsweredIsDeleted(ttl, s, m, c);
    }
    forall p | InLeaderRole(n, p) && p in n.leads && n.leads[p] in n.deleted ensures exists c :: Released(n, c, p) {
      DeletedHasRelease(ttl, s, m, p);
    }
  }

  lemma {:induction false} ElectionAccounted(ttl: nat, run: seq<Cluster>, moves: seq<Move>, n: nat)
    requires IsElection(ttl, run, moves) && n < |run|
    ensures Accounted(run[n])
  {
    if n > 0 {
      ElectionAccounted(ttl, run, moves, n - 1);
      var s, m := run[n - 1], moves[n - 1];
      assert CanMove(ttl, s, m);
      assert run[n - 1 + 1] == Moved(ttl, s, m);
      MovesRefineLock(ttl, s, m);
      if LockStep(ttl, s, m).Some? { L.StepConsistent(s.lock, LockStep(ttl, s, m).value); }
      MoveKeepsDeletedOld(ttl, s, m);
      MoveKeepsLeadersKnown(ttl, s, m);
      MoveKeepsDeletesAccounted(ttl, s, m);
    }
  }

  /**
   * Without any timing assumption: a process in the LEADER role is left out of `Leads` exactly when its own release
   * deleted the key and the release is still awaited or was rejected; the token it leads with no longer holds the key.
   */
  lemma UncountedExactly(ttl: nat, run: seq<Cluster>, moves: seq<Move>, n: nat, p: Pid)
    requires IsElection(ttl, run, moves) && n < |run| && InLeaderRole(run[n], p)
    ensures !Leads(run[n], p) <==> exists c :: Released(run[n], c, p)
    ensures !Leads(run[n], p) ==> p in run[n].leads && !Owns(run[n].lock, run[n].leads[p])
  {
    ElectionAccounted(ttl, run, moves, n);
  }

  /** So with every leader on time, two processes in the LEADER role mean that one of them has deleted its key. */
  lemma TwoLeadersExplained(ttl: nat, run: seq<Cluster>, moves: seq<Move>, n: nat, p: Pid, q: Pid) returns (c: CallId)
    requires IsElection(ttl, run, moves) && n < |run|
    requires forall i :: 0 <= i <= n ==> OnTime(ttl, run[i])
    requires p != q && InLeaderRole(run[n], p) && InLeaderRole(run[n], q)
    ensures Released(run[n], c, p) || Released(run[n], c, q)
  {
    UncountedExactly(ttl, run, moves, n, p);
    UncountedExactly(ttl, run, moves, n, q);
    if Leads(run[n], p) && Leads(run[n], q) {
      AtMostOneLeader(ttl, run, moves, n, p, q);
    }
    c :| Released(run[n], c, p) || Released(run[n], c, q);
  }

  /** Every move is a step of the lock protocol or leaves the lock alone, so ownership continuity holds here too. */
  lemma MovesRefineLock(ttl: nat, s: Cluster, m: Move)
    requires CanMove(ttl, s, m)
    ensures var step := LockStep(ttl, s, m);
            if step.Some? then L.Enabled(s.lock, step.value) && Moved(ttl, s, m).lock == L.Apply(s.lock, step.value)
            else Moved(ttl, s, m).lock == s.lock
  {}

  // ---- what the records say -------------------------------------------------------------------

  /** The move brings a renewal with token `t`, or a SET that takes effect, to Redis. */
  predicate BringsToRedis(s: Cluster, m: Move, t: Token) {
    && m.AtRedis? && m.c in s.lock.calls && s.lock.calls[m.c].token == t
    && (s.lock.calls[m.c].kind.Renew? || (s.lock.calls[m.c].kind.Acquire? && !Live(s.lock)))
  }

  ghost predicate LastReach(run: seq<Cluster>, moves: seq<Move>, i: nat, n: nat, t: Token)
    requires |run| == |moves| + 1 && n < |run|
  {
    i < n && BringsToRedis(run[i], moves[i], t) && forall k :: i < k < n ==> !BringsToRedis(run[k], moves[k], t)
  }

  lemma MoveRecords(ttl: nat, s: Cluster, m: Move, t: Token)
    requires CanMove(ttl, s, m)
    ensures var n := Moved(ttl, s, m);
            && (t in n.reached <==> BringsToRedis(s, m, t) || t in s.reached)
            && (t in n.reached ==> n.reached[t] == if BringsToRedis(s, m, t) then s.lock.now else s.reached[t])
  {}

  lemma RecordsOneMore(ttl: nat, run: seq<Cluster>, moves: seq<Move>, n: nat, t: Token)
    requires IsElection(ttl, run, moves) && n < |moves|
    ensures t in run[n + 1].reached <==> BringsToRedis(run[n], moves[n], t) || t in run[n].reached
    ensures t in run[n + 1].reached ==>
              run[n + 1].reached[t] == if BringsToRedis(run[n], moves[n], t) then run[n].lock.now else run[n].reached[t]
  {
    assert CanMove(ttl, run[n], moves[n]);
    assert run[n + 1] == Moved(ttl, run[n], moves[n]);
    MoveRecords(ttl, run[n], moves[n], t);
  }

  /** `reached` holds the time of the last SET or renewal of the token that Redis executed, */
  lemma {:induction false} ReachedIsLast(ttl: nat, run: seq<Cluster>, moves: seq<Move>, n: nat, t: Token)
    returns (i: nat)
    requires IsElection(ttl, run, moves) && n < |run| && t in run[n].reached
    ensures LastReach(run, moves, i, n, t) && run[n].reached[t] == run[i].lock.now
  {
    RecordsOneMore(ttl, run, moves, n - 1, t);
    if BringsToRedis(run[n - 1], moves[n - 1], t) {
      i := n - 1;
    } else {
      i := ReachedIsLast(ttl, run, moves, n - 1, t);
    }
  }

  /** and it holds one for every token that Redis executed one for. */
  lemma {:induction false} ExecutedIsReached(ttl: nat, run: seq<Cluster>, moves: seq<Move>, i: nat, n: nat, t: Token)
    requires IsElection(ttl, run, moves) && i < n < |run| && BringsToRedis(run[i], moves[i], t)
    ensures t in run[n].reached
  {
    RecordsOneMore(ttl, run, moves, n - 1, t);
    if i < n - 1 { ExecutedIsReached(ttl, run, moves, i, n - 1, t); }
  }

  // ---- entering and leaving the roles ---------------------------------------------------------

  predicate Campaigns(m: Move, p: Pid) { (m.Start? || m.Campaign?) && m.p == p }

  /** The process handles a reply of this kind and outcome. */
  predicate Handles(s: Cluster, m: Move, p: Pid, kind: Kind, ok: bool) {
    m.Reply? && L.Hears(s.lock, Finish(m.c), p, kind, ok)
  }

  /** What ends a role: a refusal, the end of a release, a campaign's lost request, or a lock no longer recorded. */
  predicate StepsDown(s: Cluster, m: Move, p: Pid) {
    || Handles(s, m, p, Renew, false)
    || Handles(s, m, p, Acquire, false)
    || Handles(s, m, p, Release, true) || Handles(s, m, p, Release, false)
    || (m.Lost? && m.c in s.lock.calls && s.lock.calls[m.c].pid == p && s.lock.calls[m.c].kind.Acquire?)
    || (m.RenewalDue? && m.p == p && p !in s.lock.locks)
    || (m.Stop? && m.p == p && p !in s.lock.locks && ProcOf(s, p).role.LEADER?)
  }

  lemma ReplySetsRole(ttl: nat, s: Cluster, c: CallId, p: Pid)
    requires CanMove(ttl, s, Reply(c))
    ensures ProcOf(Moved(ttl, s, Reply(c)), p).role ==
            if Handles(s, Reply(c), p, Acquire, true) then LEADER
            else if StepsDown(s, Reply(c), p) then FOLLOWER
            else ProcOf(s, p).role
  {
    assert s.lock.calls[c].phase == Replied(true) || s.lock.calls[c].phase == Replied(false);
  }

  lemma MoveSetsRole(ttl: nat, s: Cluster, m: Move, p: Pid)
    requires CanMove(ttl, s, m)
    ensures ProcOf(Moved(ttl, s, m), p).role ==
            if Campaigns(m, p) then CANDIDATE
            else if Handles(s, m, p, Acquire, true) then LEADER
            else if StepsDown(s, m, p) then FOLLOWER
            else ProcOf(s, p).role
  {
    if m.Reply? { ReplySetsRole(ttl, s, m.c, p); }
  }

  lemma MoveSetsRunning(ttl: nat, s: Cluster, m: Move, p: Pid)
    requires CanMove(ttl, s, m)
    ensures ProcOf(Moved(ttl, s, m), p).running <==>
              (m.Start? && m.p == p) || (ProcOf(s, p).running && !(m.Stop? && m.p == p))
  {}

  /** At move `i` the process heard of a grant; before `n` it neither campaigned again nor had to step down. */
  ghost predicate LeadingSince(run: seq<Cluster>, moves: seq<Move>, i: nat, n: nat, p: Pid)
    requires |run| == |moves| + 1 && n < |run|
  {
    && i < n && Handles(run[i], moves[i], p, Acquire, true)
    && (forall k :: i < k < n ==> !Campaigns(moves[k], p) && !StepsDown(run[k], moves[k], p))
  }

  /**
   * Over every election and with no timing assumption: a process is LEADER if and only if it heard of a grant and
   * since then neither campaigned, nor heard a refusal or the end of a release, nor found its lock unrecorded.
   */
  lemma {:induction false} LeaderExactly(ttl: nat, run: seq<Cluster>, moves: seq<Move>, n: nat, p: Pid)
    requires IsElection(ttl, run, moves) && n < |run|
    ensures InLeaderRole(run[n], p) <==> exists i: nat :: LeadingSince(run, moves, i, n, p)
  {
    if n > 0 {
      LeaderExactly(ttl, run, moves, n - 1, p);
      var s, m := run[n - 1], moves[n - 1];
      assert CanMove(ttl, s, m);
      assert run[n - 1 + 1] == Moved(ttl, s, m);
      MoveSetsRole(ttl, s, m, p);
      if i: nat :| LeadingSince(run, moves, i, n, p) && i < n - 1 {
        assert LeadingSince(run, moves, i, n - 1, p);
      }
      if InLeaderRole(s, p) && !Campaigns(m, p) && !StepsDown(s, m, p) {
        var i: nat :| LeadingSince(run, moves, i, n - 1, p);
        assert LeadingSince(run, moves, i, n, p);
      }
      if Handles(s, m, p, Acquire, true) {
        assert LeadingSince(run, moves, n - 1, n, p);
      }
    }
  }

  /** A LEADER leaves the role at exactly these moves; in particular when it hears that its renewal was refused. */
  lemma LeavesExactly(ttl: nat, run: seq<Cluster>, moves: seq<Move>, i: nat, p: Pid)
    requires IsElection(ttl, run, moves) && i < |moves| && InLeaderRole(run[i], p)
    ensures !InLeaderRole(run[i + 1], p) <==> Campaigns(moves[i], p) || StepsDown(run[i], moves[i], p)
    ensures Handles(run[i], moves[i], p, Renew, false) ==> ProcOf(run[i + 1], p).role.FOLLOWER?
    ensures moves[i].RenewalDue? && moves[i].p == p && p !in run[i].lock.locks ==> ProcOf(run[i + 1], p).role.FOLLOWER?
  {
    assert CanMove(ttl, run[i], moves[i]);
    assert run[i + 1] == Moved(ttl, run[i], moves[i]);
    MoveSetsRole(ttl, run[i], moves[i], p);
  }

  /** Process `p` started at move `i` and did not stop before `n`. */
  ghost predicate RunningSince(moves: seq<Move>, i: nat, n: nat, p: Pid)
    requires n <= |moves|
  {
    i < n && moves[i].Start? && moves[i].p == p && forall k :: i < k < n ==> !(moves[k].Stop? && moves[k].p == p)
  }

  /** A process runs, and so may campaign again, exactly between a start and the next stop. */
  lemma {:induction false} RunningExactly(ttl: nat, run: seq<Cluster>, moves: seq<Move>, n: nat, p: Pid)
    requires IsElection(ttl, run, moves) && n < |run|
    ensures ProcOf(run[n], p).running <==> exists i: nat :: RunningSince(moves, i, n, p)
    ensures n < |moves| && moves[n].Campaign? && moves[n].p == p ==> exists i: nat :: RunningSince(moves, i, n, p)
  {
    if n > 0 {
      RunningExactly(ttl, run, moves, n - 1, p);
      var s, m := run[n - 1], moves[n - 1];
      assert CanMove(ttl, s, m);
      assert run[n - 1 + 1] == Moved(ttl, s, m);
      MoveSetsRunning(ttl, s, m, p);
      if i: nat :| RunningSince(moves, i, n, p) && i < n - 1 {
        assert RunningSince(moves, i, n - 1, p);
      }
      if ProcOf(s, p).running && !(m.Stop? && m.p == p) {
        var i: nat :| RunningSince(moves, i, n - 1, p);
        assert RunningSince(moves, i, n, p);
      }
      if m.Start? && m.p == p {
        assert RunningSince(moves, n - 1, n, p);
      }
    }
    if n < |moves| { assert CanMove(ttl, run[n], moves[n]); }
  }

  // ---- runs with two leaders ------------------------------------------------------------------

  lemma Extend(ttl: nat, run: seq<Cluster>, moves: seq<Move>, m: Move) returns (run': seq<Cluster>, moves': seq<Move>)
    requires IsElection(ttl, run, moves) && CanMove(ttl, run[|run| - 1], m)
    ensures IsElection(ttl, run', moves') && run'[|run'| - 1] == Moved(ttl, run[|run| - 1], m)
    ensures moves' == moves + [m]
  {
    run', moves' := run + [Moved(ttl, run[|run| - 1], m)], moves + [m];
  }

  /** On a free key, one uninterrupted campaign makes its process leader. */
  lemma CampaignOnFreeKey(ttl: nat, run: seq<Cluster>, moves: seq<Move>, p: Pid, c: CallId, t: Token)
    returns (run': seq<Cluster>, moves': seq<Move>)
    requires IsElection(ttl, run, moves)
    requires var s := run[|run| - 1]; !Live(s.lock) && c !in s.lock.calls && t !in s.lock.issued
    ensures IsElection(ttl, run', moves') && moves' == moves + [Start(p, c, t), AtRedis(c), Reply(c)]
    ensures var s, n := run[|run| - 1], run'[|run'| - 1];
            && n.procs == s.procs[p := Proc(LEADER, true)] && n.leads == s.leads[p := t] && n.deleted == s.deleted
            && n.lock.cell == Held(t, s.lock.now + ttl) && n.lock.now == s.lock.now
            && n.lock.calls == s.lock.calls && n.lock.issued == s.lock.issued[t := p]
            && n.lock.locks == s.lock.locks[p := Entry(t, s.lock.now + ttl)]
  {
    var _, granted := CampaignGranted(ttl, run[|run| - 1], p, c, t);
    GrantHeard(ttl, run[|run| - 1], granted, p, c, t);
    run', moves' := Extend(ttl, run, moves, Start(p, c, t));
    run', moves' := Extend(ttl, run', moves', AtRedis(c));
    run', moves' := Extend(ttl, run', moves', Reply(c));
  }

  /** The process hears that its request was granted, and the call is over. */
  lemma GrantHeard(ttl: nat, s: Cluster, b: Cluster, p: Pid, c: CallId, t: Token)
    requires c !in s.lock.calls && b.procs == s.procs[p := Proc(CANDIDATE, true)]
    requires b.lock == State(s.lock.now, Held(t, s.lock.now + ttl), s.lock.locks,
                             s.lock.calls[c := Call(p, Acquire, t, ttl, Replied(true), true)], s.lock.issued[t := p])
    ensures CanMove(ttl, b, Reply(c))
    ensures var n := Moved(ttl, b, Reply(c));
            && n.procs == s.procs[p := Proc(LEADER, true)] && n.leads == b.leads[p := t] && n.deleted == b.deleted
            && n.lock == State(s.lock.now, b.lock.cell, s.lock.locks[p := Entry(t, s.lock.now + ttl)],
                               s.lock.calls, s.lock.issued[t := p])
  {
    assert b.lock.calls - {c} == s.lock.calls;
  }

  /** The request is sent and Redis grants it. */
  lemma CampaignGranted(ttl: nat, s: Cluster, p: Pid, c: CallId, t: Token) returns (a: Cluster, b: Cluster)
    requires !Live(s.lock) && c !in s.lock.calls && t !in s.lock.issued
    ensures CanMove(ttl, s, Start(p, c, t)) && a == Moved(ttl, s, Start(p, c, t))
    ensures CanMove(ttl, a, AtRedis(c)) && b == Moved(ttl, a, AtRedis(c))
    ensures b.procs == s.procs[p := Proc(CANDIDATE, true)] && b.leads == s.leads && b.deleted == s.deleted
    ensures b.lock == State(s.lock.now, Held(t, s.lock.now + ttl), s.lock.locks,
                            s.lock.calls[c := Call(p, Acquire, t, ttl, Replied(true), true)], s.lock.issued[t := p])
  {
    a := Moved(ttl, s, Start(p, c, t));
    b := Moved(ttl, a, AtRedis(c));
    assert b.lock.calls == s.lock.calls[c := Call(p, Acquire, t, ttl, Replied(true), true)];
  }

  /** The same campaign against a live key is refused. */
  lemma CampaignOnLiveKey(ttl: nat, run: seq<Cluster>, moves: seq<Move>, p: Pid, c: CallId, t: Token)
    returns (run': seq<Cluster>, moves': seq<Move>)
    requires IsElection(ttl, run, moves)
    requires var s := run[|run| - 1]; Live(s.lock) && c !in s.lock.calls && t !in s.lock.issued
    ensures IsElection(ttl, run', moves') && moves' == moves + [Start(p, c, t), AtRedis(c), Reply(c)]
    ensures run'[|run'| - 1].procs == run[|run| - 1].procs[p := Proc(FOLLOWER, true)]
  {
    run', moves' := Extend(ttl, run, moves, Start(p, c, t));
    run', moves' := Extend(ttl, run', moves', AtRedis(c));
    run', moves' := Extend(ttl, run', moves', Reply(c));
  }

  /**
   * In every reachable state with a process in the LEADER role, however it got there: a campaign by any other process
   * makes a second LEADER if and only if the key is not live.
   */
  lemma SecondLeaderExactly(ttl: nat, run: seq<Cluster>, moves: seq<Move>, p: Pid, q: Pid, c: CallId, t: Token)
    returns (run': seq<Cluster>, moves': seq<Move>)
    requires IsElection(ttl, run, moves) && InLeaderRole(run[|run| - 1], p) && p != q
    requires c !in run[|run| - 1].lock.calls && t !in run[|run| - 1].lock.issued
    ensures IsElection(ttl, run', moves') && moves' == moves + [Start(q, c, t), AtRedis(c), Reply(c)]
    ensures InLeaderRole(run'[|run'| - 1], p)
    ensures InLeaderRole(run'[|run'| - 1], q) <==> !Live(run[|run| - 1].lock)
  {
    if Live(run[|run| - 1].lock) {
      run', moves' := CampaignOnLiveKey(ttl, run, moves, q, c, t);
    } else {
      run', moves' := CampaignOnFreeKey(ttl, run, moves, q, c, t);
    }
  }

  /** The timing assumption is needed: a leader that goes quiet for ttl is still LEADER when a second one appears. */
  lemma LateLeaderAllowsTwo(ttl: nat) returns (run: seq<Cluster>, moves: seq<Move>)
    ensures IsElection(ttl, run, moves)
    ensures Leads(run[|run| - 1], 1) && Leads(run[|run| - 1], 2)
  {
    run, moves := [IDLE], [];
    run, moves := CampaignOnFreeKey(ttl, run, moves, 1, 11, 101);
    run, moves := Extend(ttl, run, moves, Wait(ttl));
    run, moves := CampaignOnFreeKey(ttl, run, moves, 2, 12, 102);
  }

  lemma NothingLater(ttl: nat, s: Cluster, m: Move)
    requires CanMove(ttl, s, m) && !m.Wait? && s.lock.now == 0
    requires forall t :: t in s.reached ==> s.reached[t] == 0
    ensures var n := Moved(ttl, s, m); n.lock.now == 0 && forall t :: t in n.reached ==> n.reached[t] == 0
  {}

  /** If no time passes, every leader is on time. */
  lemma {:induction false} NoWaitOnTime(ttl: nat, run: seq<Cluster>, moves: seq<Move>, n: nat)
    requires ttl > 0 && IsElection(ttl, run, moves) && n < |run|
    requires forall i :: 0 <= i < |moves| ==> !moves[i].Wait?
    ensures run[n].lock.now == 0 && forall t :: t in run[n].reached ==> run[n].reached[t] == 0
    ensures OnTime(ttl, run[n])
  {
    if n > 0 {
      NoWaitOnTime(ttl, run, moves, n - 1);
      assert CanMove(ttl, run[n - 1], moves[n - 1]);
      assert run[n - 1 + 1] == Moved(ttl, run[n - 1], moves[n - 1]);
      NothingLater(ttl, run[n - 1], moves[n - 1]);
    }
  }

  /** Process 1 becomes leader and stops, and Redis deletes its key; the reply is still on its way. */
  lemma StoppedAtRedis(ttl: nat) returns (run: seq<Cluster>, moves: seq<Move>)
    requires ttl > 0
    ensures IsElection(ttl, run, moves) && forall i :: 0 <= i < |moves| ==> !moves[i].Wait?
    ensures var s := run[|run| - 1];
            && InLeaderRole(s, 1) && !Live(s.lock) && 102 !in s.lock.issued && Released(s, 12, 1)
            && s.lock.calls.Keys == {12} && s.lock.calls[12].waiting
            && s.leads == map[1 := 101] && s.deleted == {101}
  {
    run, moves := [IDLE], [];
    run, moves := CampaignOnFreeKey(ttl, run, moves, 1, 11, 101);
    run, moves := Extend(ttl, run, moves, Stop(1, 12));
    run, moves := Extend(ttl, run, moves, AtRedis(12));
  }

  /** A stopping leader's key is gone, and a successor leads, before its role is reset; both are on time. */
  lemma StoppingLeaderOverlaps(ttl: nat) returns (run: seq<Cluster>, moves: seq<Move>)
    requires ttl > 0
    ensures IsElection(ttl, run, moves) && forall i :: 0 <= i < |run| ==> OnTime(ttl, run[i])
    ensures InLeaderRole(run[|run| - 1], 1) && Released(run[|run| - 1], 12, 1) && Leads(run[|run| - 1], 2)
  {
    run, moves := StoppedAtRedis(ttl);
    run, moves := CampaignOnFreeKey(ttl, run, moves, 2, 13, 102);
    forall i | 0 <= i < |run| ensures OnTime(ttl, run[i]) { NoWaitOnTime(ttl, run, moves, i); }
  }

  /**
   * If the reply to the release is lost, the stop is rejected and the role is never reset: two processes are LEADER,
   * on time, with no call awaited that could end it.
   */
  lemma RejectedStopLeavesTwo(ttl: nat) returns (run: seq<Cluster>, moves: seq<Move>)
    requires ttl > 0
    ensures IsElection(ttl, run, moves) && forall i :: 0 <= i < |run| ==> OnTime(ttl, run[i])
    ensures InLeaderRole(run[|run| - 1], 1) && Released(run[|run| - 1], 12, 1) && Leads(run[|run| - 1], 2)
    ensures var calls := run[|run| - 1].lock.calls; forall c :: c in calls ==> !calls[c].waiting
  {
    run, moves := StoppedAtRedis(ttl);
    run, moves := Extend(ttl, run, moves, Lost(12));
    run, moves := CampaignOnFreeKey(ttl, run, moves, 2, 13, 102);
    forall i | 0 <= i < |run| ensures OnTime(ttl, run[i]) { NoWaitOnTime(ttl, run, moves, i); }
  }
}

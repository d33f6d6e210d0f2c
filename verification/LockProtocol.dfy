/**
 * The token-and-TTL lock on one Redis key, shared by any number of processes. Every `await` of the lock's
 * operations is a step boundary: a call is begun, executed atomically by Redis at some later time, and finished
 * when the process handles the reply. Calls of one process may overlap, get lost, or execute after they failed.
 */
module LockProtocol {
  import opened Domain

  type Pid = int
  type Token = int
  type CallId = int

  /** The Redis key; an entry whose expiry has passed counts as absent. */
  datatype Cell = Empty | Held(token: Token, expiry: int)

  /** The process-local record of the lock. */
  datatype Entry = Entry(token: Token, expiresAt: int)

  datatype Kind = Acquire | Renew | Release

  datatype Phase = Sent | Replied(ok: bool)

  /** `waiting` is false once the process has seen the call fail; the request may still reach Redis. */
  datatype Call = Call(pid: Pid, kind: Kind, token: Token, ttl: int, phase: Phase, waiting: bool)

  datatype State = State(now: int, cell: Cell, locks: map<Pid, Entry>, calls: map<CallId, Call>,
                         issued: map<Token, Pid>)

  datatype Step =
    | Tick(d: nat)
    | BeginAcquire(p: Pid, c: CallId, t: Token, ttl: int)
    | BeginRenew(p: Pid, c: CallId, ttl: int)
    | BeginRelease(p: Pid, c: CallId)
    | Execute(c: CallId)
    | Finish(c: CallId)
    | Fail(c: CallId)

  const INITIAL := State(0, Empty, map[], map[], map[])

  predicate Unexpired(cell: Cell, now: int) { cell.Held? && now < cell.expiry }

  predicate Live(s: State) { Unexpired(s.cell, s.now) }

  predicate Owns(s: State, t: Token) { Live(s) && s.cell.token == t }

  predicate Enabled(s: State, step: Step) {
    match step
    case Tick(_) => true
    case BeginAcquire(_, c, t, _) => c !in s.calls && t !in s.issued      // tokens are unique
    case BeginRenew(p, c, _) => c !in s.calls && p in s.locks
    case BeginRelease(p, c) => c !in s.calls && p in s.locks
    case Execute(c) => c in s.calls && s.calls[c].phase.Sent?
    case Finish(c) => c in s.calls && s.calls[c].waiting && s.calls[c].phase.Replied?
    case Fail(c) => c in s.calls && s.calls[c].waiting
  }

  /** SET key token NX PX ttl. */
  function SetIfAbsent(cell: Cell, now: int, token: Token, ttl: int): (Cell, bool) {
    if Unexpired(cell, now) then (cell, false) else (Held(token, now + ttl), true)
  }

  /** The renewal script: PEXPIRE if the key still holds the token. */
  function ExtendIfHeld(cell: Cell, now: int, token: Token, ttl: int): (Cell, bool) {
    if Unexpired(cell, now) && cell.token == token then (Held(token, now + ttl), true) else (cell, false)
  }

  /** The release script: DEL if the key still holds the token. */
  function DeleteIfHeld(cell: Cell, now: int, token: Token): (Cell, bool) {
    if Unexpired(cell, now) && cell.token == token then (Empty, true) else (cell, false)
  }

  /** Redis runs the command of a call. */
  function Executed(s: State, c: CallId): State
    requires c in s.calls
  {
    var call := s.calls[c];
    var (cell, ok) := match call.kind
      case Acquire => SetIfAbsent(s.cell, s.now, call.token, call.ttl)
      case Renew => ExtendIfHeld(s.cell, s.now, call.token, call.ttl)
      case Release => DeleteIfHeld(s.cell, s.now, call.token);
    s.(cell := cell, calls := s.calls[c := call.(phase := Replied(ok))])
  }

  /** The process handles the reply; the local map is keyed by resource, so ownership is per process, not per call. */
  function Finished(s: State, c: CallId): State
    requires c in s.calls && s.calls[c].phase.Replied?
  {
    var call := s.calls[c];
    var rest := s.(calls := s.calls - {c});
    match call.kind
    case Acquire =>
      if call.phase.ok then rest.(locks := s.locks[call.pid := Entry(call.token, s.now + call.ttl)]) else rest
    case Renew =>
      if !call.phase.ok then rest.(locks := s.locks - {call.pid})
      else if call.pid in s.locks && s.locks[call.pid].token == call.token then
        rest.(locks := s.locks[call.pid := Entry(call.token, s.now + call.ttl)])
      else rest      // the renewed entry object has been replaced in the map meanwhile
    case Release => rest.(locks := s.locks - {call.pid})
  }

  function Apply(s: State, step: Step): State
    requires Enabled(s, step)
  {
    match step
    case Tick(d) => s.(now := s.now + d)
    case BeginAcquire(p, c, t, ttl) =>
      s.(calls := s.calls[c := Call(p, Acquire, t, ttl, Sent, true)], issued := s.issued[t := p])
    case BeginRenew(p, c, ttl) => s.(calls := s.calls[c := Call(p, Renew, s.locks[p].token, ttl, Sent, true)])
    case BeginRelease(p, c) => s.(calls := s.calls[c := Call(p, Release, s.locks[p].token, 0, Sent, true)])
    case Execute(c) => Executed(s, c)
    case Finish(c) => Finished(s, c)
    case Fail(c) => s.(calls := s.calls[c := s.calls[c].(waiting := false)])
  }

  ghost predicate IsRun(run: seq<State>, steps: seq<Step>) {
    && |run| == |steps| + 1
    && run[0] == INITIAL
    && (forall i :: 0 <= i < |steps| ==> Enabled(run[i], steps[i]))
    && (forall i :: 0 <= i < |steps| ==> run[i + 1] == Apply(run[i], steps[i]))
  }

  // ---- who owns which token -------------------------------------------------------------------

  predicate IssuedTo(s: State, t: Token, p: Pid) { t in s.issued && s.issued[t] == p }

  predicate IsAcquire(s: State, c: CallId, t: Token) {
    c in s.calls && s.calls[c].kind.Acquire? && s.calls[c].token == t
  }

  /** Every call, local entry and key carries a token issued to the process concerned. */
  ghost predicate TokensIssued(s: State) {
    && (forall c :: c in s.calls ==> IssuedTo(s, s.calls[c].token, s.calls[c].pid))
    && (forall p :: p in s.locks ==> IssuedTo(s, s.locks[p].token, p))
    && (s.cell.Held? ==> s.cell.token in s.issued)
  }

  /** A token has one acquire call, and until that is finished it is in no local entry and no other call. */
  ghost predicate AcquiresApart(s: State) {
    && (forall c, d, t :: IsAcquire(s, c, t) && IsAcquire(s, d, t) ==> c == d)
    && (forall p, c :: p in s.locks ==> !IsAcquire(s, c, s.locks[p].token))
    && (forall c, d :: c in s.calls && !s.calls[c].kind.Acquire? ==> !IsAcquire(s, d, s.calls[c].token))
  }

  ghost predicate Consistent(s: State) { TokensIssued(s) && AcquiresApart(s) }

  lemma StepTokensIssued(s: State, step: Step)
    requires TokensIssued(s) && Enabled(s, step)
    ensures TokensIssued(Apply(s, step))
  {}

  /** With the same acquire calls, and no new token in a local entry or in another call, nothing can clash. */
  lemma SameAcquiresApart(s: State, n: State)
    requires AcquiresApart(s)
    requires forall c, t :: IsAcquire(n, c, t) ==> IsAcquire(s, c, t)
    requires forall p :: p in n.locks ==> p in s.locks && n.locks[p].token == s.locks[p].token
    requires forall c :: c in n.calls && !n.calls[c].kind.Acquire? ==>
               (c in s.calls && !s.calls[c].kind.Acquire? && n.calls[c].token == s.calls[c].token) ||
               (n.calls[c].pid in s.locks && n.calls[c].token == s.locks[n.calls[c].pid].token)
    ensures AcquiresApart(n)
  {}

  lemma BeginAcquireApart(s: State, step: Step)
    requires Consistent(s) && Enabled(s, step) && step.BeginAcquire?
    ensures AcquiresApart(Apply(s, step))
  {
    var n := Apply(s, step);
    assert forall d, u :: IsAcquire(n, d, u) <==> IsAcquire(s, d, u) || (d == step.c && u == step.t);
    assert forall d, u :: IsAcquire(s, d, u) ==> IssuedTo(s, u, s.calls[d].pid);
    assert forall p :: p in s.locks ==> IssuedTo(s, s.locks[p].token, p);
    assert forall c :: c in s.calls ==> IssuedTo(s, s.calls[c].token, s.calls[c].pid);
  }

  lemma FinishAcquireApart(s: State, c: CallId)
    requires Consistent(s) && Enabled(s, Finish(c)) && s.calls[c].kind.Acquire?
    ensures AcquiresApart(Apply(s, Finish(c)))
  {
    var n := Apply(s, Finish(c));
    assert IsAcquire(s, c, s.calls[c].token);
    assert forall d, t :: IsAcquire(n, d, t) <==> IsAcquire(s, d, t) && d != c;
  }

  lemma StepConsistent(s: State, step: Step)
    requires Consistent(s) && Enabled(s, step)
    ensures Consistent(Apply(s, step))
  {
    StepTokensIssued(s, step);
    if step.BeginAcquire? {
      BeginAcquireApart(s, step);
    } else if step.Finish? && s.calls[step.c].kind.Acquire? {
      FinishAcquireApart(s, step.c);
    } else {
      SameAcquiresApart(s, Apply(s, step));
    }
  }

  lemma {:induction false} RunConsistent(run: seq<State>, steps: seq<Step>, n: nat)
    requires IsRun(run, steps) && n < |run|
    ensures Consistent(run[n])
  {
    if n > 0 {
      RunConsistent(run, steps, n - 1);
      assert run[n - 1 + 1] == Apply(run[n - 1], steps[n - 1]);
      StepConsistent(run[n - 1], steps[n - 1]);
    }
  }

  // ---- a token is never owned twice -----------------------------------------------------------

  /** The token's SET is behind it: no request that could still set it is under way. */
  ghost predicate Spent(s: State, t: Token) {
    t in s.issued && forall c :: IsAcquire(s, c, t) ==> !s.calls[c].phase.Sent?
  }

  lemma SpentStays(s: State, step: Step, t: Token)
    requires Consistent(s) && Enabled(s, step) && Spent(s, t)
    ensures Spent(Apply(s, step), t)
    ensures !Owns(s, t) ==> !Owns(Apply(s, step), t)
  {}

  /** Step `k` is the successful SET of token `t` by process `p`. */
  ghost predicate Acquired(run: seq<State>, steps: seq<Step>, k: nat, p: Pid, t: Token)
    requires k < |run|
  {
    && k < |steps| && steps[k].Execute? && steps[k].c in run[k].calls
    && run[k].calls[steps[k].c].kind.Acquire?
    && run[k].calls[steps[k].c].token == t && run[k].calls[steps[k].c].pid == p && !Live(run[k])
  }

  /** Once set, a token that stops being the live owner never owns the key again. */
  lemma {:induction false} LostIsLost(run: seq<State>, steps: seq<Step>, i: nat, j: nat, t: Token)
    requires IsRun(run, steps) && i <= j < |run| && Spent(run[i], t) && !Owns(run[i], t)
    ensures Spent(run[j], t) && !Owns(run[j], t)
    decreases j - i
  {
    if i < j {
      RunConsistent(run, steps, i);
      assert run[i + 1] == Apply(run[i], steps[i]);
      SpentStays(run[i], steps[i], t);
      LostIsLost(run, steps, i + 1, j, t);
    }
  }

  lemma {:induction false} SpentAfterAcquire(run: seq<State>, steps: seq<Step>, k: nat, j: nat, p: Pid, t: Token)
    requires IsRun(run, steps) && k < j < |run| && Acquired(run, steps, k, p, t)
    ensures Spent(run[j], t)
  {
    if j == k + 1 {
      RunConsistent(run, steps, k);
      assert run[k + 1] == Apply(run[k], steps[k]);
      var c := steps[k].c;
      assert IsAcquire(run[k], c, t);
      forall d | IsAcquire(run[j], d, t) ensures !run[j].calls[d].phase.Sent? {
        assert IsAcquire(run[k], d, t);
      }
    } else {
      SpentAfterAcquire(run, steps, k, j - 1, p, t);
      RunConsistent(run, steps, j - 1);
      assert run[j - 1 + 1] == Apply(run[j - 1], steps[j - 1]);
      SpentStays(run[j - 1], steps[j - 1], t);
    }
  }

  /** A live owner got there by its own successful SET. */
  lemma {:induction false} OwnerAcquired(run: seq<State>, steps: seq<Step>, j: nat, t: Token) returns (k: nat)
    requires IsRun(run, steps) && j < |run| && Owns(run[j], t)
    ensures k < j && t in run[j].issued && Acquired(run, steps, k, run[j].issued[t], t)
  {
    assert j > 0;
    var i := j - 1;
    assert run[i + 1] == Apply(run[i], steps[i]);
    assert Enabled(run[i], steps[i]);
    RunConsistent(run, steps, i);
    RunConsistent(run, steps, j);
    if Owns(run[i], t) {
      k := OwnerAcquired(run, steps, i, t);
    } else {
      k := i;
      assert IssuedTo(run[i], run[i].calls[steps[i].c].token, run[i].calls[steps[i].c].pid);
    }
  }

  /** Step `j` is a renewal that Redis grants to process `p`. */
  ghost predicate Renewed(run: seq<State>, steps: seq<Step>, j: nat, p: Pid)
    requires j < |run|
  {
    && j < |steps| && steps[j].Execute? && steps[j].c in run[j].calls
    && run[j].calls[steps[j].c].kind.Renew? && run[j].calls[steps[j].c].pid == p
    && Owns(run[j], run[j].calls[steps[j].c].token)
  }

  /** The process whose token holds the live key. */
  ghost predicate OwnedBy(s: State, p: Pid) {
    Live(s) && IssuedTo(s, s.cell.token, p)
  }

  /**
   * Ownership continuity, with unique tokens and no timing assumption: when a renewal succeeds, the process
   * itself set the key, and in every state since then it, and nobody else, has owned the key.
   */
  lemma OwnershipContinuity(run: seq<State>, steps: seq<Step>, j: nat, p: Pid) returns (k: nat)
    requires IsRun(run, steps) && j < |run| && Renewed(run, steps, j, p)
    ensures k < j && Acquired(run, steps, k, p, run[j].calls[steps[j].c].token)
    ensures forall i :: k < i <= j ==> OwnedBy(run[i], p) && run[i].cell.token == run[j].cell.token
  {
    var t := run[j].calls[steps[j].c].token;
    RunConsistent(run, steps, j);
    assert IssuedTo(run[j], t, p);
    k := OwnerAcquired(run, steps, j, t);
    forall i | k < i <= j ensures OwnedBy(run[i], p) && run[i].cell.token == t {
      SpentAfterAcquire(run, steps, k, i, p, t);
      if !Owns(run[i], t) {
        LostIsLost(run, steps, i, j, t);
        assert false;
      }
      RunConsistent(run, steps, i);
      IssuedStays(run, steps, i, j, t);
    }
  }

  lemma {:induction false} IssuedStays(run: seq<State>, steps: seq<Step>, i: nat, j: nat, t: Token)
    requires IsRun(run, steps) && i <= j < |run| && t in run[i].issued
    ensures t in run[j].issued && run[j].issued[t] == run[i].issued[t]
    decreases j - i
  {
    if i < j {
      assert Enabled(run[i], steps[i]);
      assert run[i + 1] == Apply(run[i], steps[i]);
      IssuedStays(run, steps, i + 1, j, t);
    }
  }

  // ---- no process touches another's lock ------------------------------------------------------

  function Actor(s: State, step: Step): Option<Pid>
    requires Enabled(s, step)
  {
    match step
    case Tick(_) => None
    case BeginAcquire(p, _, _, _) => Some(p)
    case BeginRenew(p, _, _) => Some(p)
    case BeginRelease(p, _) => Some(p)
    case Execute(c) => Some(s.calls[c].pid)
    case Finish(c) => Some(s.calls[c].pid)
    case Fail(c) => Some(s.calls[c].pid)
  }

  /**
   * Whatever step is taken, a live key that belongs to a process other than the one acting stays as it is, token
   * and expiry, and so does every other process's local entry. This covers renew, release and the exit of withLock.
   */
  lemma OthersUntouched(run: seq<State>, steps: seq<Step>, j: nat, q: Pid)
    requires IsRun(run, steps) && j < |steps|
    requires Enabled(run[j], steps[j]) && Actor(run[j], steps[j]) != Some(q)
    ensures OwnedBy(run[j], q) ==> run[j + 1].cell == run[j].cell
    ensures q in run[j + 1].locks <==> q in run[j].locks
    ensures q in run[j].locks ==> run[j + 1].locks[q] == run[j].locks[q]
  {
    RunConsistent(run, steps, j);
    assert run[j + 1] == Apply(run[j], steps[j]);
    if steps[j].Execute? {
      var call := run[j].calls[steps[j].c];
      assert IssuedTo(run[j], call.token, call.pid);
    }
  }

  // ---- the local record -----------------------------------------------------------------------

  /** The step handles a reply of this kind and outcome in process `p`. */
  predicate Hears(s: State, step: Step, p: Pid, kind: Kind, ok: bool) {
    && step.Finish? && step.c in s.calls
    && s.calls[step.c].pid == p && s.calls[step.c].kind == kind && s.calls[step.c].phase == Replied(ok)
  }

  /** It is told that its lock is gone: a refused renewal, or the reply to a release, whatever that did. */
  predicate HearsOfLoss(s: State, step: Step, p: Pid) {
    Hears(s, step, p, Renew, false) || Hears(s, step, p, Release, true) || Hears(s, step, p, Release, false)
  }

  /** A process enters its lock when it hears of a grant, forgets it when it hears of a loss, and at no other step. */
  lemma EntryStep(s: State, step: Step, p: Pid)
    requires Enabled(s, step)
    ensures p in Apply(s, step).locks <==>
              Hears(s, step, p, Acquire, true) || (p in s.locks && !HearsOfLoss(s, step, p))
    ensures p in Apply(s, step).locks ==>
              Apply(s, step).locks[p] ==
              if Hears(s, step, p, Acquire, true) then Entry(s.calls[step.c].token, s.now + s.calls[step.c].ttl)
              else if Hears(s, step, p, Renew, true) && s.calls[step.c].token == s.locks[p].token
              then Entry(s.locks[p].token, s.now + s.calls[step.c].ttl)
              else s.locks[p]
  {}

  /** At step `i` process `p` heard of its grant, and since then, before `n`, of no loss and no other grant. */
  ghost predicate HeldSince(run: seq<State>, steps: seq<Step>, i: nat, n: nat, p: Pid)
    requires |run| == |steps| + 1 && n < |run|
  {
    && i < n && Hears(run[i], steps[i], p, Acquire, true)
    && (forall k :: i < k < n ==> !HearsOfLoss(run[k], steps[k], p) && !Hears(run[k], steps[k], p, Acquire, true))
  }

  /**
   * Over every run: a process records the lock if and only if it has heard of a grant and of no loss since its last
   * one, and the token it records is the one of that grant.
   */
  lemma {:induction false} EntryExactly(run: seq<State>, steps: seq<Step>, n: nat, p: Pid)
    requires IsRun(run, steps) && n < |run|
    ensures p in run[n].locks <==> exists i: nat :: HeldSince(run, steps, i, n, p)
    ensures forall i: nat :: HeldSince(run, steps, i, n, p) && p in run[n].locks ==>
              run[n].locks[p].token == run[i].calls[steps[i].c].token
  {
    if n > 0 {
      EntryExactly(run, steps, n - 1, p);
      var s, step := run[n - 1], steps[n - 1];
      assert Enabled(s, step);
      assert run[n - 1 + 1] == Apply(s, step);
      EntryStep(s, step, p);
      forall i: nat ensures HeldSince(run, steps, i, n, p) <==>
                         if Hears(s, step, p, Acquire, true) then i == n - 1
                         else HeldSince(run, steps, i, n - 1, p) && !HearsOfLoss(s, step, p)
      {
        HeldOneMore(run, steps, i, n - 1, p);
      }
      if Hears(s, step, p, Acquire, true) {
        assert HeldSince(run, steps, n - 1, n, p);
      } else if p in run[n].locks {
        var i: nat :| HeldSince(run, steps, i, n - 1, p);
        assert HeldSince(run, steps, i, n, p);
      }
      if i: nat :| HeldSince(run, steps, i, n, p) && i < n - 1 {
        assert HeldSince(run, steps, i, n - 1, p);
      }
    }
  }

  lemma HeldOneMore(run: seq<State>, steps: seq<Step>, i: nat, n: nat, p: Pid)
    requires |run| == |steps| + 1 && n < |steps|
    ensures HeldSince(run, steps, i, n + 1, p) <==>
              if Hears(run[n], steps[n], p, Acquire, true) then i == n
              else HeldSince(run, steps, i, n, p) && !HearsOfLoss(run[n], steps[n], p)
  {}
}

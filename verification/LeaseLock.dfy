/**
 * The distributed lock on one key: any number of calls of WithLock, interleaved with the historical acquire and
 * release, over a Redis key that carries a token and may expire.
 */
module LeaseLock {
  import opened Text

  datatype Error =
    | Busy
    | NotOwned
    | Nil
    | Unreachable(reason: string)
    | Failed(reason: string)
    | Joined(first: Error, second: Error)

  /** The error of a call from what its function and its release returned. */
  function Outcome(fnErr: Option<Error>, releaseErr: Option<Error>): Option<Error> {
    match (fnErr, releaseErr)
    case (Some(f), Some(r)) => Some(Joined(f, r))
    case (Some(f), None) => Some(f)
    case (None, r) => r
  }

  predicate Is(e: Error, target: Error) {
    e == target || (e.Joined? && (Is(e.first, target) || Is(e.second, target)))
  }

  /** Redis holds a token; without an expiry it stays until it is deleted. */
  datatype Lease = Lease(token: string, expires: Option<nat>)

  datatype Phase =
    | Starting(ttl: nat)
    | Running(since: nat, expires: Option<nat>)
    | Returned(since: nat, expires: Option<nat>, fnErr: Option<Error>)
    | Refused(error: Error)
    | Finished(since: nat, expires: Option<nat>, fnErr: Option<Error>, releaseErr: Option<Error>)

  datatype Call = Call(token: string, phase: Phase)

  datatype State = State(clock: nat, lock: Option<Lease>, calls: map<nat, Call>)

  const Untaken := State(0, None, map[])

  const LegacyToken := "locked"

  datatype Step =
    | Tick
    | Start(p: nat, token: string, ttl: nat)
    | SetNX(p: nat)
    | SetNXFails(p: nat, reached: bool, reason: string)   // the command may have run although no reply came
    | Return(p: nat, fnErr: Option<Error>)
    | Release(p: nat)
    | ReleaseFails(p: nat, reached: bool, reason: string)
    | LegacyAcquire(ttl: nat)
    | LegacyRelease

  predicate Past(expires: Option<nat>, clock: nat) {
    expires.Some? && expires.value <= clock
  }

  predicate Live(s: State) {
    s.lock.Some? && !Past(s.lock.value.expires, s.clock)
  }

  function Expiry(clock: nat, ttl: nat): Option<nat> {
    if ttl == 0 then None else Some(clock + ttl)
  }

  /** SET NX: writes only when no live key is there. */
  function Taken(s: State, token: string, ttl: nat): Option<Lease> {
    if Live(s) then s.lock else Some(Lease(token, Expiry(s.clock, ttl)))
  }

  predicate Owns(s: State, token: string) {
    Live(s) && s.lock.value.token == token
  }

  /** The release script: deletes the key when it still carries the token. */
  function Released(s: State, token: string): Option<Lease> {
    if Owns(s, token) then None else s.lock
  }

  predicate Enabled(s: State, step: Step) {
    match step
    case Start(p, token, _) => p !in s.calls && |token| == 32 && (forall q | q in s.calls :: s.calls[q].token != token)
    case SetNX(p) => p in s.calls && s.calls[p].phase.Starting?
    case SetNXFails(p, _, _) => p in s.calls && s.calls[p].phase.Starting?
    case Return(p, _) => p in s.calls && s.calls[p].phase.Running?
    case Release(p) => p in s.calls && s.calls[p].phase.Returned?
    case ReleaseFails(p, _, _) => p in s.calls && s.calls[p].phase.Returned?
    case _ => true
  }

  function Moved(s: State, p: nat, phase: Phase): State
    requires p in s.calls
  {
    s.(calls := s.calls[p := s.calls[p].(phase := phase)])
  }

  function Finish(phase: Phase, releaseErr: Option<Error>): Phase
    requires phase.Returned?
  {
    Finished(phase.since, phase.expires, phase.fnErr, releaseErr)
  }

  function Next(s: State, step: Step): State
    requires Enabled(s, step)
  {
    match step
    case Tick => s.(clock := s.clock + 1)
    case Start(p, token, ttl) => s.(calls := s.calls[p := Call(token, Starting(ttl))])
    case SetNX(p) =>
      var ttl := s.calls[p].phase.ttl;
      if Live(s) then Moved(s, p, Refused(Busy))
      else Moved(s.(lock := Taken(s, s.calls[p].token, ttl)), p, Running(s.clock, Expiry(s.clock, ttl)))
    case SetNXFails(p, reached, reason) =>
      var lock := if reached then Taken(s, s.calls[p].token, s.calls[p].phase.ttl) else s.lock;
      Moved(s.(lock := lock), p, Refused(Unreachable(reason)))
    case Return(p, fnErr) => Moved(s, p, Returned(s.calls[p].phase.since, s.calls[p].phase.expires, fnErr))
    case Release(p) =>
      var error := if Owns(s, s.calls[p].token) then None else Some(NotOwned);
      Moved(s.(lock := Released(s, s.calls[p].token)), p, Finish(s.calls[p].phase, error))
    case ReleaseFails(p, reached, reason) =>
      var lock := if reached then Released(s, s.calls[p].token) else s.lock;
      Moved(s.(lock := lock), p, Finish(s.calls[p].phase, Some(Unreachable(reason))))
    case LegacyAcquire(ttl) => s.(lock := Taken(s, LegacyToken, ttl))
    case LegacyRelease => s.(lock := None)
  }

  // ---------------------------------------------------------------- the invariant

  predicate Inside(s: State, p: nat) {
    p in s.calls && (s.calls[p].phase.Running? || s.calls[p].phase.Returned?)
  }

  /** Inside its function with a lease that has not run out. */
  predicate Holds(s: State, p: nat) {
    Inside(s, p) && !Past(s.calls[p].phase.expires, s.clock)
  }

  /** The lease of the first ran out before the second got the lock. */
  predicate Outlived(first: Phase, second: Phase)
    requires (first.Running? || first.Returned?) && (second.Running? || second.Returned?)
  {
    Past(first.expires, second.since)
  }

  predicate DistinctTokens(s: State) {
    && (forall p | p in s.calls :: |s.calls[p].token| == 32)
    && (forall p, q | p in s.calls && q in s.calls && p != q :: s.calls[p].token != s.calls[q].token)
  }

  predicate LeaseKept(s: State, p: nat)
    requires Inside(s, p)
  {
    && s.calls[p].phase.since <= s.clock
    && !Past(s.calls[p].phase.expires, s.calls[p].phase.since)
    && (Holds(s, p) ==> s.lock == Some(Lease(s.calls[p].token, s.calls[p].phase.expires)))
  }

  /** The key carries the historical token or that of a call which has tried the lock, with that call's expiry. */
  ghost predicate KnownLock(s: State) {
    s.lock.Some? ==>
      && (s.lock.value.token == LegacyToken || exists p :: p in s.calls && s.calls[p].token == s.lock.value.token)
      && (forall p | p in s.calls && s.calls[p].token == s.lock.value.token ::
            && !s.calls[p].phase.Starting?
            && (Inside(s, p) ==> s.calls[p].phase.expires == s.lock.value.expires))
  }

  ghost predicate Valid(s: State) {
    && DistinctTokens(s) && KnownLock(s)
    && (forall p | Inside(s, p) :: LeaseKept(s, p))
    && (forall p, q | Inside(s, p) && Inside(s, q) && p != q ::
          Outlived(s.calls[p].phase, s.calls[q].phase) || Outlived(s.calls[q].phase, s.calls[p].phase))
  }

  /** A live lease of a call that is still inside. */
  ghost predicate HeldByCall(s: State) {
    exists p :: Holds(s, p)
  }

  /** Only the historical release can take a lease away from a call. */
  ghost predicate Harmless(s: State, step: Step) {
    step.LegacyRelease? ==> !HeldByCall(s)
  }

  lemma StepKeepsTokens(s: State, step: Step)
    requires DistinctTokens(s) && Enabled(s, step)
    ensures DistinctTokens(Next(s, step))
  {
  }

  lemma StepKeepsLockName(s: State, step: Step)
    requires KnownLock(s) && Enabled(s, step) && Next(s, step).lock.Some?
    ensures var t := Next(s, step);
            t.lock.value.token == LegacyToken || exists p :: p in t.calls && t.calls[p].token == t.lock.value.token
  {
    var t := Next(s, step);
    if t.lock.value.token != LegacyToken {
      var p :| p in s.calls && s.calls[p].token == t.lock.value.token;
      assert t.calls[p].token == t.lock.value.token;
    }
  }

  lemma StepKeepsLockUse(s: State, step: Step, p: nat)
    requires DistinctTokens(s) && KnownLock(s) && Enabled(s, step) && Next(s, step).lock.Some? && p in Next(s, step).calls
    requires Next(s, step).calls[p].token == Next(s, step).lock.value.token
    ensures var t := Next(s, step);
            !t.calls[p].phase.Starting? && (Inside(t, p) ==> t.calls[p].phase.expires == t.lock.value.expires)
  {
    assert |LegacyToken| != 32;
  }

  lemma StepKeepsKnownLock(s: State, step: Step)
    requires DistinctTokens(s) && KnownLock(s) && Enabled(s, step)
    ensures KnownLock(Next(s, step))
  {
    var t := Next(s, step);
    if t.lock.Some? {
      StepKeepsLockName(s, step);
      forall p | p in t.calls && t.calls[p].token == t.lock.value.token
        ensures !t.calls[p].phase.Starting? && (Inside(t, p) ==> t.calls[p].phase.expires == t.lock.value.expires)
      {
        StepKeepsLockUse(s, step, p);
      }
    }
  }

  lemma StepKeepsLease(s: State, step: Step, p: nat)
    requires Valid(s) && Enabled(s, step) && Harmless(s, step) && Inside(Next(s, step), p)
    ensures LeaseKept(Next(s, step), p)
  {
    if Inside(s, p) {
      assert LeaseKept(s, p);
      if Holds(Next(s, step), p) {
        assert Holds(s, p);
      }
    }
  }

  /** Whoever gets the lock gets it after every lease still inside has run out. */
  lemma StepKeepsOrder(s: State, step: Step, p: nat, q: nat)
    requires Valid(s) && Enabled(s, step) && p != q && Inside(Next(s, step), p) && Inside(Next(s, step), q)
    ensures var t := Next(s, step);
            Outlived(t.calls[p].phase, t.calls[q].phase) || Outlived(t.calls[q].phase, t.calls[p].phase)
  {
    if Inside(s, p) && !Inside(s, q) {
      assert LeaseKept(s, p);
    } else if Inside(s, q) && !Inside(s, p) {
      assert LeaseKept(s, q);
    }
  }

  lemma StepKeepsValid(s: State, step: Step)
    requires Valid(s) && Enabled(s, step) && Harmless(s, step)
    ensures Valid(Next(s, step))
  {
    StepKeepsTokens(s, step);
    StepKeepsKnownLock(s, step);
    forall p | Inside(Next(s, step), p) ensures LeaseKept(Next(s, step), p) {
      StepKeepsLease(s, step, p);
    }
    forall p, q | Inside(Next(s, step), p) && Inside(Next(s, step), q) && p != q
      ensures var t := Next(s, step);
              Outlived(t.calls[p].phase, t.calls[q].phase) || Outlived(t.calls[q].phase, t.calls[p].phase)
    {
      StepKeepsOrder(s, step, p, q);
    }
  }

  /** The historical release keeps the protocol exactly when no call still holds its lease. */
  lemma LegacyReleaseBreaksHeldLeases(s: State)
    requires Valid(s)
    ensures Valid(Next(s, LegacyRelease)) <==> !HeldByCall(s)
  {
    var t := Next(s, LegacyRelease);
    if HeldByCall(s) {
      var p :| Holds(s, p);
      assert Inside(t, p) && Holds(t, p);
      assert !LeaseKept(t, p);
    } else {
      StepKeepsValid(s, LegacyRelease);
    }
  }

  // ---------------------------------------------------------------- runs

  /** Steps that can be taken one after another, none of them a historical release of a held lease. */
  ghost predicate IsRun(s: State, steps: seq<Step>)
    decreases steps
  {
    steps == [] || (Enabled(s, steps[0]) && Harmless(s, steps[0]) && IsRun(Next(s, steps[0]), steps[1..]))
  }

  ghost function After(s: State, steps: seq<Step>): State
    requires IsRun(s, steps)
    decreases steps
  {
    if steps == [] then s else After(Next(s, steps[0]), steps[1..])
  }

  lemma {:induction false} RunsStayValid(s: State, steps: seq<Step>)
    requires Valid(s) && IsRun(s, steps)
    ensures Valid(After(s, steps))
    decreases steps
  {
    if steps != [] {
      StepKeepsValid(s, steps[0]);
      RunsStayValid(Next(s, steps[0]), steps[1..]);
    }
  }

  /** Over every run at most one call is inside with a lease that has not run out, and it is the one Redis knows. */
  lemma AtMostOneHolder(steps: seq<Step>, p: nat, q: nat)
    requires IsRun(Untaken, steps) && Holds(After(Untaken, steps), p)
    ensures Owns(After(Untaken, steps), After(Untaken, steps).calls[p].token)
    ensures Holds(After(Untaken, steps), q) ==> p == q
  {
    RunsStayValid(Untaken, steps);
    assert LeaseKept(After(Untaken, steps), p);
    if Holds(After(Untaken, steps), q) {
      assert LeaseKept(After(Untaken, steps), q);
    }
  }

  /** Two calls are inside together only if the lease of the earlier one ran out before the later one got the lock. */
  lemma OverlapMeansOutlived(steps: seq<Step>, p: nat, q: nat)
    requires IsRun(Untaken, steps) && p != q
    requires var t := After(Untaken, steps);
             Inside(t, p) && Inside(t, q) && t.calls[p].phase.since <= t.calls[q].phase.since
    ensures var t := After(Untaken, steps);
            Outlived(t.calls[p].phase, t.calls[q].phase) && !Outlived(t.calls[q].phase, t.calls[p].phase)
  {
    RunsStayValid(Untaken, steps);
    assert LeaseKept(After(Untaken, steps), p) && LeaseKept(After(Untaken, steps), q);
  }

  /** A live lease of a call ends only by its own release or by the clock. */
  lemma OnlyTheOwnerReleases(steps: seq<Step>, step: Step, p: nat)
    requires IsRun(Untaken, steps)
    requires var s := After(Untaken, steps);
             Enabled(s, step) && Harmless(s, step) && Holds(s, p) && !Owns(Next(s, step), s.calls[p].token)
    ensures step == Release(p) || (step.ReleaseFails? && step.p == p && step.reached)
         || (step == Tick && Past(After(Untaken, steps).calls[p].phase.expires, Next(After(Untaken, steps), step).clock))
  {
    RunsStayValid(Untaken, steps);
    assert LeaseKept(After(Untaken, steps), p);
  }

  /** The script answers that the lease is lost exactly when it has run out, and frees the key exactly otherwise. */
  lemma NotOwnedExactlyAfterExpiry(steps: seq<Step>, p: nat)
    requires IsRun(Untaken, steps) && Enabled(After(Untaken, steps), Release(p))
    ensures var s := After(Untaken, steps);
            var t := Next(s, Release(p));
            var error := t.calls[p].phase.releaseErr;
            && (error == Some(NotOwned) <==> Past(s.calls[p].phase.expires, s.clock))
            && (error == None <==> Live(s) && !Live(t))
            && (error == Some(NotOwned) || error == None)
  {
    var s := After(Untaken, steps);
    RunsStayValid(Untaken, steps);
    assert LeaseKept(s, p);
  }

  /**
   * A call enters exactly when no lease is stored that has not run out, and then has a lease of the asked length from now
   * on, without end if that is zero. Otherwise it is refused as busy, and the stored lease stays.
   */
  lemma EntersExactly(s: State, p: nat)
    requires Enabled(s, SetNX(p))
    ensures var t := Next(s, SetNX(p));
            var (token, ttl) := (s.calls[p].token, s.calls[p].phase.ttl);
            && (Inside(t, p) <==> (s.lock.Some? ==> s.lock.value.expires.Some? && s.lock.value.expires.value <= s.clock))
            && (Inside(t, p) ==>
                  t.lock == Some(Lease(token, if ttl == 0 then None else Some(s.clock + ttl)))
                  && t.calls[p].phase.since == s.clock)
            && (!Inside(t, p) ==> t.lock == s.lock && t.calls[p].phase == Refused(Busy))
            && t.clock == s.clock
  {
  }

  /** No lease is stored, or it has run out. */
  predicate Free(s: State) {
    s.lock.None? || (s.lock.value.expires.Some? && s.lock.value.expires.value <= s.clock)
  }

  function LeaseFrom(token: string, clock: nat, ttl: nat): Lease {
    Lease(token, if ttl == 0 then None else Some(clock + ttl))
  }

  /**
   * What a step does to the stored lease: a command that sets the key takes it exactly when it is free, whether its reply
   * comes back or not; the release of a call deletes exactly a live lease of its own token, answered or not; the historical
   * release deletes whatever is there; and nothing else touches it.
   */
  lemma LeaseChangesExactly(s: State, step: Step)
    requires Enabled(s, step)
    ensures Next(s, step).lock ==
            match step
            case SetNX(p) => if Free(s) then Some(LeaseFrom(s.calls[p].token, s.clock, s.calls[p].phase.ttl)) else s.lock
            case SetNXFails(p, reached, _) =>
              if reached && Free(s) then Some(LeaseFrom(s.calls[p].token, s.clock, s.calls[p].phase.ttl)) else s.lock
            case LegacyAcquire(ttl) => if Free(s) then Some(LeaseFrom("locked", s.clock, ttl)) else s.lock
            case Release(p) => if !Free(s) && s.lock.value.token == s.calls[p].token then None else s.lock
            case ReleaseFails(p, reached, _) =>
              if reached && !Free(s) && s.lock.value.token == s.calls[p].token then None else s.lock
            case LegacyRelease => None
            case _ => s.lock
  {
  }

  /** A call whose command got no answer is not inside, and yet its lease keeps every other call out until it runs out. */
  lemma UnansweredLeaseLocksOut(s: State, p: nat, reason: string, q: nat, ticks: nat)
    requires Enabled(s, SetNXFails(p, true, reason)) && Free(s) && q != p && Enabled(s, SetNX(q))
    requires s.calls[p].phase.ttl == 0 || ticks < s.calls[p].phase.ttl
    ensures var t := Next(s, SetNXFails(p, true, reason));
            var later := t.(clock := t.clock + ticks);
            && !Inside(t, p) && Enabled(later, SetNX(q)) && Next(later, SetNX(q)).calls[q].phase == Refused(Busy)
  {
  }

  /** What a call reports: both errors, or the one there is, or none. */
  lemma OutcomeSays(fnErr: Option<Error>, releaseErr: Option<Error>, target: Error)
    requires !target.Joined?
    ensures Outcome(fnErr, releaseErr) == None <==> fnErr == None && releaseErr == None
    ensures Outcome(fnErr, releaseErr).Some? && Is(Outcome(fnErr, releaseErr).value, target) <==>
            (fnErr.Some? && Is(fnErr.value, target)) || (releaseErr.Some? && Is(releaseErr.value, target))
  {
  }

  /** The call was started with this token, and its lease has the length that it was started with. */
  ghost predicate AsStarted(call: Call, p: nat, steps: seq<Step>) {
    exists ttl :: Start(p, call.token, ttl) in steps &&
      match call.phase
      case Starting(asked) => asked == ttl
      case Running(since, expires) => expires == if ttl == 0 then None else Some(since + ttl)
      case Returned(since, expires, _) => expires == if ttl == 0 then None else Some(since + ttl)
      case Refused(_) => true
      case Finished(since, expires, _, _) => expires == if ttl == 0 then None else Some(since + ttl)
  }

  lemma StepIsAsStarted(s: State, step: Step, before: seq<Step>, p: nat)
    requires Enabled(s, step) && p in Next(s, step).calls && (p in s.calls ==> AsStarted(s.calls[p], p, before))
    ensures AsStarted(Next(s, step).calls[p], p, before + [step])
  {
    var all := before + [step];
    assert all[|before|] == step && forall other | other in before :: other in all;
    if p in s.calls {
      var ttl :| Start(p, s.calls[p].token, ttl) in before && AsStarted(s.calls[p], p, [Start(p, s.calls[p].token, ttl)]);
      assert Start(p, s.calls[p].token, ttl) in all;
    } else {
      assert step.Start?;
    }
  }

  lemma {:induction false} RunIsAsStarted(s: State, before: seq<Step>, steps: seq<Step>, p: nat)
    requires IsRun(s, steps) && p in After(s, steps).calls && (p in s.calls ==> AsStarted(s.calls[p], p, before))
    ensures AsStarted(After(s, steps).calls[p], p, before + steps)
    decreases steps
  {
    if steps == [] {
      assert before + steps == before;
    } else {
      if p in Next(s, steps[0]).calls {
        StepIsAsStarted(s, steps[0], before, p);
      }
      RunIsAsStarted(Next(s, steps[0]), before + [steps[0]], steps[1..], p);
      assert before + [steps[0]] + steps[1..] == before + steps;
    }
  }

  /** Over every run, each call has the token and the length of lease that it was started with. */
  lemma LeasesAreAsStarted(steps: seq<Step>, p: nat)
    requires IsRun(Untaken, steps) && p in After(Untaken, steps).calls
    ensures AsStarted(After(Untaken, steps).calls[p], p, steps)
  {
    RunIsAsStarted(Untaken, [], steps, p);
    assert [] + steps == steps;
  }

  /** From every state a call can end, whatever the lock does. */
  lemma CallsCanFinish(s: State, p: nat) returns (steps: seq<Step>)
    requires p in s.calls && !Over(s.calls[p].phase)
    ensures IsRun(s, steps) && p in After(s, steps).calls && Over(After(s, steps).calls[p].phase)
    decreases if s.calls[p].phase.Starting? then 2 else if s.calls[p].phase.Running? then 1 else 0
  {
    var step := if s.calls[p].phase.Starting? then SetNX(p) else if s.calls[p].phase.Running? then Return(p, None) else Release(p);
    var rest := [];
    if !Over(Next(s, step).calls[p].phase) {
      rest := CallsCanFinish(Next(s, step), p);
    }
    steps := [step] + rest;
    assert steps[1..] == rest;
  }

  /** A historical release of a held lease lets the next call in beside the holder. */
  lemma LegacyReleaseAdmitsSecondHolder(s: State, p: nat, q: nat)
    requires Valid(s) && Holds(s, p) && q in s.calls && s.calls[q].phase.Starting?
    ensures var t := Next(s, LegacyRelease);
            && Holds(t, p) && Enabled(t, SetNX(q))
            && Holds(Next(t, SetNX(q)), p) && Holds(Next(t, SetNX(q)), q)
    ensures Next(s, SetNX(q)).calls[q].phase == Refused(Busy)
  {
    assert LeaseKept(s, p);
  }

  // ---------------------------------------------------------------- what the scheduler reports

  datatype Report = Quiet | Skipped | Logged(error: Error)

  function CronReport(error: Option<Error>): Report {
    match error
    case None => Quiet
    case Some(e) => if Is(e, Busy) || Is(e, Nil) then Skipped else Logged(e)
  }

  predicate Over(phase: Phase) {
    phase.Refused? || phase.Finished?
  }

  function CallOutcome(phase: Phase): Option<Error>
    requires Over(phase)
  {
    if phase.Refused? then Some(phase.error) else Outcome(phase.fnErr, phase.releaseErr)
  }

  /** The errors that WithLock itself can produce. */
  predicate OwnErrors(phase: Phase) {
    match phase
    case Refused(e) => e == Busy || e.Unreachable?
    case Finished(_, _, _, r) => r == None || r == Some(NotOwned) || r.value.Unreachable?
    case _ => true
  }

  lemma {:induction false} RunsKeepOwnErrors(s: State, steps: seq<Step>)
    requires IsRun(s, steps) && forall p | p in s.calls :: OwnErrors(s.calls[p].phase)
    ensures forall p | p in After(s, steps).calls :: OwnErrors(After(s, steps).calls[p].phase)
    decreases steps
  {
    if steps != [] {
      RunsKeepOwnErrors(Next(s, steps[0]), steps[1..]);
    }
  }

  /** A job is reported as skipped when the lock was busy, and also when it ran and its own error says busy or nil. */
  lemma SkippedExactly(steps: seq<Step>, p: nat)
    requires IsRun(Untaken, steps) && p in After(Untaken, steps).calls && Over(After(Untaken, steps).calls[p].phase)
    ensures var phase := After(Untaken, steps).calls[p].phase;
            && (CronReport(CallOutcome(phase)) == Skipped <==>
                  || phase == Refused(Busy)
                  || (phase.Finished? && phase.fnErr.Some? && (Is(phase.fnErr.value, Busy) || Is(phase.fnErr.value, Nil))))
            && (CronReport(CallOutcome(phase)) == Quiet <==> phase.Finished? && phase.fnErr == None && phase.releaseErr == None)
  {
    RunsKeepOwnErrors(Untaken, steps);
    var phase := After(Untaken, steps).calls[p].phase;
    if phase.Finished? && phase.fnErr.Some? && phase.releaseErr.Some? {
      var f, r := phase.fnErr.value, phase.releaseErr.value;
      assert forall e | e == Busy || e == Nil :: !Is(r, e);
      assert forall e | e == Busy || e == Nil :: Is(Joined(f, r), e) == Is(f, e);
    }
  }

  // ---------------------------------------------------------------- two runs from the start

  lemma RunFrom(s: State, step: Step, rest: seq<Step>)
    requires Enabled(s, step) && Harmless(s, step) && IsRun(Next(s, step), rest)
    ensures IsRun(s, [step] + rest) && After(s, [step] + rest) == After(Next(s, step), rest)
  {
    assert ([step] + rest)[1..] == rest;
  }

  /** A job that ran, and whose own error wraps busy or nil, is reported as skipped. */
  lemma RanButSkipped(token: string, ttl: nat, error: Error) returns (steps: seq<Step>)
    requires |token| == 32 && (Is(error, Busy) || Is(error, Nil))
    ensures IsRun(Untaken, steps)
    ensures After(Untaken, steps).calls == map[0 := Call(token, Finished(0, Expiry(0, ttl), Some(error), None))]
    ensures CronReport(CallOutcome(After(Untaken, steps).calls[0].phase)) == Skipped
  {
    var s1 := Next(Untaken, Start(0, token, ttl));
    var s2 := Next(s1, SetNX(0));
    var s3 := Next(s2, Return(0, Some(error)));
    var s4 := Next(s3, Release(0));
    RunFrom(s3, Release(0), []);
    RunFrom(s2, Return(0, Some(error)), [Release(0)] + []);
    RunFrom(s1, SetNX(0), [Return(0, Some(error))] + ([Release(0)] + []));
    steps := [Start(0, token, ttl)] + ([SetNX(0)] + ([Return(0, Some(error))] + ([Release(0)] + [])));
    RunFrom(Untaken, Start(0, token, ttl), [SetNX(0)] + ([Return(0, Some(error))] + ([Release(0)] + [])));
  }

  /** Two calls, the historical release while the first one holds its lease, and both are inside with live leases. */
  lemma TwoHolders(first: string, second: string, ttl: nat) returns (steps: seq<Step>)
    requires |first| == |second| == 32 && first != second
    ensures IsRun(Untaken, steps)
    ensures var t := Next(After(Untaken, steps), LegacyRelease);
            Enabled(t, SetNX(1)) && Holds(Next(t, SetNX(1)), 0) && Holds(Next(t, SetNX(1)), 1)
  {
    var s1 := Next(Untaken, Start(0, first, ttl));
    var s2 := Next(s1, Start(1, second, ttl));
    RunFrom(s2, SetNX(0), []);
    RunFrom(s1, Start(1, second, ttl), [SetNX(0)] + []);
    steps := [Start(0, first, ttl)] + ([Start(1, second, ttl)] + ([SetNX(0)] + []));
    RunFrom(Untaken, Start(0, first, ttl), [Start(1, second, ttl)] + ([SetNX(0)] + []));
  }
}

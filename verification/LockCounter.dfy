/**
 * One failure counter: its state machine with lazy expiry, and the phase it is really in.
 * Times are seconds of a clock that starts long after the zero time; a zero time is None.
 */
module LockCounter {
  import opened Wire

  datatype Counter = Counter(locked: bool, failures: int, lockTime: Option<int>, lastAttempt: Option<int>)

  /** When to lock, after how long a pause to start counting anew, and for how long to lock. */
  datatype Policy = Policy(maxCount: int, resetTime: int, lockTime: int)

  const FRESH := Counter(false, 0, None, None)

  /** What every counter looks like. */
  predicate Consistent(c: Counter) {
    && (c.locked <==> c.lockTime.Some?)
    && 0 <= c.failures && (c.failures > 0 || c.locked ==> c.lastAttempt.Some?)
  }

  // ----- the operations

  predicate LockOver(c: Counter, now: int) {
    c.locked && c.lockTime.Some? && now > c.lockTime.value
  }

  /** More than `span` has passed since the last failure, or there was none. */
  predicate Stale(c: Counter, span: int, now: int) {
    c.lastAttempt.None? || now - c.lastAttempt.value > span
  }

  function Cleared(c: Counter): Counter {
    c.(failures := 0, locked := false, lockTime := None)
  }

  function Bumped(c: Counter, p: Policy, now: int): Counter {
    var d := if LockOver(c, now) then Cleared(c) else c;
    if d.locked || (d.lockTime.Some? && d.lockTime.value > now) then d
    else
      var n := 1 + if Stale(d, p.resetTime, now) then 0 else d.failures;
      if n >= p.maxCount then Counter(true, n, Some(now + p.lockTime), Some(now))
      else d.(failures := n, lastAttempt := Some(now))
  }

  /** The counter after a check. */
  function Checked(c: Counter, resetTime: int, now: int): Counter {
    if c.lastAttempt.None? then c
    else if LockOver(c, now) then Cleared(c)
    else if Stale(c, resetTime, now) && !c.locked then c.(failures := 0)
    else c
  }

  /** Whether a check finds the counter locked. */
  predicate IsLocked(c: Counter, now: int) {
    c.lastAttempt.Some? && c.locked && !LockOver(c, now)
  }

  /** The counter after a cleanup, or None when it is thrown away. */
  function Swept(c: Counter, expiry: int, now: int): Option<Counter> {
    if LockOver(c, now) then Some(Cleared(c))
    else if Stale(c, expiry, now) && !c.locked then None
    else Some(c)
  }

  /** Counts a failure. */
  method BumpLockState(c: Counter, p: Policy, now: int) returns (ls: Counter)
    ensures ls == Bumped(c, p, now)
  {
    ls := c;
    if ls.locked && ls.lockTime.Some? && now > ls.lockTime.value {
      ls := ls.(failures := 0, locked := false, lockTime := None);
    }
    if ls.locked || (ls.lockTime.Some? && ls.lockTime.value > now) {
      return ls;
    }
    if ls.lastAttempt.None? || now - ls.lastAttempt.value > p.resetTime {
      ls := ls.(failures := 0);
    }
    ls := ls.(failures := ls.failures + 1, lastAttempt := Some(now));
    if ls.failures >= p.maxCount {
      ls := ls.(lockTime := Some(now + p.lockTime), locked := true);
    }
  }

  method CheckState(c: Counter, resetTime: int, now: int) returns (ls: Counter, locked: bool)
    ensures ls == Checked(c, resetTime, now) && locked == IsLocked(c, now)
  {
    ls := c;
    if ls.lastAttempt.None? {
      return ls, false;
    }
    if ls.locked && ls.lockTime.Some? && now > ls.lockTime.value {
      return ls.(failures := 0, locked := false, lockTime := None), false;
    }
    if now - ls.lastAttempt.value > resetTime && !ls.locked {
      ls := ls.(failures := 0);
    }
    return ls, ls.locked;
  }

  // ----- the phase a counter is really in

  /** Expired locks and outdated counts are as good as nothing. */
  datatype Phase = Idle | Counting(failures: int, last: int) | Locked(until: int)

  /** The phase at `now`, when counts are outdated after `window`. */
  function PhaseOf(c: Option<Counter>, window: int, now: int): Phase {
    if c.None? then Idle
    else if c.value.locked && c.value.lockTime.Some? then
      if now > c.value.lockTime.value then Idle else Locked(c.value.lockTime.value)
    else if c.value.failures == 0 || Stale(c.value, window, now) then Idle
    else Counting(c.value.failures, c.value.lastAttempt.value)
  }

  /** The counting rule without any bookkeeping. */
  function FailPhase(ph: Phase, p: Policy, now: int): Phase {
    if ph.Locked? then ph
    else
      var n := if ph.Counting? && now - ph.last <= p.resetTime then ph.failures + 1 else 1;
      if n < p.maxCount then Counting(n, now)
      else if p.lockTime >= 0 then Locked(now + p.lockTime)
      else Idle
  }

  function CheckPhase(ph: Phase, resetTime: int, now: int): Phase {
    if ph.Counting? && now - ph.last > resetTime then Idle else ph
  }

  /** How a phase looks later on. */
  function LaterPhase(ph: Phase, window: int, now: int): Phase {
    match ph
    case Idle => Idle
    case Counting(_, last) => if now - last > window then Idle else ph
    case Locked(until) => if now > until then Idle else ph
  }

  function CounterOr(c: Option<Counter>): Counter {
    if c.Some? then c.value else FRESH
  }

  /** Counting a failure follows the rule, whatever expired bookkeeping the counter still carries. */
  lemma {:induction false} BumpFollowsRule(c: Option<Counter>, p: Policy, window: int, now: int)
    requires c.Some? ==> Consistent(c.value)
    requires p.resetTime <= window && window >= 0
    ensures Consistent(Bumped(CounterOr(c), p, now))
    ensures PhaseOf(Some(Bumped(CounterOr(c), p, now)), window, now) == FailPhase(PhaseOf(c, window, now), p, now)
  {
  }

  /** A check reports the phase, and forgets a count only when it is outdated. */
  lemma {:induction false} CheckFollowsRule(c: Counter, resetTime: int, window: int, now: int)
    requires Consistent(c) && resetTime <= window
    ensures Consistent(Checked(c, resetTime, now))
    ensures IsLocked(c, now) <==> PhaseOf(Some(c), window, now).Locked?
    ensures PhaseOf(Some(Checked(c, resetTime, now)), window, now)
         == CheckPhase(PhaseOf(Some(c), window, now), resetTime, now)
  {
  }

  /** A cleanup changes no phase, if it waits at least as long as the window. */
  lemma {:induction false} SweepChangesNothing(c: Counter, expiry: int, window: int, now: int)
    requires Consistent(c) && window <= expiry
    ensures Swept(c, expiry, now).Some? ==> Consistent(Swept(c, expiry, now).value)
    ensures PhaseOf(Swept(c, expiry, now), window, now) == PhaseOf(Some(c), window, now)
  {
  }

  /** As time passes, the phase alone says how the counter looks later. */
  lemma {:induction false} PhaseAgesAlone(c: Option<Counter>, window: int, now: int, later: int)
    requires now <= later && (c.Some? ==> Consistent(c.value))
    ensures PhaseOf(c, window, later) == LaterPhase(PhaseOf(c, window, now), window, later)
  {
  }
}

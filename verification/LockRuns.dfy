/** What the lock manager promises over whole runs: failures add up, locks hold, and unlocking lifts them. */
module LockRuns {
  import opened Wire
  import opened LockCounter
  import opened LockManager

  datatype Event = Event(op: Op, at: int)

  /** The clock does not run backwards. */
  ghost predicate Chronological(from: int, es: seq<Event>) {
    && (forall i :: 0 <= i < |es| ==> from <= es[i].at)
    && (forall i, j :: 0 <= i <= j < |es| ==> es[i].at <= es[j].at)
  }

  ghost predicate ValidBook(b: Book) {
    forall k <- b :: Consistent(b[k])
  }

  function KeyPhase(b: Book, k: LockKey, window: int, now: int): Phase {
    PhaseOf(Get(b, k), window, now)
  }

  /** Every table that is switched on has a reset window no longer than `window`. */
  predicate ResetsWithin(cfg: Config, window: int) {
    && 0 <= window
    && (cfg.pair.maxCount > 0 ==> cfg.pair.resetTime <= window)
    && (cfg.user.maxCount > 0 ==> cfg.user.resetTime <= window)
    && (cfg.ip.maxCount > 0 ==> cfg.ip.resetTime <= window)
  }

  /** Only the phase of `k` matters for what a check, a bump or a clearing does to it. */
  lemma {:induction false} TouchPhase(b: Book, k: LockKey, resetTime: int, window: int, now: int)
    requires ValidBook(b) && resetTime <= window
    ensures ValidBook(Touch(b, k, resetTime, now))
    ensures Blocks(b, k, now) <==> KeyPhase(b, k, window, now).Locked?
    ensures KeyPhase(Touch(b, k, resetTime, now), k, window, now)
         == CheckPhase(KeyPhase(b, k, window, now), resetTime, now)
    ensures forall j :: j != k ==> Get(Touch(b, k, resetTime, now), j) == Get(b, j)
  {
  }

  lemma {:induction false} BumpPhase(b: Book, k: LockKey, p: Policy, window: int, now: int)
    requires ValidBook(b) && p.resetTime <= window && 0 <= window
    ensures ValidBook(Bump(b, k, p, now))
    ensures KeyPhase(Bump(b, k, p, now), k, window, now) == FailPhase(KeyPhase(b, k, window, now), p, now)
    ensures forall j :: j != k ==> Get(Bump(b, k, p, now), j) == Get(b, j)
  {
  }

  lemma {:induction false} SweepPhase(b: Book, expiry: int, window: int, now: int)
    requires ValidBook(b) && window <= expiry
    ensures ValidBook(Sweep(b, expiry, now))
    ensures forall k :: KeyPhase(Sweep(b, expiry, now), k, window, now) == KeyPhase(b, k, window, now)
  {
  }

  // ----- what a check answers

  ghost predicate Distinct(looks: seq<Look>) {
    forall i, j :: 0 <= i < j < |looks| ==> looks[i].key != looks[j].key
  }

  /** Touching counters on the way does not change the answer: it is whether any of them blocks. */
  lemma {:induction false} LooksDecide(b: Book, looks: seq<Look>, now: int)
    requires Distinct(looks)
    ensures LookThrough(b, looks, now).1 <==> forall l <- looks :: !Blocks(b, l.key, now)
    decreases |looks|
  {
    if looks != [] {
      var l, rest := looks[0], looks[1..];
      var b' := Touch(b, l.key, l.resetTime, now);
      assert l in looks;
      forall x | x in rest
        ensures x in looks && (Blocks(b', x.key, now) <==> Blocks(b, x.key, now))
      {
        var i :| 0 <= i < |rest| && rest[i] == x;
        assert looks[i + 1] == x;
      }
      LooksDecide(b', rest, now);
      assert forall x <- looks :: x == l || x in rest;
    }
  }

  lemma {:induction false} AllowsIff(cfg: Config, b: Book, user: string, ip: string, now: int)
    requires Counted(cfg, Some(ip))
    ensures Allows(cfg, b, user, Some(ip), now) <==> forall l <- Looks(cfg, user, ip) :: !Blocks(b, l.key, now)
  {
    LooksDecide(b, Looks(cfg, user, ip), now);
  }

  // ----- locks hold

  function Run(cfg: Config, b: Book, es: seq<Event>): Book
    decreases |es|
  {
    if es == [] then b else Run(cfg, After(cfg, b, es[0].op, es[0].at), es[1..])
  }

  /** The rule of a counter's table. */
  function PolicyOf(cfg: Config, k: LockKey): Policy {
    match k
    case IpKey(_) => cfg.ip
    case UserKey(_) => cfg.user
    case PairKey(_, _) => cfg.pair
    case ChallengeKey(_, _) => cfg.pair
  }

  /** Whether an operation counts a failure for `k`. */
  predicate Counts(cfg: Config, op: Op, k: LockKey) {
    match op
    case Fail(user, ip) =>
      ip.Some? && (k == PairKey(ip.value, user) || (user != "" && k == UserKey(user)) || k == IpKey(ip.value))
    case ChallengeFail(user, ip) => ip.Some? && user != "" && k == ChallengeKey(ip.value, user)
    case _ => false
  }

  /**
   * Whether an operation may clear `k`, or bump it by the rule of another table. A stage success never
   * clears a challenge counter.
   */
  predicate Disturbs(op: Op, k: LockKey) {
    match op
    case Fail(user, ip) => user == "" && k == IpKey("")
    case Success(user, ip) =>
      ip.Some? && (k == PairKey(ip.value, user) || k == ChallengeKey(ip.value, user) || k == IpKey(ip.value)
                   || (user != "" && k == UserKey(user)))
    case StageSuccess(user, ip) =>
      ip.Some? && (k == PairKey(ip.value, user) || k == IpKey(ip.value) || (user != "" && k == UserKey(user)))
    case UnlockUser(user) => k == UserKey(user) || (k.ChallengeKey? && k.user == user)
    case UnlockIp(host) => k == IpKey(host)
    case UnlockUserIp(user, host) => k == PairKey(host, user) || k == ChallengeKey(host, user)
    case _ => false
  }

  /** A counter whose table is on. */
  ghost predicate Regular(cfg: Config, k: LockKey) {
    && PolicyOf(cfg, k).maxCount > 0
    && 0 <= PolicyOf(cfg, k).resetTime <= cfg.expiry && PolicyOf(cfg, k).lockTime >= 0
  }

  lemma {:induction false} LookKeepsPhase(cfg: Config, b: Book, looks: seq<Look>, k: LockKey, now: int)
    requires ValidBook(b) && 0 <= PolicyOf(cfg, k).resetTime
    requires forall l <- looks :: l.key == k ==> l.resetTime == PolicyOf(cfg, k).resetTime
    ensures ValidBook(LookThrough(b, looks, now).0)
    ensures var w := PolicyOf(cfg, k).resetTime;
            KeyPhase(LookThrough(b, looks, now).0, k, w, now) == KeyPhase(b, k, w, now)
    decreases |looks|
  {
    if looks != [] {
      var l := looks[0];
      assert l in looks && forall x <- looks[1..] :: x in looks;
      TouchPhase(b, l.key, l.resetTime, l.resetTime, now);
      LookKeepsPhase(cfg, Touch(b, l.key, l.resetTime, now), looks[1..], k, now);
    }
  }

  /** An operation that counts a failure moves the phase by the rule, one that may not clear leaves it. */
  lemma {:induction false} KeyFollowsRule(cfg: Config, b: Book, op: Op, k: LockKey, now: int)
    requires ValidBook(b) && Regular(cfg, k) && !Disturbs(op, k)
    requires ResetsWithin(cfg, cfg.expiry)
    ensures ValidBook(After(cfg, b, op, now))
    ensures var w := PolicyOf(cfg, k).resetTime;
            KeyPhase(After(cfg, b, op, now), k, w, now) ==
            if Counts(cfg, op, k) then FailPhase(KeyPhase(b, k, w, now), PolicyOf(cfg, k), now)
            else KeyPhase(b, k, w, now)
  {
    var w := PolicyOf(cfg, k).resetTime;
    match op
    case Check(user, ip) =>
      if ip.Some? {
        LookKeepsPhase(cfg, b, Looks(cfg, user, ip.value), k, now);
      }
    case Fail(user, ip) =>
      if ip.Some? {
        FailFollowsRule(cfg, b, user, ip.value, k, now);
      }
    case ChallengeFail(user, ip) =>
      if ip.Some? && user != "" && cfg.pair.maxCount > 0 {
        BumpPhase(b, ChallengeKey(ip.value, user), cfg.pair, cfg.expiry, now);
        if k == ChallengeKey(ip.value, user) {
          BumpPhase(b, k, cfg.pair, w, now);
        }
      }
    case Success(user, ip) =>
      if ip.Some? {
        ClearingKeepsOthers(b, user, ip.value, k);
      }
    case StageSuccess(user, ip) =>
      if ip.Some? {
        ClearingKeepsOthers(b, user, ip.value, k);
      }
    case UnlockUser(_) =>
    case UnlockIp(_) =>
    case UnlockUserIp(_, _) =>
    case Cleanup => SweepPhase(b, cfg.expiry, w, now);
  }

  lemma {:induction false} ClearingKeepsOthers(b: Book, user: string, ip: string, k: LockKey)
    requires ValidBook(b)
    ensures ValidBook(ClearStage(b, user, ip))
    ensures k != PairKey(ip, user) && k != IpKey(ip) && (user == "" || k != UserKey(user)) ==>
              Get(ClearStage(b, user, ip), k) == Get(b, k)
  {
  }

  lemma {:induction false} BumpOne(cfg: Config, b: Book, j: LockKey, p: Policy, k: LockKey, now: int)
    requires ValidBook(b) && Regular(cfg, k) && 0 <= cfg.expiry && p.resetTime <= cfg.expiry
    requires j == k ==> p == PolicyOf(cfg, k)
    ensures ValidBook(Bump(b, j, p, now))
    ensures var w := PolicyOf(cfg, k).resetTime;
            KeyPhase(Bump(b, j, p, now), k, w, now) ==
            if j == k then FailPhase(KeyPhase(b, k, w, now), p, now) else KeyPhase(b, k, w, now)
  {
  }

  lemma {:induction false} FailFollowsRule(cfg: Config, b: Book, user: string, ip: string, k: LockKey, now: int)
    requires ValidBook(b) && Regular(cfg, k) && ResetsWithin(cfg, cfg.expiry) && !Disturbs(Fail(user, Some(ip)), k)
    ensures ValidBook(After(cfg, b, Fail(user, Some(ip)), now))
    ensures var w := PolicyOf(cfg, k).resetTime;
            KeyPhase(After(cfg, b, Fail(user, Some(ip)), now), k, w, now) ==
            if Counts(cfg, Fail(user, Some(ip)), k) then FailPhase(KeyPhase(b, k, w, now), PolicyOf(cfg, k), now)
            else KeyPhase(b, k, w, now)
  {
    BumpAllInOrder(cfg, b, user, ip, now);
    var b1, b2 := b, b;
    if cfg.pair.maxCount > 0 {
      BumpOne(cfg, b, PairKey(ip, user), cfg.pair, k, now);
      b1 := Bump(b, PairKey(ip, user), cfg.pair, now);
    }
    b2 := b1;
    if cfg.user.maxCount > 0 {
      var j := if user != "" then UserKey(user) else IpKey("");
      BumpOne(cfg, b1, j, cfg.user, k, now);
      b2 := Bump(b1, j, cfg.user, now);
    }
    if cfg.ip.maxCount > 0 {
      BumpOne(cfg, b2, IpKey(ip), cfg.ip, k, now);
    }
  }

  ghost predicate Undisturbed(es: seq<Event>, k: LockKey) {
    forall e <- es :: !Disturbs(e.op, k)
  }

  /** The times at which failures are counted for `k`. */
  function FailTimes(cfg: Config, es: seq<Event>, k: LockKey): seq<int> {
    if es == [] then []
    else FailTimes(cfg, es[..|es| - 1], k) + (if Counts(cfg, es[|es| - 1].op, k) then [es[|es| - 1].at] else [])
  }

  ghost predicate GapsWithin(times: seq<int>, span: int) {
    forall i :: 0 < i < |times| ==> times[i] - times[i - 1] <= span
  }

  /** What the failures so far amount to, at the time of the last event. */
  function Expected(p: Policy, times: seq<int>, now: int): Phase {
    if times == [] then Idle
    else
      var last := times[|times| - 1];
      LaterPhase(if |times| < p.maxCount then Counting(|times|, last) else Locked(last + p.lockTime), p.resetTime, now)
  }

  lemma {:induction false} RunSnoc(cfg: Config, b: Book, es: seq<Event>, e: Event)
    ensures Run(cfg, b, es + [e]) == After(cfg, Run(cfg, b, es), e.op, e.at)
    decreases |es|
  {
    if es == [] {
      assert es + [e] == [e] && [e][1..] == [];
    } else {
      assert (es + [e])[1..] == es[1..] + [e];
      RunSnoc(cfg, After(cfg, b, es[0].op, es[0].at), es[1..], e);
    }
  }

  lemma {:induction false} RunInit(cfg: Config, b: Book, es: seq<Event>)
    requires es != []
    ensures var e := es[|es| - 1]; Run(cfg, b, es) == After(cfg, Run(cfg, b, es[..|es| - 1]), e.op, e.at)
  {
    var n := |es| - 1;
    assert es == es[..n] + [es[n]];
    RunSnoc(cfg, b, es[..n], es[n]);
  }

  lemma {:induction false} ExpectedLater(p: Policy, times: seq<int>, now: int, later: int)
    requires now <= later
    ensures Expected(p, times, later) == LaterPhase(Expected(p, times, now), p.resetTime, later)
  {
  }

  lemma {:induction false} StillExpected(b: Book, k: LockKey, p: Policy, times: seq<int>, now: int, later: int)
    requires ValidBook(b) && now <= later && KeyPhase(b, k, p.resetTime, now) == Expected(p, times, now)
    ensures KeyPhase(b, k, p.resetTime, later) == Expected(p, times, later)
  {
    PhaseAgesAlone(Get(b, k), p.resetTime, now, later);
    ExpectedLater(p, times, now, later);
  }

  /** One more failure is within the maximum, and soon enough after the last. */
  ghost predicate NextInTime(p: Policy, times: seq<int>, now: int) {
    |times| < p.maxCount && (times != [] ==> now - times[|times| - 1] <= p.resetTime)
  }

  /** Counting one more failure, soon enough, leads from one expectation to the next. */
  lemma {:induction false} ExpectedNext(p: Policy, times: seq<int>, now: int)
    requires 0 < p.maxCount && 0 <= p.resetTime && 0 <= p.lockTime && NextInTime(p, times, now)
    ensures FailPhase(Expected(p, times, now), p, now) == Expected(p, times + [now], now)
  {
  }

  lemma {:induction false} EventCounts(cfg: Config, b: Book, e: Event, k: LockKey, times: seq<int>)
    requires ValidBook(b) && Regular(cfg, k) && ResetsWithin(cfg, cfg.expiry) && !Disturbs(e.op, k)
    requires KeyPhase(b, k, PolicyOf(cfg, k).resetTime, e.at) == Expected(PolicyOf(cfg, k), times, e.at)
    requires Counts(cfg, e.op, k) ==> NextInTime(PolicyOf(cfg, k), times, e.at)
    ensures ValidBook(After(cfg, b, e.op, e.at))
    ensures KeyPhase(After(cfg, b, e.op, e.at), k, PolicyOf(cfg, k).resetTime, e.at)
         == Expected(PolicyOf(cfg, k), times + (if Counts(cfg, e.op, k) then [e.at] else []), e.at)
  {
    KeyFollowsRule(cfg, b, e.op, k, e.at);
    if Counts(cfg, e.op, k) {
      ExpectedNext(PolicyOf(cfg, k), times, e.at);
    } else {
      assert times + [] == times;
    }
  }

  /**
   * With gaps within the reset window and nothing that disturbs the counter, its phase is what its own
   * failures amount to, whatever else happens: other clients' failures, checks, cleanups, and, for a
   * challenge counter, any number of stage successes and first-factor failures.
   */
  lemma {:induction false} PhaseCountsFailures(cfg: Config, b: Book, from: int, es: seq<Event>, k: LockKey)
    requires ValidBook(b) && Regular(cfg, k) && ResetsWithin(cfg, cfg.expiry)
    requires Chronological(from, es) && Undisturbed(es, k) && es != []
    requires KeyPhase(b, k, PolicyOf(cfg, k).resetTime, from) == Idle
    requires GapsWithin(FailTimes(cfg, es, k), PolicyOf(cfg, k).resetTime)
    requires |FailTimes(cfg, es, k)| <= PolicyOf(cfg, k).maxCount
    ensures ValidBook(Run(cfg, b, es))
    ensures var p, now := PolicyOf(cfg, k), es[|es| - 1].at;
            KeyPhase(Run(cfg, b, es), k, p.resetTime, now) == Expected(p, FailTimes(cfg, es, k), now)
    decreases |es|
  {
    var p, n := PolicyOf(cfg, k), |es| - 1;
    var init, e := es[..n], es[n];
    assert e in es;
    RunInit(cfg, b, es);
    var times, before := FailTimes(cfg, init, k), Run(cfg, b, init);
    if n == 0 {
      assert init == [];
      PhaseAgesAlone(Get(b, k), p.resetTime, from, e.at);
    } else {
      InitCounts(cfg, from, es, k);
      PhaseCountsFailures(cfg, b, from, init, k);
      StillExpected(before, k, p, times, init[n - 1].at, e.at);
    }
    LastCounts(cfg, before, es, k);
  }

  /** The last event of a run. */
  lemma {:induction false} LastCounts(cfg: Config, b: Book, es: seq<Event>, k: LockKey)
    requires ValidBook(b) && Regular(cfg, k) && ResetsWithin(cfg, cfg.expiry)
    requires es != [] && !Disturbs(es[|es| - 1].op, k)
    requires GapsWithin(FailTimes(cfg, es, k), PolicyOf(cfg, k).resetTime)
    requires |FailTimes(cfg, es, k)| <= PolicyOf(cfg, k).maxCount
    requires var p, e := PolicyOf(cfg, k), es[|es| - 1];
             KeyPhase(b, k, p.resetTime, e.at) == Expected(p, FailTimes(cfg, es[..|es| - 1], k), e.at)
    ensures var p, e := PolicyOf(cfg, k), es[|es| - 1];
            && ValidBook(After(cfg, b, e.op, e.at))
            && KeyPhase(After(cfg, b, e.op, e.at), k, p.resetTime, e.at) == Expected(p, FailTimes(cfg, es, k), e.at)
  {
    if Counts(cfg, es[|es| - 1].op, k) {
      LastGap(cfg, es, k);
    }
    EventCounts(cfg, b, es[|es| - 1], k, FailTimes(cfg, es[..|es| - 1], k));
  }

  /** What holds of a run holds of the run without its last event. */
  lemma {:induction false} InitCounts(cfg: Config, from: int, es: seq<Event>, k: LockKey)
    requires Chronological(from, es) && Undisturbed(es, k) && es != []
    requires GapsWithin(FailTimes(cfg, es, k), PolicyOf(cfg, k).resetTime)
    ensures var init := es[..|es| - 1];
            && Chronological(from, init) && Undisturbed(init, k)
            && GapsWithin(FailTimes(cfg, init, k), PolicyOf(cfg, k).resetTime)
            && |FailTimes(cfg, init, k)| <= |FailTimes(cfg, es, k)|
  {
    var init := es[..|es| - 1];
    assert forall x <- init :: x in es;
    var times := FailTimes(cfg, init, k);
    assert FailTimes(cfg, es, k)[..|times|] == times;
    GapsOfPrefix(FailTimes(cfg, es, k), |times|, PolicyOf(cfg, k).resetTime);
  }

  lemma {:induction false} LastGap(cfg: Config, es: seq<Event>, k: LockKey)
    requires es != [] && Counts(cfg, es[|es| - 1].op, k)
    requires GapsWithin(FailTimes(cfg, es, k), PolicyOf(cfg, k).resetTime)
    requires |FailTimes(cfg, es, k)| <= PolicyOf(cfg, k).maxCount
    ensures NextInTime(PolicyOf(cfg, k), FailTimes(cfg, es[..|es| - 1], k), es[|es| - 1].at)
  {
    var times, all := FailTimes(cfg, es[..|es| - 1], k), FailTimes(cfg, es, k);
    assert all == times + [es[|es| - 1].at];
    assert times != [] ==> all[|times|] - all[|times| - 1] <= PolicyOf(cfg, k).resetTime;
  }

  lemma {:induction false} GapsOfPrefix(times: seq<int>, n: nat, span: int)
    requires n <= |times| && GapsWithin(times, span)
    ensures GapsWithin(times[..n], span)
  {
  }

  /** The maximum number of failures, none too long after the one before, locks for the lock time. */
  lemma {:induction false} MaxFailuresLock(cfg: Config, b: Book, from: int, es: seq<Event>, k: LockKey)
    requires ValidBook(b) && Regular(cfg, k) && ResetsWithin(cfg, cfg.expiry)
    requires Chronological(from, es) && Undisturbed(es, k) && es != []
    requires KeyPhase(b, k, PolicyOf(cfg, k).resetTime, from) == Idle
    requires Counts(cfg, es[|es| - 1].op, k)
    requires GapsWithin(FailTimes(cfg, es, k), PolicyOf(cfg, k).resetTime)
    requires |FailTimes(cfg, es, k)| == PolicyOf(cfg, k).maxCount
    ensures ValidBook(Run(cfg, b, es))
    ensures var p, now := PolicyOf(cfg, k), es[|es| - 1].at;
            KeyPhase(Run(cfg, b, es), k, p.resetTime, now) == Locked(now + p.lockTime)
  {
    PhaseCountsFailures(cfg, b, from, es, k);
  }

  /** Whether a check looks at `k`. */
  predicate LooksAt(cfg: Config, op: Op, k: LockKey) {
    op.Check? && Counted(cfg, op.ip) && exists l :: l in Looks(cfg, op.user, op.ip.value) && l.key == k
  }

  /** Every check of the run that looks at `k` refuses. */
  ghost predicate AllRefused(cfg: Config, b: Book, es: seq<Event>, k: LockKey)
    decreases |es|
  {
    es != [] ==>
      && (LooksAt(cfg, es[0].op, k) ==> !Allows(cfg, b, es[0].op.user, es[0].op.ip, es[0].at))
      && AllRefused(cfg, After(cfg, b, es[0].op, es[0].at), es[1..], k)
  }

  lemma {:induction false} LockedLookRefuses(cfg: Config, b: Book, looks: seq<Look>, k: LockKey, now: int)
    requires ValidBook(b) && KeyPhase(b, k, PolicyOf(cfg, k).resetTime, now).Locked?
    requires 0 <= PolicyOf(cfg, k).resetTime
    requires forall l <- looks :: l.key == k ==> l.resetTime == PolicyOf(cfg, k).resetTime
    requires exists l :: l in looks && l.key == k
    ensures !LookThrough(b, looks, now).1
    decreases |looks|
  {
    var l := looks[0];
    assert l in looks && forall x <- looks[1..] :: x in looks;
    TouchPhase(b, l.key, l.resetTime, l.resetTime, now);
    if l.key != k {
      var x :| x in looks && x.key == k;
      assert x in looks[1..];
      assert Get(Touch(b, l.key, l.resetTime, now), k) == Get(b, k);
      LockedLookRefuses(cfg, Touch(b, l.key, l.resetTime, now), looks[1..], k, now);
    }
  }

  /**
   * Until its lock time is over, a locked counter refuses every check that looks at it, whatever
   * failures, checks and cleanups come in between, and the lock is not extended.
   */
  lemma {:induction false} LockHolds(cfg: Config, b: Book, from: int, es: seq<Event>, k: LockKey, until: int)
    requires ValidBook(b) && Regular(cfg, k) && ResetsWithin(cfg, cfg.expiry)
    requires Chronological(from, es) && Undisturbed(es, k)
    requires from <= until && forall e <- es :: e.at <= until
    requires KeyPhase(b, k, PolicyOf(cfg, k).resetTime, from) == Locked(until)
    ensures AllRefused(cfg, b, es, k)
    ensures KeyPhase(Run(cfg, b, es), k, PolicyOf(cfg, k).resetTime, until) == Locked(until)
    decreases |es|
  {
    var w := PolicyOf(cfg, k).resetTime;
    PhaseAgesAlone(Get(b, k), w, from, until);
    if es != [] {
      var op, now := es[0].op, es[0].at;
      assert es[0] in es && forall e <- es[1..] :: e in es;
      PhaseAgesAlone(Get(b, k), w, from, now);
      if LooksAt(cfg, op, k) {
        LockedLookRefuses(cfg, b, Looks(cfg, op.user, op.ip.value), k, now);
      }
      KeyFollowsRule(cfg, b, op, k, now);
      LockHolds(cfg, After(cfg, b, op, now), now, es[1..], k, until);
    }
  }

  /** Neither a stage success nor a first-factor failure touches a challenge counter. */
  lemma {:induction false} ChallengeIndependent(cfg: Config, b: Book, op: Op, k: LockKey, now: int)
    requires (op.Fail? || op.StageSuccess?) && k.ChallengeKey?
    ensures Get(After(cfg, b, op, now), k) == Get(b, k)
  {
    if op.Fail? && op.ip.Some? {
      BumpAllInOrder(cfg, b, op.user, op.ip.value, now);
    }
  }

  // ----- unlocking by hand

  predicate Unlocks(op: Op) {
    op.UnlockUser? || op.UnlockIp? || op.UnlockUserIp?
  }

  lemma {:induction false} UnlockForgets(cfg: Config, b: Book, op: Op, now: int)
    requires Unlocks(op)
    ensures forall k :: Get(After(cfg, b, op, now), k) == if Disturbs(op, k) then None else Get(b, k)
  {
    var b' := After(cfg, b, op, now);
    forall k
      ensures Get(b', k) == if Disturbs(op, k) then None else Get(b, k)
    {
    }
  }

  /** Unlocking forgets the named counters and no others, so the next check depends on the others alone. */
  lemma {:induction false} UnlockedAdmittedIff(cfg: Config, b: Book, op: Op, now: int, user: string, ip: string,
                                               later: int)
    requires Unlocks(op) && Counted(cfg, Some(ip))
    ensures forall k :: Get(After(cfg, b, op, now), k) == if Disturbs(op, k) then None else Get(b, k)
    ensures Allows(cfg, After(cfg, b, op, now), user, Some(ip), later)
       <==> forall l <- Looks(cfg, user, ip) :: Disturbs(op, l.key) || !Blocks(b, l.key, later)
  {
    var b' := After(cfg, b, op, now);
    AllowsIff(cfg, b', user, ip, later);
    UnlockForgets(cfg, b, op, now);
    assert forall k :: Blocks(b', k, later) <==> !Disturbs(op, k) && Blocks(b, k, later) by {
      assert forall k :: Blocks(b', k, later) ==> Get(b', k).Some?;
    }
  }

  lemma {:induction false} UnlockedEverywhere(cfg: Config, b: Book, now: int, user: string, ip: string, later: int)
    requires Counted(cfg, Some(ip)) && user != ""
    ensures Allows(cfg, After(cfg, b, UnlockUser(user), now), user, Some(ip), later)
       <==> !(cfg.ip.maxCount > 0 && Blocks(b, IpKey(ip), later))
            && !(cfg.pair.maxCount > 0 && Blocks(b, PairKey(ip, user), later))
  {
    UnlockedAdmittedIff(cfg, b, UnlockUser(user), now, user, ip, later);
    LooksAre(cfg, user, ip);
  }

  lemma {:induction false} UnlockedHere(cfg: Config, b: Book, now: int, user: string, ip: string, later: int)
    requires Counted(cfg, Some(ip)) && user != ""
    ensures Allows(cfg, After(cfg, b, UnlockUserIp(user, ip), now), user, Some(ip), later)
       <==> !(cfg.ip.maxCount > 0 && Blocks(b, IpKey(ip), later))
            && !(cfg.user.maxCount > 0 && Blocks(b, UserKey(user), later))
  {
    UnlockedAdmittedIff(cfg, b, UnlockUserIp(user, ip), now, user, ip, later);
    LooksAre(cfg, user, ip);
  }

  /** Unlocking a user leaves the lock of the user at one address: it is lifted only by its own unlocking. */
  lemma {:induction false} UnlockedUserAdmittedIff(cfg: Config, b: Book, now: int, user: string, ip: string, later: int)
    requires Counted(cfg, Some(ip)) && user != ""
    ensures Allows(cfg, After(cfg, b, UnlockUser(user), now), user, Some(ip), later)
       <==> !(cfg.ip.maxCount > 0 && Blocks(b, IpKey(ip), later))
            && !(cfg.pair.maxCount > 0 && Blocks(b, PairKey(ip, user), later))
    ensures Allows(cfg, After(cfg, b, UnlockUserIp(user, ip), now), user, Some(ip), later)
       <==> !(cfg.ip.maxCount > 0 && Blocks(b, IpKey(ip), later))
            && !(cfg.user.maxCount > 0 && Blocks(b, UserKey(user), later))
  {
    UnlockedEverywhere(cfg, b, now, user, ip, later);
    UnlockedHere(cfg, b, now, user, ip, later);
  }

  lemma {:induction false} LooksAre(cfg: Config, user: string, ip: string)
    requires user != ""
    ensures forall l <- Looks(cfg, user, ip) ::
              l.key in {IpKey(ip), UserKey(user), PairKey(ip, user), ChallengeKey(ip, user)}
    ensures Look(IpKey(ip), cfg.ip.resetTime) in Looks(cfg, user, ip) <==> cfg.ip.maxCount > 0
    ensures Look(UserKey(user), cfg.user.resetTime) in Looks(cfg, user, ip) <==> cfg.user.maxCount > 0
    ensures Look(PairKey(ip, user), cfg.pair.resetTime) in Looks(cfg, user, ip) <==> cfg.pair.maxCount > 0
  {
  }

  // ----- what a check answers in full

  /** No table that is on blocks the client. */
  predicate Unblocked(cfg: Config, b: Book, user: string, ip: string, now: int) {
    && (cfg.ip.maxCount > 0 ==> !Blocks(b, IpKey(ip), now))
    && (user != "" && cfg.user.maxCount > 0 ==> !Blocks(b, UserKey(user), now))
    && (user != "" && cfg.pair.maxCount > 0 ==>
          !Blocks(b, PairKey(ip, user), now) && !Blocks(b, ChallengeKey(ip, user), now))
  }

  /**
   * A client without an address is refused; an allowed address is let on, whatever else; a denied one is refused;
   * with the manager off everybody else is let on; and otherwise the tables that are on decide. Only the last
   * kind of check touches any counter.
   */
  lemma {:induction false} CheckDecides(cfg: Config, b: Book, user: string, ip: Option<string>, now: int)
    ensures Allows(cfg, b, user, ip, now)
       <==> ip.Some? && (cfg.white(ip.value) ||
                         (!cfg.black(ip.value) && (!cfg.enabled || Unblocked(cfg, b, user, ip.value, now))))
    ensures ip.None? || cfg.white(ip.value) || cfg.black(ip.value) || !cfg.enabled ==>
              After(cfg, b, Op.Check(user, ip), now) == b
    ensures forall k :: Get(After(cfg, b, Op.Check(user, ip), now), k).Some? <==> Get(b, k).Some?
  {
    if ip.Some? && Counted(cfg, ip) {
      AllowsIff(cfg, b, user, ip.value, now);
      LookedIsUnblocked(cfg, b, user, ip.value, now);
      LookKeepsKeys(b, Looks(cfg, user, ip.value), now);
    }
  }

  lemma {:induction false} LookedIsUnblocked(cfg: Config, b: Book, user: string, ip: string, now: int)
    ensures (forall l <- Looks(cfg, user, ip) :: !Blocks(b, l.key, now)) <==> Unblocked(cfg, b, user, ip, now)
  {
    var looks := Looks(cfg, user, ip);
    assert cfg.ip.maxCount > 0 ==> Look(IpKey(ip), cfg.ip.resetTime) in looks;
    if user != "" {
      LooksAre(cfg, user, ip);
      assert cfg.pair.maxCount > 0 ==> Look(ChallengeKey(ip, user), cfg.pair.resetTime) in looks;
      OnlyOnTables(cfg, user, ip);
    }
  }

  lemma {:induction false} OnlyOnTables(cfg: Config, user: string, ip: string)
    ensures forall l <- Looks(cfg, user, ip) ::
              || (l.key == IpKey(ip) && cfg.ip.maxCount > 0)
              || (l.key == UserKey(user) && user != "" && cfg.user.maxCount > 0)
              || ((l.key == PairKey(ip, user) || l.key == ChallengeKey(ip, user))
                 && user != "" && cfg.pair.maxCount > 0)
  {
  }

  lemma {:induction false} LookKeepsKeys(b: Book, looks: seq<Look>, now: int)
    ensures LookThrough(b, looks, now).0.Keys == b.Keys
    decreases |looks|
  {
    if looks != [] {
      LookKeepsKeys(Touch(b, looks[0].key, looks[0].resetTime, now), looks[1..], now);
    }
  }
}

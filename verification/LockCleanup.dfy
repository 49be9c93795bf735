/**
 * When the periodic cleanup of the lock manager is invisible: a manager that cleans up at arbitrary moments
 * answers every check like one that never does exactly if the expiry covers every reset window that matters.
 */
module LockCleanup {
  import opened Wire
  import opened LockCounter
  import opened LockManager
  import opened LockRuns

  // ----- runs with and without cleanups

  /** The answers to all checks of a run. */
  function Answers(cfg: Config, b: Book, es: seq<Event>): seq<bool>
    decreases |es|
  {
    if es == [] then []
    else
      var e := es[0];
      (if e.op.Check? then [Allows(cfg, b, e.op.user, e.op.ip, e.at)] else [])
      + Answers(cfg, After(cfg, b, e.op, e.at), es[1..])
  }

  /** The same run without any cleanup. */
  function WithoutCleanup(es: seq<Event>): seq<Event> {
    if es == [] then [] else (if es[0].op.Cleanup? then [] else [es[0]]) + WithoutCleanup(es[1..])
  }

  lemma {:induction false} WithoutCleanupCons(e: Event, rest: seq<Event>)
    ensures WithoutCleanup([e] + rest) == (if e.op.Cleanup? then [] else [e]) + WithoutCleanup(rest)
  {
  }

  lemma {:induction false} AnswersCons(cfg: Config, b: Book, e: Event, rest: seq<Event>)
    ensures Answers(cfg, b, [e] + rest)
         == (if e.op.Check? then [Allows(cfg, b, e.op.user, e.op.ip, e.at)] else [])
            + Answers(cfg, After(cfg, b, e.op, e.at), rest)
  {
  }

  lemma {:induction false} ChronologicalTail(from: int, es: seq<Event>)
    requires Chronological(from, es) && es != []
    ensures from <= es[0].at && Chronological(es[0].at, es[1..])
  {
  }

  lemma {:induction false} ChronologicalCons(from: int, e: Event, rest: seq<Event>)
    requires from <= e.at && Chronological(e.at, rest)
    ensures Chronological(from, [e] + rest)
  {
  }

  // ----- counters that cannot be told apart

  /** How closely two counters are compared: by phase, by their lock alone, or not at all. */
  datatype Mode = Sharp | Coarse | Ignored

  /** Counts under the policy can add up, and they can add up to a lock. */
  predicate CountsUp(p: Policy) {
    p.maxCount >= 2 && p.resetTime >= 0
  }

  predicate CountsToLock(p: Policy) {
    CountsUp(p) && p.lockTime >= 0
  }

  /** Counters compared like this stay so when the policy counts a failure. */
  predicate Bears(m: Mode, p: Policy, window: int) {
    match m
    case Sharp => window >= 0 && (p.maxCount <= 1 || p.resetTime <= window)
    case Coarse => !CountsToLock(p)
    case Ignored => true
  }

  /** Its last failure is not in the future. */
  predicate Past(c: Option<Counter>, now: int) {
    c.Some? && c.value.lastAttempt.Some? ==> c.value.lastAttempt.value <= now
  }

  function LockPart(ph: Phase): Phase {
    if ph.Locked? then ph else Idle
  }

  predicate AlikeAt(m: Mode, x: Option<Counter>, y: Option<Counter>, window: int, now: int) {
    && (x.Some? ==> Consistent(x.value)) && (y.Some? ==> Consistent(y.value))
    && match m
       case Sharp => PhaseOf(x, window, now) == PhaseOf(y, window, now)
       case Coarse =>
         LockPart(PhaseOf(x, window, now)) == LockPart(PhaseOf(y, window, now)) && Past(x, now) && Past(y, now)
       case Ignored => true
  }

  function BumpedBy(c: Option<Counter>, p: Policy, now: int): Option<Counter> {
    Some(Bumped(CounterOr(c), p, now))
  }

  function CheckedBy(c: Option<Counter>, resetTime: int, now: int): Option<Counter> {
    if c.Some? then Some(Checked(c.value, resetTime, now)) else None
  }

  function SweptBy(c: Option<Counter>, expiry: int, now: int): Option<Counter> {
    if c.Some? then Swept(c.value, expiry, now) else None
  }

  function ClearedBy(c: Option<Counter>): Option<Counter> {
    if c.Some? then Some(Cleared(c.value)) else None
  }

  predicate LockedAt(c: Option<Counter>, now: int) {
    c.Some? && IsLocked(c.value, now)
  }

  /** What a failure leads to when only the lock counts: the policy locks at once or never. */
  lemma {:induction false} BluntBump(c: Option<Counter>, p: Policy, window: int, now: int)
    requires (c.Some? ==> Consistent(c.value)) && Past(c, now) && !CountsToLock(p)
    ensures Consistent(BumpedBy(c, p, now).value) && Past(BumpedBy(c, p, now), now)
    ensures LockPart(PhaseOf(BumpedBy(c, p, now), window, now)) ==
            var before := LockPart(PhaseOf(c, window, now));
            if before.Locked? then before
            else if p.maxCount <= 1 && p.lockTime >= 0 then Locked(now + p.lockTime) else Idle
  {
  }

  lemma {:induction false} SharpBump(c: Option<Counter>, p: Policy, window: int, now: int)
    requires (c.Some? ==> Consistent(c.value)) && Bears(Sharp, p, window)
    ensures Consistent(BumpedBy(c, p, now).value)
    ensures PhaseOf(BumpedBy(c, p, now), window, now) == FailPhase(PhaseOf(c, window, now), p, now)
  {
  }

  lemma {:induction false} BumpAlike(m: Mode, x: Option<Counter>, y: Option<Counter>, p: Policy, window: int, now: int)
    requires AlikeAt(m, x, y, window, now) && Bears(m, p, window)
    ensures AlikeAt(m, BumpedBy(x, p, now), BumpedBy(y, p, now), window, now)
  {
    match m
    case Sharp =>
      SharpBump(x, p, window, now);
      SharpBump(y, p, window, now);
    case Coarse =>
      BluntBump(x, p, window, now);
      BluntBump(y, p, window, now);
    case Ignored =>
  }

  lemma {:induction false} CheckPhases(c: Option<Counter>, resetTime: int, window: int, now: int)
    requires c.Some? ==> Consistent(c.value)
    ensures CheckedBy(c, resetTime, now).Some? ==> Consistent(CheckedBy(c, resetTime, now).value)
    ensures PhaseOf(CheckedBy(c, resetTime, now), window, now) == CheckPhase(PhaseOf(c, window, now), resetTime, now)
    ensures Past(c, now) ==> Past(CheckedBy(c, resetTime, now), now)
    ensures LockedAt(c, now) <==> PhaseOf(c, window, now).Locked?
  {
  }

  lemma {:induction false} CheckAlike(m: Mode, x: Option<Counter>, y: Option<Counter>, resetTime: int, window: int,
                                      now: int)
    requires AlikeAt(m, x, y, window, now) && !m.Ignored?
    ensures AlikeAt(m, CheckedBy(x, resetTime, now), CheckedBy(y, resetTime, now), window, now)
    ensures LockedAt(x, now) <==> LockedAt(y, now)
  {
    CheckPhases(x, resetTime, window, now);
    CheckPhases(y, resetTime, window, now);
  }

  lemma {:induction false} ClearAlike(m: Mode, x: Option<Counter>, y: Option<Counter>, window: int, now: int)
    requires AlikeAt(m, x, y, window, now)
    ensures AlikeAt(m, ClearedBy(x), ClearedBy(y), window, now)
  {
  }

  lemma {:induction false} SweepAlike(m: Mode, x: Option<Counter>, y: Option<Counter>, expiry: int, now: int)
    requires AlikeAt(m, x, y, expiry, now)
    ensures AlikeAt(m, SweptBy(x, expiry, now), y, expiry, now)
  {
    if x.Some? {
      SweepChangesNothing(x.value, expiry, expiry, now);
    }
  }

  lemma {:induction false} LaterAlike(m: Mode, x: Option<Counter>, y: Option<Counter>, window: int, now: int,
                                      later: int)
    requires AlikeAt(m, x, y, window, now) && now <= later
    ensures AlikeAt(m, x, y, window, later)
  {
    PhaseAgesAlone(x, window, now, later);
    PhaseAgesAlone(y, window, now, later);
  }

  // ----- books that cannot be told apart

  type Modes = LockKey -> Mode

  ghost predicate Similar(modes: Modes, b: Book, c: Book, window: int, now: int) {
    forall k :: AlikeAt(modes(k), Get(b, k), Get(c, k), window, now)
  }

  /** The policy counts failures in the counter. */
  predicate CountsIn(cfg: Config, k: LockKey, p: Policy) {
    match k
    case IpKey(a) => (cfg.ip.maxCount > 0 && p == cfg.ip) || (a == "" && cfg.user.maxCount > 0 && p == cfg.user)
    case UserKey(_) => cfg.user.maxCount > 0 && p == cfg.user
    case PairKey(_, _) => cfg.pair.maxCount > 0 && p == cfg.pair
    case ChallengeKey(_, _) => cfg.pair.maxCount > 0 && p == cfg.pair
  }

  /** Some check may look at the counter. */
  predicate Seen(cfg: Config, k: LockKey) {
    k.IpKey? ==> cfg.ip.maxCount > 0 && Counted(cfg, Some(k.ip))
  }

  ghost predicate Suits(cfg: Config, modes: Modes) {
    && (forall k, p :: CountsIn(cfg, k, p) ==> Bears(modes(k), p, cfg.expiry))
    && forall k :: modes(k).Ignored? ==> !Seen(cfg, k)
  }

  /** Changing one key alike keeps books similar. */
  lemma {:induction false} SimilarAt(modes: Modes, b: Book, c: Book, b': Book, c': Book, k: LockKey, window: int,
                                     now: int)
    requires Similar(modes, b, c, window, now) && AlikeAt(modes(k), Get(b', k), Get(c', k), window, now)
    requires forall j :: j != k ==> Get(b', j) == Get(b, j) && Get(c', j) == Get(c, j)
    ensures Similar(modes, b', c', window, now)
  {
    forall j
      ensures AlikeAt(modes(j), Get(b', j), Get(c', j), window, now)
    {
      assert AlikeAt(modes(j), Get(b, j), Get(c, j), window, now);
    }
  }

  lemma {:induction false} SimilarLater(modes: Modes, b: Book, c: Book, window: int, now: int, later: int)
    requires Similar(modes, b, c, window, now) && now <= later
    ensures Similar(modes, b, c, window, later)
  {
    forall k
      ensures AlikeAt(modes(k), Get(b, k), Get(c, k), window, later)
    {
      LaterAlike(modes(k), Get(b, k), Get(c, k), window, now, later);
    }
  }

  lemma {:induction false} BumpSimilar(modes: Modes, b: Book, c: Book, s: Strike, window: int, now: int)
    requires Similar(modes, b, c, window, now) && Bears(modes(s.key), s.policy, window)
    ensures Similar(modes, Bump(b, s.key, s.policy, now), Bump(c, s.key, s.policy, now), window, now)
  {
    BumpAlike(modes(s.key), Get(b, s.key), Get(c, s.key), s.policy, window, now);
    SimilarAt(modes, b, c, Bump(b, s.key, s.policy, now), Bump(c, s.key, s.policy, now), s.key, window, now);
  }

  lemma {:induction false} BumpAllSimilar(modes: Modes, b: Book, c: Book, strikes: seq<Strike>, window: int, now: int)
    requires Similar(modes, b, c, window, now) && forall s <- strikes :: Bears(modes(s.key), s.policy, window)
    ensures Similar(modes, BumpAll(b, strikes, now), BumpAll(c, strikes, now), window, now)
    decreases |strikes|
  {
    if strikes != [] {
      var s := strikes[0];
      assert s in strikes && forall x <- strikes[1..] :: x in strikes;
      BumpSimilar(modes, b, c, s, window, now);
      BumpAllSimilar(modes, Bump(b, s.key, s.policy, now), Bump(c, s.key, s.policy, now), strikes[1..], window, now);
    }
  }

  lemma {:induction false} TouchSimilar(modes: Modes, b: Book, c: Book, l: Look, window: int, now: int)
    requires Similar(modes, b, c, window, now) && !modes(l.key).Ignored?
    ensures Similar(modes, Touch(b, l.key, l.resetTime, now), Touch(c, l.key, l.resetTime, now), window, now)
    ensures Blocks(b, l.key, now) <==> Blocks(c, l.key, now)
  {
    CheckAlike(modes(l.key), Get(b, l.key), Get(c, l.key), l.resetTime, window, now);
    SimilarAt(modes, b, c, Touch(b, l.key, l.resetTime, now), Touch(c, l.key, l.resetTime, now), l.key, window, now);
  }

  lemma {:induction false} LookSimilar(modes: Modes, b: Book, c: Book, looks: seq<Look>, window: int, now: int)
    requires Similar(modes, b, c, window, now) && forall l <- looks :: !modes(l.key).Ignored?
    ensures LookThrough(b, looks, now).1 == LookThrough(c, looks, now).1
    ensures Similar(modes, LookThrough(b, looks, now).0, LookThrough(c, looks, now).0, window, now)
    decreases |looks|
  {
    if looks != [] {
      var l := looks[0];
      assert l in looks && forall x <- looks[1..] :: x in looks;
      TouchSimilar(modes, b, c, l, window, now);
      LookSimilar(modes, Touch(b, l.key, l.resetTime, now), Touch(c, l.key, l.resetTime, now), looks[1..], window, now);
    }
  }

  lemma {:induction false} ClearSimilar(modes: Modes, b: Book, c: Book, k: LockKey, window: int, now: int)
    requires Similar(modes, b, c, window, now)
    ensures Similar(modes, Clear(b, k), Clear(c, k), window, now)
  {
    ClearAlike(modes(k), Get(b, k), Get(c, k), window, now);
    SimilarAt(modes, b, c, Clear(b, k), Clear(c, k), k, window, now);
  }

  lemma {:induction false} ClearStageSimilar(modes: Modes, b: Book, c: Book, user: string, ip: string, window: int,
                                             now: int)
    requires Similar(modes, b, c, window, now)
    ensures Similar(modes, ClearStage(b, user, ip), ClearStage(c, user, ip), window, now)
  {
    ClearSimilar(modes, b, c, PairKey(ip, user), window, now);
    var b1, c1 := Clear(b, PairKey(ip, user)), Clear(c, PairKey(ip, user));
    ClearSimilar(modes, b1, c1, IpKey(ip), window, now);
    ClearSimilar(modes, Clear(b1, IpKey(ip)), Clear(c1, IpKey(ip)), UserKey(user), window, now);
  }

  /** Dropping the same keys keeps books similar. */
  lemma {:induction false} DropSimilar(modes: Modes, b: Book, c: Book, b': Book, c': Book, window: int, now: int)
    requires Similar(modes, b, c, window, now)
    requires forall k :: (Get(b', k) == Get(b, k) && Get(c', k) == Get(c, k)) || (Get(b', k).None? && Get(c', k).None?)
    ensures Similar(modes, b', c', window, now)
  {
    forall k
      ensures AlikeAt(modes(k), Get(b', k), Get(c', k), window, now)
    {
      assert AlikeAt(modes(k), Get(b, k), Get(c, k), window, now);
    }
  }

  lemma {:induction false} UnlockSimilar(cfg: Config, modes: Modes, b: Book, c: Book, op: Op, window: int, now: int)
    requires Similar(modes, b, c, window, now) && Unlocks(op)
    ensures Similar(modes, After(cfg, b, op, now), After(cfg, c, op, now), window, now)
  {
    var b', c' := After(cfg, b, op, now), After(cfg, c, op, now);
    UnlockForgets(cfg, b, op, now);
    UnlockForgets(cfg, c, op, now);
    DropSimilar(modes, b, c, b', c', window, now);
  }

  lemma {:induction false} LooksAreSeen(cfg: Config, modes: Modes, user: string, ip: string)
    requires Suits(cfg, modes) && Counted(cfg, Some(ip))
    ensures forall l <- Looks(cfg, user, ip) :: !modes(l.key).Ignored?
  {
    assert forall l <- Looks(cfg, user, ip) :: Seen(cfg, l.key);
  }

  lemma {:induction false} StrikesAreBorne(cfg: Config, modes: Modes, user: string, ip: string)
    requires Suits(cfg, modes)
    ensures forall s <- Strikes(cfg, user, ip) :: Bears(modes(s.key), s.policy, cfg.expiry)
  {
    assert forall s <- Strikes(cfg, user, ip) :: CountsIn(cfg, s.key, s.policy);
  }

  lemma {:induction false} SuccessSimilar(cfg: Config, modes: Modes, b: Book, c: Book, op: Op, now: int)
    requires Similar(modes, b, c, cfg.expiry, now) && (op.Success? || op.StageSuccess?)
    ensures Similar(modes, After(cfg, b, op, now), After(cfg, c, op, now), cfg.expiry, now)
  {
    if op.ip.Some? {
      ClearStageSimilar(modes, b, c, op.user, op.ip.value, cfg.expiry, now);
      DropSimilar(modes, ClearStage(b, op.user, op.ip.value), ClearStage(c, op.user, op.ip.value),
                  After(cfg, b, op, now), After(cfg, c, op, now), cfg.expiry, now);
    }
  }

  /** Every operation but a cleanup does the same to similar books, and a check answers the same. */
  lemma {:induction false} StepSimilar(cfg: Config, modes: Modes, b: Book, c: Book, op: Op, now: int)
    requires Similar(modes, b, c, cfg.expiry, now) && Suits(cfg, modes) && !op.Cleanup?
    ensures Similar(modes, After(cfg, b, op, now), After(cfg, c, op, now), cfg.expiry, now)
    ensures op.Check? ==> (Allows(cfg, b, op.user, op.ip, now) <==> Allows(cfg, c, op.user, op.ip, now))
  {
    match op
    case Check(user, ip) =>
      if Counted(cfg, ip) {
        LooksAreSeen(cfg, modes, user, ip.value);
        LookSimilar(modes, b, c, Looks(cfg, user, ip.value), cfg.expiry, now);
      }
    case Fail(user, ip) =>
      if ip.Some? {
        StrikesAreBorne(cfg, modes, user, ip.value);
        BumpAllSimilar(modes, b, c, Strikes(cfg, user, ip.value), cfg.expiry, now);
      }
    case ChallengeFail(user, ip) =>
      if ip.Some? && user != "" && cfg.pair.maxCount > 0 {
        assert CountsIn(cfg, ChallengeKey(ip.value, user), cfg.pair);
        BumpSimilar(modes, b, c, Strike(ChallengeKey(ip.value, user), cfg.pair), cfg.expiry, now);
      }
    case Success(_, _) => SuccessSimilar(cfg, modes, b, c, op, now);
    case StageSuccess(_, _) => SuccessSimilar(cfg, modes, b, c, op, now);
    case UnlockUser(_) => UnlockSimilar(cfg, modes, b, c, op, cfg.expiry, now);
    case UnlockIp(_) => UnlockSimilar(cfg, modes, b, c, op, cfg.expiry, now);
    case UnlockUserIp(_, _) => UnlockSimilar(cfg, modes, b, c, op, cfg.expiry, now);
  }

  lemma {:induction false} SweptSimilar(cfg: Config, modes: Modes, b: Book, c: Book, now: int)
    requires Similar(modes, b, c, cfg.expiry, now)
    ensures Similar(modes, Sweep(b, cfg.expiry, now), c, cfg.expiry, now)
  {
    forall k
      ensures AlikeAt(modes(k), Get(Sweep(b, cfg.expiry, now), k), Get(c, k), cfg.expiry, now)
    {
      SweepAlike(modes(k), Get(b, k), Get(c, k), cfg.expiry, now);
    }
  }

  lemma {:induction false} SimilarAnswers(cfg: Config, modes: Modes, b: Book, c: Book, from: int, es: seq<Event>)
    requires Similar(modes, b, c, cfg.expiry, from) && Suits(cfg, modes) && Chronological(from, es)
    ensures Answers(cfg, b, es) == Answers(cfg, c, WithoutCleanup(es))
    decreases |es|
  {
    if es != [] {
      var e, rest := es[0], es[1..];
      var op, now := e.op, e.at;
      assert es == [e] + rest;
      ChronologicalTail(from, es);
      SimilarLater(modes, b, c, cfg.expiry, from, now);
      WithoutCleanupCons(e, rest);
      AnswersCons(cfg, b, e, rest);
      AnswersCons(cfg, c, e, WithoutCleanup(rest));
      if op.Cleanup? {
        SweptSimilar(cfg, modes, b, c, now);
        SimilarAnswers(cfg, modes, Sweep(b, cfg.expiry, now), c, now, rest);
        assert WithoutCleanup(es) == WithoutCleanup(rest);
        assert Answers(cfg, b, es) == Answers(cfg, Sweep(b, cfg.expiry, now), rest);
      } else {
        StepSimilar(cfg, modes, b, c, op, now);
        SimilarAnswers(cfg, modes, After(cfg, b, op, now), After(cfg, c, op, now), now, rest);
      }
    }
  }

  // ----- cleanup is invisible

  /**
   * With an expiry no shorter than the reset windows, a manager that cleans up at arbitrary moments and one
   * that never does answer every check of every run alike.
   */
  lemma {:induction false} CleanupInvisible(cfg: Config, b: Book, from: int, es: seq<Event>)
    requires ValidBook(b) && ResetsWithin(cfg, cfg.expiry) && Chronological(from, es)
    ensures Answers(cfg, b, es) == Answers(cfg, b, WithoutCleanup(es))
  {
    var sharp: Modes := _ => Sharp;
    assert Suits(cfg, sharp);
    assert Similar(sharp, b, b, cfg.expiry, from);
    SimilarAnswers(cfg, sharp, b, b, from, es);
  }

  /** Counts of the one policy, in a counter the other can lock, are outdated before they expire. */
  predicate Within(cfg: Config, p: Policy, q: Policy) {
    CountsUp(p) && CountsToLock(q) ==> p.resetTime <= cfg.expiry
  }

  /**
   * Every table that counts to a lock has a reset window no longer than the expiry. The counter of the empty
   * address is shared by the tables of users and addresses, so there each must suit the other.
   */
  predicate Covers(cfg: Config) {
    && Within(cfg, cfg.pair, cfg.pair) && Within(cfg, cfg.user, cfg.user) && Within(cfg, cfg.ip, cfg.ip)
    && (Counted(cfg, Some("")) ==> Within(cfg, cfg.user, cfg.ip) && Within(cfg, cfg.ip, cfg.user))
  }

  function ModeOf(cfg: Config, k: LockKey): Mode {
    if !Seen(cfg, k) then Ignored
    else if CountsToLock(PolicyOf(cfg, k)) || (k == IpKey("") && CountsToLock(cfg.user)) then Sharp
    else Coarse
  }

  lemma {:induction false} CoversSuits(cfg: Config)
    requires Covers(cfg)
    ensures Suits(cfg, k => ModeOf(cfg, k))
  {
  }

  /** From the empty book on, for every configuration that covers its windows. */
  lemma {:induction false} CoveredInvisible(cfg: Config, es: seq<Event>)
    requires Covers(cfg) && Chronological(0, es)
    ensures Answers(cfg, map[], es) == Answers(cfg, map[], WithoutCleanup(es))
  {
    var modes: Modes := k => ModeOf(cfg, k);
    CoversSuits(cfg);
    assert Similar(modes, map[], map[], cfg.expiry, 0);
    SimilarAnswers(cfg, modes, map[], map[], 0, es);
  }

  /** Where no address reaches the counters, the answers do not depend on them. */
  lemma {:induction false} UncountedAnswers(cfg: Config, b: Book, c: Book, es: seq<Event>)
    requires forall ip :: !Counted(cfg, Some(ip))
    ensures Answers(cfg, b, es) == Answers(cfg, c, WithoutCleanup(es))
    decreases |es|
  {
    if es != [] {
      var e, rest := es[0], es[1..];
      assert es == [e] + rest;
      WithoutCleanupCons(e, rest);
      AnswersCons(cfg, b, e, rest);
      AnswersCons(cfg, c, e, WithoutCleanup(rest));
      var b', c' := After(cfg, b, e.op, e.at), if e.op.Cleanup? then c else After(cfg, c, e.op, e.at);
      UncountedAnswers(cfg, b', c', rest);
      if e.op.Cleanup? {
        assert WithoutCleanup(es) == WithoutCleanup(rest) && Answers(cfg, b, es) == Answers(cfg, b', rest);
      } else if e.op.Check? && e.op.ip.Some? {
        assert !Counted(cfg, Some(e.op.ip.value));
      }
    }
  }

  // ----- and only then: a run that shows it

  /** Which policy's forgotten counts are made to show, and in the counter that which policy locks. */
  datatype Probe = OfPair | OfUser | OfAddress | UserForAddress | AddressForUser

  const ONE := "a"
  const OTHER := "b"

  function Elsewhere(ip: string): string {
    ip + "+"
  }

  /** The address checked; the last two probes work at the empty one only. */
  predicate At(probe: Probe, ip: string) {
    probe.UserForAddress? || probe.AddressForUser? ==> ip == ""
  }

  function KeyOf(probe: Probe, ip: string): LockKey {
    match probe
    case OfPair => ChallengeKey(ip, ONE)
    case OfUser => UserKey(ONE)
    case OfAddress => IpKey(ip)
    case UserForAddress => IpKey(ip)
    case AddressForUser => IpKey(ip)
  }

  /** A failure that the policy counts in that counter; with `more`, one that the locking policy counts. */
  function FailureOf(probe: Probe, ip: string, more: bool): Op {
    match probe
    case OfPair => ChallengeFail(ONE, Some(ip))
    case OfUser => Fail(ONE, Some(Elsewhere(ip)))
    case OfAddress => Fail(ONE, Some(ip))
    case UserForAddress => if more then Fail(ONE, Some(ip)) else Fail("", Some(Elsewhere(ip)))
    case AddressForUser => if more then Fail("", Some(Elsewhere(ip))) else Fail(ONE, Some(ip))
  }

  function PolicyBy(cfg: Config, probe: Probe, more: bool): Policy {
    match probe
    case OfPair => cfg.pair
    case OfUser => cfg.user
    case OfAddress => cfg.ip
    case UserForAddress => if more then cfg.ip else cfg.user
    case AddressForUser => if more then cfg.user else cfg.ip
  }

  /** The user whose check shows it. */
  function Client(probe: Probe): string {
    if probe.OfPair? || probe.OfUser? then ONE else OTHER
  }

  /** The policy's counts outlive the expiry, and a lock depends on them. */
  predicate Shows(cfg: Config, probe: Probe) {
    var p, q := PolicyBy(cfg, probe, false), PolicyBy(cfg, probe, true);
    && CountsUp(p) && CountsToLock(q) && p.resetTime > cfg.expiry
    && (probe.UserForAddress? || probe.AddressForUser? ==> p.lockTime < 0)
  }

  lemma {:induction false} UncoveredShows(cfg: Config, ip: string) returns (probe: Probe, at: string)
    requires !Covers(cfg) && Counted(cfg, Some(ip))
    ensures Shows(cfg, probe) && At(probe, at) && Counted(cfg, Some(at))
  {
    at := ip;
    if !Within(cfg, cfg.pair, cfg.pair) {
      probe := OfPair;
    } else if !Within(cfg, cfg.user, cfg.user) {
      probe := OfUser;
    } else if !Within(cfg, cfg.ip, cfg.ip) {
      probe := OfAddress;
    } else {
      at := "";
      probe := if !Within(cfg, cfg.user, cfg.ip) then UserForAddress else AddressForUser;
    }
  }

  // ----- what its events do

  /** A counter a check by the client looks at, other than the probed one. */
  predicate Beside(probe: Probe, ip: string, k: LockKey) {
    && k != KeyOf(probe, ip)
    && (k == IpKey(ip) || k == UserKey(Client(probe)) || k == PairKey(ip, Client(probe))
        || k == ChallengeKey(ip, Client(probe)))
  }

  ghost predicate OnlyIt(probe: Probe, ip: string, b: Book) {
    forall k :: Beside(probe, ip, k) ==> k !in b
  }

  /** What a failure does to one counter. */
  function FailedAt(cfg: Config, c: Option<Counter>, user: string, ip: string, k: LockKey, now: int): Option<Counter> {
    var c1 := if k == PairKey(ip, user) && cfg.pair.maxCount > 0 then BumpedBy(c, cfg.pair, now) else c;
    var c2 := if k == (if user != "" then UserKey(user) else IpKey("")) && cfg.user.maxCount > 0
              then BumpedBy(c1, cfg.user, now) else c1;
    if k == IpKey(ip) && cfg.ip.maxCount > 0 then BumpedBy(c2, cfg.ip, now) else c2
  }

  lemma {:induction false} FailAt(cfg: Config, b: Book, user: string, ip: string, k: LockKey, now: int)
    ensures Get(After(cfg, b, Fail(user, Some(ip)), now), k) == FailedAt(cfg, Get(b, k), user, ip, k, now)
  {
    BumpAllInOrder(cfg, b, user, ip, now);
  }

  lemma {:induction false} FailureAt(cfg: Config, probe: Probe, ip: string, more: bool, k: LockKey, c: Option<Counter>,
                                     now: int)
    requires At(probe, ip) && PolicyBy(cfg, probe, more).maxCount > 0 && !probe.OfPair?
    ensures var op := FailureOf(probe, ip, more);
            && (k == KeyOf(probe, ip) ==>
                  FailedAt(cfg, c, op.user, op.ip.value, k, now) == BumpedBy(c, PolicyBy(cfg, probe, more), now))
            && (Beside(probe, ip, k) ==> FailedAt(cfg, c, op.user, op.ip.value, k, now) == c)
  {
    assert |Elsewhere(ip)| == |ip| + 1;
  }

  lemma {:induction false} FailureCounts(cfg: Config, probe: Probe, ip: string, more: bool, b: Book, now: int)
    requires At(probe, ip) && PolicyBy(cfg, probe, more).maxCount > 0 && OnlyIt(probe, ip, b)
    ensures var b', k := After(cfg, b, FailureOf(probe, ip, more), now), KeyOf(probe, ip);
            OnlyIt(probe, ip, b') && Get(b', k) == BumpedBy(Get(b, k), PolicyBy(cfg, probe, more), now)
  {
    var op, k := FailureOf(probe, ip, more), KeyOf(probe, ip);
    var b' := After(cfg, b, op, now);
    if !probe.OfPair? {
      FailAt(cfg, b, op.user, op.ip.value, k, now);
      FailureAt(cfg, probe, ip, more, k, Get(b, k), now);
      forall j | Beside(probe, ip, j)
        ensures j !in b'
      {
        FailAt(cfg, b, op.user, op.ip.value, j, now);
        FailureAt(cfg, probe, ip, more, j, Get(b, j), now);
        assert Get(b', j) == Get(b, j);
      }
    }
  }

  lemma {:induction false} CheckShows(cfg: Config, probe: Probe, ip: string, b: Book, now: int)
    requires At(probe, ip) && Counted(cfg, Some(ip)) && OnlyIt(probe, ip, b)
    requires PolicyBy(cfg, probe, false).maxCount > 0 && PolicyBy(cfg, probe, true).maxCount > 0
    ensures Allows(cfg, b, Client(probe), Some(ip), now) == !LockedAt(Get(b, KeyOf(probe, ip)), now)
  {
    var looks := Looks(cfg, Client(probe), ip);
    AllowsIff(cfg, b, Client(probe), ip, now);
    LooksAre(cfg, Client(probe), ip);
    KeyIsLookedAt(cfg, probe, ip);
    forall l | l in looks && l.key != KeyOf(probe, ip)
      ensures !Blocks(b, l.key, now)
    {
      assert Beside(probe, ip, l.key);
    }
  }

  lemma {:induction false} KeyIsLookedAt(cfg: Config, probe: Probe, ip: string)
    requires PolicyBy(cfg, probe, false).maxCount > 0 && PolicyBy(cfg, probe, true).maxCount > 0
    ensures exists l :: l in Looks(cfg, Client(probe), ip) && l.key == KeyOf(probe, ip)
  {
    var k := KeyOf(probe, ip);
    assert Look(k, PolicyOf(cfg, k).resetTime) in Looks(cfg, Client(probe), ip);
  }

  // ----- the run

  /** The same event time and again. */
  function Repeated(n: nat, e: Event): seq<Event> {
    if n == 0 then [] else [e] + Repeated(n - 1, e)
  }

  /** The failures after the cleanup: one that the policy counts, and those that make up a lock. */
  function Later(cfg: Config, probe: Probe): nat
    requires Shows(cfg, probe)
  {
    if probe.UserForAddress? || probe.AddressForUser? then PolicyBy(cfg, probe, true).maxCount - 1 else 0
  }

  function CleanupTime(cfg: Config): nat {
    if cfg.expiry < 0 then 0 else cfg.expiry + 1
  }

  function FailEvent(probe: Probe, ip: string, more: bool, at: int): Event {
    Event(FailureOf(probe, ip, more), at)
  }

  /** What follows the cleanup. */
  function Showing(cfg: Config, probe: Probe, ip: string): seq<Event>
    requires Shows(cfg, probe)
  {
    var t := CleanupTime(cfg);
    [FailEvent(probe, ip, false, t)]
    + (Repeated(Later(cfg, probe), FailEvent(probe, ip, true, t)) + [Event(Op.Check(Client(probe), Some(ip)), t)])
  }

  lemma {:induction false} RepeatedNone(e: Event, rest: seq<Event>)
    ensures Repeated(0, e) + rest == rest
  {
  }

  lemma {:induction false} RepeatedCons(n: nat, e: Event, rest: seq<Event>)
    requires n > 0
    ensures Repeated(n, e) + rest == [e] + (Repeated(n - 1, e) + rest)
  {
    assert ([e] + Repeated(n - 1, e)) + rest == [e] + (Repeated(n - 1, e) + rest);
  }

  lemma {:induction false} RepeatedChronological(n: nat, e: Event, rest: seq<Event>)
    requires Chronological(e.at, rest)
    ensures Chronological(e.at, Repeated(n, e) + rest)
  {
    if n == 0 {
      RepeatedNone(e, rest);
    } else {
      RepeatedChronological(n - 1, e, rest);
      ChronologicalCons(e.at, e, Repeated(n - 1, e) + rest);
      RepeatedCons(n, e, rest);
    }
  }

  lemma {:induction false} RepeatedStay(n: nat, e: Event, rest: seq<Event>)
    requires !e.op.Cleanup?
    ensures WithoutCleanup(Repeated(n, e) + rest) == Repeated(n, e) + WithoutCleanup(rest)
  {
    if n == 0 {
      RepeatedNone(e, rest);
      RepeatedNone(e, WithoutCleanup(rest));
    } else {
      RepeatedStay(n - 1, e, rest);
      WithoutCleanupCons(e, Repeated(n - 1, e) + rest);
      RepeatedCons(n, e, rest);
      RepeatedCons(n, e, WithoutCleanup(rest));
    }
  }

  lemma {:induction false} ShowingShape(cfg: Config, probe: Probe, ip: string)
    requires Shows(cfg, probe)
    ensures Chronological(CleanupTime(cfg), Showing(cfg, probe, ip))
    ensures WithoutCleanup(Showing(cfg, probe, ip)) == Showing(cfg, probe, ip)
  {
    var t := CleanupTime(cfg);
    var first, more := FailEvent(probe, ip, false, t), FailEvent(probe, ip, true, t);
    var check := [Event(Op.Check(Client(probe), Some(ip)), t)];
    var rest := Repeated(Later(cfg, probe), more) + check;
    assert check == check + [];
    WithoutCleanupCons(check[0], []);
    RepeatedChronological(Later(cfg, probe), more, check);
    RepeatedStay(Later(cfg, probe), more, check);
    ChronologicalCons(t, first, rest);
    WithoutCleanupCons(first, rest);
  }

  lemma {:induction false} CleanupBetween(n: nat, e: Event, cleanup: Event, shown: seq<Event>)
    requires !e.op.Cleanup? && cleanup.op.Cleanup? && e.at <= cleanup.at
    requires Chronological(cleanup.at, shown) && WithoutCleanup(shown) == shown
    ensures Chronological(e.at, Repeated(n, e) + ([cleanup] + shown))
    ensures WithoutCleanup(Repeated(n, e) + ([cleanup] + shown)) == Repeated(n, e) + shown
  {
    var rest := [cleanup] + shown;
    ChronologicalCons(e.at, cleanup, shown);
    WithoutCleanupCons(cleanup, shown);
    NothingBefore(WithoutCleanup(shown));
    RepeatedChronological(n, e, rest);
    RepeatedStay(n, e, rest);
  }

  lemma {:induction false} NothingBefore(es: seq<Event>)
    ensures [] + es == es
  {
  }

  // ----- how it is answered

  /** The counter after so many failures at one time. */
  function Struck(c: Option<Counter>, p: Policy, n: nat, now: int): Option<Counter>
    decreases n
  {
    if n == 0 then c else Struck(BumpedBy(c, p, now), p, n - 1, now)
  }

  lemma {:induction false} RepeatedCount(cfg: Config, probe: Probe, ip: string, more: bool, b: Book, n: nat, now: int,
                                         rest: seq<Event>)
    returns (b': Book)
    requires At(probe, ip) && PolicyBy(cfg, probe, more).maxCount > 0 && OnlyIt(probe, ip, b)
    ensures OnlyIt(probe, ip, b')
    ensures Get(b', KeyOf(probe, ip)) == Struck(Get(b, KeyOf(probe, ip)), PolicyBy(cfg, probe, more), n, now)
    ensures Answers(cfg, b, Repeated(n, FailEvent(probe, ip, more, now)) + rest) == Answers(cfg, b', rest)
    decreases n
  {
    var e := FailEvent(probe, ip, more, now);
    if n == 0 {
      RepeatedNone(e, rest);
      b' := b;
    } else {
      FailureCounts(cfg, probe, ip, more, b, now);
      b' := RepeatedCount(cfg, probe, ip, more, After(cfg, b, e.op, now), n - 1, now, rest);
      RepeatedCons(n, e, rest);
      AnswersCons(cfg, b, e, Repeated(n - 1, e) + rest);
    }
  }

  /** Where the probed counter stands at the check. */
  function Finally(cfg: Config, probe: Probe, c: Option<Counter>): Option<Counter>
    requires Shows(cfg, probe)
  {
    var t := CleanupTime(cfg);
    Struck(BumpedBy(c, PolicyBy(cfg, probe, false), t), PolicyBy(cfg, probe, true), Later(cfg, probe), t)
  }

  lemma {:induction false} ShowingAnswers(cfg: Config, probe: Probe, ip: string, b: Book)
    requires Shows(cfg, probe) && At(probe, ip) && Counted(cfg, Some(ip)) && OnlyIt(probe, ip, b)
    ensures Answers(cfg, b, Showing(cfg, probe, ip))
         == [!LockedAt(Finally(cfg, probe, Get(b, KeyOf(probe, ip))), CleanupTime(cfg))]
  {
    var t := CleanupTime(cfg);
    var first, more := FailEvent(probe, ip, false, t), FailEvent(probe, ip, true, t);
    var check := Event(Op.Check(Client(probe), Some(ip)), t);
    var b1 := After(cfg, b, first.op, t);
    FailureCounts(cfg, probe, ip, false, b, t);
    AnswersCons(cfg, b, first, Repeated(Later(cfg, probe), more) + [check]);
    var b2 := RepeatedCount(cfg, probe, ip, true, b1, Later(cfg, probe), t, [check]);
    assert [check] == [check] + [];
    AnswersCons(cfg, b2, check, []);
    CheckShows(cfg, probe, ip, b2, t);
  }

  lemma {:induction false} StruckCounts(c: Option<Counter>, p: Policy, n: nat, f: nat, now: int)
    requires CountsUp(p) && f + n < p.maxCount
    requires if f == 0 then c.None? else c == Some(Counter(false, f, None, Some(now)))
    ensures f + n > 0 ==> Struck(c, p, n, now) == Some(Counter(false, f + n, None, Some(now)))
    decreases n
  {
    if n > 0 {
      StruckCounts(BumpedBy(c, p, now), p, n - 1, f + 1, now);
    }
  }

  /** One failure short of the maximum, or at it, when the counter already holds some. */
  lemma {:induction false} StruckToLock(c: Option<Counter>, q: Policy, n: nat, f: nat, now: int)
    requires CountsToLock(q) && 0 < f < q.maxCount == f + n && c == Some(Counter(false, f, None, Some(now)))
    ensures LockedAt(Struck(c, q, n, now), now)
    decreases n
  {
    var next := BumpedBy(c, q, now);
    if n > 1 {
      StruckToLock(next, q, n - 1, f + 1, now);
    } else {
      assert Struck(next, q, 0, now) == next;
    }
  }

  /** A lock that is over counts for nothing: the failures behind it are counted from the first again. */
  lemma {:induction false} StruckAnew(c: Counter, q: Policy, n: nat, now: int)
    requires CountsUp(q) && 0 < n < q.maxCount && LockOver(c, now)
    ensures Struck(Some(c), q, n, now) == Some(Counter(false, n, None, Some(now)))
  {
    var next := BumpedBy(Some(c), q, now);
    assert next == Some(Counter(false, 1, None, Some(now)));
    StruckCounts(next, q, n - 1, 1, now);
  }

  /** With the counts forgotten by the cleanup, and with them kept, the check finds the opposite. */
  lemma {:induction false} Outcomes(cfg: Config, probe: Probe, kept: Option<Counter>)
    requires Shows(cfg, probe)
    requires kept == Some(Counter(false, PolicyBy(cfg, probe, false).maxCount - 1, None, Some(0)))
    ensures LockedAt(Finally(cfg, probe, None), CleanupTime(cfg))
         != LockedAt(Finally(cfg, probe, kept), CleanupTime(cfg))
  {
    var t, p, q := CleanupTime(cfg), PolicyBy(cfg, probe, false), PolicyBy(cfg, probe, true);
    var anew, full := BumpedBy(None, p, t), BumpedBy(kept, p, t);
    assert anew == Some(Counter(false, 1, None, Some(t)));
    assert full == Some(Counter(true, p.maxCount, Some(t + p.lockTime), Some(t)));
    if probe.UserForAddress? || probe.AddressForUser? {
      StruckToLock(anew, q, q.maxCount - 1, 1, t);
      StruckAnew(full.value, q, q.maxCount - 1, t);
    }
  }

  /** The failures before the cleanup leave the counter one short of the maximum. */
  lemma {:induction false} OneShort(cfg: Config, probe: Probe, ip: string, n: nat, e: Event, rest: seq<Event>)
    returns (b: Book)
    requires Shows(cfg, probe) && At(probe, ip)
    requires n == PolicyBy(cfg, probe, false).maxCount - 1 && e == FailEvent(probe, ip, false, 0)
    ensures OnlyIt(probe, ip, b) && Get(b, KeyOf(probe, ip)) == Some(Counter(false, n, None, Some(0)))
    ensures Answers(cfg, map[], Repeated(n, e) + rest) == Answers(cfg, b, rest)
  {
    var none, start, p := 0, 0, PolicyBy(cfg, probe, false);
    b := RepeatedCount(cfg, probe, ip, false, map[], n, start, rest);
    StruckCounts(None, p, n, none, start);
  }

  lemma {:induction false} SweepForgets(cfg: Config, probe: Probe, ip: string, b: Book, n: nat)
    requires OnlyIt(probe, ip, b) && Get(b, KeyOf(probe, ip)) == Some(Counter(false, n, None, Some(0)))
    ensures OnlyIt(probe, ip, Sweep(b, cfg.expiry, CleanupTime(cfg)))
    ensures Get(Sweep(b, cfg.expiry, CleanupTime(cfg)), KeyOf(probe, ip)).None?
  {
    forall k | Beside(probe, ip, k)
      ensures k !in Sweep(b, cfg.expiry, CleanupTime(cfg))
    {
      assert k !in b;
    }
  }

  /** The answers behind the cleanup, which forgets the counter, and without it. */
  lemma {:induction false} AnswersDiffer(cfg: Config, probe: Probe, ip: string, b: Book, c: Book, cleanup: Event)
    requires Shows(cfg, probe) && At(probe, ip) && Counted(cfg, Some(ip))
    requires cleanup == Event(Op.Cleanup, CleanupTime(cfg)) && OnlyIt(probe, ip, b) && OnlyIt(probe, ip, c)
    requires var n := PolicyBy(cfg, probe, false).maxCount - 1;
             && Get(b, KeyOf(probe, ip)) == Some(Counter(false, n, None, Some(0)))
             && Get(c, KeyOf(probe, ip)) == Some(Counter(false, n, None, Some(0)))
    ensures Answers(cfg, b, [cleanup] + Showing(cfg, probe, ip)) != Answers(cfg, c, Showing(cfg, probe, ip))
  {
    var n, k, shown := PolicyBy(cfg, probe, false).maxCount - 1, KeyOf(probe, ip), Showing(cfg, probe, ip);
    var swept := Sweep(b, cfg.expiry, cleanup.at);
    CleanupAnswersNothing(cfg, b, cleanup.at, shown);
    SweepForgets(cfg, probe, ip, b, n);
    ShowingAnswers(cfg, probe, ip, swept);
    assert Answers(cfg, b, [cleanup] + shown) == [!LockedAt(Finally(cfg, probe, None), cleanup.at)];
    ShowingAnswers(cfg, probe, ip, c);
    Outcomes(cfg, probe, Get(c, k));
    Opposite(LockedAt(Finally(cfg, probe, None), cleanup.at), LockedAt(Finally(cfg, probe, Get(c, k)), cleanup.at));
  }

  lemma {:induction false} CleanupAnswersNothing(cfg: Config, b: Book, at: int, rest: seq<Event>)
    ensures Answers(cfg, b, [Event(Op.Cleanup, at)] + rest) == Answers(cfg, Sweep(b, cfg.expiry, at), rest)
  {
    var cleanup := Event(Op.Cleanup, at);
    AnswersCons(cfg, b, cleanup, rest);
    assert After(cfg, b, cleanup.op, at) == Sweep(b, cfg.expiry, at);
    assert [] + Answers(cfg, Sweep(b, cfg.expiry, at), rest) == Answers(cfg, Sweep(b, cfg.expiry, at), rest);
  }

  /**
   * Where a reset window that matters is longer than the expiry, a run tells the two managers apart: all failures
   * but one, a cleanup just after the expiry, the last failures, and a check.
   */
  lemma {:induction false} CleanupVisibleOtherwise(cfg: Config, probe: Probe, ip: string) returns (es: seq<Event>)
    requires Shows(cfg, probe) && At(probe, ip) && Counted(cfg, Some(ip))
    ensures Chronological(0, es) && Answers(cfg, map[], es) != Answers(cfg, map[], WithoutCleanup(es))
  {
    var n, e := PolicyBy(cfg, probe, false).maxCount - 1, FailEvent(probe, ip, false, 0);
    var cleanup, shown := Event(Op.Cleanup, CleanupTime(cfg)), Showing(cfg, probe, ip);
    es := Repeated(n, e) + ([cleanup] + shown);
    ShowingShape(cfg, probe, ip);
    CleanupBetween(n, e, cleanup, shown);
    var b := OneShort(cfg, probe, ip, n, e, [cleanup] + shown);
    var c := OneShort(cfg, probe, ip, n, e, shown);
    AnswersDiffer(cfg, probe, ip, b, c, cleanup);
  }

  lemma {:induction false} Opposite(x: bool, y: bool)
    requires x != y
    ensures [!x] != [!y]
  {
    assert [!x][0] != [!y][0];
  }

  /**
   * For every configuration: cleanup is invisible in all runs exactly if no address reaches the counters, or
   * the expiry covers the reset windows that matter.
   */
  lemma {:induction false} CleanupInvisibleIff(cfg: Config)
    ensures (forall es | Chronological(0, es) :: Answers(cfg, map[], es) == Answers(cfg, map[], WithoutCleanup(es)))
       <==> (forall ip :: !Counted(cfg, Some(ip))) || Covers(cfg)
  {
    if ip :| Counted(cfg, Some(ip)) {
      if Covers(cfg) {
        forall es | Chronological(0, es)
          ensures Answers(cfg, map[], es) == Answers(cfg, map[], WithoutCleanup(es))
        {
          CoveredInvisible(cfg, es);
        }
      } else {
        var probe, at := UncoveredShows(cfg, ip);
        var es := CleanupVisibleOtherwise(cfg, probe, at);
      }
    } else {
      forall es | Chronological(0, es)
        ensures Answers(cfg, map[], es) == Answers(cfg, map[], WithoutCleanup(es))
      {
        UncountedAnswers(cfg, map[], map[], es);
      }
    }
  }
}

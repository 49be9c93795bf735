/**
 * The brute-force lock manager: four tables of failure counters, checks that touch them,
 * and a cleanup that throws outdated ones away. The four tables are one map whose keys say
 * which table an entry belongs to.
 */
module LockManager {
  import opened Wire
  import opened LockCounter

  datatype LockKey = IpKey(ip: string) | UserKey(user: string) | PairKey(ip: string, user: string)
                   | ChallengeKey(ip: string, user: string)

  type Book = map<LockKey, Counter>

  /** The settings; a table whose maximum is not positive is switched off. */
  datatype Config = Config(enabled: bool, pair: Policy, user: Policy, ip: Policy, expiry: int,
                           white: string -> bool, black: string -> bool)

  /** What can happen. A client address without a host part is None. */
  datatype Op =
    | Check(user: string, ip: Option<string>)
    | Fail(user: string, ip: Option<string>)
    | ChallengeFail(user: string, ip: Option<string>)
    | Success(user: string, ip: Option<string>)
    | StageSuccess(user: string, ip: Option<string>)
    | UnlockUser(user: string)
    | UnlockIp(host: string)
    | UnlockUserIp(user: string, host: string)
    | Cleanup

  // ----- effects on the book

  function Get(b: Book, k: LockKey): Option<Counter> {
    if k in b then Some(b[k]) else None
  }

  function Bump(b: Book, k: LockKey, p: Policy, now: int): Book {
    b[k := Bumped(CounterOr(Get(b, k)), p, now)]
  }

  function Touch(b: Book, k: LockKey, resetTime: int, now: int): Book {
    if k in b then b[k := Checked(b[k], resetTime, now)] else b
  }

  predicate Blocks(b: Book, k: LockKey, now: int) {
    k in b && IsLocked(b[k], now)
  }

  function Clear(b: Book, k: LockKey): Book {
    if k in b then b[k := Cleared(b[k])] else b
  }

  /** One table a check looks at. */
  datatype Look = Look(key: LockKey, resetTime: int)

  /** The tables a check looks at, in order: those that are switched on, and by user only if there is a name. */
  function Looks(cfg: Config, user: string, ip: string): seq<Look> {
    (if cfg.ip.maxCount > 0 then [Look(IpKey(ip), cfg.ip.resetTime)] else [])
    + (if user != "" && cfg.user.maxCount > 0 then [Look(UserKey(user), cfg.user.resetTime)] else [])
    + (if user != "" && cfg.pair.maxCount > 0 then
         [Look(PairKey(ip, user), cfg.pair.resetTime), Look(ChallengeKey(ip, user), cfg.pair.resetTime)]
       else [])
  }

  /** Looks at one table after the other, up to the first that blocks. */
  function LookThrough(b: Book, looks: seq<Look>, now: int): (Book, bool) {
    if looks == [] then (b, true)
    else
      var k := looks[0].key;
      var b' := Touch(b, k, looks[0].resetTime, now);
      if Blocks(b, k, now) then (b', false) else LookThrough(b', looks[1..], now)
  }

  /** One bump of a failure. */
  datatype Strike = Strike(key: LockKey, policy: Policy)

  /**
   * The counters a failure bumps. Without a user name the bump meant for the user goes to the
   * IP counter of the empty address.
   */
  function Strikes(cfg: Config, user: string, ip: string): seq<Strike> {
    (if cfg.pair.maxCount > 0 then [Strike(PairKey(ip, user), cfg.pair)] else [])
    + (if cfg.user.maxCount > 0 then [Strike(if user != "" then UserKey(user) else IpKey(""), cfg.user)] else [])
    + (if cfg.ip.maxCount > 0 then [Strike(IpKey(ip), cfg.ip)] else [])
  }

  function BumpAll(b: Book, strikes: seq<Strike>, now: int): Book
    decreases |strikes|
  {
    if strikes == [] then b
    else BumpAll(Bump(b, strikes[0].key, strikes[0].policy, now), strikes[1..], now)
  }

  /** A success clears the counters of the pair, of the address and of the user. */
  function ClearStage(b: Book, user: string, ip: string): Book {
    var b1 := Clear(Clear(b, PairKey(ip, user)), IpKey(ip));
    if user != "" then Clear(b1, UserKey(user)) else b1
  }

  function Sweep(b: Book, expiry: int, now: int): Book {
    map k | k in b && Swept(b[k], expiry, now).Some? :: Swept(b[k], expiry, now).value
  }

  /** Whether a check gets as far as the counters. */
  predicate Counted(cfg: Config, ip: Option<string>) {
    ip.Some? && !cfg.white(ip.value) && !cfg.black(ip.value) && cfg.enabled
  }

  function After(cfg: Config, b: Book, op: Op, now: int): Book {
    match op
    case Check(user, ip) => if Counted(cfg, ip) then LookThrough(b, Looks(cfg, user, ip.value), now).0 else b
    case Fail(user, ip) => if ip.Some? then BumpAll(b, Strikes(cfg, user, ip.value), now) else b
    case ChallengeFail(user, ip) =>
      if ip.Some? && user != "" && cfg.pair.maxCount > 0
      then Bump(b, ChallengeKey(ip.value, user), cfg.pair, now) else b
    case Success(user, ip) =>
      if ip.Some? then ClearStage(b, user, ip.value) - {ChallengeKey(ip.value, user)} else b
    case StageSuccess(user, ip) => if ip.Some? then ClearStage(b, user, ip.value) else b
    case UnlockUser(user) => map k | k in b && k != UserKey(user) && !(k.ChallengeKey? && k.user == user) :: b[k]
    case UnlockIp(host) => b - {IpKey(host)}
    case UnlockUserIp(user, host) => b - {PairKey(host, user), ChallengeKey(host, user)}
    case Cleanup => Sweep(b, cfg.expiry, now)
  }

  /** What a check answers: true lets the client go on. */
  predicate Allows(cfg: Config, b: Book, user: string, ip: Option<string>, now: int) {
    && ip.Some?
    && (cfg.white(ip.value) ||
        (!cfg.black(ip.value) &&
         (!cfg.enabled || LookThrough(b, Looks(cfg, user, ip.value), now).1)))
  }

  // ----- the manager

  class Manager {
    const cfg: Config
    var locks: Book

    constructor (cfg: Config)
      ensures this.cfg == cfg && locks == map[]
    {
      this.cfg := cfg;
      locks := map[];
    }

    /** Checks one counter, which may be reset on the way. */
    method IsKeyLocked(k: LockKey, resetTime: int, now: int) returns (locked: bool)
      modifies this
      ensures locks == Touch(old(locks), k, resetTime, now) && locked == Blocks(old(locks), k, now)
    {
      if k !in locks {
        return false;
      }
      var ls;
      ls, locked := CheckState(locks[k], resetTime, now);
      locks := locks[k := ls];
    }

    method Check(user: string, ip: Option<string>, now: int) returns (ok: bool)
      modifies this
      ensures ok == Allows(cfg, old(locks), user, ip, now)
      ensures locks == After(cfg, old(locks), Op.Check(user, ip), now)
    {
      if ip.None? {
        return false;
      }
      if cfg.white(ip.value) {
        return true;
      }
      if cfg.black(ip.value) {
        return false;
      }
      if !cfg.enabled {
        return true;
      }
      var looks := Looks(cfg, user, ip.value);
      var i := 0;
      while i < |looks|
        invariant i <= |looks|
        invariant LookThrough(old(locks), looks, now) == LookThrough(locks, looks[i..], now)
      {
        var locked := IsKeyLocked(looks[i].key, looks[i].resetTime, now);
        if locked {
          return false;
        }
        i := i + 1;
      }
      return true;
    }

    method IncrLock(k: LockKey, p: Policy, now: int)
      modifies this
      ensures locks == Bump(old(locks), k, p, now)
    {
      var ls := if k in locks then locks[k] else FRESH;
      ls := BumpLockState(ls, p, now);
      locks := locks[k := ls];
    }

    method ClearKey(k: LockKey)
      modifies this
      ensures locks == Clear(old(locks), k)
    {
      if k in locks {
        locks := locks[k := locks[k].(failures := 0, locked := false, lockTime := None)];
      }
    }

    method Update(user: string, ip: Option<string>, success: bool, now: int)
      modifies this
      ensures locks == After(cfg, old(locks), if success then Op.StageSuccess(user, ip) else Op.Fail(user, ip), now)
    {
      if ip.None? {
        return;
      }
      if success {
        ClearKey(PairKey(ip.value, user));
        ClearKey(IpKey(ip.value));
        if user != "" {
          ClearKey(UserKey(user));
        }
        return;
      }
      ghost var strikes := Strikes(cfg, user, ip.value);
      if cfg.pair.maxCount > 0 {
        IncrLock(PairKey(ip.value, user), cfg.pair, now);
      }
      if cfg.user.maxCount > 0 {
        IncrLock(if user != "" then UserKey(user) else IpKey(""), cfg.user, now);
      }
      if cfg.ip.maxCount > 0 {
        IncrLock(IpKey(ip.value), cfg.ip, now);
      }
      BumpAllInOrder(cfg, old(locks), user, ip.value, now);
    }

    method Success(user: string, ip: Option<string>, now: int)
      modifies this
      ensures locks == After(cfg, old(locks), Op.Success(user, ip), now)
    {
      Update(user, ip, true, now);
      if ip.Some? {
        locks := locks - {ChallengeKey(ip.value, user)};
      }
    }

    method ChallengeFail(user: string, ip: Option<string>, now: int)
      modifies this
      ensures locks == After(cfg, old(locks), Op.ChallengeFail(user, ip), now)
    {
      if ip.None? || user == "" || cfg.pair.maxCount <= 0 {
        return;
      }
      IncrLock(ChallengeKey(ip.value, user), cfg.pair, now);
    }

    /** Unlocking by hand: a user everywhere, an address, or a user at one address. */
    method Unlock(op: Op)
      requires op.UnlockUser? || op.UnlockIp? || op.UnlockUserIp?
      modifies this
      ensures locks == After(cfg, old(locks), op, 0)
    {
      match op
      case UnlockUser(user) =>
        locks := map k | k in locks && k != UserKey(user) && !(k.ChallengeKey? && k.user == user) :: locks[k];
      case UnlockIp(host) =>
        locks := locks - {IpKey(host)};
      case UnlockUserIp(user, host) =>
        locks := locks - {PairKey(host, user), ChallengeKey(host, user)};
    }

    method Cleanup(now: int)
      modifies this
      ensures locks == After(cfg, old(locks), Op.Cleanup, now)
    {
      var todo := locks.Keys;
      while todo != {}
        invariant todo <= locks.Keys <= old(locks.Keys)
        invariant forall k <- old(locks) :: k in todo ==> k in locks && locks[k] == old(locks)[k]
        invariant forall k <- old(locks) :: k !in todo ==>
                    Get(locks, k) == Swept(old(locks)[k], cfg.expiry, now)
      {
        var k :| k in todo;
        var s := locks[k];
        if s.locked && s.lockTime.Some? && now > s.lockTime.value {
          locks := locks[k := s.(failures := 0, locked := false, lockTime := None)];
        } else if (s.lastAttempt.None? || now - s.lastAttempt.value > cfg.expiry) && !s.locked {
          locks := locks - {k};
        }
        todo := todo - {k};
      }
      SweepByKey(old(locks), locks, cfg.expiry, now);
    }
  }

  lemma {:induction false} SweepByKey(b: Book, swept: Book, expiry: int, now: int)
    requires swept.Keys <= b.Keys && forall k <- b :: Get(swept, k) == Swept(b[k], expiry, now)
    ensures swept == Sweep(b, expiry, now)
  {
  }

  /** The bumps of a failure one after the other. */
  lemma {:induction false} BumpAllInOrder(cfg: Config, b: Book, user: string, ip: string, now: int)
    ensures var b1 := if cfg.pair.maxCount > 0 then Bump(b, PairKey(ip, user), cfg.pair, now) else b;
            var b2 := if cfg.user.maxCount > 0
                      then Bump(b1, if user != "" then UserKey(user) else IpKey(""), cfg.user, now) else b1;
            var b3 := if cfg.ip.maxCount > 0 then Bump(b2, IpKey(ip), cfg.ip, now) else b2;
            BumpAll(b, Strikes(cfg, user, ip), now) == b3
  {
    var first := if cfg.pair.maxCount > 0 then [Strike(PairKey(ip, user), cfg.pair)] else [];
    var second := if cfg.user.maxCount > 0
                  then [Strike(if user != "" then UserKey(user) else IpKey(""), cfg.user)] else [];
    var third := if cfg.ip.maxCount > 0 then [Strike(IpKey(ip), cfg.ip)] else [];
    assert Strikes(cfg, user, ip) == first + (second + third);
    BumpAllConcat(b, first, second + third, now);
    BumpAllConcat(BumpAll(b, first, now), second, third, now);
    forall b', k, p
      ensures BumpAll(b', [Strike(k, p)], now) == Bump(b', k, p, now)
    {
      assert [Strike(k, p)][1..] == [];
    }
  }

  lemma {:induction false} BumpAllConcat(b: Book, s: seq<Strike>, t: seq<Strike>, now: int)
    ensures BumpAll(b, s + t, now) == BumpAll(BumpAll(b, s, now), t, now)
    decreases |s|
  {
    if s == [] {
      assert s + t == t;
    } else {
      assert (s + t)[1..] == s[1..] + t;
      BumpAllConcat(Bump(b, s[0].key, s[0].policy, now), s[1..], t, now);
    }
  }
}

/**
 * One request of a login: it runs or resumes the pipeline, tells the lock manager what came of it,
 * and saves the break-point of a pause.
 */
module AuthFlow {
  import opened Wire
  import opened AuthPipeline
  import opened LockCounter
  import LockManager
  import LockRuns

  datatype PipelineResult = PipelineResult(result: StepResult, err: bool, username: string, challenge: bool,
                                           stateIdx: int, statePassed: seq<string>, prevStepIdx: int)

  /** The answer when the profile cannot be loaded or has no steps. */
  const NO_PIPELINE := PipelineResult(StepFail, true, "", false, 0, [], 0)

  /** The step that paused before is pending again: the code was wrong. */
  predicate IsChallengeRetry(r: PipelineResult) {
    r.prevStepIdx >= 0 && r.result.StepPending? && r.stateIdx == r.prevStepIdx
  }

  function ResultOf(out: Outcome, replies: seq<Reply>, prev: int): PipelineResult {
    var paused := out.result.StepPending?;
    PipelineResult(out.result, out.err, out.view.username,
                   paused && 0 <= out.pendingStep < |replies| && replies[out.pendingStep].challenge,
                   if paused then out.pendingStep else 0, if paused then out.view.passed else [], prev)
  }

  method GetPipelineResult(ctx: Context, result: StepResult, err: bool, pipeline: Pipeline, replies: seq<Reply>,
                           prev: int)
    returns (r: PipelineResult)
    requires |replies| == |pipeline.steps|
    ensures r == ResultOf(Outcome(result, err, pipeline.pendingStep, ctx.Seen()), replies, prev)
  {
    r := PipelineResult(result, err, ctx.username, false, 0, [], prev);
    if result == StepPending {
      if pipeline.pendingStep >= 0 && pipeline.pendingStep < |pipeline.steps| {
        r := r.(challenge := replies[pipeline.pendingStep].challenge);
      }
      r := r.(stateIdx := pipeline.pendingStep, statePassed := ctx.passedSteps);
    }
  }

  predicate Usable(profile: Option<seq<string>>) {
    profile.Some? && profile.value != []
  }

  /** The first attempt of a login. A profile that cannot be loaded is None. */
  method Authenticate(ctx: Context, profile: Option<seq<string>>, replies: seq<Reply>) returns (r: PipelineResult)
    requires profile.Some? ==> |replies| == |WithForcePwd(profile.value)|
    modifies ctx
    ensures ctx.stepIdx == old(ctx.stepIdx)
    ensures !Usable(profile) ==> r == NO_PIPELINE && ctx.Seen() == old(ctx.Seen())
    ensures Usable(profile) ==>
              var out := Steps(WithForcePwd(profile.value), replies, 0, old(ctx.Seen()));
              r == ResultOf(out, replies, -1) && ctx.Seen() == out.view
  {
    if profile.None? || profile.value == [] {
      return NO_PIPELINE;
    }
    var pipeline := new Pipeline(profile.value);
    pipeline.InsertForcePwd();
    var result, err := pipeline.Run(ctx, replies);
    r := GetPipelineResult(ctx, result, err, pipeline, replies, -1);
  }

  /** A later attempt, from a break-point. */
  method ResumeFrom(ctx: Context, profile: Option<seq<string>>, idx: int, passed: seq<string>, replies: seq<Reply>)
    returns (r: PipelineResult)
    requires profile.Some? ==> |replies| == |WithForcePwd(profile.value)|
    modifies ctx
    ensures ctx.stepIdx == old(ctx.stepIdx)
    ensures !Usable(profile) ==> r == NO_PIPELINE && ctx.Seen() == old(ctx.Seen())
    ensures Usable(profile) ==>
              var names, v := WithForcePwd(profile.value), old(ctx.Seen()).(passed := passed);
              var out := if 0 <= idx < |names| then Steps(names, replies, idx, v) else Outcome(StepFail, true, 0, v);
              r == ResultOf(out, replies, idx) && ctx.Seen() == out.view
  {
    if profile.None? || profile.value == [] {
      return NO_PIPELINE;
    }
    var pipeline := new Pipeline(profile.value);
    pipeline.InsertForcePwd();
    ctx.passedSteps := passed;
    var result, err := pipeline.Resume(ctx, idx, replies);
    r := GetPipelineResult(ctx, result, err, pipeline, replies, idx);
  }

  /** What the lock manager is told about a result. */
  function LockOp(user: string, ip: Option<string>, r: PipelineResult): LockManager.Op {
    match r.result
    case StepPass => LockManager.Success(user, ip)
    case StepPending =>
      if IsChallengeRetry(r) || !r.challenge then LockManager.ChallengeFail(user, ip)
      else LockManager.StageSuccess(user, ip)
    case StepFail => LockManager.Fail(user, ip)
    case Other(_) => LockManager.Fail(user, ip)
  }

  class Flow {
    const username: string
    const remoteAddr: Option<string>
    const ctx: Context
    const locks: LockManager.Manager
    var result: Option<PipelineResult>

    constructor (username: string, remoteAddr: Option<string>, ctx: Context, locks: LockManager.Manager)
      ensures this.username == username && this.remoteAddr == remoteAddr
      ensures this.ctx == ctx && this.locks == locks && result == None
    {
      this.username, this.remoteAddr, this.ctx, this.locks, result := username, remoteAddr, ctx, locks, None;
    }

    /** True if the pause is progress, false if it is a failed challenge. */
    method PendingLockDecision(r: PipelineResult) returns (progress: bool)
      ensures progress <==> !IsChallengeRetry(r) && r.challenge
    {
      if IsChallengeRetry(r) {
        return false;
      }
      if !r.challenge {
        return false;
      }
      return true;
    }

    method Dispatch(r: PipelineResult, now: int)
      modifies this`result, locks
      ensures result == Some(r)
      ensures locks.locks == LockManager.After(locks.cfg, old(locks.locks), LockOp(username, remoteAddr, r), now)
    {
      result := Some(r);
      match r.result
      case StepPass =>
        locks.Success(username, remoteAddr, now);
      case StepFail =>
        locks.Update(username, remoteAddr, false, now);
      case StepPending =>
        var progress := PendingLockDecision(r);
        if progress {
          locks.Update(username, remoteAddr, true, now);
        } else {
          locks.ChallengeFail(username, remoteAddr, now);
        }
      case Other(_) =>
        locks.Update(username, remoteAddr, false, now);
    }

    /** Writes the break-point of a pause back to the context. */
    method SavePendingState()
      modifies ctx
      ensures ctx.username == old(ctx.username) && ctx.identity == old(ctx.identity)
      ensures if result.Some? && result.value.result.StepPending? && result.value.stateIdx >= 0
              then ctx.stepIdx == result.value.stateIdx && ctx.passedSteps == result.value.statePassed
              else ctx.stepIdx == old(ctx.stepIdx) && ctx.passedSteps == old(ctx.passedSteps)
    {
      if result.None? || result.value.result != StepPending || result.value.stateIdx < 0 {
        return;
      }
      ctx.stepIdx := result.value.stateIdx;
      ctx.passedSteps := result.value.statePassed;
    }

    /**
     * One attempt of a session, from the first step or from the break-point the context holds; the handler
     * may or may not save a pause. The context then holds the session's next state.
     */
    method Attempted(profile: Option<seq<string>>, a: Attempt, now: int)
      requires a.names == NamesOf(profile) && |a.replies| == |a.names| && ctx.stepIdx >= 0
      modifies this`result, ctx, locks
      ensures ctx.stepIdx >= 0
      ensures var s := old(Session(ctx.stepIdx, ctx.Seen()));
              && Session(ctx.stepIdx, ctx.Seen()) == Continued(s, a)
              && result == Some(AttemptResult(s, a))
              && locks.locks == LockManager.After(locks.cfg, old(locks.locks),
                                                  LockOp(username, remoteAddr, AttemptResult(s, a)), now)
    {
      ghost var s := Session(ctx.stepIdx, ctx.Seen());
      TriedReaches(s, a);
      ctx.username := a.username;
      var r;
      if a.restart {
        r := Authenticate(ctx, profile, a.replies);
      } else {
        r := ResumeFrom(ctx, profile, ctx.stepIdx, ctx.passedSteps, a.replies);
      }
      Dispatch(r, now);
      if a.saves {
        SavePendingState();
      }
    }
  }

  /** The steps that run under a profile: none if it cannot be used. */
  function NamesOf(profile: Option<seq<string>>): seq<string> {
    if Usable(profile) then WithForcePwd(profile.value) else []
  }

  /** The result of an attempt; only a resumed one compares the step that pauses with the one before. */
  function AttemptResult(s: Session, a: Attempt): PipelineResult
    requires |a.replies| == |a.names|
  {
    if a.names == [] then NO_PIPELINE else ResultOf(Tried(s, a), a.replies, if a.restart then -1 else s.stepIdx)
  }

  /**
   * An attempt is taken for a wrong code exactly if it is resumed and the step it was waiting for asks again;
   * one that starts at the first step never is.
   */
  lemma {:induction false} RetryIffSameStepAsks(s: Session, a: Attempt)
    requires |a.replies| == |a.names|
    ensures IsChallengeRetry(AttemptResult(s, a))
       <==> !a.restart && s.stepIdx < |a.names| && !a.replies[s.stepIdx].err && a.replies[s.stepIdx].result.StepPending?
  {
    if Start(s, a) < |a.names| {
      StepsReach(a.names, a.replies, Start(s, a), s.view.(username := a.username));
    }
  }

  // ----- what is reported of an attempt

  /** The user name and the identity an attempt leaves. */
  function LeftBy(s: Session, a: Attempt): (string, string)
    requires |a.replies| == |a.names|
  {
    var start, stop := Start(s, a), Stop(s, a);
    if start >= |a.names| then (a.username, s.view.identity)
    else
      var last := a.replies[if stop < |a.names| then stop else stop - 1];
      (last.username, last.identity)
  }

  lemma {:induction false} StepsLeave(names: seq<string>, replies: seq<Reply>, i: nat, v: View)
    requires i <= |names| == |replies|
    ensures var out, k := Steps(names, replies, i, v), Reached(replies, i);
            var last := if k < |names| then k else k - 1;
            && out.view.username == (if i < |names| then replies[last].username else v.username)
            && out.view.identity == (if i < |names| then replies[last].identity else v.identity)
            && (k < |names| ==>
                  && out.err == (replies[k].err || replies[k].result.Other?)
                  && (out.result.StepFail? <==> replies[k].err || !replies[k].result.StepPending?))
            && (k == |names| ==>
                  && out.err == out.result.StepFail?
                  && (out.result.StepFail? <==> out.view.identity != "" && out.view.username != out.view.identity))
    decreases |names| - i
  {
    if i < |names| && Passes(replies[i]) {
      StepsLeave(names, replies, i + 1, Noted(v, names[i], replies[i]));
    }
  }

  /**
   * What is reported of an attempt. An unusable profile, or a break-point behind its end, is a failure with an
   * error. Otherwise the first step that does not pass decides, and an error of its own or an unknown answer
   * is one; if there is none, the asserted identity decides. A pause tells whether that step offers a
   * challenge, where it is, and the record so far.
   */
  lemma {:induction false} AttemptReported(s: Session, a: Attempt)
    requires |a.replies| == |a.names|
    ensures var r, k, (user, identity) := AttemptResult(s, a), Stop(s, a), LeftBy(s, a);
            && (Start(s, a) >= |a.names| ==> r.result == StepFail && r.err)
            && (a.names != [] ==> r.username == user && r.prevStepIdx == if a.restart then -1 else s.stepIdx)
            && (Start(s, a) < |a.names| && k < |a.names| ==>
                  var step := a.replies[k];
                  && r.result == (if !step.err && step.result.StepPending? then StepPending else StepFail)
                  && r.err == (step.err || step.result.Other?))
            && (Start(s, a) < |a.names| && k == |a.names| ==>
                  && r.result == (if identity == "" || user == identity then StepPass else StepFail)
                  && r.err == r.result.StepFail?)
            && (r.result.StepPending? ==>
                  && k < |a.names| && r.challenge == a.replies[k].challenge && r.stateIdx == k
                  && r.statePassed == s.view.passed + Counted(Gained(s, a)))
            && (!r.result.StepPending? ==> !r.challenge)
  {
    TriedReaches(s, a);
    if Start(s, a) < |a.names| {
      StepsReach(a.names, a.replies, Start(s, a), s.view.(username := a.username));
      StepsLeave(a.names, a.replies, Start(s, a), s.view.(username := a.username));
    }
  }

  // ----- what the results amount to

  predicate Wrong(t: Try) {
    !t.r.result.StepPass? && !t.r.result.StepPending?
  }

  /** A pause that is progress: a fresh challenge. */
  predicate Progress(t: Try) {
    t.r.result.StepPending? && !IsChallengeRetry(t.r) && t.r.challenge
  }

  /** When attempts were wrong. */
  function WrongTimes(tries: seq<Try>): seq<int> {
    if tries == [] then []
    else
      var n := |tries| - 1;
      WrongTimes(tries[..n]) + if Wrong(tries[n]) then [tries[n].at] else []
  }

  /** A counter of first-factor failures of the user, of the address, or of both. */
  predicate CountsFailures(k: LockManager.LockKey, user: string, ip: string) {
    k == LockManager.PairKey(ip, user) || k == LockManager.UserKey(user) || k == LockManager.IpKey(ip)
  }

  lemma {:induction false} WrongsCount(cfg: LockManager.Config, user: string, ip: string, tries: seq<Try>,
                                       k: LockManager.LockKey)
    requires user != "" && CountsFailures(k, user, ip)
    ensures LockRuns.FailTimes(cfg, Told(user, ip, tries), k) == WrongTimes(tries)
    decreases |tries|
  {
    if tries != [] {
      var n := |tries| - 1;
      WrongsCount(cfg, user, ip, tries[..n], k);
      assert Told(user, ip, tries)[..n] == Told(user, ip, tries[..n]);
    }
  }

  lemma {:induction false} NothingClears(user: string, ip: string, tries: seq<Try>, k: LockManager.LockKey)
    requires user != "" && CountsFailures(k, user, ip)
    requires forall t <- tries :: !t.r.result.StepPass? && !Progress(t)
    ensures LockRuns.Undisturbed(Told(user, ip, tries), k)
  {
    forall e | e in Told(user, ip, tries)
      ensures !LockRuns.Disturbs(e.op, k)
    {
      var i :| 0 <= i < |tries| && Told(user, ip, tries)[i] == e;
      assert tries[i] in tries;
    }
  }

  /**
   * Somebody who does not know the password: the maximum of wrong attempts, none too long after the one before and
   * with no success and no fresh challenge between them, locks the counter of the pair, and likewise those of the
   * user and of the address; until the lock is over every check that looks at it refuses.
   */
  lemma {:induction false} WrongPasswordsLock(cfg: LockManager.Config, b: LockManager.Book, from: int, user: string,
                                              ip: string, tries: seq<Try>, k: LockManager.LockKey,
                                              more: seq<LockRuns.Event>)
    requires user != "" && CountsFailures(k, user, ip) && tries != [] && Wrong(tries[|tries| - 1])
    requires LockRuns.ValidBook(b) && LockRuns.ResetsWithin(cfg, cfg.expiry) && LockRuns.Regular(cfg, k)
    requires LockRuns.Chronological(from, Told(user, ip, tries))
    requires LockRuns.KeyPhase(b, k, LockRuns.PolicyOf(cfg, k).resetTime, from) == Idle
    requires forall t <- tries :: !t.r.result.StepPass? && !Progress(t)
    requires |WrongTimes(tries)| == LockRuns.PolicyOf(cfg, k).maxCount
    requires LockRuns.GapsWithin(WrongTimes(tries), LockRuns.PolicyOf(cfg, k).resetTime)
    requires var last := tries[|tries| - 1].at;
             && LockRuns.Chronological(last, more) && LockRuns.Undisturbed(more, k)
             && forall e <- more :: e.at <= last + LockRuns.PolicyOf(cfg, k).lockTime
    ensures var p, last := LockRuns.PolicyOf(cfg, k), tries[|tries| - 1].at;
            var b' := LockRuns.Run(cfg, b, Told(user, ip, tries));
            && LockRuns.KeyPhase(b', k, p.resetTime, last) == Locked(last + p.lockTime)
            && LockRuns.AllRefused(cfg, b', more, k)
  {
    var p, last, es := LockRuns.PolicyOf(cfg, k), tries[|tries| - 1].at, Told(user, ip, tries);
    WrongsCount(cfg, user, ip, tries, k);
    NothingClears(user, ip, tries, k);
    LockRuns.MaxFailuresLock(cfg, b, from, es, k);
    LockRuns.LockHolds(cfg, LockRuns.Run(cfg, b, es), last, more, k, last + p.lockTime);
  }

  /** The counter holds no failures and no lock, if it is there at all. */
  predicate IsClear(b: LockManager.Book, k: LockManager.LockKey) {
    k in b ==> b[k].failures == 0 && !b[k].locked && b[k].lockTime.None?
  }

  /**
   * A pass leaves no failures and no lock in the counters of the pair, the user and the address, and forgets the
   * challenge counter; a fresh challenge clears the same three and leaves the challenge counter alone.
   */
  lemma {:induction false} PassClears(cfg: LockManager.Config, b: LockManager.Book, user: string, ip: string, t: Try)
    requires t.r.result.StepPass? || Progress(t)
    ensures var b' := LockManager.After(cfg, b, LockOp(user, Some(ip), t.r), t.at);
            var challenge := LockManager.ChallengeKey(ip, user);
            && IsClear(b', LockManager.PairKey(ip, user)) && IsClear(b', LockManager.IpKey(ip))
            && (user != "" ==> IsClear(b', LockManager.UserKey(user)))
            && LockManager.Get(b', challenge) == (if t.r.result.StepPass? then None else LockManager.Get(b, challenge))
            && forall k :: k != LockManager.PairKey(ip, user) && k != LockManager.IpKey(ip)
                           && k != LockManager.UserKey(user) && k != challenge ==>
                             LockManager.Get(b', k) == LockManager.Get(b, k)
  {
  }

  // ----- guessing codes

  /** What came of one request of a client, and when. */
  datatype Try = Try(r: PipelineResult, at: int)

  /** What the tries of a user at an address mean for the lock manager. */
  function Told(user: string, ip: string, tries: seq<Try>): seq<LockRuns.Event> {
    seq(|tries|, i requires 0 <= i < |tries| => LockRuns.Event(LockOp(user, Some(ip), tries[i].r), tries[i].at))
  }

  predicate BadCode(t: Try) {
    t.r.result.StepPending? && (IsChallengeRetry(t.r) || !t.r.challenge)
  }

  /** When codes were wrong. */
  function BadCodeTimes(tries: seq<Try>): seq<int> {
    if tries == [] then []
    else
      var n := |tries| - 1;
      BadCodeTimes(tries[..n]) + if BadCode(tries[n]) then [tries[n].at] else []
  }

  lemma {:induction false} BadCodesCount(cfg: LockManager.Config, user: string, ip: string, tries: seq<Try>)
    requires user != ""
    ensures LockRuns.FailTimes(cfg, Told(user, ip, tries), LockManager.ChallengeKey(ip, user)) == BadCodeTimes(tries)
    decreases |tries|
  {
    if tries != [] {
      var n := |tries| - 1;
      BadCodesCount(cfg, user, ip, tries[..n]);
      assert Told(user, ip, tries)[..n] == Told(user, ip, tries[..n]);
    }
  }

  /**
   * Somebody who knows the password but not the code: however often they start again, fail, or get
   * to a fresh challenge in between, the maximum number of wrong codes, none too long after the one before,
   * locks them out, and until the lock is over every check of the pair refuses.
   */
  lemma {:induction false} GuessingLocks(cfg: LockManager.Config, b: LockManager.Book, from: int, user: string,
                                         ip: string, tries: seq<Try>, more: seq<LockRuns.Event>)
    requires user != "" && tries != [] && BadCode(tries[|tries| - 1])
    requires LockRuns.ValidBook(b) && LockRuns.ResetsWithin(cfg, cfg.expiry)
    requires cfg.pair.maxCount > 0 && 0 <= cfg.pair.resetTime && 0 <= cfg.pair.lockTime
    requires LockRuns.Chronological(from, Told(user, ip, tries))
    requires LockRuns.KeyPhase(b, LockManager.ChallengeKey(ip, user), cfg.pair.resetTime, from) == Idle
    requires forall t <- tries :: !t.r.result.StepPass?
    requires |BadCodeTimes(tries)| == cfg.pair.maxCount
    requires LockRuns.GapsWithin(BadCodeTimes(tries), cfg.pair.resetTime)
    requires var k, last := LockManager.ChallengeKey(ip, user), tries[|tries| - 1].at;
             && LockRuns.Chronological(last, more) && LockRuns.Undisturbed(more, k)
             && forall e <- more :: e.at <= last + cfg.pair.lockTime
    ensures var k, last := LockManager.ChallengeKey(ip, user), tries[|tries| - 1].at;
            var b' := LockRuns.Run(cfg, b, Told(user, ip, tries));
            && LockRuns.KeyPhase(b', k, cfg.pair.resetTime, last) == Locked(last + cfg.pair.lockTime)
            && LockRuns.AllRefused(cfg, b', more, k)
  {
    var k, last, es := LockManager.ChallengeKey(ip, user), tries[|tries| - 1].at, Told(user, ip, tries);
    BadCodesCount(cfg, user, ip, tries);
    NothingDisturbs(user, ip, tries);
    LockRuns.MaxFailuresLock(cfg, b, from, es, k);
    LockRuns.LockHolds(cfg, LockRuns.Run(cfg, b, es), last, more, k, last + cfg.pair.lockTime);
  }

  lemma {:induction false} NothingDisturbs(user: string, ip: string, tries: seq<Try>)
    requires forall t <- tries :: !t.r.result.StepPass?
    ensures LockRuns.Undisturbed(Told(user, ip, tries), LockManager.ChallengeKey(ip, user))
  {
  }
}

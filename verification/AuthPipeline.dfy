/**
 * The resumable authentication pipeline. Steps are known by their names; what an authenticator
 * answers is arbitrary, and so is what it does to the user name and the asserted identity.
 */
module AuthPipeline {

  datatype StepResult = StepPass | StepPending | StepFail | Other(code: int)

  /** What one authenticator answers, the name and identity it leaves, and whether it offers a challenge. */
  datatype Reply = Reply(result: StepResult, err: bool, username: string, identity: string, challenge: bool)

  predicate Passes(r: Reply) {
    !r.err && r.result.StepPass?
  }

  const FORCE_PWD := "forcepwd"

  /** What the pipeline reads and writes of a context. */
  datatype View = View(username: string, identity: string, passed: seq<string>)

  datatype Outcome = Outcome(result: StepResult, err: bool, pendingStep: int, view: View)

  // ----- what a pipeline computes

  function Noted(v: View, name: string, r: Reply): View {
    View(r.username, r.identity, if Passes(r) && name != FORCE_PWD then v.passed + [name] else v.passed)
  }

  function Steps(names: seq<string>, replies: seq<Reply>, i: nat, v: View): Outcome
    requires i <= |names| == |replies|
    decreases |names| - i
  {
    if i == |names| then
      if v.identity != "" && v.username != v.identity then Outcome(StepFail, true, -1, v)
      else Outcome(StepPass, false, -1, v)
    else
      var r := replies[i];
      var v' := Noted(v, names[i], r);
      if r.err || r.result.Other? then Outcome(StepFail, true, -1, v')
      else if r.result.StepFail? then Outcome(StepFail, false, -1, v')
      else if r.result.StepPending? then Outcome(StepPending, false, i, v')
      else Steps(names, replies, i + 1, v')
  }

  class Context {
    var username: string
    var identity: string
    var passedSteps: seq<string>
    var stepIdx: int

    ghost function Seen(): View
      reads this
    {
      View(username, identity, passedSteps)
    }

    constructor (username: string)
      ensures this.username == username && identity == "" && passedSteps == [] && stepIdx == 0
    {
      this.username, identity, passedSteps, stepIdx := username, "", [], 0;
    }

    method AddPassedStep(name: string)
      modifies this`passedSteps
      ensures passedSteps == old(passedSteps) + [name]
    {
      passedSteps := passedSteps + [name];
    }
  }

  class Pipeline {
    var steps: seq<string>
    var pendingStep: int

    constructor (profile: seq<string>)
      ensures steps == profile && pendingStep == 0
    {
      steps, pendingStep := profile, 0;
    }

    method RunFrom(ctx: Context, start: nat, replies: seq<Reply>) returns (result: StepResult, err: bool)
      requires start <= |steps| == |replies|
      modifies this`pendingStep, ctx
      ensures ctx.stepIdx == old(ctx.stepIdx)
      ensures Outcome(result, err, pendingStep, ctx.Seen()) == Steps(steps, replies, start, old(ctx.Seen()))
    {
      ghost var goal := Steps(steps, replies, start, ctx.Seen());
      pendingStep := -1;
      var i := start;
      while i < |steps|
        invariant start <= i <= |steps| && pendingStep == -1 && ctx.stepIdx == old(ctx.stepIdx)
        invariant Steps(steps, replies, i, ctx.Seen()) == goal
        decreases |steps| - i
      {
        var r := replies[i];
        ctx.username, ctx.identity := r.username, r.identity;
        if r.err {
          return StepFail, true;
        }
        match r.result {
        case StepFail =>
          return StepFail, false;
        case StepPending =>
          pendingStep := i;
          return StepPending, false;
        case StepPass =>
          if steps[i] != FORCE_PWD {
            ctx.AddPassedStep(steps[i]);
          }
        case Other(_) =>
          return StepFail, true;
        }
        i := i + 1;
      }
      if ctx.identity != "" && ctx.username != ctx.identity {
        return StepFail, true;
      }
      return StepPass, false;
    }

    method Run(ctx: Context, replies: seq<Reply>) returns (result: StepResult, err: bool)
      requires |steps| == |replies|
      modifies this`pendingStep, ctx
      ensures ctx.stepIdx == old(ctx.stepIdx)
      ensures Outcome(result, err, pendingStep, ctx.Seen()) == Steps(steps, replies, 0, old(ctx.Seen()))
    {
      result, err := RunFrom(ctx, 0, replies);
    }

    method Resume(ctx: Context, fromStep: int, replies: seq<Reply>) returns (result: StepResult, err: bool)
      requires |steps| == |replies|
      modifies this`pendingStep, ctx
      ensures ctx.stepIdx == old(ctx.stepIdx)
      ensures 0 <= fromStep < |steps| ==>
                Outcome(result, err, pendingStep, ctx.Seen()) == Steps(steps, replies, fromStep, old(ctx.Seen()))
      ensures !(0 <= fromStep < |steps|) ==>
                result == StepFail && err && ctx.Seen() == old(ctx.Seen()) && pendingStep == old(pendingStep)
    {
      if fromStep < 0 || fromStep >= |steps| {
        return StepFail, true;
      }
      result, err := RunFrom(ctx, fromStep, replies);
    }

    /** Puts a forced password change after the first local step. */
    method InsertForcePwd()
      modifies this`steps
      ensures steps == WithForcePwd(old(steps))
    {
      var i := 0;
      while i < |steps|
        invariant i <= |steps| && steps == old(steps)
        invariant WithForcePwd(steps) == steps[..i] + WithForcePwd(steps[i..])
        decreases |steps| - i
      {
        if steps[i] == "local" {
          steps := steps[..i + 1] + [FORCE_PWD] + steps[i + 1..];
          return;
        }
        i := i + 1;
      }
      assert steps[..i] + WithForcePwd(steps[i..]) == steps;
    }
  }

  function WithForcePwd(profile: seq<string>): seq<string> {
    if profile == [] then []
    else if profile[0] == "local" then [profile[0], FORCE_PWD] + profile[1..]
    else [profile[0]] + WithForcePwd(profile[1..])
  }

  /** The forced password change comes right behind the first local step; without one there is none. */
  lemma {:induction false} ForcePwdFollowsLocal(before: seq<string>, after: seq<string>)
    requires "local" !in before
    ensures WithForcePwd(before) == before
    ensures WithForcePwd(before + ["local"] + after) == before + ["local", "forcepwd"] + after
    decreases |before|
  {
    if before == [] {
      assert before + ["local"] + after == ["local"] + after;
    } else {
      var rest := before[1..];
      assert before[0] in before;
      ForcePwdFollowsLocal(rest, after);
      var whole := before + ["local"] + after;
      assert whole[1..] == rest + ["local"] + after;
      assert before == [before[0]] + rest;
    }
  }

  // ----- where an attempt stops

  /** The first step from `i` on that does not pass, or the number of steps. */
  function Reached(replies: seq<Reply>, i: nat): (k: nat)
    requires i <= |replies|
    ensures i <= k <= |replies| && (k < |replies| ==> !Passes(replies[k]))
    ensures forall j :: i <= j < k ==> Passes(replies[j])
    decreases |replies| - i
  {
    if i == |replies| || !Passes(replies[i]) then i else Reached(replies, i + 1)
  }

  /** The names worth recording: all but the forced password change. */
  function Counted(names: seq<string>): seq<string> {
    if names == [] then [] else (if names[0] != FORCE_PWD then [names[0]] else []) + Counted(names[1..])
  }

  lemma {:induction false} CountedConcat(s: seq<string>, t: seq<string>)
    ensures Counted(s + t) == Counted(s) + Counted(t)
    decreases |s|
  {
    if s == [] {
      assert s + t == t;
      NothingBefore([], Counted(t));
    } else {
      var first := if s[0] != FORCE_PWD then [s[0]] else [];
      TailOfConcat(s, t);
      CountedConcat(s[1..], t);
      ConcatAssoc(first, Counted(s[1..]), Counted(t));
    }
  }

  lemma {:induction false} TailOfConcat(s: seq<string>, t: seq<string>)
    requires s != []
    ensures (s + t)[0] == s[0] && (s + t)[1..] == s[1..] + t
  {
  }

  /** Forcing a password change adds nothing to what is recorded. */
  lemma {:induction false} ForcePwdIsNotCounted(profile: seq<string>)
    ensures Counted(WithForcePwd(profile)) == Counted(profile)
    decreases |profile|
  {
    if profile != [] {
      if profile[0] == "local" {
        assert WithForcePwd(profile)[1..] == [FORCE_PWD] + profile[1..];
        assert WithForcePwd(profile)[1..][1..] == profile[1..];
      } else {
        ForcePwdIsNotCounted(profile[1..]);
        assert WithForcePwd(profile)[1..] == WithForcePwd(profile[1..]);
      }
    }
  }

  lemma {:induction false} NotedThen(v: View, name: string, r: Reply, rest: seq<string>)
    requires Passes(r)
    ensures Noted(v, name, r).passed + Counted(rest) == v.passed + Counted([name] + rest)
  {
  }

  /** One attempt has recorded the steps before the first that does not pass. */
  lemma {:induction false} StepsRecord(names: seq<string>, replies: seq<Reply>, i: nat, v: View)
    requires i <= |names| == |replies|
    ensures Steps(names, replies, i, v).view.passed == v.passed + Counted(names[i..Reached(replies, i)])
    decreases |names| - i
  {
    var k := Reached(replies, i);
    if i < |names| && Passes(replies[i]) {
      StepsRecord(names, replies, i + 1, Noted(v, names[i], replies[i]));
      NotedThen(v, names[i], replies[i], names[i + 1..k]);
      assert names[i..k] == [names[i]] + names[i + 1..k];
    } else {
      assert names[i..k] == [] && v.passed + [] == v.passed;
    }
  }

  /** It passes, or pauses, according to where it stops. */
  lemma {:induction false} StepsReach(names: seq<string>, replies: seq<Reply>, i: nat, v: View)
    requires i <= |names| == |replies|
    ensures var out, k := Steps(names, replies, i, v), Reached(replies, i);
            && (out.result.StepPass? <==>
                  k == |names| && (out.view.identity == "" || out.view.username == out.view.identity))
            && (out.result.StepPending? <==> k < |names| && !replies[k].err && replies[k].result.StepPending?)
            && (out.result.StepPending? ==> out.pendingStep == k)
            && !out.result.Other?
    decreases |names| - i
  {
    if i < |names| && Passes(replies[i]) {
      StepsReach(names, replies, i + 1, Noted(v, names[i], replies[i]));
    }
  }

  // ----- calls, and when steps count as passed in order

  /**
   * An authenticator called: at which step of the pipeline of the time, for whom, and whether it passed. Whom
   * it is for is the user name it leaves: the one it was given, or the one a certificate or a sign-on page gave it.
   */
  datatype Call = Call(step: nat, name: string, user: string, passed: bool)

  predicate IsPass(c: Call, step: nat, name: string) {
    c.step == step && c.name == name && c.passed
  }

  /** The authenticators one attempt calls. */
  function CallsFrom(names: seq<string>, replies: seq<Reply>, i: nat): seq<Call>
    requires |names| == |replies|
    decreases |replies| - i
  {
    if i >= |replies| then []
    else
      [Call(i, names[i], replies[i].username, Passes(replies[i]))]
      + if Passes(replies[i]) then CallsFrom(names, replies, i + 1) else []
  }

  /** The steps passed one after the other: each at its own index, after the one before. */
  ghost predicate PassedInOrder(calls: seq<Call>, steps: seq<string>)
    decreases |steps|
  {
    var n := |steps| - 1;
    steps == [] ||
    exists k :: 0 <= k < |calls| && IsPass(calls[k], n, steps[n]) && PassedInOrder(calls[..k], steps[..n])
  }

  lemma {:induction false} MoreCalls(calls: seq<Call>, more: seq<Call>, steps: seq<string>)
    requires PassedInOrder(calls, steps)
    ensures PassedInOrder(calls + more, steps)
  {
    if steps != [] {
      var n := |steps| - 1;
      var k :| 0 <= k < |calls| && IsPass(calls[k], n, steps[n]) && PassedInOrder(calls[..k], steps[..n]);
      var all := calls + more;
      assert all[k] == calls[k] && all[..k] == calls[..k];
      LastPasses(all, steps, k);
    }
  }

  lemma {:induction false} OnePasses(calls: seq<Call>, steps: seq<string>, c: Call)
    requires PassedInOrder(calls, steps) && IsPass(c, |steps|, c.name)
    ensures PassedInOrder(calls + [c], steps + [c.name])
  {
    SnocParts(calls, c);
    SnocParts(steps, c.name);
    LastPasses(calls + [c], steps + [c.name], |calls|);
  }

  lemma {:induction false} LastPasses(calls: seq<Call>, steps: seq<string>, k: nat)
    requires steps != [] && k < |calls| && IsPass(calls[k], |steps| - 1, steps[|steps| - 1])
    requires PassedInOrder(calls[..k], steps[..|steps| - 1])
    ensures PassedInOrder(calls, steps)
  {
  }

  lemma {:induction false} SnocParts<T>(s: seq<T>, x: T)
    ensures (s + [x])[|s|] == x && (s + [x])[..|s|] == s
  {
  }

  lemma {:induction false} ConcatAssoc<T>(a: seq<T>, b: seq<T>, c: seq<T>)
    ensures (a + b) + c == a + (b + c)
  {
  }

  /** An attempt from a step before which all passed leaves all passed before where it stops. */
  lemma {:induction false} AttemptAdvances(before: seq<Call>, steps: seq<string>, names: seq<string>,
                                           replies: seq<Reply>, i: nat)
    requires i == |steps| <= |names| == |replies| && PassedInOrder(before, steps)
    ensures PassedInOrder(before + CallsFrom(names, replies, i), steps + names[i..Reached(replies, i)])
    decreases |replies| - i
  {
    if i < |replies| && Passes(replies[i]) {
      var call, k := Call(i, names[i], replies[i].username, true), Reached(replies, i);
      OnePasses(before, steps, call);
      AttemptAdvances(before + [call], steps + [names[i]], names, replies, i + 1);
      ConcatAssoc(before, [call], CallsFrom(names, replies, i + 1));
      ConcatAssoc(steps, [names[i]], names[i + 1..k]);
      HeadAndRest(names, i, k);
    } else {
      assert steps + names[i..i] == steps;
      MoreCalls(before, CallsFrom(names, replies, i), steps);
    }
  }

  /** Steps passed in order have been called under their own names. */
  lemma {:induction false} PassedWereCalled(calls: seq<Call>, steps: seq<string>, i: nat) returns (c: Call)
    requires PassedInOrder(calls, steps) && i < |steps|
    ensures c in calls && IsPass(c, i, steps[i])
    decreases |steps|
  {
    var n := |steps| - 1;
    var k :| 0 <= k < |calls| && IsPass(calls[k], n, steps[n]) && PassedInOrder(calls[..k], steps[..n]);
    c := calls[k];
    if i < n {
      c := PassedWereCalled(calls[..k], steps[..n], i);
    }
  }

  lemma {:induction false} CallsAreNamed(names: seq<string>, replies: seq<Reply>, i: nat)
    requires |names| == |replies|
    ensures forall c <- CallsFrom(names, replies, i) ::
              i <= c.step < |names| && c.name == names[c.step] && c.user == replies[c.step].username
    decreases |replies| - i
  {
    if i < |replies| {
      CallsAreNamed(names, replies, i + 1);
    }
  }

  lemma {:induction false} HeadAndRest(names: seq<string>, i: nat, k: nat)
    requires i < k <= |names|
    ensures [names[i]] + names[i + 1..k] == names[i..k]
  {
  }

  lemma {:induction false} ToTheEnd(names: seq<string>, i: nat)
    requires i <= |names|
    ensures names[i..|names|] == names[i..]
  {
  }

  lemma {:induction false} PrefixAndRest(steps: seq<string>, names: seq<string>)
    requires steps <= names
    ensures steps + names[|steps|..] == names
  {
  }

  lemma {:induction false} Joined(names: seq<string>, i: nat, k: nat)
    requires i <= k <= |names|
    ensures names[..i] + names[i..k] == names[..k]
  {
  }

  // ----- sessions: an attempt, then attempts from the saved break-point

  /**
   * An attempt: the pipeline of the group chosen at the time, or no steps if its profile cannot be used; the
   * user name of the request; whether the handler saves a pause; and whether it starts at the first step or
   * resumes from the break-point.
   */
  datatype Attempt = Attempt(names: seq<string>, username: string, replies: seq<Reply>, saves: bool, restart: bool)

  /** The break-point and the context between attempts. */
  datatype Session = Session(stepIdx: nat, view: View)

  const NEW_SESSION := Session(0, View("", "", []))

  ghost predicate Fits(attempts: seq<Attempt>) {
    forall a <- attempts :: |a.replies| == |a.names|
  }

  function Start(s: Session, a: Attempt): nat {
    if a.restart then 0 else s.stepIdx
  }

  /** Where an attempt stops; without anything to run it stops where it starts. */
  function Stop(s: Session, a: Attempt): nat
    requires |a.replies| == |a.names|
  {
    if Start(s, a) < |a.names| then Reached(a.replies, Start(s, a)) else Start(s, a)
  }

  function Tried(s: Session, a: Attempt): Outcome
    requires |a.replies| == |a.names|
  {
    var v := s.view.(username := a.username);
    if Start(s, a) < |a.names| then Steps(a.names, a.replies, Start(s, a), v) else Outcome(StepFail, true, 0, v)
  }

  predicate Pauses(s: Session, a: Attempt)
    requires |a.replies| == |a.names|
  {
    Tried(s, a).result.StepPending? && a.saves
  }

  function Continued(s: Session, a: Attempt): Session
    requires |a.replies| == |a.names|
  {
    Session(if Pauses(s, a) then Stop(s, a) else s.stepIdx, Tried(s, a).view)
  }

  /** The steps an attempt passes. */
  function Gained(s: Session, a: Attempt): seq<string>
    requires |a.replies| == |a.names|
  {
    if Start(s, a) < |a.names| then a.names[Start(s, a)..Stop(s, a)] else []
  }

  /** The session after the attempts. */
  ghost function After(attempts: seq<Attempt>): Session
    requires Fits(attempts)
  {
    if attempts == [] then NEW_SESSION
    else
      var n := |attempts| - 1;
      assert attempts[n] in attempts;
      Continued(After(attempts[..n]), attempts[n])
  }

  /** All calls of the attempts. */
  ghost function Calls(attempts: seq<Attempt>): seq<Call>
    requires Fits(attempts)
  {
    if attempts == [] then []
    else
      var n := |attempts| - 1;
      var a := attempts[n];
      assert a in attempts;
      Calls(attempts[..n]) + CallsFrom(a.names, a.replies, Start(After(attempts[..n]), a))
  }

  /** The steps the break-point stands for: those passed by the attempts that led to it. */
  ghost function Earned(attempts: seq<Attempt>): seq<string>
    requires Fits(attempts)
  {
    if attempts == [] then []
    else
      var n := |attempts| - 1;
      var s, a := After(attempts[..n]), attempts[n];
      assert a in attempts;
      if Pauses(s, a) then (if a.restart then [] else Earned(attempts[..n])) + Gained(s, a) else Earned(attempts[..n])
  }

  /** Whom the steps of an attempt are for. */
  function Users(replies: seq<Reply>): (users: seq<string>)
    ensures |users| == |replies| && forall i :: 0 <= i < |users| ==> users[i] == replies[i].username
  {
    seq(|replies|, i requires 0 <= i < |replies| => replies[i].username)
  }

  function GainedBy(s: Session, a: Attempt): seq<string>
    requires |a.replies| == |a.names|
  {
    if Start(s, a) < |a.names| then Users(a.replies)[Start(s, a)..Stop(s, a)] else []
  }

  /** For whom the steps passed that the break-point stands for. */
  ghost function EarnedBy(attempts: seq<Attempt>): seq<string>
    requires Fits(attempts)
  {
    if attempts == [] then []
    else
      var n := |attempts| - 1;
      var s, a := After(attempts[..n]), attempts[n];
      assert a in attempts;
      if Pauses(s, a) then (if a.restart then [] else EarnedBy(attempts[..n])) + GainedBy(s, a)
      else EarnedBy(attempts[..n])
  }

  /** The steps the last attempt builds on. */
  ghost function Base(attempts: seq<Attempt>): seq<string>
    requires Fits(attempts) && attempts != []
  {
    var n := |attempts| - 1;
    if attempts[n].restart then [] else Earned(attempts[..n])
  }

  /** How many names in the record the break-point does not stand for. */
  ghost function Stale(attempts: seq<Attempt>): nat
    requires Fits(attempts)
  {
    if attempts == [] then 0
    else
      var n := |attempts| - 1;
      var s, a := After(attempts[..n]), attempts[n];
      assert a in attempts;
      if !Pauses(s, a) then Stale(attempts[..n]) + |Counted(Gained(s, a))|
      else if a.restart then |s.view.passed|
      else Stale(attempts[..n])
  }

  /** What the last attempt of a session comes to. */
  ghost function Last(attempts: seq<Attempt>): Outcome
    requires Fits(attempts) && attempts != []
  {
    var n := |attempts| - 1;
    assert attempts[n] in attempts;
    Tried(After(attempts[..n]), attempts[n])
  }

  lemma {:induction false} TriedReaches(s: Session, a: Attempt)
    requires |a.replies| == |a.names|
    ensures Start(s, a) <= Stop(s, a)
    ensures var out := Tried(s, a);
            && (out.result.StepPass? ==> Start(s, a) < |a.names| == Stop(s, a))
            && (out.result.StepPass? ==> out.view.identity == "" || out.view.username == out.view.identity)
            && (out.result.StepPending? ==> Start(s, a) <= out.pendingStep == Stop(s, a) < |a.names|)
            && out.view.passed == s.view.passed + Counted(Gained(s, a))
  {
    if Start(s, a) < |a.names| {
      StepsReach(a.names, a.replies, Start(s, a), s.view.(username := a.username));
      StepsRecord(a.names, a.replies, Start(s, a), s.view.(username := a.username));
    }
  }

  /**
   * However a session was paused, failed, restarted and resumed, and whatever groups were chosen on the way:
   * the steps its break-point stands for have passed, each at its own index and after the one before.
   */
  lemma {:induction false} BreakPointIsEarned(attempts: seq<Attempt>)
    requires Fits(attempts)
    ensures |Earned(attempts)| == After(attempts).stepIdx
    ensures PassedInOrder(Calls(attempts), Earned(attempts))
    decreases |attempts|
  {
    if attempts != [] {
      var n := |attempts| - 1;
      var s, a := After(attempts[..n]), attempts[n];
      assert a in attempts;
      BreakPointIsEarned(attempts[..n]);
      TriedReaches(s, a);
      if Pauses(s, a) {
        LastAdvances(attempts);
      } else {
        MoreCalls(Calls(attempts[..n]), CallsFrom(a.names, a.replies, Start(s, a)), Earned(attempts[..n]));
      }
    }
  }

  lemma {:induction false} LastAdvances(attempts: seq<Attempt>)
    requires Fits(attempts) && attempts != []
    requires var init := attempts[..|attempts| - 1];
             |Earned(init)| == After(init).stepIdx && PassedInOrder(Calls(init), Earned(init))
    requires Start(After(attempts[..|attempts| - 1]), attempts[|attempts| - 1]) < |attempts[|attempts| - 1].names|
    ensures var n := |attempts| - 1;
            assert attempts[n] in attempts;
            PassedInOrder(Calls(attempts), Base(attempts) + Gained(After(attempts[..n]), attempts[n]))
  {
    var n := |attempts| - 1;
    var s, a := After(attempts[..n]), attempts[n];
    assert a in attempts;
    AttemptAdvances(Calls(attempts[..n]), Base(attempts), a.names, a.replies, Start(s, a));
  }

  /**
   * An attempt passes only if the steps it builds on passed in order, and behind them every later step of its
   * own profile, and the asserted identity is the user's.
   */
  lemma {:induction false} PassNeedsEveryStep(attempts: seq<Attempt>)
    requires Fits(attempts) && attempts != [] && Last(attempts).result.StepPass?
    ensures var names, start := attempts[|attempts| - 1].names, |Base(attempts)|;
            start < |names| && PassedInOrder(Calls(attempts), Base(attempts) + names[start..])
    ensures var v := After(attempts).view; v.identity == "" || v.username == v.identity
  {
    var n := |attempts| - 1;
    var s, a := After(attempts[..n]), attempts[n];
    assert a in attempts;
    BreakPointIsEarned(attempts[..n]);
    TriedReaches(s, a);
    LastAdvances(attempts);
    ToTheEnd(a.names, Start(s, a));
  }

  lemma {:induction false} OwnBasePasses(attempts: seq<Attempt>)
    requires Fits(attempts) && attempts != [] && Last(attempts).result.StepPass?
    requires Base(attempts) <= attempts[|attempts| - 1].names
    ensures PassedInOrder(Calls(attempts), attempts[|attempts| - 1].names)
  {
    var names := attempts[|attempts| - 1].names;
    PassNeedsEveryStep(attempts);
    PrefixAndRest(Base(attempts), names);
  }

  // ----- when the steps it builds on are the profile's own

  /** All attempts are made under the same pipeline, or under none. */
  ghost predicate OneGroup(attempts: seq<Attempt>, names: seq<string>) {
    forall a <- attempts :: a.names == names || a.names == []
  }

  lemma {:induction false} OneGroupEarns(attempts: seq<Attempt>, names: seq<string>)
    requires Fits(attempts) && OneGroup(attempts, names)
    ensures |Earned(attempts)| <= |names| && Earned(attempts) == names[..|Earned(attempts)|]
    decreases |attempts|
  {
    if attempts != [] {
      var n := |attempts| - 1;
      var s, a := After(attempts[..n]), attempts[n];
      assert a in attempts;
      OneGroupEarns(attempts[..n], names);
      BreakPointIsEarned(attempts[..n]);
      TriedReaches(s, a);
      if Pauses(s, a) {
        Joined(names, Start(s, a), Stop(s, a));
      }
    }
  }

  /** As long as the group stays the same, a session passes only if every step of its profile has. */
  lemma {:induction false} OneGroupPassNeedsEveryStep(attempts: seq<Attempt>, names: seq<string>)
    requires Fits(attempts) && OneGroup(attempts, names) && attempts != [] && Last(attempts).result.StepPass?
    ensures attempts[|attempts| - 1].names == names && PassedInOrder(Calls(attempts), names)
  {
    var n := |attempts| - 1;
    var s, a := After(attempts[..n]), attempts[n];
    assert a in attempts;
    TriedReaches(s, a);
    OneGroupEarns(attempts[..n], names);
    OwnBasePasses(attempts);
  }

  /** A session whose break-point stands for `earned` is resumed under `names`, and passes. */
  ghost predicate PassesUnder(attempts: seq<Attempt>, earned: seq<string>, names: seq<string>) {
    && Fits(attempts) && attempts != [] && Earned(attempts[..|attempts| - 1]) == earned
    && attempts[|attempts| - 1].names == names && !attempts[|attempts| - 1].restart && Last(attempts).result.StepPass?
  }

  /**
   * Choosing another group leaves the break-point where it is. So a session that paused at `idx` under one
   * profile and is resumed under another runs all steps of the other in order, whatever happened on the
   * way, exactly if the two agree on the steps before the break-point.
   */
  lemma {:induction false} GroupSwitchIff(left: seq<string>, names: seq<string>, idx: nat)
    requires idx < |left| && idx < |names|
    ensures (forall attempts | PassesUnder(attempts, left[..idx], names) :: PassedInOrder(Calls(attempts), names))
       <==> names[..idx] == left[..idx]
  {
    if names[..idx] == left[..idx] {
      forall attempts | PassesUnder(attempts, left[..idx], names)
        ensures PassedInOrder(Calls(attempts), names)
      {
        OwnBasePasses(attempts);
      }
    } else {
      var attempts := GroupSwitchSkips(left, names, idx);
    }
  }

  /** Where they do not agree, some session passes without having run a step. */
  lemma {:induction false} GroupSwitchSkips(left: seq<string>, names: seq<string>, idx: nat)
    returns (attempts: seq<Attempt>)
    requires idx < |left| && idx < |names| && names[..idx] != left[..idx]
    ensures PassesUnder(attempts, left[..idx], names) && !PassedInOrder(Calls(attempts), names)
  {
    var i :| 0 <= i < idx && names[i] != left[i];
    var one := "";
    var users := Same(one, idx);
    var first, second := Paused(left, idx, users, one), Finished(names, "");
    attempts := [first, second];
    SwitchedSession(left, users, one, names, "", idx);
    if PassedInOrder(Calls(attempts), names) {
      var c := PassedWereCalled(Calls(attempts), names, i);
      CallsAreNamed(left, first.replies, 0);
      CallsAreNamed(names, second.replies, idx);
      assert false;
    }
  }

  function Same(user: string, n: nat): (users: seq<string>)
    ensures |users| == n && forall i :: 0 <= i < n ==> users[i] == user
  {
    seq(n, _ => user)
  }

  /**
   * Authenticators that pass before step `k` and after it, and ask for a code at it: the first for the given
   * users, the others for `last`.
   */
  function AskingAt(n: nat, k: nat, users: seq<string>, last: string): seq<Reply> {
    seq(n, i requires 0 <= i < n =>
      Reply(if i == k then StepPending else StepPass, false, if i < |users| then users[i] else last, "", false))
  }

  function Paused(left: seq<string>, idx: nat, users: seq<string>, user: string): Attempt {
    Attempt(left, user, AskingAt(|left|, idx, users, user), true, true)
  }

  function Finished(names: seq<string>, user: string): Attempt {
    Attempt(names, user, AskingAt(|names|, |names|, [], user), true, false)
  }

  lemma {:induction false} StopsWhereAsked(n: nat, k: nat, users: seq<string>, last: string, i: nat)
    requires i <= k <= n
    ensures Reached(AskingAt(n, k, users, last), i) == k
  {
    var replies := AskingAt(n, k, users, last);
    var r := Reached(replies, i);
    assert r < n ==> !Passes(replies[r]);
    assert k < r ==> Passes(replies[k]);
  }

  lemma {:induction false} NobodyAsserted(names: seq<string>, replies: seq<Reply>, i: nat, v: View)
    requires i <= |names| == |replies| && v.identity == "" && forall r <- replies :: r.identity == ""
    ensures Steps(names, replies, i, v).view.identity == ""
    decreases |names| - i
  {
    if i < |names| {
      assert replies[i] in replies;
      var next := Noted(v, names[i], replies[i]);
      assert next.identity == "";
      if Passes(replies[i]) {
        NobodyAsserted(names, replies, i + 1, next);
      }
    }
  }

  lemma {:induction false} SwitchedSession(left: seq<string>, users: seq<string>, one: string, names: seq<string>,
                                           user: string, idx: nat)
    requires |users| == idx < |left| && idx < |names|
    ensures var first, second := Paused(left, idx, users, one), Finished(names, user);
            && PassesUnder([first, second], left[..idx], names) && EarnedBy([first, second][..1]) == users
            && Calls([first, second]) == CallsFrom(left, first.replies, 0) + CallsFrom(names, second.replies, idx)
  {
    var first, second := Paused(left, idx, users, one), Finished(names, user);
    var s := FirstPause(left, idx, users, one);
    StopsWhereAsked(|names|, |names|, [], user, idx);
    StepsReach(names, second.replies, idx, s.view.(username := user));
    NobodyAsserted(names, second.replies, idx, s.view.(username := user));
    assert [first, second][..1] == [first];
    assert [first, second][1] == second;
  }

  lemma {:induction false} FirstPause(left: seq<string>, idx: nat, users: seq<string>, one: string)
    returns (s: Session)
    requires |users| == idx < |left|
    ensures var first := [Paused(left, idx, users, one)];
            && Fits(first) && After(first) == s && s.stepIdx == idx && s.view.identity == ""
            && Earned(first) == left[..idx] && EarnedBy(first) == users
            && Calls(first) == CallsFrom(left, AskingAt(|left|, idx, users, one), 0)
  {
    var first, start := Paused(left, idx, users, one), 0;
    StopsWhereAsked(|left|, idx, users, one, start);
    StepsReach(left, first.replies, start, NEW_SESSION.view);
    NobodyAsserted(left, first.replies, start, NEW_SESSION.view);
    assert [first][..0] == [];
    assert Users(first.replies)[..idx] == users;
    s := After([first]);
  }

  // ----- for whom the steps passed

  /** The calls for one user. */
  function For(calls: seq<Call>, user: string): seq<Call> {
    if calls == [] then []
    else
      var n := |calls| - 1;
      For(calls[..n], user) + if calls[n].user == user then [calls[n]] else []
  }

  lemma {:induction false} ForSnoc(calls: seq<Call>, c: Call, user: string)
    ensures For(calls + [c], user) == For(calls, user) + if c.user == user then [c] else []
  {
    SnocParts(calls, c);
  }

  lemma {:induction false} ForConcat(calls: seq<Call>, more: seq<Call>, user: string)
    ensures For(calls + more, user) == For(calls, user) + For(more, user)
    decreases |more|
  {
    if more == [] {
      assert calls + more == calls;
    } else {
      var n := |more| - 1;
      var c := more[n];
      InitAndLast(more);
      ConcatAssoc(calls, more[..n], [c]);
      ForConcat(calls, more[..n], user);
      ForSnoc(calls + more[..n], c, user);
      ConcatAssoc(For(calls, user), For(more[..n], user), if c.user == user then [c] else []);
    }
  }

  lemma {:induction false} InitAndLast<T>(s: seq<T>)
    requires s != []
    ensures s == s[..|s| - 1] + [s[|s| - 1]]
  {
  }

  lemma {:induction false} ForIsPart(calls: seq<Call>, user: string)
    ensures forall c <- For(calls, user) :: c in calls && c.user == user
  {
    if calls != [] {
      ForIsPart(calls[..|calls| - 1], user);
    }
  }

  /** All of them are the one user. */
  ghost predicate OnlyFor(users: seq<string>, user: string) {
    forall i :: 0 <= i < |users| ==> users[i] == user
  }

  /** What an attempt passes for one user advances what has passed for that user. */
  lemma {:induction false} AttemptAdvancesFor(before: seq<Call>, steps: seq<string>, names: seq<string>,
                                              replies: seq<Reply>, i: nat, user: string)
    requires i == |steps| <= |names| == |replies| && PassedInOrder(For(before, user), steps)
    requires OnlyFor(Users(replies)[i..Reached(replies, i)], user)
    ensures PassedInOrder(For(before + CallsFrom(names, replies, i), user), steps + names[i..Reached(replies, i)])
    decreases |replies| - i
  {
    if i < |replies| && Passes(replies[i]) {
      var call, k := Call(i, names[i], replies[i].username, true), Reached(replies, i);
      OnlyForRest(Users(replies), i, k, user);
      ForSnoc(before, call, user);
      OnePasses(For(before, user), steps, call);
      AttemptAdvancesFor(before + [call], steps + [names[i]], names, replies, i + 1, user);
      ConcatAssoc(before, [call], CallsFrom(names, replies, i + 1));
      ConcatAssoc(steps, [names[i]], names[i + 1..k]);
      HeadAndRest(names, i, k);
    } else {
      assert steps + names[i..i] == steps;
      ForConcat(before, CallsFrom(names, replies, i), user);
      MoreCalls(For(before, user), For(CallsFrom(names, replies, i), user), steps);
    }
  }

  lemma {:induction false} OnlyForRest(users: seq<string>, i: nat, k: nat, user: string)
    requires i < k <= |users| && OnlyFor(users[i..k], user)
    ensures users[i] == user && OnlyFor(users[i + 1..k], user)
  {
    var part := users[i..k];
    assert part[0] == users[i] && users[i + 1..k] == part[1..];
  }

  lemma {:induction false} OnlyForParts(s: seq<string>, t: seq<string>, user: string)
    ensures OnlyFor(s + t, user) <==> OnlyFor(s, user) && OnlyFor(t, user)
  {
    assert forall i :: 0 <= i < |s| ==> (s + t)[i] == s[i];
    assert forall i :: 0 <= i < |t| ==> (s + t)[|s| + i] == t[i];
  }

  /** If all steps the break-point stands for passed for one user, they passed in order for that user. */
  lemma {:induction false} EarnedForUser(attempts: seq<Attempt>, user: string)
    requires Fits(attempts) && OnlyFor(EarnedBy(attempts), user)
    ensures PassedInOrder(For(Calls(attempts), user), Earned(attempts))
    decreases |attempts|
  {
    if attempts != [] {
      var n := |attempts| - 1;
      var init, a := attempts[..n], attempts[n];
      var s := After(init);
      assert a in attempts;
      if Pauses(s, a) {
        OnlyForParts(if a.restart then [] else EarnedBy(init), GainedBy(s, a), user);
        TriedReaches(s, a);
        if !a.restart {
          EarnedForUser(init, user);
        }
        LastAdvancesFor(attempts, user);
      } else {
        EarnedForUser(init, user);
        var made := CallsFrom(a.names, a.replies, Start(s, a));
        ForConcat(Calls(init), made, user);
        MoreCalls(For(Calls(init), user), For(made, user), Earned(init));
      }
    }
  }

  lemma {:induction false} LastAdvancesFor(attempts: seq<Attempt>, user: string)
    requires Fits(attempts) && attempts != []
    requires var n := |attempts| - 1;
             var init, a := attempts[..n], attempts[n];
             assert a in attempts;
             && Start(After(init), a) < |a.names| && OnlyFor(GainedBy(After(init), a), user)
             && PassedInOrder(For(Calls(init), user), Base(attempts))
    ensures var n := |attempts| - 1;
            assert attempts[n] in attempts;
            PassedInOrder(For(Calls(attempts), user), Base(attempts) + Gained(After(attempts[..n]), attempts[n]))
  {
    var n := |attempts| - 1;
    var s, a := After(attempts[..n]), attempts[n];
    assert a in attempts;
    BreakPointIsEarned(attempts[..n]);
    AttemptAdvancesFor(Calls(attempts[..n]), Base(attempts), a.names, a.replies, Start(s, a), user);
  }

  /** For whom the steps passed that the last attempt builds on. */
  ghost function BaseBy(attempts: seq<Attempt>): seq<string>
    requires Fits(attempts) && attempts != []
  {
    var n := |attempts| - 1;
    if attempts[n].restart then [] else EarnedBy(attempts[..n])
  }

  /** All steps of the last attempt are for the user. */
  ghost predicate LastFor(attempts: seq<Attempt>, user: string)
    requires Fits(attempts) && attempts != []
  {
    var n := |attempts| - 1;
    assert attempts[n] in attempts;
    OnlyFor(GainedBy(After(attempts[..n]), attempts[n]), user)
  }

  /**
   * If the steps an attempt builds on and its own were for one user, it passes only if all of these passed for
   * that user, in order.
   */
  lemma {:induction false} PassForUserNeedsEveryStep(attempts: seq<Attempt>, user: string)
    requires Fits(attempts) && attempts != [] && Last(attempts).result.StepPass?
    requires OnlyFor(BaseBy(attempts), user) && LastFor(attempts, user)
    ensures var names, start := attempts[|attempts| - 1].names, |Base(attempts)|;
            start < |names| && PassedInOrder(For(Calls(attempts), user), Base(attempts) + names[start..])
  {
    var n := |attempts| - 1;
    var s, a := After(attempts[..n]), attempts[n];
    assert a in attempts;
    BreakPointIsEarned(attempts[..n]);
    if !a.restart {
      EarnedForUser(attempts[..n], user);
    }
    TriedReaches(s, a);
    LastAdvancesFor(attempts, user);
    ToTheEnd(a.names, Start(s, a));
  }

  lemma {:induction false} OwnBasePassesFor(attempts: seq<Attempt>, user: string)
    requires Fits(attempts) && attempts != [] && Last(attempts).result.StepPass?
    requires OnlyFor(BaseBy(attempts), user) && LastFor(attempts, user)
    requires Base(attempts) <= attempts[|attempts| - 1].names
    ensures PassedInOrder(For(Calls(attempts), user), attempts[|attempts| - 1].names)
  {
    PassForUserNeedsEveryStep(attempts, user);
    PrefixAndRest(Base(attempts), attempts[|attempts| - 1].names);
  }

  /**
   * Another user name or another group on a paused session leaves the break-point where it is. So a session
   * whose break-point some steps led to, passed for some users, and that is resumed for `user` under `names` and
   * passes, has run every step of that profile for that user, in order, whatever happened on the way, exactly
   * if those steps are the profile's own and passed for that very user.
   */
  lemma {:induction false} UserSwitchIff(left: seq<string>, users: seq<string>, names: seq<string>, user: string,
                                         idx: nat)
    requires |users| == idx < |left| && idx < |names|
    ensures (forall attempts | PassesUnder(attempts, left[..idx], names) && LastFor(attempts, user)
                               && EarnedBy(attempts[..|attempts| - 1]) == users ::
               PassedInOrder(For(Calls(attempts), user), names))
       <==> names[..idx] == left[..idx] && OnlyFor(users, user)
  {
    if names[..idx] == left[..idx] && OnlyFor(users, user) {
      forall attempts | PassesUnder(attempts, left[..idx], names) && LastFor(attempts, user)
                        && EarnedBy(attempts[..|attempts| - 1]) == users
        ensures PassedInOrder(For(Calls(attempts), user), names)
      {
        OwnBasePassesFor(attempts, user);
      }
    } else {
      var attempts := UserSwitchSkips(left, users, user, names, user, idx);
    }
  }

  /** Otherwise some session passes without a step having passed for the user. */
  lemma {:induction false} UserSwitchSkips(left: seq<string>, users: seq<string>, one: string, names: seq<string>,
                                           user: string, idx: nat)
    returns (attempts: seq<Attempt>)
    requires |users| == idx < |left| && idx < |names| && !(names[..idx] == left[..idx] && OnlyFor(users, user))
    ensures PassesUnder(attempts, left[..idx], names) && LastFor(attempts, user)
    ensures EarnedBy(attempts[..|attempts| - 1]) == users && !PassedInOrder(For(Calls(attempts), user), names)
    ensures attempts == [Paused(left, idx, users, one), Finished(names, user)]
  {
    var i :| 0 <= i < idx && (names[i] != left[i] || users[i] != user);
    var first, second := Paused(left, idx, users, one), Finished(names, user);
    attempts := [first, second];
    SwitchedSession(left, users, one, names, user, idx);
    SwitchedLast(left, users, one, names, user, idx);
    MissesStep(left, first.replies, names, second.replies, idx, i, user, Calls(attempts));
  }

  /** Calls among which none passes step `i` of the profile for the user. */
  lemma {:induction false} MissesStep(left: seq<string>, before: seq<Reply>, names: seq<string>, replies: seq<Reply>,
                                      idx: nat, i: nat, user: string, calls: seq<Call>)
    requires |left| == |before| && |names| == |replies| && i < idx < |left| && idx < |names|
    requires calls == CallsFrom(left, before, 0) + CallsFrom(names, replies, idx)
    requires names[i] != left[i] || before[i].username != user
    ensures !PassedInOrder(For(calls, user), names)
  {
    if PassedInOrder(For(calls, user), names) {
      var c := PassedWereCalled(For(calls, user), names, i);
      ForIsPart(calls, user);
      CallsAreNamed(left, before, 0);
      CallsAreNamed(names, replies, idx);
      assert false;
    }
  }

  lemma {:induction false} SwitchedLast(left: seq<string>, users: seq<string>, one: string, names: seq<string>,
                                        user: string, idx: nat)
    requires |users| == idx < |left| && idx < |names|
    requires Fits([Paused(left, idx, users, one), Finished(names, user)])
    ensures LastFor([Paused(left, idx, users, one), Finished(names, user)], user)
  {
    var both := [Paused(left, idx, users, one), Finished(names, user)];
    assert both[1] == Finished(names, user) && OnlyFor(Users(both[1].replies), user);
  }

  // ----- where authenticators leave the name they are given

  /** No step of the attempt replaces the request's user name. */
  predicate KeepsName(a: Attempt) {
    forall r <- a.replies :: r.username == a.username
  }

  /** Every attempt that passed some of the steps the break-point stands for was made under the name. */
  ghost predicate EarnedUnder(attempts: seq<Attempt>, user: string)
    requires Fits(attempts)
  {
    attempts == [] ||
    (var n := |attempts| - 1;
     var s, a := After(attempts[..n]), attempts[n];
     assert a in attempts;
     if Pauses(s, a)
     then (Gained(s, a) == [] || a.username == user) && (a.restart || EarnedUnder(attempts[..n], user))
     else EarnedUnder(attempts[..n], user))
  }

  /** Then whom the steps passed for is who made the attempts. */
  lemma {:induction false} EarnedByIsUnder(attempts: seq<Attempt>, user: string)
    requires Fits(attempts) && forall a <- attempts :: KeepsName(a)
    ensures OnlyFor(EarnedBy(attempts), user) <==> EarnedUnder(attempts, user)
    decreases |attempts|
  {
    if attempts != [] {
      var n := |attempts| - 1;
      var init, a := attempts[..n], attempts[n];
      var s := After(init);
      assert a in attempts && forall x <- init :: x in attempts;
      EarnedByIsUnder(init, user);
      if Pauses(s, a) {
        TriedReaches(s, a);
        GainedUnder(s, a, user);
        OnlyForParts(if a.restart then [] else EarnedBy(init), GainedBy(s, a), user);
      }
    }
  }

  lemma {:induction false} GainedUnder(s: Session, a: Attempt, user: string)
    requires |a.replies| == |a.names| && KeepsName(a) && Start(s, a) < |a.names|
    ensures OnlyFor(GainedBy(s, a), user) <==> Gained(s, a) == [] || a.username == user
  {
    var users := GainedBy(s, a);
    assert |users| == |Gained(s, a)|;
    forall i | 0 <= i < |users|
      ensures users[i] == a.username
    {
      assert users[i] == a.replies[Start(s, a) + i].username;
    }
    if OnlyFor(users, user) && users != [] {
      assert users[0] == user;
    }
  }

  /**
   * Where no authenticator replaces a name, a session that passes as `user` has passed every step of its
   * profile for that user if all attempts its break-point was earned in were made under that name.
   */
  lemma {:induction false} OneUserPassNeedsEveryStep(attempts: seq<Attempt>, names: seq<string>, user: string)
    requires Fits(attempts) && OneGroup(attempts, names) && attempts != [] && Last(attempts).result.StepPass?
    requires forall a <- attempts :: KeepsName(a)
    requires attempts[|attempts| - 1].username == user
    requires attempts[|attempts| - 1].restart || EarnedUnder(attempts[..|attempts| - 1], user)
    ensures PassedInOrder(For(Calls(attempts), user), names)
  {
    var n := |attempts| - 1;
    var s, a := After(attempts[..n]), attempts[n];
    assert a in attempts && forall x <- attempts[..n] :: x in attempts;
    TriedReaches(s, a);
    OneGroupEarns(attempts[..n], names);
    EarnedByIsUnder(attempts[..n], user);
    GainedUnder(s, a, user);
    OwnBasePassesFor(attempts, user);
  }

  /** A session as in `PassesUnder`, without a replaced name, whose break-point was earned under one name. */
  ghost predicate HandedOver(attempts: seq<Attempt>, earned: seq<string>, names: seq<string>, one: string,
                             user: string) {
    && PassesUnder(attempts, earned, names) && (forall a <- attempts :: KeepsName(a))
    && EarnedUnder(attempts[..|attempts| - 1], one) && attempts[|attempts| - 1].username == user
  }

  lemma {:induction false} HandedOverFor(attempts: seq<Attempt>, earned: seq<string>, names: seq<string>, one: string,
                                         user: string)
    requires HandedOver(attempts, earned, names, one, user)
    ensures OnlyFor(EarnedBy(attempts[..|attempts| - 1]), one) && LastFor(attempts, user)
    ensures |EarnedBy(attempts[..|attempts| - 1])| == |earned|
  {
    var n := |attempts| - 1;
    var s, a := After(attempts[..n]), attempts[n];
    assert a in attempts && forall x <- attempts[..n] :: x in attempts;
    TriedReaches(s, a);
    EarnedByIsUnder(attempts[..n], one);
    EarnedByEach(attempts[..n]);
    GainedUnder(s, a, user);
  }

  lemma {:induction false} EarnedByEach(attempts: seq<Attempt>)
    requires Fits(attempts)
    ensures |EarnedBy(attempts)| == |Earned(attempts)|
    decreases |attempts|
  {
    if attempts != [] {
      var n := |attempts| - 1;
      var init, a := attempts[..n], attempts[n];
      var s := After(init);
      assert a in attempts;
      EarnedByEach(init);
      GainedByEach(s, a);
      var steps, users := if a.restart then [] else Earned(init), if a.restart then [] else EarnedBy(init);
      assert Earned(attempts) == if Pauses(s, a) then steps + Gained(s, a) else Earned(init);
      assert EarnedBy(attempts) == if Pauses(s, a) then users + GainedBy(s, a) else EarnedBy(init);
    }
  }

  lemma {:induction false} GainedByEach(s: Session, a: Attempt)
    requires |a.replies| == |a.names|
    ensures |GainedBy(s, a)| == |Gained(s, a)|
  {
  }

  /**
   * One user passes steps and is asked for a code; another name resumes the session, and the steps behind let
   * that user through. The steps before never passed for that user.
   */
  lemma {:induction false} TwoUsersPass(names: seq<string>, one: string, other: string, idx: nat)
    returns (attempts: seq<Attempt>)
    requires 0 < idx < |names| && one != other
    ensures HandedOver(attempts, names[..idx], names, one, other) && |attempts| == 2
    ensures !PassedInOrder(For(Calls(attempts), other), names)
  {
    var users := Same(one, idx);
    assert users[0] != other;
    attempts := UserSwitchSkips(names, users, one, names, other, idx);
    var first, second := Paused(names, idx, users, one), Finished(names, other);
    assert KeepsName(first) && KeepsName(second);
    assert attempts[..1] == [first] && attempts[1] == second;
    EarnedByIsUnder([first], one);
  }

  /**
   * So, where no authenticator replaces a name: a break-point earned under one name and resumed under another
   * makes a pass mean that every step passed for the latter exactly if nothing was earned or the names are the same.
   */
  lemma {:induction false} HandOverIff(names: seq<string>, one: string, user: string, idx: nat)
    requires idx < |names|
    ensures (forall attempts | HandedOver(attempts, names[..idx], names, one, user) ::
               PassedInOrder(For(Calls(attempts), user), names))
       <==> idx == 0 || one == user
  {
    if idx == 0 || one == user {
      forall attempts | HandedOver(attempts, names[..idx], names, one, user)
        ensures PassedInOrder(For(Calls(attempts), user), names)
      {
        HandedOverFor(attempts, names[..idx], names, one, user);
        OwnBasePassesFor(attempts, user);
      }
    } else {
      var attempts := TwoUsersPass(names, one, user, idx);
    }
  }

  // ----- what is recorded

  /** The record holds the steps the break-point stands for and whatever is stale. */
  lemma {:induction false} RecordGrows(attempts: seq<Attempt>)
    requires Fits(attempts)
    ensures var passed, earned := After(attempts).view.passed, Counted(Earned(attempts));
            |passed| == |earned| + Stale(attempts) && (Stale(attempts) == 0 ==> passed == earned)
    decreases |attempts|
  {
    if attempts != [] {
      var n := |attempts| - 1;
      var s, a := After(attempts[..n]), attempts[n];
      assert a in attempts;
      RecordGrows(attempts[..n]);
      TriedReaches(s, a);
      CountedConcat(Base(attempts), Gained(s, a));
      NothingAdded(s.view.passed, Counted(Gained(s, a)));
      NothingBefore(s.view.passed, Counted(Gained(s, a)));
    }
  }

  lemma {:induction false} NothingAdded(s: seq<string>, t: seq<string>)
    ensures |t| == 0 ==> s + t == s
  {
  }

  lemma {:induction false} NothingBefore(s: seq<string>, t: seq<string>)
    ensures |s| == 0 ==> s + t == t
  {
  }

  /** What the record holds before the last attempt beyond the steps that attempt builds on. */
  ghost function StaleBefore(attempts: seq<Attempt>): nat
    requires Fits(attempts) && attempts != []
  {
    var init := attempts[..|attempts| - 1];
    if attempts[|attempts| - 1].restart then |After(init).view.passed| else Stale(init)
  }

  /**
   * When a session passes under a profile whose own steps it builds on, its record is the profile's steps once
   * each in order, without the forced password change, exactly if the attempts before recorded nothing that the
   * break-point does not stand for: none that recorded a step without having its pause saved, and none that
   * started again with a record.
   */
  lemma {:induction false} RecordExactIff(profile: seq<string>, attempts: seq<Attempt>)
    requires Fits(attempts) && attempts != [] && attempts[|attempts| - 1].names == WithForcePwd(profile)
    requires Last(attempts).result.StepPass?
    requires Base(attempts) <= WithForcePwd(profile)
    ensures After(attempts).view.passed == Counted(profile) <==> StaleBefore(attempts) == 0
  {
    var n := |attempts| - 1;
    var s, a := After(attempts[..n]), attempts[n];
    assert a in attempts;
    var base, names := Base(attempts), a.names;
    ForcePwdIsNotCounted(profile);
    BreakPointIsEarned(attempts[..n]);
    RecordGrows(attempts[..n]);
    TriedReaches(s, a);
    CountedConcat(base, Gained(s, a));
    ToTheEnd(names, Start(s, a));
    PrefixAndRest(base, names);
    NothingBefore(s.view.passed, Counted(Gained(s, a)));
  }

  // ----- the code's record after a failed or a repeated attempt

  /**
   * A session that is resumed after a failed attempt records a step twice: a first step passes, a second
   * fails, and the next attempt starts again at the first.
   */
  lemma {:induction false} FailedAttemptRecordsTwice(user: string)
    ensures var names := ["ldap", "otp"];
            var pass, fail := Reply(StepPass, false, user, "", false), Reply(StepFail, true, user, "", false);
            var attempts := [Attempt(names, user, [pass, fail], true, true),
                             Attempt(names, user, [pass, pass], true, false)];
            && Fits(attempts)
            && Last(attempts).result.StepPass?
            && After(attempts).view.passed == ["ldap", "ldap", "otp"]
  {
    var names := ["ldap", "otp"];
    var pass, fail := Reply(StepPass, false, user, "", false), Reply(StepFail, true, user, "", false);
    var first := Attempt(names, user, [pass, fail], true, true);
    var second := Attempt(names, user, [pass, pass], true, false);
    var s1 := Continued(NEW_SESSION, first);
    TwoSteps(names, [pass, fail], View(user, "", []));
    TwoSteps(names, [pass, pass], s1.view.(username := user));
    assert [first, second][..1] == [first] && [first][..0] == [];
    assert After([first]) == s1;
  }

  /**
   * So does one that is started again while it is paused, although every pause is saved: a password passes
   * and a code is asked for; the login starts again and asks for a code again; then the code comes.
   */
  lemma {:induction false} RestartRecordsTwice(user: string)
    ensures var names := WithForcePwd(["local", "sms"]);
            var pass, ask := Reply(StepPass, false, user, "", false), Reply(StepPending, false, user, "", true);
            var again := Attempt(names, user, [pass, pass, ask], true, true);
            var attempts := [again, again, Attempt(names, user, [pass, pass, pass], true, false)];
            && Fits(attempts)
            && Last(attempts).result.StepPass?
            && After(attempts).view.passed == ["local", "local", "sms"]
  {
    var names := ["local", FORCE_PWD, "sms"];
    assert WithForcePwd(["local", "sms"]) == names;
    var pass, ask := Reply(StepPass, false, user, "", false), Reply(StepPending, false, user, "", true);
    var again := Attempt(names, user, [pass, pass, ask], true, true);
    var last := Attempt(names, user, [pass, pass, pass], true, false);
    var s := AskedTwice(names, user, [pass, pass, ask]);
    assert [again, again, last][..2] == [again, again];
    var v := s.view.(username := user);
    assert Steps(names, last.replies, 2, v) == Steps(names, last.replies, 3, Noted(v, names[2], pass));
  }

  lemma {:induction false} AskedTwice(names: seq<string>, user: string, replies: seq<Reply>) returns (s: Session)
    requires |names| == |replies| == 3 && names[0] != FORCE_PWD && names[1] == FORCE_PWD
    requires Passes(replies[0]) && Passes(replies[1]) && !replies[2].err && replies[2].result.StepPending?
    ensures var again := Attempt(names, user, replies, true, true);
            && Fits([again, again]) && After([again, again]) == s
            && s.stepIdx == 2 && s.view.passed == [names[0], names[0]]
  {
    var again := Attempt(names, user, replies, true, true);
    assert [again, again][..1] == [again] && [again][..0] == [];
    var s1 := Continued(NEW_SESSION, again);
    AskedAtThird(names, replies, View(user, "", []));
    AskedAtThird(names, replies, s1.view.(username := user));
    assert After([again]) == s1;
    s := Continued(s1, again);
  }

  lemma {:induction false} AskedAtThird(names: seq<string>, replies: seq<Reply>, v: View)
    requires |names| == |replies| == 3 && names[0] != FORCE_PWD && names[1] == FORCE_PWD
    requires Passes(replies[0]) && Passes(replies[1]) && !replies[2].err && replies[2].result.StepPending?
    ensures Reached(replies, 0) == 2
    ensures var out := Steps(names, replies, 0, v);
            out.result.StepPending? && out.view.passed == v.passed + [names[0]]
  {
    var v1 := Noted(v, names[0], replies[0]);
    assert Steps(names, replies, 0, v) == Steps(names, replies, 1, v1);
    var v2 := Noted(v1, names[1], replies[1]);
    assert Steps(names, replies, 1, v1) == Steps(names, replies, 2, v2);
    assert Reached(replies, 1) == Reached(replies, 2) == 2;
  }

  lemma {:induction false} TwoSteps(names: seq<string>, replies: seq<Reply>, v: View)
    requires |names| == |replies| == 2 && names[0] != FORCE_PWD && names[1] != FORCE_PWD
    requires Passes(replies[0]) && replies[1].identity == "" && (replies[1].err || replies[1].result.StepPass?)
    ensures var out := Steps(names, replies, 0, v);
            && out.result == (if replies[1].err then StepFail else StepPass)
            && out.view.passed == v.passed + (if replies[1].err then [names[0]] else [names[0], names[1]])
  {
    var v1 := Noted(v, names[0], replies[0]);
    assert Steps(names, replies, 0, v) == Steps(names, replies, 1, v1);
    if Passes(replies[1]) {
      var v2 := Noted(v1, names[1], replies[1]);
      assert Steps(names, replies, 1, v1) == Steps(names, replies, 2, v2);
    }
  }
}

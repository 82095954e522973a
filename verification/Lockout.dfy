/** The sign-in lockout shared by the password step and the second-factor step. */
module Lockout {
  import opened Arithmetic
  import opened Wrappers

  datatype Policy = Policy(maxFailedAttempts: int, lockoutDuration: int)

  datatype Provider = Local | Ldap | Oidc

  /** What the password check itself says. */
  datatype Verdict = Right | Wrong | Unavailable

  datatype Reason = Success | InvalidCredentials | LockedOut | ProviderUnavailable

  /** The lockout fields of an account. */
  datatype Counter = Counter(failed: nat, lockedUntil: Option<int>)

  predicate IsLockedOut(c: Counter, now: int) {
    c.lockedUntil.Some? && c.lockedUntil.value > now
  }

  function Registered(p: Policy, c: Counter, now: int): Counter {
    Counter(c.failed + 1, if c.failed + 1 >= p.maxFailedAttempts then Some(now + p.lockoutDuration) else c.lockedUntil)
  }

  const CLEAR := Counter(0, None)

  /** What a step leaves of the counter: nothing happens while locked; otherwise a
      wrong answer is registered when it is decided, a right one clears. */
  function After(p: Policy, c: Counter, checkedAt: int, decidedAt: int, verdict: Verdict): Counter {
    if IsLockedOut(c, checkedAt) then c
    else
      match verdict
      case Right => CLEAR
      case Wrong => Registered(p, c, decidedAt)
      case Unavailable => c
  }

  class Account {
    const isActive: bool
    const provider: Provider
    var failedLoginAttempts: nat
    var lockedUntil: Option<int>
    var unusedRecoveryCodes: set<string>

    constructor (isActive: bool, provider: Provider, codes: set<string>)
      ensures this.isActive == isActive && this.provider == provider
      ensures Count() == CLEAR && unusedRecoveryCodes == codes
    {
      this.isActive, this.provider := isActive, provider;
      failedLoginAttempts, lockedUntil, unusedRecoveryCodes := 0, None, codes;
    }

    function Count(): Counter
      reads this
    {
      Counter(failedLoginAttempts, lockedUntil)
    }

    method RegisterFailedAttempt(p: Policy, now: int)
      modifies this`failedLoginAttempts, this`lockedUntil
      ensures Count() == Registered(p, old(Count()), now)
    {
      failedLoginAttempts := failedLoginAttempts + 1;
      if failedLoginAttempts >= p.maxFailedAttempts {
        lockedUntil := Some(now + p.lockoutDuration);
      }
    }

    method ResetFailedAttempts()
      modifies this`failedLoginAttempts, this`lockedUntil
      ensures Count() == CLEAR
    {
      if failedLoginAttempts > 0 || lockedUntil.Some? {
        failedLoginAttempts := 0;
        lockedUntil := None;
      }
    }

    /** The password step. `verdict` is what verifying would answer; a local check is
        never unavailable. */
    method CheckPassword(p: Policy, checkedAt: int, decidedAt: int, verdict: Verdict) returns (reason: Reason)
      requires provider == Local ==> verdict != Unavailable
      modifies this`failedLoginAttempts, this`lockedUntil
      ensures !isActive || provider == Oidc ==> reason == InvalidCredentials && Count() == old(Count())
      ensures isActive && provider != Oidc ==>
                (reason == LockedOut <==> old(lockedUntil).Some? && checkedAt < old(lockedUntil).value)
      ensures isActive && provider != Oidc ==>
                && Count() == After(p, old(Count()), checkedAt, decidedAt, verdict)
                && reason == (if IsLockedOut(old(Count()), checkedAt) then LockedOut
                              else match verdict case Right => Success
                                                 case Wrong => InvalidCredentials
                                                 case Unavailable => ProviderUnavailable)
    {
      if !isActive || provider == Oidc {
        return InvalidCredentials;
      }
      if IsLockedOut(Count(), checkedAt) {
        return LockedOut;
      }
      if verdict == Unavailable {
        return ProviderUnavailable;
      }
      if verdict == Wrong {
        RegisterFailedAttempt(p, decidedAt);
        return InvalidCredentials;
      }
      ResetFailedAttempts();
      reason := Success;
    }

    /** A recovery code works once. */
    method ConsumeRecoveryCode(code: string) returns (ok: bool)
      modifies this`unusedRecoveryCodes
      ensures ok <==> code in old(unusedRecoveryCodes)
      ensures unusedRecoveryCodes == old(unusedRecoveryCodes) - {code}
    {
      ok := code in unusedRecoveryCodes;
      if ok {
        unusedRecoveryCodes := unusedRecoveryCodes - {code};
      }
    }

    /** The second-factor step: a time-based code (`isCurrent` says whether `code` is
        the current one) or an unused recovery code. */
    method VerifyTotpStep(p: Policy, checkedAt: int, decidedAt: int, code: string, isCurrent: bool) returns (ok: bool)
      modifies this`failedLoginAttempts, this`lockedUntil, this`unusedRecoveryCodes
      ensures old(lockedUntil).Some? && checkedAt < old(lockedUntil).value ==>
                !ok && Count() == old(Count()) && unusedRecoveryCodes == old(unusedRecoveryCodes)
      ensures old(lockedUntil).None? || checkedAt >= old(lockedUntil).value ==>
                && (ok <==> code != "" && (isCurrent || code in old(unusedRecoveryCodes)))
                && Count() == After(p, old(Count()), checkedAt, decidedAt, if ok then Right else Wrong)
                && unusedRecoveryCodes == old(unusedRecoveryCodes) - (if code != "" && !isCurrent then {code} else {})
    {
      if IsLockedOut(Count(), checkedAt) {
        return false;
      }
      ok := code != "" && isCurrent;
      if !ok && code != "" {
        ok := ConsumeRecoveryCode(code);
      }
      if ok {
        ResetFailedAttempts();
        return true;
      }
      RegisterFailedAttempt(p, decidedAt);
      ok := false;
    }
  }

  // ---- Runs of attempts -------------------------------------------------------------------

  /** One attempt at either step. */
  datatype Attempt = Attempt(checkedAt: int, decidedAt: int, verdict: Verdict)

  /** Attempts one after the other, in time. */
  predicate InOrder(attempts: seq<Attempt>) {
    && (forall i :: 0 <= i < |attempts| ==> attempts[i].checkedAt <= attempts[i].decidedAt)
    && (forall i, j :: 0 <= i < j < |attempts| ==> attempts[i].decidedAt <= attempts[j].checkedAt)
  }

  function Run(p: Policy, attempts: seq<Attempt>): Counter {
    if attempts == [] then CLEAR
    else
      var a := attempts[|attempts| - 1];
      After(p, Run(p, attempts[..|attempts| - 1]), a.checkedAt, a.decidedAt, a.verdict)
  }

  /** When each counted failure was registered. */
  function FailureTimes(p: Policy, attempts: seq<Attempt>): seq<int> {
    if attempts == [] then []
    else
      var before, a := attempts[..|attempts| - 1], attempts[|attempts| - 1];
      if a.verdict == Wrong && !IsLockedOut(Run(p, before), a.checkedAt)
      then FailureTimes(p, before) + [a.decidedAt] else FailureTimes(p, before)
  }

  /** No attempt in the run succeeded. */
  predicate NoSuccess(p: Policy, attempts: seq<Attempt>) {
    attempts == [] ||
    var before, a := attempts[..|attempts| - 1], attempts[|attempts| - 1];
    NoSuccess(p, before) && (a.verdict == Right ==> IsLockedOut(Run(p, before), a.checkedAt))
  }

  function Threshold(p: Policy): int { if p.maxFailedAttempts < 1 then 1 else p.maxFailedAttempts }

  /** From the threshold on, every counted failure comes a lockout after the one
      before it: the counter is not cleared when a lock expires. */
  lemma {:induction false} FailuresApart(p: Policy, attempts: seq<Attempt>)
    requires InOrder(attempts) && NoSuccess(p, attempts)
    ensures var c, times := Run(p, attempts), FailureTimes(p, attempts);
            && c == Counter(|times|, if |times| >= Threshold(p) then Some(times[|times| - 1] + p.lockoutDuration)
                                     else None)
            && (forall i :: 0 <= i < |times| ==> attempts != [] && times[i] <= attempts[|attempts| - 1].decidedAt)
            && (forall i, j :: 0 <= i < j < |times| ==> times[i] <= times[j])
            && (forall i, j :: Threshold(p) - 1 <= i < j < |times| && j == i + 1 ==>
                  times[j] - times[i] >= p.lockoutDuration)
  {
    if attempts != [] {
      var before := attempts[..|attempts| - 1];
      FailuresApart(p, before);
    }
  }

  lemma {:induction false} GapsAddUp(times: seq<int>, first: nat, d: int, n: nat)
    requires first < n <= |times|
    requires forall i, j :: first <= i < j < |times| && j == i + 1 ==> times[j] - times[i] >= d
    ensures times[n - 1] - times[first] >= (n - 1 - first) * d
  {
    if n - 1 > first {
      GapsAddUp(times, first, d, n - 1);
      assert (n - 1 - first) * d == (n - 2 - first) * d + d;
    }
  }

  /** Under a fixed policy, the failures counted in a run without success number at
      most the threshold plus the run's span divided by the lockout duration. */
  lemma FailureBound(p: Policy, attempts: seq<Attempt>)
    requires InOrder(attempts) && NoSuccess(p, attempts)
    ensures var times := FailureTimes(p, attempts);
            |times| > Threshold(p) ==>
              (|times| - Threshold(p)) * p.lockoutDuration <= times[|times| - 1] - times[0]
  {
    var times := FailureTimes(p, attempts);
    FailuresApart(p, attempts);
    if |times| > Threshold(p) {
      GapsAddUp(times, Threshold(p) - 1, p.lockoutDuration, |times|);
    }
  }

  /** Every attempt checked before the lock runs out leaves everything as it was: nothing is
      evaluated or counted, and the lock is not prolonged. */
  lemma {:induction false} LockedMeansUntouched(p: Policy, attempts: seq<Attempt>, more: seq<Attempt>)
    requires var c := Run(p, attempts);
             c.lockedUntil.Some? && forall i :: 0 <= i < |more| ==> more[i].checkedAt < c.lockedUntil.value
    ensures Run(p, attempts + more) == Run(p, attempts)
    ensures FailureTimes(p, attempts + more) == FailureTimes(p, attempts)
    ensures Successes(p, attempts + more) == Successes(p, attempts)
  {
    if more == [] {
      assert attempts + more == attempts;
    } else {
      LockedMeansUntouched(p, attempts, more[..|more| - 1]);
      assert (attempts + more)[..|attempts + more| - 1] == attempts + more[..|more| - 1];
    }
  }

  /** How many right answers were evaluated; each clears the counter. */
  function Successes(p: Policy, attempts: seq<Attempt>): nat {
    if attempts == [] then 0
    else
      var before, a := attempts[..|attempts| - 1], attempts[|attempts| - 1];
      Successes(p, before) + if a.verdict == Right && !IsLockedOut(Run(p, before), a.checkedAt) then 1 else 0
  }

  // ---- What becomes of each attempt, told without the counter --------------------------------

  datatype Outcome = Refused | Counted(at: int) | Succeeded | Unanswered

  /** A success ends a streak, a counted failure adds to it. */
  function Extended(streak: seq<int>, last: Outcome): seq<int> {
    if last.Succeeded? then [] else if last.Counted? then streak + [last.at] else streak
  }

  /** The failures counted since the last success. */
  function Streak(past: seq<Outcome>): seq<int> {
    if past == [] then [] else Extended(Streak(past[..|past| - 1]), past[|past| - 1])
  }

  /** They have reached the threshold, and the last of them is less than a lockout ago. */
  predicate Locks(p: Policy, past: seq<Outcome>, now: int) {
    var streak := Streak(past);
    |streak| >= Threshold(p) && now < streak[|streak| - 1] + p.lockoutDuration
  }

  function Next(p: Policy, past: seq<Outcome>, a: Attempt): Outcome {
    if Locks(p, past, a.checkedAt) then Refused
    else
      match a.verdict
      case Right => Succeeded
      case Wrong => Counted(a.decidedAt)
      case Unavailable => Unanswered
  }

  function Outcomes(p: Policy, attempts: seq<Attempt>): seq<Outcome> {
    if attempts == [] then []
    else
      var past := Outcomes(p, attempts[..|attempts| - 1]);
      past + [Next(p, past, attempts[|attempts| - 1])]
  }

  /** The times of all counted failures. */
  function CountedTimes(past: seq<Outcome>): seq<int> {
    if past == [] then []
    else
      var last := past[|past| - 1];
      CountedTimes(past[..|past| - 1]) + if last.Counted? then [last.at] else []
  }

  function SucceededCount(past: seq<Outcome>): nat {
    if past == [] then 0
    else SucceededCount(past[..|past| - 1]) + if past[|past| - 1] == Succeeded then 1 else 0
  }

  /** The counter is the streak, locked from the threshold on until a lockout after its last
      failure. */
  predicate CountsStreak(p: Policy, c: Counter, streak: seq<int>) {
    c == Counter(|streak|, if |streak| >= Threshold(p) then Some(streak[|streak| - 1] + p.lockoutDuration) else None)
  }

  /** An attempt is refused exactly while the streak locks, and every other one is evaluated:
      the two stored fields say no less and no more than that. */
  lemma {:induction false} RunTells(p: Policy, attempts: seq<Attempt>)
    ensures var past := Outcomes(p, attempts);
            && CountsStreak(p, Run(p, attempts), Streak(past))
            && FailureTimes(p, attempts) == CountedTimes(past) && Successes(p, attempts) == SucceededCount(past)
  {
    if attempts != [] {
      var before := attempts[..|attempts| - 1];
      var past := Outcomes(p, before);
      RunTells(p, before);
      StepTells(p, Run(p, before), past, attempts[|attempts| - 1]);
      OneMoreOutcome(past, Next(p, past, attempts[|attempts| - 1]));
    }
  }

  lemma StepTells(p: Policy, c: Counter, past: seq<Outcome>, a: Attempt)
    requires CountsStreak(p, c, Streak(past))
    ensures IsLockedOut(c, a.checkedAt) <==> Locks(p, past, a.checkedAt)
    ensures CountsStreak(p, After(p, c, a.checkedAt, a.decidedAt, a.verdict), Extended(Streak(past), Next(p, past, a)))
  {
  }

  lemma OneMoreOutcome(past: seq<Outcome>, last: Outcome)
    ensures Streak(past + [last]) == Extended(Streak(past), last)
    ensures CountedTimes(past + [last]) == CountedTimes(past) + if last.Counted? then [last.at] else []
    ensures SucceededCount(past + [last]) == SucceededCount(past) + if last == Succeeded then 1 else 0
  {
    assert (past + [last])[..|past|] == past;
  }

  /** The last failure of the streak is the last one counted. */
  lemma {:induction false} StreakEnds(past: seq<Outcome>)
    ensures var streak, times := Streak(past), CountedTimes(past);
            streak != [] ==> times != [] && times[|times| - 1] == streak[|streak| - 1]
  {
    if past != [] {
      StreakEnds(past[..|past| - 1]);
    }
  }

  /** A lock ends: an attempt checked a lockout or more after the last counted failure is
      evaluated, and so is one before any failure. */
  lemma LockEnds(p: Policy, attempts: seq<Attempt>, a: Attempt)
    requires var times := FailureTimes(p, attempts);
             times == [] || a.checkedAt >= times[|times| - 1] + p.lockoutDuration
    ensures var c, c' := Run(p, attempts), Run(p, attempts + [a]);
            match a.verdict
            case Right => c' == CLEAR && Successes(p, attempts + [a]) == Successes(p, attempts) + 1
            case Wrong => c'.failed == c.failed + 1 &&
                          FailureTimes(p, attempts + [a]) == FailureTimes(p, attempts) + [a.decidedAt]
            case Unavailable => c' == c
  {
    RunTells(p, attempts);
    StreakEnds(Outcomes(p, attempts));
    assert (attempts + [a])[..|attempts|] == attempts;
  }

  // ---- Runs with successes -------------------------------------------------------------------

  /** How many failures were counted with the counter at the threshold already. */
  function Extras(p: Policy, attempts: seq<Attempt>): nat {
    if attempts == [] then 0
    else
      var before, a := attempts[..|attempts| - 1], attempts[|attempts| - 1];
      var c := Run(p, before);
      Extras(p, before) +
      if a.verdict == Wrong && !IsLockedOut(c, a.checkedAt) && c.failed >= Threshold(p) then 1 else 0
  }

  function Below(p: Policy, failed: nat): nat { if failed < Threshold(p) then failed else Threshold(p) }

  /** Between two successes there are at most as many other failures as the threshold. */
  lemma {:induction false} FailuresCounted(p: Policy, attempts: seq<Attempt>)
    ensures |FailureTimes(p, attempts)| <=
            Threshold(p) * Successes(p, attempts) + Below(p, Run(p, attempts).failed) + Extras(p, attempts)
  {
    if attempts != [] {
      var before := attempts[..|attempts| - 1];
      FailuresCounted(p, before);
      Distribute(Threshold(p), Successes(p, before));
    }
  }

  lemma Distribute(t: int, n: int)
    ensures t * (n + 1) == t * n + t
  {
  }

  /** From the threshold on, a lock runs for a lockout from the last failure. */
  ghost predicate Timed(p: Policy, attempts: seq<Attempt>) {
    var c, times := Run(p, attempts), FailureTimes(p, attempts);
    && (if c.failed < Threshold(p) then c.lockedUntil.None?
        else times != [] && c.lockedUntil == Some(times[|times| - 1] + p.lockoutDuration))
    && (forall i :: 0 <= i < |times| ==> attempts != [] && times[i] <= attempts[|attempts| - 1].decidedAt)
  }

  lemma {:induction false} RunTimed(p: Policy, attempts: seq<Attempt>)
    requires InOrder(attempts)
    ensures Timed(p, attempts)
  {
    if attempts != [] {
      RunTimed(p, attempts[..|attempts| - 1]);
    }
  }

  /** The time from the first failure to the last. */
  function Span(times: seq<int>): int { if times == [] then 0 else times[|times| - 1] - times[0] }

  /** One more attempt: a failure beyond the threshold adds a lockout to the span, and no
      attempt shortens it. */
  lemma SpanGrows(p: Policy, attempts: seq<Attempt>)
    requires attempts != [] && InOrder(attempts) && Timed(p, attempts[..|attempts| - 1])
    ensures var before := attempts[..|attempts| - 1];
            && Extras(p, before) <= Extras(p, attempts) <= Extras(p, before) + 1
            && Span(FailureTimes(p, attempts)) >= Span(FailureTimes(p, before))
            && (Extras(p, attempts) > Extras(p, before) ==>
                  Span(FailureTimes(p, attempts)) >= Span(FailureTimes(p, before)) + p.lockoutDuration)
  {
    var before, a := attempts[..|attempts| - 1], attempts[|attempts| - 1];
    assert before != [] ==> before[|before| - 1].decidedAt <= a.checkedAt <= a.decidedAt;
  }

  /** Each failure beyond the threshold comes a lockout after the one before it. */
  lemma {:induction false} ExtrasTakeTime(p: Policy, attempts: seq<Attempt>)
    requires InOrder(attempts)
    ensures Span(FailureTimes(p, attempts)) >= 0
    ensures Span(FailureTimes(p, attempts)) >= Extras(p, attempts) * p.lockoutDuration
  {
    if attempts != [] {
      var before := attempts[..|attempts| - 1];
      ExtrasTakeTime(p, before);
      RunTimed(p, before);
      SpanGrows(p, attempts);
      OneMore(Extras(p, before), Extras(p, attempts), Span(FailureTimes(p, before)), Span(FailureTimes(p, attempts)),
              p.lockoutDuration);
    }
  }

  lemma OneMore(x: int, x': int, span: int, span': int, d: int)
    requires span >= x * d
    requires (x' == x && span' >= span) || (x' == x + 1 && span' >= span + d)
    ensures span' >= x' * d
  {
    Distribute(d, x);
  }

  /** Under a fixed policy, the failures of any run number at most the threshold for each
      stretch between successes, plus the run's span divided by the lockout duration. */
  lemma AnyRunBound(p: Policy, attempts: seq<Attempt>)
    requires InOrder(attempts)
    ensures var times, most := FailureTimes(p, attempts), Threshold(p) * (Successes(p, attempts) + 1);
            |times| > most ==> (|times| - most) * p.lockoutDuration <= Span(times)
  {
    var times, extras := FailureTimes(p, attempts), Extras(p, attempts);
    var most := Threshold(p) * (Successes(p, attempts) + 1);
    FailuresCounted(p, attempts);
    ExtrasTakeTime(p, attempts);
    Distribute(Threshold(p), Successes(p, attempts));
    if |times| > most {
      if p.lockoutDuration >= 0 {
        MulAtMost(|times| - most, extras, p.lockoutDuration);
      } else {
        MulAtMost(p.lockoutDuration, 0, |times| - most);
      }
    }
  }

  /** A wrong answer and a right one, `n` times over, all at one moment. */
  function Alternating(n: nat): seq<Attempt> {
    if n == 0 then [] else Alternating(n - 1) + [Attempt(0, 0, Wrong)] + [Attempt(0, 0, Right)]
  }

  /** One round counts a failure and leaves the counter cleared. */
  lemma OneRound(p: Policy, before: seq<Attempt>)
    requires p.maxFailedAttempts >= 2 && Run(p, before) == CLEAR
    ensures var after := before + [Attempt(0, 0, Wrong)] + [Attempt(0, 0, Right)];
            && Run(p, after) == CLEAR && Successes(p, after) == Successes(p, before) + 1
            && FailureTimes(p, after) == FailureTimes(p, before) + [0]
  {
    var failed := before + [Attempt(0, 0, Wrong)];
    assert failed[..|before|] == before;
    assert Run(p, failed) == Counter(1, None);
    assert (failed + [Attempt(0, 0, Right)])[..|failed|] == failed;
  }

  function Zeros(n: nat): seq<int> { seq(n, i => 0) }

  /** The successes cannot be left out of the bound: each clears the counter, so from a
      threshold of two on, any number of failures fits into no time at all. A right password
      is such a success, before the second factor is asked for. */
  lemma SuccessesCount(p: Policy, n: nat)
    requires p.maxFailedAttempts >= 2
    ensures var attempts := Alternating(n);
            && InOrder(attempts) && Run(p, attempts) == CLEAR && Successes(p, attempts) == n
            && FailureTimes(p, attempts) == Zeros(n)
  {
    AlternatingCounts(p, n);
    AlternatingInOrder(n);
  }

  lemma {:induction false} AlternatingCounts(p: Policy, n: nat)
    requires p.maxFailedAttempts >= 2
    ensures Run(p, Alternating(n)) == CLEAR && Successes(p, Alternating(n)) == n
    ensures FailureTimes(p, Alternating(n)) == Zeros(n)
  {
    if n > 0 {
      var before := Alternating(n - 1);
      AlternatingCounts(p, n - 1);
      OneRound(p, before);
      assert Zeros(n) == Zeros(n - 1) + [0];
    }
  }

  lemma {:induction false} AlternatingInOrder(n: nat)
    ensures InOrder(Alternating(n))
    ensures forall i :: 0 <= i < |Alternating(n)| ==> Alternating(n)[i].checkedAt == 0 == Alternating(n)[i].decidedAt
  {
    if n > 0 {
      AlternatingInOrder(n - 1);
    }
  }
}

/** The fixed-window limiter over Redis INCR and EXPIRE, for one key. */
module RateLimit {
  import opened Wrappers

  /** A key as stored: absent, or a count with or without an expiry. */
  datatype Key = Absent | Live(count: nat, expiresAt: Option<int>)

  /** The key as Redis sees it at `now`. */
  function Seen(key: Key, now: int): Key {
    if key.Live? && key.expiresAt.Some? && key.expiresAt.value <= now then Absent else key
  }

  function Incremented(key: Key, now: int): Key {
    match Seen(key, now)
    case Absent => Live(1, None)
    case Live(count, expiresAt) => Live(count + 1, expiresAt)
  }

  function Expiring(key: Key, now: int, seconds: int): Key {
    match Seen(key, now)
    case Absent => Absent
    case Live(count, _) => Live(count, Some(now + seconds))
  }

  class Redis {
    var key: Key

    constructor ()
      ensures key == Absent
    {
      key := Absent;
    }

    method Incr(now: int) returns (count: nat)
      modifies this
      ensures key == Incremented(old(key), now) && key.Live? && count == key.count
    {
      key := match Seen(key, now) case Absent => Live(1, None) case Live(n, e) => Live(n + 1, e);
      count := key.count;
    }

    method Expire(now: int, seconds: int)
      modifies this
      ensures key == Expiring(old(key), now, seconds)
    {
      if Seen(key, now).Live? {
        key := Live(key.count, Some(now + seconds));
      } else {
        key := Absent;
      }
    }
  }

  /** One check: count the call, and start the window on the first. `lost` says the
      process stopped before EXPIRE; `later` is when EXPIRE is run. */
  method CheckRateLimit(redis: Redis, limit: int, windowSeconds: int, now: int, later: int,
                        lost: bool) returns (ok: bool)
    modifies redis
    ensures var counted := Incremented(old(redis.key), now);
            && counted.Live? && (ok <==> counted.count <= limit)
            && redis.key == if counted.count == 1 && !lost then Expiring(counted, later, windowSeconds) else counted
  {
    var current := redis.Incr(now);
    if current == 1 && !lost {
      redis.Expire(later, windowSeconds);
    }
    ok := current <= limit;
  }

  // ---- Runs ---------------------------------------------------------------------------------

  /** INCR by any caller, and the EXPIRE of the caller that saw 1: other calls may
      come in between, and it may never come. */
  datatype Action = Call(at: int) | SetExpiry(at: int)

  /** `life` numbers the lifetimes of the key, from 1. */
  datatype Decision = Decision(at: int, accepted: bool, life: nat)

  /** `pending` says the first call of this lifetime has not run its EXPIRE yet;
      `startedAt` is when that call came. */
  datatype Limiter = Limiter(key: Key, pending: bool, life: nat, startedAt: int, log: seq<Decision>)

  const START := Limiter(Absent, false, 0, 0, [])

  function Step(limit: int, windowSeconds: int, l: Limiter, a: Action): Limiter {
    match a
    case Call(at) =>
      var key := Incremented(l.key, at);
      var first := key.count == 1;
      var life := if first then l.life + 1 else l.life;
      Limiter(key, first || l.pending, life, if first then at else l.startedAt,
              l.log + [Decision(at, key.count <= limit, life)])
    case SetExpiry(at) =>
      if l.pending then l.(key := Expiring(l.key, at, windowSeconds), pending := false) else l
  }

  predicate InOrder(actions: seq<Action>) {
    forall i, j :: 0 <= i < j < |actions| ==> actions[i].at <= actions[j].at
  }

  function Run(limit: int, windowSeconds: int, actions: seq<Action>): Limiter {
    if actions == [] then START
    else Step(limit, windowSeconds, Run(limit, windowSeconds, actions[..|actions| - 1]), actions[|actions| - 1])
  }

  function Count(log: seq<Decision>, p: Decision -> bool): nat {
    if log == [] then 0 else Count(log[..|log| - 1], p) + if p(log[|log| - 1]) then 1 else 0
  }

  function AcceptedIn(life: nat): Decision -> bool { (d: Decision) => d.accepted && d.life == life }

  function AcceptedWithin(from: int, windowSeconds: int): Decision -> bool {
    (d: Decision) => d.accepted && from <= d.at < from + windowSeconds
  }

  function Positive(limit: int): nat { if limit > 0 then limit else 0 }

  /** The key and its lifetime belong together. */
  ghost predicate KeyKept(windowSeconds: int, l: Limiter) {
    && (l.key.Live? <==> l.life > 0)
    && (l.key.Live? ==> l.key.count > 0)
    && (l.pending ==> l.key.Live? && l.key.expiresAt.None?)
    && (l.key.Live? && l.key.expiresAt.Some? ==> l.key.expiresAt.value >= l.startedAt + windowSeconds)
  }

  /** Lifetimes come one after the other, each first call a window after the one of
      the lifetime before. */
  ghost predicate TimesKept(windowSeconds: int, l: Limiter, now: int) {
    && (forall i :: 0 <= i < |l.log| ==>
          && 1 <= l.log[i].life <= l.life && l.log[i].at <= now
          && (l.log[i].life < l.life ==> l.log[i].at <= l.startedAt))
    && (l.life > 0 ==> l.startedAt <= now)
    && (forall i, j :: 0 <= i < |l.log| && 0 <= j < |l.log| && l.log[i].life + 2 <= l.log[j].life ==>
          l.log[i].at + windowSeconds <= l.log[j].at)
    && (forall i :: 0 <= i < |l.log| && l.log[i].life + 2 <= l.life ==> l.log[i].at + windowSeconds <= l.startedAt)
    && (forall i :: 0 <= i < |l.log| && l.log[i].life == l.life ==> l.startedAt <= l.log[i].at)
  }

  /** Each lifetime accepted its first calls up to the limit, and no more. */
  ghost predicate CountsKept(limit: int, l: Limiter) {
    && (l.key.Live? ==> Count(l.log, AcceptedIn(l.life)) ==
                        if l.key.count <= Positive(limit) then l.key.count else Positive(limit))
    && (forall life :: Count(l.log, AcceptedIn(life)) <= Positive(limit))
    && (forall life :: life > l.life ==> Count(l.log, AcceptedIn(life)) == 0)
  }

  lemma CountSnoc(log: seq<Decision>, d: Decision, p: Decision -> bool)
    ensures Count(log + [d], p) == Count(log, p) + if p(d) then 1 else 0
  {
    assert (log + [d])[..|log|] == log;
  }

  lemma StepKeepsKey(limit: int, windowSeconds: int, l: Limiter, a: Action, now: int)
    requires KeyKept(windowSeconds, l) && TimesKept(windowSeconds, l, now) && now <= a.at
    ensures KeyKept(windowSeconds, Step(limit, windowSeconds, l, a))
  {
  }

  lemma StepKeepsTimes(limit: int, windowSeconds: int, l: Limiter, a: Action, now: int)
    requires KeyKept(windowSeconds, l) && TimesKept(windowSeconds, l, now) && now <= a.at
    ensures TimesKept(windowSeconds, Step(limit, windowSeconds, l, a), a.at)
  {
    if a.Call? {
      if Incremented(l.key, a.at).count == 1 {
        FirstCallKeepsTimes(limit, windowSeconds, l, a.at, now);
      } else {
        LaterCallKeepsTimes(limit, windowSeconds, l, a.at, now);
      }
    }
  }

  lemma FirstCallKeepsTimes(limit: int, windowSeconds: int, l: Limiter, at: int, now: int)
    requires KeyKept(windowSeconds, l) && TimesKept(windowSeconds, l, now) && now <= at
    requires Incremented(l.key, at).count == 1
    ensures TimesKept(windowSeconds, Step(limit, windowSeconds, l, Call(at)), at)
  {
    assert l.life > 0 ==> l.startedAt + windowSeconds <= at;
  }

  lemma LaterCallKeepsTimes(limit: int, windowSeconds: int, l: Limiter, at: int, now: int)
    requires KeyKept(windowSeconds, l) && TimesKept(windowSeconds, l, now) && now <= at
    requires Incremented(l.key, at).count > 1
    ensures TimesKept(windowSeconds, Step(limit, windowSeconds, l, Call(at)), at)
  {
    assert l.life > 0 && l.startedAt <= at;
  }

  lemma StepKeepsCounts(limit: int, windowSeconds: int, l: Limiter, a: Action)
    requires KeyKept(windowSeconds, l) && CountsKept(limit, l)
    ensures CountsKept(limit, Step(limit, windowSeconds, l, a))
  {
    if a.Call? {
      var l' := Step(limit, windowSeconds, l, a);
      var d := l'.log[|l.log|];
      forall life: nat
        ensures Count(l'.log, AcceptedIn(life)) ==
                Count(l.log, AcceptedIn(life)) + if d.accepted && life == l'.life then 1 else 0
      {
        CountSnoc(l.log, d, AcceptedIn(life));
      }
    }
  }

  ghost predicate Kept(limit: int, windowSeconds: int, l: Limiter, now: int) {
    KeyKept(windowSeconds, l) && TimesKept(windowSeconds, l, now) && CountsKept(limit, l)
  }

  lemma StepKeeps(limit: int, windowSeconds: int, l: Limiter, a: Action)
    requires Kept(limit, windowSeconds, l, a.at)
    ensures Kept(limit, windowSeconds, Step(limit, windowSeconds, l, a), a.at)
  {
    StepKeepsKey(limit, windowSeconds, l, a, a.at);
    StepKeepsTimes(limit, windowSeconds, l, a, a.at);
    StepKeepsCounts(limit, windowSeconds, l, a);
  }

  lemma KeptLater(limit: int, windowSeconds: int, l: Limiter, now: int, later: int)
    requires Kept(limit, windowSeconds, l, now) && now <= later
    ensures Kept(limit, windowSeconds, l, later)
  {
  }

  lemma {:induction false} RunKeeps(limit: int, windowSeconds: int, actions: seq<Action>, now: int)
    requires InOrder(actions) && (forall i :: 0 <= i < |actions| ==> actions[i].at <= now)
    ensures Kept(limit, windowSeconds, Run(limit, windowSeconds, actions), now)
  {
    if actions != [] {
      var before, a := actions[..|actions| - 1], actions[|actions| - 1];
      RunKeeps(limit, windowSeconds, before, a.at);
      StepKeeps(limit, windowSeconds, Run(limit, windowSeconds, before), a);
      KeptLater(limit, windowSeconds, Run(limit, windowSeconds, actions), a.at, now);
    }
  }

  /** However calls and EXPIREs interleave, and whether or not an EXPIRE is lost, one
      lifetime of the key accepts at most `limit` calls. */
  lemma LifetimeBound(limit: int, windowSeconds: int, actions: seq<Action>, life: nat)
    requires InOrder(actions)
    ensures Count(Run(limit, windowSeconds, actions).log, AcceptedIn(life)) <= Positive(limit)
  {
    RunKeeps(limit, windowSeconds, actions, if actions == [] then 0 else actions[|actions| - 1].at);
  }

  lemma {:induction false} CountNone(log: seq<Decision>, p: Decision -> bool)
    requires forall i :: 0 <= i < |log| ==> !p(log[i])
    ensures Count(log, p) == 0
  {
    if log != [] {
      CountNone(log[..|log| - 1], p);
    }
  }

  lemma {:induction false} CountInTwo(log: seq<Decision>, p: Decision -> bool, q: Decision -> bool, r: Decision -> bool)
    requires forall i :: 0 <= i < |log| && p(log[i]) ==> q(log[i]) || r(log[i])
    ensures Count(log, p) <= Count(log, q) + Count(log, r)
  {
    if log != [] {
      CountInTwo(log[..|log| - 1], p, q, r);
    }
  }

  /** The earliest lifetime among the decisions that satisfy `p`. */
  lemma {:induction false} EarliestLife(log: seq<Decision>, p: Decision -> bool) returns (k: nat)
    requires exists i :: 0 <= i < |log| && p(log[i])
    ensures k < |log| && p(log[k]) && forall i :: 0 <= i < |log| && p(log[i]) ==> log[k].life <= log[i].life
  {
    var before, last := log[..|log| - 1], log[|log| - 1];
    if exists i :: 0 <= i < |before| && p(before[i]) {
      k := EarliestLife(before, p);
      if p(last) && last.life < log[k].life {
        k := |log| - 1;
      }
      assert forall i :: 0 <= i < |before| ==> before[i] == log[i];
    } else {
      k := |log| - 1;
      assert forall i :: 0 <= i < |before| ==> !p(before[i]) && before[i] == log[i];
    }
  }

  /** In any half-open interval as long as the window, at most twice the limit is
      accepted. */
  lemma WindowBound(limit: int, windowSeconds: int, actions: seq<Action>, from: int)
    requires InOrder(actions)
    ensures Count(Run(limit, windowSeconds, actions).log, AcceptedWithin(from, windowSeconds)) <= 2 * Positive(limit)
  {
    var log, p := Run(limit, windowSeconds, actions).log, AcceptedWithin(from, windowSeconds);
    RunKeeps(limit, windowSeconds, actions, if actions == [] then 0 else actions[|actions| - 1].at);
    if exists i :: 0 <= i < |log| && p(log[i]) {
      var k := EarliestLife(log, p);
      var life := log[k].life;
      CountInTwo(log, p, AcceptedIn(life), AcceptedIn(life + 1));
    } else {
      CountNone(log, p);
    }
  }

  // ---- When a lifetime ends ------------------------------------------------------------------

  /** When the key is going to expire: a window after the first EXPIRE, or never. */
  function EndOf(windowSeconds: int, actions: seq<Action>): Option<int> {
    if actions == [] then None
    else
      var last := actions[|actions| - 1];
      match EndOf(windowSeconds, actions[..|actions| - 1])
      case Some(end) => Some(end)
      case None => if last.SetExpiry? then Some(last.at + windowSeconds) else None
  }

  /** Call `i` comes when the key has expired. */
  predicate Late(windowSeconds: int, actions: seq<Action>, i: nat)
    requires i < |actions|
  {
    var end := EndOf(windowSeconds, actions[..i]);
    actions[i].Call? && end.Some? && actions[i].at >= end.value
  }

  /** No call came late: the lifetime goes on, with the key expiring when it will. */
  ghost predicate GoesOn(windowSeconds: int, l: Limiter, l': Limiter, actions: seq<Action>) {
    var end := EndOf(windowSeconds, actions);
    && l'.life == l.life && l'.pending == end.None?
    && l'.key.Live? && l'.key.count > 0 && l'.key.expiresAt == end
  }

  lemma PendingKey(limit: int, windowSeconds: int, actions: seq<Action>, now: int)
    requires InOrder(actions) && (forall i :: 0 <= i < |actions| ==> actions[i].at <= now)
    ensures var l := Run(limit, windowSeconds, actions);
            l.pending ==> l.key.Live? && l.key.expiresAt.None? && l.key.count > 0
  {
    RunKeeps(limit, windowSeconds, actions, now);
  }

  /** One more action of a lifetime that goes on. */
  lemma LifetimeStep(limit: int, windowSeconds: int, l: Limiter, l': Limiter, before: seq<Action>, a: Action)
    requires GoesOn(windowSeconds, l, l', before)
    ensures var more := before + [a];
            if Late(windowSeconds, more, |before|) then Step(limit, windowSeconds, l', a).life > l.life
            else GoesOn(windowSeconds, l, Step(limit, windowSeconds, l', a), more)
  {
    assert (before + [a])[..|before|] == before;
  }

  lemma {:induction false} LifeGrows(limit: int, windowSeconds: int, l: Limiter, a: Action)
    ensures Step(limit, windowSeconds, l, a).life >= l.life
  {
  }

  lemma LateConcat(windowSeconds: int, before: seq<Action>, a: Action)
    ensures (exists i :: 0 <= i < |before + [a]| && Late(windowSeconds, before + [a], i)) <==>
            (exists i :: 0 <= i < |before| && Late(windowSeconds, before, i)) ||
            Late(windowSeconds, before + [a], |before|)
  {
    var more := before + [a];
    forall i | 0 <= i < |before|
      ensures Late(windowSeconds, more, i) <==> Late(windowSeconds, before, i)
    {
      assert more[..i] == before[..i];
    }
  }

  /** From the first call of a lifetime on, and whatever else happens: the lifetime ends if
      and only if its EXPIRE is run and a call comes a window after that. */
  lemma {:induction false} LifetimeEnds(limit: int, windowSeconds: int, actions: seq<Action>, now: int,
                                        more: seq<Action>)
    requires InOrder(actions) && (forall i :: 0 <= i < |actions| ==> actions[i].at <= now)
    requires Run(limit, windowSeconds, actions).pending
    ensures var l, l' := Run(limit, windowSeconds, actions), Run(limit, windowSeconds, actions + more);
            && (l'.life > l.life <==> exists i :: 0 <= i < |more| && Late(windowSeconds, more, i))
            && (l'.life <= l.life ==> GoesOn(windowSeconds, l, l', more))
  {
    var l := Run(limit, windowSeconds, actions);
    if more == [] {
      assert actions + more == actions;
      PendingKey(limit, windowSeconds, actions, now);
    } else {
      var before, a := more[..|more| - 1], more[|more| - 1];
      LifetimeEnds(limit, windowSeconds, actions, now, before);
      assert (actions + more)[..|actions + more| - 1] == actions + before && before + [a] == more;
      var l' := Run(limit, windowSeconds, actions + before);
      LateConcat(windowSeconds, before, a);
      if l'.life > l.life {
        LifeGrows(limit, windowSeconds, l', a);
      } else {
        LifetimeStep(limit, windowSeconds, l, l', before, a);
      }
    }
  }

  predicate OnlyCalls(actions: seq<Action>) {
    forall i :: 0 <= i < |actions| ==> actions[i].Call?
  }

  /** Calls that find the key unexpired are counted in its lifetime. */
  predicate InLifetime(key: Key, calls: seq<Action>) {
    key.Live? && key.count > 0 &&
    forall i :: 0 <= i < |calls| ==> calls[i].Call? && (key.expiresAt.Some? ==> calls[i].at < key.expiresAt.value)
  }

  /** Of the calls of one lifetime, exactly those that still fit the limit are accepted. */
  lemma {:induction false} CallsCounted(limit: int, windowSeconds: int, actions: seq<Action>, calls: seq<Action>)
    requires InLifetime(Run(limit, windowSeconds, actions).key, calls)
    ensures var l, l' := Run(limit, windowSeconds, actions), Run(limit, windowSeconds, actions + calls);
            && l'.key == Live(l.key.count + |calls|, l.key.expiresAt) && l'.life == l.life && l'.pending == l.pending
            && |l'.log| == |l.log| + |calls|
            && forall i :: 0 <= i < |calls| ==>
                 l'.log[|l.log| + i] == Decision(calls[i].at, l.key.count + i + 1 <= limit, l.life)
  {
    if calls == [] {
      assert actions + calls == actions;
    } else {
      var before, last := calls[..|calls| - 1], calls[|calls| - 1];
      CallsCounted(limit, windowSeconds, actions, before);
      CountedCall(limit, windowSeconds, Run(limit, windowSeconds, actions + before), last.at);
      assert (actions + calls)[..|actions + calls| - 1] == actions + before;
    }
  }

  lemma CountedCall(limit: int, windowSeconds: int, l: Limiter, at: int)
    requires l.key.Live? && l.key.count > 0 && (l.key.expiresAt.Some? ==> at < l.key.expiresAt.value)
    ensures var count := l.key.count + 1;
            Step(limit, windowSeconds, l, Call(at)) ==
            l.(key := Live(count, l.key.expiresAt), log := l.log + [Decision(at, count <= limit, l.life)])
  {
  }

  /** When the EXPIRE is lost the lifetime lasts for good: of all later calls, at whatever
      times, exactly those that still fit the limit are accepted. */
  lemma LostExpiry(limit: int, windowSeconds: int, actions: seq<Action>, now: int, calls: seq<Action>)
    requires InOrder(actions) && (forall i :: 0 <= i < |actions| ==> actions[i].at <= now)
    requires Run(limit, windowSeconds, actions).pending && OnlyCalls(calls)
    ensures var l, l' := Run(limit, windowSeconds, actions), Run(limit, windowSeconds, actions + calls);
            && l.key.Live? && l'.key == Live(l.key.count + |calls|, None) && l'.pending && l'.life == l.life
            && |l'.log| == |l.log| + |calls|
            && forall i :: 0 <= i < |calls| ==>
                 l'.log[|l.log| + i] == Decision(calls[i].at, l.key.count + i + 1 <= limit, l.life)
  {
    PendingKey(limit, windowSeconds, actions, now);
    CallsCounted(limit, windowSeconds, actions, calls);
  }

  /** When it is run at `e`, calls up to `e` plus the window are counted in the same
      lifetime, and the next one from then on starts a new one with a fresh count. */
  lemma ExpiryRuns(limit: int, windowSeconds: int, actions: seq<Action>, now: int, e: int, calls: seq<Action>, at: int)
    requires InOrder(actions) && (forall i :: 0 <= i < |actions| ==> actions[i].at <= now)
    requires Run(limit, windowSeconds, actions).pending
    requires OnlyCalls(calls) && forall i :: 0 <= i < |calls| ==> calls[i].at < e + windowSeconds
    ensures var l, run := Run(limit, windowSeconds, actions), actions + [SetExpiry(e)] + calls;
            var l', l'' := Run(limit, windowSeconds, run), Run(limit, windowSeconds, run + [Call(at)]);
            && l.key.Live? && l'.life == l.life && l'.key == Live(l.key.count + |calls|, Some(e + windowSeconds))
            && (at < e + windowSeconds ==>
                  l''.life == l.life && l''.key == Live(l.key.count + |calls| + 1, Some(e + windowSeconds)))
            && (at >= e + windowSeconds ==> l''.life == l.life + 1 && l''.key == Live(1, None) && l''.pending)
  {
    PendingKey(limit, windowSeconds, actions, now);
    var expiring := actions + [SetExpiry(e)];
    assert expiring[..|actions|] == actions;
    CallsCounted(limit, windowSeconds, expiring, calls);
    var run := expiring + calls;
    assert (run + [Call(at)])[..|run|] == run;
    if at < e + windowSeconds {
      CountedCall(limit, windowSeconds, Run(limit, windowSeconds, run), at);
    }
  }
}

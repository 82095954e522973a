/** Alert notifications held back by a rule's throttle window, per honeypot. */
module AlertThrottle {
  import opened Wrappers

  const MICROS_PER_MINUTE := 60 * 1_000_000

  /** When an alert was last sent, and how many were held back since. */
  datatype State = State(notifiedAt: Option<int>, heldBack: nat)

  const NEVER := State(None, 0)

  /** `reported` is the number of held-back alerts the notification mentions. */
  datatype Outcome = HeldBack | Attempted(reported: nat) | NotAttempted

  /** A rule; without a throttle every alert is passed on. */
  datatype Rule = Rule(id: nat, throttleMinutes: nat)

  /** One alert and one rule. `deliverable` says whether anything is attempted at
      all: the rule has a target, its channel is on, and nothing mutes it. */
  function Notify(state: State, throttle: nat, now: int, deliverable: bool): (State, Outcome) {
    var throttled := throttle > 0;
    if throttled && state.notifiedAt.Some? && state.notifiedAt.value > now - throttle * MICROS_PER_MINUTE then
      (state.(heldBack := state.heldBack + 1), HeldBack)
    else
      var reported := if throttled && state.notifiedAt.Some? then state.heldBack else 0;
      if !deliverable then (state, NotAttempted)
      else (if throttled then State(Some(now), 0) else state, Attempted(reported))
  }

  /** The throttle table. */
  class Throttle {
    var states: map<(nat, nat), State>

    constructor ()
      ensures states == map[]
    {
      states := map[];
    }

    function StateOf(rule: nat, honeypot: nat): State
      reads this
    {
      if (rule, honeypot) in states then states[(rule, honeypot)] else NEVER
    }

    /** One new event, against every rule of the honeypot. */
    method NotifyAlert(rules: seq<Rule>, honeypot: nat, now: int, deliverable: nat -> bool)
      returns (outcomes: seq<Outcome>)
      requires forall i, j :: 0 <= i < j < |rules| ==> rules[i].id != rules[j].id
      modifies this
      ensures |outcomes| == |rules|
      ensures forall i :: 0 <= i < |rules| ==>
                (StateOf(rules[i].id, honeypot), outcomes[i]) ==
                Notify(old(StateOf(rules[i].id, honeypot)), rules[i].throttleMinutes, now, deliverable(rules[i].id))
      ensures forall rule, h :: h != honeypot || (forall i :: 0 <= i < |rules| ==> rules[i].id != rule) ==>
                StateOf(rule, h) == old(StateOf(rule, h))
    {
      outcomes := [];
      for i := 0 to |rules|
        invariant |outcomes| == i
        invariant forall k :: 0 <= k < i ==>
                    (StateOf(rules[k].id, honeypot), outcomes[k]) ==
                    Notify(old(StateOf(rules[k].id, honeypot)), rules[k].throttleMinutes, now, deliverable(rules[k].id))
        invariant forall rule, h :: h != honeypot || (forall k :: 0 <= k < i ==> rules[k].id != rule) ==>
                    StateOf(rule, h) == old(StateOf(rule, h))
      {
        var rule := rules[i];
        var state := StateOf(rule.id, honeypot);
        var reported := 0;
        if rule.throttleMinutes > 0 {
          var last := state.notifiedAt;
          if last.Some? && last.value > now - rule.throttleMinutes * MICROS_PER_MINUTE {
            states := states[(rule.id, honeypot) := state.(heldBack := state.heldBack + 1)];
            outcomes := outcomes + [HeldBack];
            continue;
          }
          if state.heldBack > 0 && last.Some? {
            reported := state.heldBack;
          }
        }
        if deliverable(rule.id) {
          if rule.throttleMinutes > 0 {
            states := states[(rule.id, honeypot) := State(Some(now), 0)];
          }
          outcomes := outcomes + [Attempted(reported)];
        } else {
          outcomes := outcomes + [NotAttempted];
        }
      }
    }
  }

  // ---- A history of alerts for one rule and honeypot ---------------------------------------

  datatype Alert = Alert(at: int, deliverable: bool)

  predicate InOrder(alerts: seq<Alert>) {
    forall i, j :: 0 <= i < j < |alerts| ==> alerts[i].at <= alerts[j].at
  }

  function Run(throttle: nat, alerts: seq<Alert>): (r: (State, seq<Outcome>))
    ensures |r.1| == |alerts|
  {
    if alerts == [] then (NEVER, [])
    else
      var (state, outcomes) := Run(throttle, alerts[..|alerts| - 1]);
      var last := alerts[|alerts| - 1];
      var (state', outcome) := Notify(state, throttle, last.at, last.deliverable);
      (state', outcomes + [outcome])
  }

  function Outcomes(throttle: nat, alerts: seq<Alert>): seq<Outcome> { Run(throttle, alerts).1 }

  function Attempts(outcomes: seq<Outcome>): nat {
    if outcomes == [] then 0
    else Attempts(outcomes[..|outcomes| - 1]) + if outcomes[|outcomes| - 1].Attempted? then 1 else 0
  }

  function Refusals(outcomes: seq<Outcome>): nat {
    if outcomes == [] then 0
    else Refusals(outcomes[..|outcomes| - 1]) + if outcomes[|outcomes| - 1].NotAttempted? then 1 else 0
  }

  /** All held-back alerts that were mentioned in a notification. */
  function Reported(outcomes: seq<Outcome>): nat {
    if outcomes == [] then 0
    else
      var last := outcomes[|outcomes| - 1];
      Reported(outcomes[..|outcomes| - 1]) + if last.Attempted? then last.reported else 0
  }

  /** The position after the last attempt. */
  function AfterLastAttempt(outcomes: seq<Outcome>): (n: nat)
    ensures n <= |outcomes| && (n > 0 ==> outcomes[n - 1].Attempted?)
    ensures forall i :: n <= i < |outcomes| ==> !outcomes[i].Attempted?
  {
    if outcomes == [] then 0
    else if outcomes[|outcomes| - 1].Attempted? then |outcomes|
    else AfterLastAttempt(outcomes[..|outcomes| - 1])
  }

  /** How many alerts were held back after the last attempt. */
  function HeldSince(outcomes: seq<Outcome>): nat {
    if outcomes == [] || outcomes[|outcomes| - 1].Attempted? then 0
    else HeldSince(outcomes[..|outcomes| - 1]) + if outcomes[|outcomes| - 1].HeldBack? then 1 else 0
  }

  /** The stored state: the time of the last attempt, and what was held back since. */
  lemma {:induction false} StateIs(throttle: nat, alerts: seq<Alert>)
    requires throttle > 0
    ensures var (state, outcomes) := Run(throttle, alerts);
            var n := AfterLastAttempt(outcomes);
            state == State(if n == 0 then None else Some(alerts[n - 1].at), HeldSince(outcomes))
    ensures AfterLastAttempt(Run(throttle, alerts).1) == 0 ==> HeldSince(Run(throttle, alerts).1) == 0
  {
    if alerts != [] {
      var before := alerts[..|alerts| - 1];
      StateIs(throttle, before);
      var outcomes := Run(throttle, alerts).1;
      assert outcomes[..|outcomes| - 1] == Run(throttle, before).1;
    }
  }

  /** The outcome of alert `i` depends on the alerts before it alone. */
  lemma {:induction false} OutcomeAt(throttle: nat, alerts: seq<Alert>, i: nat)
    requires i < |alerts|
    ensures Outcomes(throttle, alerts)[i] ==
            Notify(Run(throttle, alerts[..i]).0, throttle, alerts[i].at, alerts[i].deliverable).1
    ensures Outcomes(throttle, alerts)[..i] == Outcomes(throttle, alerts[..i])
    decreases |alerts|
  {
    var before := alerts[..|alerts| - 1];
    if i < |alerts| - 1 {
      OutcomeAt(throttle, before, i);
      assert before[..i] == alerts[..i];
      assert Outcomes(throttle, alerts)[..i] == Outcomes(throttle, before)[..i];
    }
  }

  /** An alert is held back exactly when one was sent less than the throttle before. */
  lemma HeldBackIff(throttle: nat, alerts: seq<Alert>, j: nat)
    requires throttle > 0 && InOrder(alerts) && j < |alerts|
    ensures Outcomes(throttle, alerts)[j].HeldBack? <==>
            exists i :: 0 <= i < j && Outcomes(throttle, alerts)[i].Attempted?
                        && alerts[j].at - alerts[i].at < throttle * MICROS_PER_MINUTE
  {
    var outcomes := Outcomes(throttle, alerts);
    OutcomeAt(throttle, alerts, j);
    StateIs(throttle, alerts[..j]);
    var n := AfterLastAttempt(outcomes[..j]);
    if n > 0 {
      assert outcomes[..j][n - 1] == outcomes[n - 1];
    }
    forall i | 0 <= i < j && outcomes[i].Attempted?
      ensures i < n
    {
      assert outcomes[..j][i] == outcomes[i];
    }
  }

  /** An alert is attempted exactly when it can be delivered and is not held back; without a
      throttle none ever is, and none is reported. */
  lemma AttemptedIff(throttle: nat, alerts: seq<Alert>, j: nat)
    requires j < |alerts|
    ensures var outcome := Outcomes(throttle, alerts)[j];
            && (outcome.Attempted? <==> alerts[j].deliverable && !outcome.HeldBack?)
            && (throttle == 0 ==> !outcome.HeldBack? && (outcome.Attempted? ==> outcome.reported == 0))
  {
    OutcomeAt(throttle, alerts, j);
  }

  /** Two sends are at least the throttle apart. */
  lemma SendsApart(throttle: nat, alerts: seq<Alert>, i: nat, j: nat)
    requires throttle > 0 && InOrder(alerts) && i < j < |alerts|
    requires Outcomes(throttle, alerts)[i].Attempted? && Outcomes(throttle, alerts)[j].Attempted?
    ensures alerts[j].at - alerts[i].at >= throttle * MICROS_PER_MINUTE
  {
    HeldBackIff(throttle, alerts, j);
  }

  /** What a send reports is exactly what was held back since the send before it. */
  lemma ReportsHeldBack(throttle: nat, alerts: seq<Alert>, j: nat)
    requires throttle > 0 && j < |alerts|
    ensures var outcomes := Outcomes(throttle, alerts);
            outcomes[j].Attempted? ==> outcomes[j].reported == HeldSince(outcomes[..j])
  {
    OutcomeAt(throttle, alerts, j);
    StateIs(throttle, alerts[..j]);
  }

  /** Every alert is accounted for at every moment: sent, reported as held back, held
      back and still to be reported, or not attempted. */
  lemma {:induction false} Conservation(throttle: nat, alerts: seq<Alert>)
    ensures var (state, outcomes) := Run(throttle, alerts);
            |alerts| == Attempts(outcomes) + Reported(outcomes) + state.heldBack + Refusals(outcomes)
    ensures Run(throttle, alerts).0.notifiedAt.None? ==> Run(throttle, alerts).0.heldBack == 0
    ensures throttle == 0 ==> Run(throttle, alerts).0 == NEVER
  {
    if alerts != [] {
      Conservation(throttle, alerts[..|alerts| - 1]);
      var outcomes := Run(throttle, alerts).1;
      assert outcomes[..|outcomes| - 1] == Run(throttle, alerts[..|alerts| - 1]).1;
    }
  }
}

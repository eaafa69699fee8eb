/**
  The rule engine of the validator: what one rule call can produce, how the
  synchronous and the asynchronous evaluation loops react to it, and the
  first-failure short-circuit both loops share.

  A rule is a function of the field's value. In the host language it may
  return the success marker `true`, a message string, any other value, or a
  promise of one of those; it may also throw. `Behaviour` records which of
  these one call does, so the same rule list can be read by both loops as it
  is in the library.
*/
module Rules {

  /** A value a rule hands back: the literal `true`, a string, or anything
      else (`false`, a number, `undefined`, an object, ...). */
  datatype RuleResult = True | Str(s: string) | Other

  /** How a promise returned by a rule settles. A rejection, like a throw,
      carries the `message` property of the error it was given. */
  datatype Settlement = Resolved(value: RuleResult) | Rejected(message: RuleResult)

  /** What one call of a rule on a value does. */
  datatype Behaviour =
    | Returns(result: RuleResult)
    | Throws(message: RuleResult)
    | Promise(settled: Settlement)

  type Rule<-V> = V -> Behaviour

  /** How an evaluation loop reacts to one rule call: go on to the next rule,
      return a value, or let an exception escape. */
  datatype Step = Continue | Stop(result: RuleResult) | Raise(message: RuleResult)

  /** What a whole pass over the rules ends in: every rule passed (the loop
      falls off its end and the function yields `undefined`), a rule's value
      was returned, or an exception escaped the loop. */
  datatype Run = Passed | Stopped(result: RuleResult) | Raised(message: RuleResult)

  /** The synchronous loop looks at the raw return value: only the literal
      `true` lets it go on. A promise is an object, neither `true` nor a
      string, and a throw is not caught. */
  function SyncStep(b: Behaviour): (s: Step)
    ensures s == Continue <==> b == Returns(True)
    ensures s.Raise? <==> b.Throws?
    ensures b.Returns? && b.result != True ==> s == Stop(b.result)
    ensures b.Promise? ==> s == Stop(Other)
  {
    match b
    case Returns(r) => if r == True then Continue else Stop(r)
    case Promise(_) => Stop(Other)
    case Throws(m) => Raise(m)
  }

  /** The asynchronous loop awaits the call: a plain value and a resolved
      promise are looked at the same way, and a throw or a rejection is
      caught and its message returned. Nothing escapes. */
  function AsyncStep(b: Behaviour): (s: Step)
    ensures s == Continue <==> b == Returns(True) || b == Promise(Resolved(True))
    ensures !s.Raise?
    ensures b.Returns? && b.result != True ==> s == Stop(b.result)
    ensures b.Promise? && b.settled.Resolved? && b.settled.value != True ==> s == Stop(b.settled.value)
    ensures b.Throws? ==> s == Stop(b.message)
    ensures b.Promise? && b.settled.Rejected? ==> s == Stop(b.settled.message)
  {
    match b
    case Returns(r) => if r == True then Continue else Stop(r)
    case Promise(Resolved(r)) => if r == True then Continue else Stop(r)
    case Promise(Rejected(m)) => Stop(m)
    case Throws(m) => Stop(m)
  }

  function RunOf(s: Step): Run
    requires s != Continue
  {
    match s
    case Stop(r) => Stopped(r)
    case Raise(m) => Raised(m)
  }

  /** Rule number `k` is the first one whose call does not let the loop go on. */
  ghost predicate StopsAt<V>(v: V, rules: seq<Rule<V>>, step: Behaviour -> Step, k: int) {
    && 0 <= k < |rules|
    && (forall j | 0 <= j < k :: step(rules[j](v)) == Continue)
    && step(rules[k](v)) != Continue
  }

  /** One pass over the rules, in order, for a given reaction `step`. */
  function Evaluate<V>(v: V, rules: seq<Rule<V>>, step: Behaviour -> Step): (run: Run)
    ensures run.Passed? <==> forall j | 0 <= j < |rules| :: step(rules[j](v)) == Continue
  {
    if rules == [] then Passed
    else
      var s := step(rules[0](v));
      if s == Continue then Evaluate(v, rules[1..], step) else RunOf(s)
  }

  /** The pass `checkRulesSync` makes. */
  function SyncRun<V>(v: V, rules: seq<Rule<V>>): (run: Run)
    ensures run.Passed? <==> forall j | 0 <= j < |rules| :: rules[j](v) == Returns(True)
  {
    Evaluate(v, rules, SyncStep)
  }

  /** The synchronous pass raises exactly when the first rule that does not
      return `true` throws. */
  lemma SyncRaisesAtFirstThrow<V>(v: V, rules: seq<Rule<V>>)
    ensures Evaluate(v, rules, SyncStep).Raised? <==> exists k :: StopsAt(v, rules, SyncStep, k) && rules[k](v).Throws?
  {
    if Evaluate(v, rules, SyncStep).Raised? {
      EvaluateHaltedHasStopIndex(v, rules, SyncStep);
    }
    if k :| StopsAt(v, rules, SyncStep, k) && rules[k](v).Throws? {
      EvaluateStopsAtFirstHalt(v, rules, SyncStep, k);
    }
  }

  /** The pass `checkRulesAsync` makes; it never lets an exception out. */
  function AsyncRun<V>(v: V, rules: seq<Rule<V>>): (run: Run)
    ensures !run.Raised?
  {
    AsyncNeverRaises(v, rules);
    Evaluate(v, rules, AsyncStep)
  }

  lemma {:induction false} AsyncNeverRaises<V>(v: V, rules: seq<Rule<V>>)
    ensures !Evaluate(v, rules, AsyncStep).Raised?
  {
    if rules != [] && AsyncStep(rules[0](v)) == Continue {
      AsyncNeverRaises(v, rules[1..]);
    }
  }

  /** The value a pass ends in is the reaction to the first rule that stops
      it; the rules before it all passed. */
  lemma {:induction false} EvaluateStopsAtFirstHalt<V>(v: V, rules: seq<Rule<V>>, step: Behaviour -> Step, k: int)
    requires StopsAt(v, rules, step, k)
    ensures Evaluate(v, rules, step) == RunOf(step(rules[k](v)))
  {
    if k > 0 {
      assert step(rules[0](v)) == Continue;
      assert StopsAt(v, rules[1..], step, k - 1) by {
        forall j | 0 <= j < k - 1 ensures step(rules[1..][j](v)) == Continue {
          assert rules[1..][j] == rules[j + 1];
        }
      }
      EvaluateStopsAtFirstHalt(v, rules[1..], step, k - 1);
    }
  }

  /** A pass that did not run every rule to success stopped at some rule. */
  lemma {:induction false} EvaluateHaltedHasStopIndex<V>(v: V, rules: seq<Rule<V>>, step: Behaviour -> Step)
    requires !Evaluate(v, rules, step).Passed?
    ensures exists k :: StopsAt(v, rules, step, k) && Evaluate(v, rules, step) == RunOf(step(rules[k](v)))
  {
    if step(rules[0](v)) != Continue {
      assert StopsAt(v, rules, step, 0);
    } else {
      EvaluateHaltedHasStopIndex(v, rules[1..], step);
      var k :| StopsAt(v, rules[1..], step, k) && Evaluate(v, rules[1..], step) == RunOf(step(rules[1..][k](v)));
      assert StopsAt(v, rules, step, k + 1) by {
        forall j | 0 <= j < k + 1 ensures step(rules[j](v)) == Continue {
          if j > 0 { assert rules[j] == rules[1..][j - 1]; }
        }
      }
    }
  }

  /** Short-circuit: rules after the one that stopped a pass cannot change
      its value; when a prefix passes in full, the rest decides alone. */
  lemma {:induction false} EvaluateAppend<V>(v: V, rules: seq<Rule<V>>, more: seq<Rule<V>>, step: Behaviour -> Step)
    ensures Evaluate(v, rules + more, step)
         == if Evaluate(v, rules, step).Passed? then Evaluate(v, more, step) else Evaluate(v, rules, step)
  {
    if rules == [] {
      assert rules + more == more;
    } else {
      assert (rules + more)[0] == rules[0];
      assert (rules + more)[1..] == rules[1..] + more;
      if step(rules[0](v)) == Continue {
        EvaluateAppend(v, rules[1..], more, step);
      }
    }
  }

  /** When no rule throws or returns a promise, both loops agree. */
  lemma {:induction false} SyncAgreesWithAsyncOnPlainRules<V>(v: V, rules: seq<Rule<V>>)
    requires forall j | 0 <= j < |rules| :: rules[j](v).Returns?
    ensures SyncRun(v, rules) == AsyncRun(v, rules)
  {
    if rules != [] {
      SyncAgreesWithAsyncOnPlainRules(v, rules[1..]);
    }
  }

  /** `checkRulesSync`: the rules in order, returning the first value that
      is not exactly `true`; an exception thrown by a rule escapes. */
  method CheckRulesSync<V>(v: V, rules: seq<Rule<V>>) returns (run: Run)
    ensures run == SyncRun(v, rules)
    ensures run.Passed? <==> forall j | 0 <= j < |rules| :: rules[j](v) == Returns(True)
  {
    var i := 0;
    while i < |rules|
      invariant 0 <= i <= |rules|
      invariant Evaluate(v, rules[i..], SyncStep) == SyncRun(v, rules)
    {
      var step := SyncStep(rules[i](v));
      if step != Continue {
        return RunOf(step);
      }
      assert rules[i..][1..] == rules[i + 1..];
      i := i + 1;
    }
    return Passed;
  }

  /** `checkRulesAsync`: the rules in order, each call awaited; a throw or a
      rejection ends the loop with the error's message as its value. */
  method CheckRulesAsync<V>(v: V, rules: seq<Rule<V>>) returns (run: Run)
    ensures run == AsyncRun(v, rules)
    ensures run.Passed? <==> forall j | 0 <= j < |rules| :: rules[j](v) in {Returns(True), Promise(Resolved(True))}
  {
    var i := 0;
    while i < |rules|
      invariant 0 <= i <= |rules|
      invariant Evaluate(v, rules[i..], AsyncStep) == AsyncRun(v, rules)
    {
      var step := AsyncStep(rules[i](v));
      if step != Continue {
        return RunOf(step);
      }
      assert rules[i..][1..] == rules[i + 1..];
      i := i + 1;
    }
    return Passed;
  }
}

/**
  The field validator (`useField`) and the form aggregator (`useForm`).

  A `Field` holds one piece of state of its own, the `error` message; its
  value and its rules belong to the owner and are re-read at every
  validation. A `Form` holds the set of fields registered with it, kept as
  a sequence in insertion order with no duplicates, and derives its error
  list and its validity from their current errors on every read.
*/
module Validator {
  import opened Rules

  datatype Option<T> = None | Some(value: T)

  /** What a synchronous validation hands back to its caller: the boolean it
      returns, or the exception a rule threw, which escapes. */
  datatype Completion = Returned(valid: bool) | Threw(message: RuleResult)

  /** One entry of a form's error list. */
  datatype FormError<V> = FormError(identifier: Option<string>, value: V, message: string)

  /** What the error list reads of one field. */
  datatype FieldState<V> = FieldState(error: string, value: V, identifier: Option<string>)

  /** The error a field is left with once a pass has produced `run`: the
      value returned, when it is a non-empty string; otherwise none, whatever
      else was returned. */
  function ErrorFor(run: Run): (e: string)
    requires !run.Raised?
    ensures e != "" <==> run.Stopped? && run.result.Str? && run.result.s != ""
    ensures e != "" ==> e == run.result.s
  {
    if run.Stopped? && run.result.Str? then run.result.s else ""
  }

  /** The message a rule call yields on the synchronous path, if any. */
  function SyncMessage(b: Behaviour): string {
    if b.Returns? && b.result.Str? then b.result.s else ""
  }

  /** The message a rule call yields on the asynchronous path, if any. */
  function AsyncMessage(b: Behaviour): string {
    var r := match b
      case Returns(r) => r
      case Throws(m) => m
      case Promise(Resolved(r)) => r
      case Promise(Rejected(m)) => m;
    if r.Str? then r.s else ""
  }

  /** After a synchronous validation that does not throw, the field's error is
      the message of the first rule that did not return exactly `true`, or
      none if that rule returned no string. */
  lemma SyncErrorIsFirstFailure<V>(v: V, rules: seq<Rule<V>>, k: int)
    requires StopsAt(v, rules, SyncStep, k)
    requires !rules[k](v).Throws?
    ensures !SyncRun(v, rules).Raised?
    ensures ErrorFor(SyncRun(v, rules)) == SyncMessage(rules[k](v))
  {
    EvaluateStopsAtFirstHalt(v, rules, SyncStep, k);
  }

  /** After an asynchronous validation, the field's error is the message of
      the first rule that did not yield exactly `true`, thrown and rejected
      errors included. */
  lemma AsyncErrorIsFirstFailure<V>(v: V, rules: seq<Rule<V>>, k: int)
    requires StopsAt(v, rules, AsyncStep, k)
    ensures ErrorFor(AsyncRun(v, rules)) == AsyncMessage(rules[k](v))
  {
    EvaluateStopsAtFirstHalt(v, rules, AsyncStep, k);
  }

  /** A field whose rules all pass is valid on both paths. */
  lemma AllRulesPassingIsValid<V>(v: V, rules: seq<Rule<V>>)
    requires forall j | 0 <= j < |rules| :: rules[j](v) == Returns(True)
    ensures SyncRun(v, rules) == Passed && ErrorFor(SyncRun(v, rules)) == ""
    ensures AsyncRun(v, rules) == Passed && ErrorFor(AsyncRun(v, rules)) == ""
  {
    assert forall j | 0 <= j < |rules| :: SyncStep(rules[j](v)) == Continue;
    assert forall j | 0 <= j < |rules| :: AsyncStep(rules[j](v)) == Continue;
  }

  /** The converse fails: a rule returning `false` stops the pass, the rule
      after it never counts, and yet the field ends up valid. */
  lemma FalseRuleLeavesFieldValid<V>(v: V, rest: seq<Rule<V>>)
    ensures var rules := [(x: V) => Returns(Other)] + rest;
      && SyncRun(v, rules) == Stopped(Other)
      && AsyncRun(v, rules) == Stopped(Other)
      && ErrorFor(SyncRun(v, rules)) == ""
      && ErrorFor(AsyncRun(v, rules)) == ""
  {
    var rules := [(x: V) => Returns(Other)] + rest;
    assert StopsAt(v, rules, SyncStep, 0);
    assert StopsAt(v, rules, AsyncStep, 0);
    EvaluateStopsAtFirstHalt(v, rules, SyncStep, 0);
    EvaluateStopsAtFirstHalt(v, rules, AsyncStep, 0);
  }

  /** A promise-returning rule on the synchronous path: it stops the pass and
      leaves the field valid, while the asynchronous path reports the message
      the promise settles with. */
  lemma PromiseRuleSkippedBySyncPath<V>(v: V, s: Settlement, rest: seq<Rule<V>>)
    requires s != Resolved(True)
    ensures var rules := [(x: V) => Promise(s)] + rest;
      && SyncRun(v, rules) == Stopped(Other)
      && ErrorFor(SyncRun(v, rules)) == ""
      && ErrorFor(AsyncRun(v, rules)) == AsyncMessage(Promise(s))
  {
    var rules := [(x: V) => Promise(s)] + rest;
    assert StopsAt(v, rules, SyncStep, 0);
    assert StopsAt(v, rules, AsyncStep, 0);
    EvaluateStopsAtFirstHalt(v, rules, SyncStep, 0);
    EvaluateStopsAtFirstHalt(v, rules, AsyncStep, 0);
  }

  /** The context a new field joins: the one an enclosing form provides, or
      else the form passed in explicitly, or none. */
  function ResolveContext<V>(ambient: Form?<V>, explicit: Form?<V>): (c: Form?<V>)
    ensures c == null <==> ambient == null && explicit == null
    ensures c != null ==> c == ambient || c == explicit
    ensures ambient != null ==> c == ambient
  {
    if ambient != null then ambient else explicit
  }

  class Field<V> {
    var value: V
    var rules: seq<Rule<V>>
    const identifier: Option<string>
    var error: string
    const context: Form?<V>

    /** `useField`: a field starts valid and registers with the context it
        resolves, and with no other form. */
    constructor (value: V, rules: seq<Rule<V>>, identifier: Option<string>, ambient: Form?<V>, explicit: Form?<V>)
      requires ResolveContext(ambient, explicit) != null ==> ResolveContext(ambient, explicit).Valid()
      modifies ResolveContext(ambient, explicit)
      ensures this.value == value && this.rules == rules && this.identifier == identifier
      ensures error == "" && context == ResolveContext(ambient, explicit)
      ensures var ctx := ResolveContext(ambient, explicit);
        ctx != null ==> ctx.Valid() && ctx.fields == old(ctx.fields) + [this]
      ensures explicit != null && explicit != context ==> explicit.fields == old(explicit.fields)
    {
      this.value := value;
      this.rules := rules;
      this.identifier := identifier;
      error := "";
      context := ResolveContext(ambient, explicit);
      new;
      if context != null {
        context.RegisterField(this);
      }
    }

    function State(): FieldState<V>
      reads this
    {
      FieldState(error, value, identifier)
    }

    /** The pass the synchronous path makes over the current value and rules. */
    function SyncRunNow(): Run
      reads this
    {
      SyncRun(value, rules)
    }

    /** The pass the asynchronous path makes over the current value and rules. */
    function AsyncRunNow(): (run: Run)
      reads this
      ensures !run.Raised?
    {
      AsyncRun(value, rules)
    }

    /** `reset`: clears the error and touches nothing else. */
    method Reset()
      modifies this`error
      ensures error == ""
    {
      error := "";
    }

    /** `validateRulesResult`: only a non-empty string becomes the error;
        anything else clears it. Returns whether the field is now valid. */
    method ValidateRulesResult(run: Run) returns (valid: bool)
      requires !run.Raised?
      modifies this`error
      ensures error == ErrorFor(run)
      ensures valid <==> error == ""
    {
      if run.Stopped? && run.result.Str? && run.result.s != "" {
        error := run.result.s;
        return false;
      }
      Reset();
      return true;
    }

    /** `validate`: a synchronous pass; a rule's exception escapes and leaves
        the error as it was. */
    method Validate() returns (c: Completion)
      modifies this`error
      ensures SyncRunNow().Raised? ==> c == Threw(SyncRunNow().message) && error == old(error)
      ensures !SyncRunNow().Raised? ==> error == ErrorFor(SyncRunNow()) && c == Returned(error == "")
    {
      var run := CheckRulesSync(value, rules);
      if run.Raised? {
        return Threw(run.message);
      }
      var valid := ValidateRulesResult(run);
      return Returned(valid);
    }

    /** `validateAsync`: an awaited pass, taken here as one sequential step;
        it always resolves to whether the field is valid. */
    method ValidateAsync() returns (valid: bool)
      modifies this`error
      ensures error == ErrorFor(AsyncRunNow())
      ensures valid <==> error == ""
    {
      var run := CheckRulesAsync(value, rules);
      valid := ValidateRulesResult(run);
    }

    /** The teardown hook: leave the context joined at construction. */
    method Unmount()
      requires context != null ==> context.Valid()
      modifies context
      ensures context != null ==> context.Valid() && context.fields == Removed(old(context.fields), this)
    {
      if context != null {
        context.UnregisterField(this);
      }
    }
  }

  ghost predicate NoDuplicates<T>(s: seq<T>) {
    forall i, j | 0 <= i < j < |s| :: s[i] != s[j]
  }

  /** `Set.prototype.delete` on an insertion-ordered set. */
  function Removed<T(==)>(s: seq<T>, x: T): (r: seq<T>)
    ensures x !in r
    ensures forall y | y in r :: y in s
    ensures forall y | y in s && y != x :: y in r
  {
    if s == [] then []
    else if s[0] == x then Removed(s[1..], x)
    else [s[0]] + Removed(s[1..], x)
  }

  /** Deleting an absent element changes nothing. */
  lemma {:induction false} RemovedAbsent<T>(s: seq<T>, x: T)
    requires x !in s
    ensures Removed(s, x) == s
  {
    if s != [] {
      RemovedAbsent(s[1..], x);
    }
  }

  /** Deleting from a duplicate-free sequence cuts out the one occurrence and
      keeps the order of the rest. */
  lemma {:induction false} RemovedCutsOut<T>(s: seq<T>, i: int)
    requires NoDuplicates(s) && 0 <= i < |s|
    ensures Removed(s, s[i]) == s[..i] + s[i + 1..]
  {
    var x := s[i];
    if i == 0 {
      assert x !in s[1..] by {
        forall j | 0 <= j < |s[1..]| ensures s[1..][j] != x {
          assert s[1..][j] == s[j + 1];
        }
      }
      RemovedAbsent(s[1..], x);
    } else {
      assert s[0] != x;
      NoDuplicatesTail(s);
      assert s[1..][i - 1] == x;
      RemovedCutsOut(s[1..], i - 1);
      assert [s[0]] + (s[1..][..i - 1] + s[1..][i..]) == s[..i] + s[i + 1..];
    }
  }

  lemma NoDuplicatesTail<T>(s: seq<T>)
    requires NoDuplicates(s) && s != []
    ensures NoDuplicates(s[1..])
  {
    forall i, j | 0 <= i < j < |s[1..]| ensures s[1..][i] != s[1..][j] {
      assert s[1..][i] == s[i + 1] && s[1..][j] == s[j + 1];
    }
  }

  /** Deleting keeps a sequence free of duplicates. */
  lemma RemovedKeepsNoDuplicates<T>(s: seq<T>, x: T)
    requires NoDuplicates(s)
    ensures NoDuplicates(Removed(s, x))
  {
    if x in s {
      var i :| 0 <= i < |s| && s[i] == x;
      RemovedCutsOut(s, i);
      var r := s[..i] + s[i + 1..];
      forall a, b | 0 <= a < b < |r| ensures r[a] != r[b] {
        var a' := if a < i then a else a + 1;
        var b' := if b < i then b else b + 1;
        assert r[a] == s[a'] && r[b] == s[b'];
      }
    } else {
      RemovedAbsent(s, x);
    }
  }

  /** A view of the fields' current state, in field order. */
  function Snapshot<V>(fs: seq<Field<V>>): (r: seq<FieldState<V>>)
    reads fs
    ensures |r| == |fs|
    ensures forall i | 0 <= i < |fs| :: r[i] == fs[i].State()
  {
    if fs == [] then [] else [fs[0].State()] + Snapshot(fs[1..])
  }

  /** The `errors` projection: the failing fields, in order, each with its
      message, value and identifier. */
  function ErrorsView<V>(states: seq<FieldState<V>>): (es: seq<FormError<V>>)
    ensures |es| <= |states|
    ensures forall e | e in es :: e.message != ""
  {
    if states == [] then []
    else
      var st := states[0];
      (if st.error != "" then [FormError(st.identifier, st.value, st.error)] else [])
        + ErrorsView(states[1..])
  }

  /** The error list is empty exactly when no field has an error. */
  lemma {:induction false} ErrorsViewEmpty<V>(states: seq<FieldState<V>>)
    ensures ErrorsView(states) == [] <==> forall i | 0 <= i < |states| :: states[i].error == ""
  {
    if states != [] {
      ErrorsViewEmpty(states[1..]);
      if states[0].error == "" {
        forall i | 0 <= i < |states[1..]| ensures states[i + 1].error == states[1..][i].error {}
      }
    }
  }

  /** The error list of a concatenation is the concatenation of the lists:
      entries follow field order. */
  lemma {:induction false} ErrorsViewAppend<V>(a: seq<FieldState<V>>, b: seq<FieldState<V>>)
    ensures ErrorsView(a + b) == ErrorsView(a) + ErrorsView(b)
  {
    if a == [] {
      assert a + b == b;
    } else {
      assert (a + b)[0] == a[0];
      assert (a + b)[1..] == a[1..] + b;
      ErrorsViewAppend(a[1..], b);
    }
  }

  /** The positions of the fields that currently have an error. */
  ghost function FailingIndices<V>(states: seq<FieldState<V>>): set<int> {
    set i | 0 <= i < |states| && states[i].error != ""
  }

  /** The error list has exactly one entry per failing field. */
  lemma {:induction false} ErrorsViewCount<V>(states: seq<FieldState<V>>)
    ensures |ErrorsView(states)| == |FailingIndices(states)|
  {
    if states == [] {
      assert FailingIndices(states) == {};
    } else {
      var n := |states| - 1;
      var init := states[..n];
      assert states == init + [states[n]];
      ErrorsViewCount(init);
      ErrorsViewAppend(init, [states[n]]);
      assert ErrorsView([states[n]]) == (if states[n].error != "" then [FormError(states[n].identifier, states[n].value, states[n].error)] else []);
      if states[n].error != "" {
        assert FailingIndices(states) == FailingIndices(init) + {n};
        assert n !in FailingIndices(init);
      } else {
        assert FailingIndices(states) == FailingIndices(init);
      }
    }
  }

  /** An entry is in the error list exactly when some failing field carries
      its message, value and identifier. */
  lemma {:induction false} ErrorsViewMembership<V>(states: seq<FieldState<V>>, e: FormError<V>)
    ensures e in ErrorsView(states) <==>
      exists i | 0 <= i < |states| :: states[i].error != "" && e == FormError(states[i].identifier, states[i].value, states[i].error)
  {
    if states != [] {
      ErrorsViewMembership(states[1..], e);
      if e in ErrorsView(states[1..]) {
        var i :| 0 <= i < |states[1..]| && states[1..][i].error != ""
          && e == FormError(states[1..][i].identifier, states[1..][i].value, states[1..][i].error);
        assert states[i + 1] == states[1..][i];
      }
      forall i | 1 <= i < |states| ensures states[i] == states[1..][i - 1] {}
    }
  }

  class Form<V> {
    var fields: seq<Field<V>>

    /** The fields form a set: no field occurs twice. */
    ghost predicate Valid()
      reads this
    {
      NoDuplicates(fields)
    }

    /** `useForm`: a form starts with no fields. */
    constructor ()
      ensures Valid() && fields == []
    {
      fields := [];
    }

    /** `registerField`: add the field unless it is already there. */
    method RegisterField(f: Field<V>)
      requires Valid()
      modifies this`fields
      ensures Valid()
      ensures f in old(fields) ==> fields == old(fields)
      ensures f !in old(fields) ==> fields == old(fields) + [f]
    {
      if f !in fields {
        fields := fields + [f];
      }
    }

    /** `unregisterField`: remove the field; a field that is not there is
        left alone. */
    method UnregisterField(f: Field<V>)
      requires Valid()
      modifies this`fields
      ensures Valid()
      ensures fields == Removed(old(fields), f)
    {
      RemovedKeepsNoDuplicates(fields, f);
      fields := Removed(fields, f);
    }

    /** `errors`, recomputed on every read. */
    function Errors(): (es: seq<FormError<V>>)
      reads this, fields
      ensures |es| <= |fields|
    {
      ErrorsView(Snapshot(fields))
    }

    /** `errors` has exactly one entry per registered field with an error. */
    lemma ErrorsCount()
      ensures |Errors()| == |set i | 0 <= i < |fields| && fields[i].error != ""|
    {
      ErrorsViewCount(Snapshot(fields));
      assert FailingIndices(Snapshot(fields)) == set i | 0 <= i < |fields| && fields[i].error != "";
    }

    /** An entry is in `errors` exactly when a registered field with an
        error carries it. */
    lemma ErrorsOfFields(e: FormError<V>)
      ensures e in Errors() <==>
        exists i | 0 <= i < |fields| :: fields[i].error != "" && e == FormError(fields[i].identifier, fields[i].value, fields[i].error)
    {
      ErrorsViewMembership(Snapshot(fields), e);
    }

    /** `isValid`: `errors` is empty, which is exactly when no registered
        field has an error. */
    function IsValid(): (b: bool)
      reads this, fields
      ensures b <==> forall i | 0 <= i < |fields| :: fields[i].error == ""
    {
      ErrorsViewEmpty(Snapshot(fields));
      |Errors()| == 0
    }

    /** `reset`: clear the error of every registered field. */
    method Reset()
      modifies fields
      ensures fields == old(fields)
      ensures forall i | 0 <= i < |fields| :: fields[i].error == ""
      ensures forall i | 0 <= i < |fields| :: fields[i].value == old(fields[i].value) && fields[i].rules == old(fields[i].rules)
    {
      for i := 0 to |fields|
        invariant forall j | 0 <= j < i :: fields[j].error == ""
        invariant forall j | 0 <= j < |fields| :: fields[j].value == old(fields[j].value) && fields[j].rules == old(fields[j].rules)
      {
        fields[i].Reset();
      }
    }

    /** `validate`: reset every field, then validate each in turn. The result
        is whether every field's own validation left it valid. An exception
        from a rule escapes at the first field whose rules throw; the fields
        before it are validated, it and the ones after it stay cleared. */
    method Validate() returns (c: Completion)
      requires Valid()
      modifies fields
      ensures fields == old(fields)
      ensures forall i | 0 <= i < |fields| :: fields[i].value == old(fields[i].value) && fields[i].rules == old(fields[i].rules)
      ensures c.Returned? ==> forall i | 0 <= i < |fields| ::
        !fields[i].SyncRunNow().Raised? && fields[i].error == ErrorFor(fields[i].SyncRunNow())
      ensures c.Returned? ==> (c.valid <==> forall i | 0 <= i < |fields| :: fields[i].error == "")
      ensures c.Threw? ==> exists k | 0 <= k < |fields| ::
        && fields[k].SyncRunNow().Raised?
        && c == Threw(fields[k].SyncRunNow().message)
        && (forall j | 0 <= j < k :: !fields[j].SyncRunNow().Raised? && fields[j].error == ErrorFor(fields[j].SyncRunNow()))
        && (forall j | k <= j < |fields| :: fields[j].error == "")
    {
      Reset();
      var i := 0;
      while i < |fields|
        invariant 0 <= i <= |fields|
        invariant forall j | 0 <= j < |fields| :: fields[j].value == old(fields[j].value) && fields[j].rules == old(fields[j].rules)
        invariant forall j | 0 <= j < i :: !fields[j].SyncRunNow().Raised? && fields[j].error == ErrorFor(fields[j].SyncRunNow())
        invariant forall j | i <= j < |fields| :: fields[j].error == ""
      {
        c := fields[i].Validate();
        if c.Threw? {
          return;
        }
        i := i + 1;
      }
      c := Returned(IsValid());
    }

    /** `validateAsync`: reset every field, then validate each one; every
        field ends with the error its own awaited validation set, and the
        result is whether all of them are valid. */
    method ValidateAsync() returns (valid: bool)
      requires Valid()
      modifies fields
      ensures fields == old(fields)
      ensures forall i | 0 <= i < |fields| :: fields[i].value == old(fields[i].value) && fields[i].rules == old(fields[i].rules)
      ensures forall i | 0 <= i < |fields| :: fields[i].error == ErrorFor(fields[i].AsyncRunNow())
      ensures valid <==> forall i | 0 <= i < |fields| :: ErrorFor(fields[i].AsyncRunNow()) == ""
    {
      Reset();
      for i := 0 to |fields|
        invariant forall j | 0 <= j < |fields| :: fields[j].value == old(fields[j].value) && fields[j].rules == old(fields[j].rules)
        invariant forall j | 0 <= j < i :: fields[j].error == ErrorFor(fields[j].AsyncRunNow())
      {
        var _ := fields[i].ValidateAsync();
      }
      valid := IsValid();
    }
  }
}

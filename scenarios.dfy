/**
  The library's usage scenarios, written as client code against the
  contracts of `Field` and `Form` alone.
*/
module Scenarios {
  import opened Rules
  import opened Validator

  /** The "required" rule of the scenarios: a non-empty value passes. */
  function IsRequired(v: string): Behaviour {
    if v != "" then Returns(True) else Returns(Str("Required"))
  }

  /** The same rule as a promise that settles later. */
  function IsRequiredLater(v: string): Behaviour {
    Promise(Resolved(if v != "" then True else Str("Required")))
  }

  function RequiredRule(awaited: bool): Rule<string> {
    if awaited then IsRequiredLater else IsRequired
  }

  lemma RequiredRuns()
    ensures SyncRun("", [IsRequired]) == Stopped(Str("Required"))
    ensures SyncRun("hello", [IsRequired]) == Passed
    ensures AsyncRun("", [IsRequiredLater]) == Stopped(Str("Required"))
    ensures AsyncRun("hello", [IsRequiredLater]) == Passed
  {
  }

  lemma SnapshotOfTwo(a: Field<string>, b: Field<string>)
    ensures Snapshot([a, b]) == [a.State(), b.State()]
  {
    assert [a, b][1..] == [b];
  }

  /** The error list of two fields, entry by entry. */
  lemma ErrorsOfTwo(a: FieldState<string>, b: FieldState<string>)
    ensures ErrorsView([a, b])
         == (if a.error != "" then [FormError(a.identifier, a.value, a.error)] else [])
          + (if b.error != "" then [FormError(b.identifier, b.value, b.error)] else [])
  {
    assert [a, b][1..] == [b];
  }

  /** A field used without any form. */
  method StandaloneField() {
    var f := new Field("hello", [IsRequired], None, null, null);
    var c := f.Validate();
    assert c == Returned(true) && f.error == "";

    f.value := "";
    c := f.Validate();
    assert c == Returned(false) && f.error == "Required";

    f.Reset();
    assert f.error == "";
  }

  /** A form holding the fields "i1" and "i2", both with the one rule given. */
  ghost predicate TwoFieldForm(form: Form<string>, f1: Field<string>, f2: Field<string>, rule: Rule<string>)
    reads form, f1, f2
  {
    && form.Valid() && form.fields == [f1, f2]
    && f1.rules == [rule] && f1.identifier == Some("i1")
    && f2.rules == [rule] && f2.identifier == Some("i2")
  }

  method NewTwoFieldForm(rule: Rule<string>) returns (form: Form<string>, f1: Field<string>, f2: Field<string>)
    ensures fresh(form) && fresh(f1) && fresh(f2)
    ensures TwoFieldForm(form, f1, f2, rule)
    ensures f1.value == "" && f2.value == "" && f1.error == "" && f2.error == ""
  {
    form := new Form();
    f1 := new Field("", [rule], Some("i1"), form, null);
    f2 := new Field("", [rule], Some("i2"), form, null);
  }

  /** Both fields empty: validating lists both, in field order. */
  method ValidateBothEmpty(form: Form<string>, f1: Field<string>, f2: Field<string>, rule: Rule<string>, awaited: bool)
    requires TwoFieldForm(form, f1, f2, rule) && f1.value == "" && f2.value == ""
    requires rule == RequiredRule(awaited)
    modifies f1, f2
    ensures TwoFieldForm(form, f1, f2, rule) && f1.value == "" && f2.value == ""
    ensures form.Errors() == [FormError(Some("i1"), "", "Required"), FormError(Some("i2"), "", "Required")]
  {
    RequiredRuns();
    if !awaited {
      var c := form.Validate();
      assert form.fields[0] == f1 && form.fields[1] == f2;
      assert f1.SyncRunNow() == Stopped(Str("Required"));
      assert f2.SyncRunNow() == Stopped(Str("Required"));
      assert c == Returned(false);
    } else {
      var valid := form.ValidateAsync();
      assert form.fields[0] == f1 && form.fields[1] == f2;
      assert f1.AsyncRunNow() == Stopped(Str("Required"));
      assert f2.AsyncRunNow() == Stopped(Str("Required"));
      assert !valid;
    }
    SnapshotOfTwo(f1, f2);
    ErrorsOfTwo(f1.State(), f2.State());
  }

  /** Only the second field empty: validating lists only it. */
  method ValidateSecondEmpty(form: Form<string>, f1: Field<string>, f2: Field<string>, rule: Rule<string>, awaited: bool)
    requires TwoFieldForm(form, f1, f2, rule) && f1.value == "hello" && f2.value == ""
    requires rule == RequiredRule(awaited)
    modifies f1, f2
    ensures TwoFieldForm(form, f1, f2, rule)
    ensures form.Errors() == [FormError(Some("i2"), "", "Required")]
  {
    RequiredRuns();
    if !awaited {
      var c := form.Validate();
      assert form.fields[0] == f1 && form.fields[1] == f2;
      assert f1.SyncRunNow() == Passed;
      assert f2.SyncRunNow() == Stopped(Str("Required"));
      assert c == Returned(false);
    } else {
      var valid := form.ValidateAsync();
      assert form.fields[0] == f1 && form.fields[1] == f2;
      assert f1.AsyncRunNow() == Passed;
      assert f2.AsyncRunNow() == Stopped(Str("Required"));
      assert !valid;
    }
    SnapshotOfTwo(f1, f2);
    ErrorsOfTwo(f1.State(), f2.State());
  }

  /** Two required fields nested in one form, validated synchronously and
      then asynchronously. */
  method FormWithTwoFields(awaited: bool) {
    var rule := RequiredRule(awaited);
    var form, f1, f2 := NewTwoFieldForm(rule);
    assert form.IsValid() && form.Errors() == [];

    ValidateBothEmpty(form, f1, f2, rule, awaited);

    form.Reset();
    assert form.IsValid() && form.Errors() == [];

    f1.value := "hello";
    ValidateSecondEmpty(form, f1, f2, rule, awaited);
  }

  /** A field that has left its form is no longer listed or touched by it. */
  method UnmountedField() {
    RequiredRuns();
    var form := new Form();
    var f1 := new Field("", [IsRequired], Some("i1"), form, null);
    var f2 := new Field("hello", [IsRequired], Some("i2"), form, null);
    var c := f1.Validate();
    assert f1.error == "Required";

    f1.Unmount();
    RemovedCutsOut([f1, f2], 0);
    assert [f1, f2][1..] == [f2];
    assert form.fields == [f2];
    c := form.Validate();
    assert c == Returned(true) && form.IsValid();
    form.Reset();
    assert f1.error == "Required";
  }

  /** A form passed explicitly is only a fallback for a field that has an
      enclosing form. */
  method EnclosingFormWins() {
    var enclosing := new Form();
    var explicit := new Form();
    var f := new Field("", [IsRequired], None, enclosing, explicit);
    assert enclosing.fields == [f] && explicit.fields == [];

    var g := new Field("", [IsRequired], None, null, explicit);
    assert explicit.fields == [g] && enclosing.fields == [f];
  }
}

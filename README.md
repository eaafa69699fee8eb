# vue-tiny-validator, modelled in Dafny

A model of the small validation library `vue-tiny-validator`: a field
validator (`useField`) that runs an ordered list of rules against a value
and keeps one error message, and a form aggregator (`useForm`) that keeps
the set of fields registered with it, derives their error list and its
validity from them, and resets or validates them all.

Three modules:

- `Rules` (`rules.dfy`): what one rule call can do, and the two evaluation
  loops. A call either returns a value (`true`, a string, or anything
  else), throws, or returns a promise that resolves or rejects. The
  synchronous loop (`checkRulesSync`) stops at the first raw value that is
  not exactly `true`. A promise counts as such a value there, and a throw
  escapes. The asynchronous loop (`checkRulesAsync`) awaits each call,
  stops at the first settled value that is not `true`, and turns a throw or
  a rejection into its error's `message`. Both loops are `while` loops proved
  against one recursive specification, `Evaluate`. The lemmas about it give
  the first-failure characterisation and the short-circuit.
- `Validator` (`validator.dfy`): the `Field` class, whose one piece of own
  state is `error`, and the `Form` class, whose state is `fields`. `fields`
  is a duplicate-free sequence standing for the library's insertion-ordered
  `Set`. `Errors()` and `IsValid()` are functions computed on every read.
  They are built on pure functions over snapshots of the fields.
- `Scenarios` (`scenarios.dfy`): the library's test scenarios, written as
  client methods that use only the contracts. They cover a standalone
  field, two fields in a form (validated synchronously and, with a
  promise-returning rule, asynchronously), a field that has left its form,
  and context resolution.

The value type of a field is a type parameter `V`. A rule is a total
function `V -> Behaviour`, and the owner changes a field's `value` and
`rules` by assigning them, as the library re-reads both on every
validation.

Four behaviours of the code that a reader might not expect:

- `validate` is not exception-safe. `checkRulesSync` has no `try`
  (vue-tiny-validator.ts:48-55), and neither has `validate` (107-110), so an
  exception thrown by a synchronous rule escapes, and the error is left as it
  was. In a form's `validate` (191-199) the loop stops at that field, so that
  field and the ones after it keep the error `reset` gave them (`""`). The
  model returns this case as `Completion.Threw`.
- Only a non-empty string result becomes the error. `validateRulesResult`
  (94-102) clears the error for any other result. So `false`, numbers,
  other objects, and (on the synchronous path) a pending promise all stop
  evaluation, yet the field ends up valid (`FalseRuleLeavesFieldValid`,
  `PromiseRuleSkippedBySyncPath`).
- An enclosing form takes precedence over the `form` option. The context
  is `inject(FormSymbol, form?.[FormSymbol])` (120-123), and the explicitly
  passed form is only `inject`'s default (`ResolveContext`,
  `Field.constructor`).
- The form iterates its fields in insertion order, as a JavaScript `Set`
  does. The model keeps that order, and `Errors()` follows it.

## Model

| member | source | states |
|---|---|---|
| `Rules.SyncStep` | vue-tiny-validator.ts:48-55 | on the synchronous path only a call returning exactly `true` lets the loop go on; any other returned value stops the loop with that value; a throw, and only a throw, escapes; a promise stops the loop as a value that is neither `true` nor a string |
| `Rules.AsyncStep` | vue-tiny-validator.ts:57-68 | on the asynchronous path a call goes on exactly when it returns `true` or a promise resolving to `true`; any other returned or resolved value stops the loop with that value; nothing escapes; a throw or a rejection stops the loop with the error's message |
| `Rules.SyncRun` | vue-tiny-validator.ts:48-55 | the synchronous pass over the rules ends with "no result" exactly when every rule returns `true` |
| `Rules.SyncRaisesAtFirstThrow` | vue-tiny-validator.ts:48-55 | the synchronous pass raises exactly when the first rule that does not return `true` throws |
| `Rules.Evaluate` | vue-tiny-validator.ts:48-68 | a pass ends with "no result" exactly when every rule's call lets the loop go on |
| `Rules.AsyncRun` | vue-tiny-validator.ts:57-68 | the asynchronous pass never lets an exception reach its caller |
| `Rules.AsyncNeverRaises` | vue-tiny-validator.ts:59-66 | by induction over the rules: with every throw and rejection caught, no asynchronous pass ends raised |
| `Rules.EvaluateStopsAtFirstHalt` | vue-tiny-validator.ts:49-53 | when rule `k` is the first whose call does not let the loop go on, the pass ends with exactly that call's value (or exception) |
| `Rules.EvaluateHaltedHasStopIndex` | vue-tiny-validator.ts:49-54 | a pass that does not end with "no result" has a first stopping rule, and its value is that rule's |
| `Rules.EvaluateAppend` | vue-tiny-validator.ts:49-53 | short-circuit: rules after the one that stopped a pass cannot change its result; if a prefix passes in full, the remaining rules alone decide |
| `Rules.SyncAgreesWithAsyncOnPlainRules` | vue-tiny-validator.ts:48-68 | when every rule just returns a value (no throw, no promise), both loops give the same result |
| `Rules.CheckRulesSync` | vue-tiny-validator.ts:48-55 | the loop computes the synchronous pass; it ends with "no result" exactly when every rule returned `true` |
| `Rules.CheckRulesAsync` | vue-tiny-validator.ts:57-68 | the loop computes the asynchronous pass; it ends with "no result" exactly when every rule returned `true` or a promise resolving to `true` |
| `Validator.ErrorFor` | vue-tiny-validator.ts:94-102 | the error a result leaves is non-empty exactly when the result is a non-empty string, and is then that string |
| `Validator.SyncErrorIsFirstFailure` | vue-tiny-validator.ts:94-110 | after `validate` with no throw, the error is the message of the first rule that did not return `true` (none if it returned no string) |
| `Validator.AsyncErrorIsFirstFailure` | vue-tiny-validator.ts:57-68 | after `validateAsync`, the error is the message of the first rule that did not yield `true`, thrown and rejected messages included |
| `Validator.AllRulesPassingIsValid` | vue-tiny-validator.ts:94-118 | when every rule returns `true`, both passes end with "no result" and the field is valid |
| `Validator.FalseRuleLeavesFieldValid` | vue-tiny-validator.ts:51-52 | a leading rule returning `false` (or any non-string) stops both passes, so later rules cannot raise an error, and the field is left valid |
| `Validator.PromiseRuleSkippedBySyncPath` | vue-tiny-validator.ts:48-63 | a promise-returning rule stops the synchronous pass and leaves the field valid, while the asynchronous pass reports the message the promise settles with |
| `Validator.ResolveContext` | vue-tiny-validator.ts:120-125 | the enclosing form if there is one, else the explicitly passed form, else none |
| `Validator.Field.constructor` | vue-tiny-validator.ts:79-137 | a new field starts with no error; it registers, appended at the end, with the resolved context (the enclosing form, else the explicit one) and changes no other form |
| `Validator.Field.Reset` | vue-tiny-validator.ts:90-92 | the error becomes empty and nothing else changes (so resetting twice is resetting once) |
| `Validator.Field.ValidateRulesResult` | vue-tiny-validator.ts:94-102 | sets the error from a pass result and returns exactly whether the error is now empty |
| `Validator.Field.Validate` | vue-tiny-validator.ts:107-110 | without a throw: the error is the one the synchronous pass leaves and the result is whether it is empty; with a throw: the exception escapes and the error is unchanged |
| `Validator.Field.ValidateAsync` | vue-tiny-validator.ts:115-118 | the error is the one the asynchronous pass leaves and the result is whether it is empty |
| `Validator.Field.Unmount` | vue-tiny-validator.ts:136 | the teardown hook takes the field out of the context it joined, keeping the others in order |
| `Validator.Removed` | vue-tiny-validator.ts:156-158 | deleting leaves the element absent and keeps every other element |
| `Validator.RemovedAbsent` | vue-tiny-validator.ts:156-158 | deleting an absent field is a no-op |
| `Validator.RemovedCutsOut` | vue-tiny-validator.ts:156-158 | deleting a present field cuts out its one occurrence and keeps the rest in order |
| `Validator.RemovedKeepsNoDuplicates` | vue-tiny-validator.ts:151-158 | deleting keeps the field set free of duplicates |
| `Validator.ErrorsViewCount` | vue-tiny-validator.ts:168-177 | the error list has exactly one entry per field with a non-empty error |
| `Validator.ErrorsView` | vue-tiny-validator.ts:168-177 | the error list is no longer than the field list, and every entry has a non-empty message |
| `Validator.ErrorsViewEmpty` | vue-tiny-validator.ts:168-177 | the error list is empty exactly when no field has an error |
| `Validator.ErrorsViewAppend` | vue-tiny-validator.ts:168-177 | the error list of fields `a` then `b` is the list of `a` then the list of `b`, so entries follow field order |
| `Validator.ErrorsViewMembership` | vue-tiny-validator.ts:168-177 | an entry is in the error list exactly when some field with a non-empty error has that message, value and identifier |
| `Validator.Form.constructor` | vue-tiny-validator.ts:150-151 | a new form has no fields |
| `Validator.Form.RegisterField` | vue-tiny-validator.ts:153-155 | adding appends a field that is not yet registered and leaves the set unchanged otherwise; no duplicates arise |
| `Validator.Form.UnregisterField` | vue-tiny-validator.ts:156-158 | removing yields the old fields with that one deleted; the set stays duplicate-free |
| `Validator.Form.Errors` | vue-tiny-validator.ts:168-177 | the error list has at most one entry per registered field |
| `Validator.Form.ErrorsCount` | vue-tiny-validator.ts:168-177 | the error list has exactly as many entries as there are registered fields with a non-empty error |
| `Validator.Form.ErrorsOfFields` | vue-tiny-validator.ts:168-177 | an entry is in `errors` exactly when a registered field with an error carries its message, value and identifier |
| `Validator.Form.IsValid` | vue-tiny-validator.ts:216 | `isValid` holds exactly when no registered field has an error |
| `Validator.Form.Reset` | vue-tiny-validator.ts:182-186 | every registered field's error is empty afterwards; the field set, the values and the rules are unchanged, and no other object is touched |
| `Validator.Form.Validate` | vue-tiny-validator.ts:191-199 | if no rule throws, every field has the error its own synchronous validation sets and the result is whether all are empty; otherwise the exception of the first throwing field `k` escapes, fields before `k` are validated and `k` onwards are cleared; fields not registered are not touched |
| `Validator.Form.ValidateAsync` | vue-tiny-validator.ts:204-208 | every field has the error its own asynchronous validation sets, and the result is whether all of them are empty |

## Left out

- Vue's reactivity (`ref`, `computed`, `reactive`, `isRef`). A field's value and rules are plain fields that the owner assigns and every validation re-reads. `errors` and `isValid` are functions computed on each read. The read-only `error` view returned by `useField` is the field's `error`, which clients only read.
- `provide`/`inject`, the `FormSymbol` key and the `form` token. Both the enclosing form and the explicitly passed form are constructor arguments, and `ResolveContext` applies `inject`'s default rule to them.
- `onBeforeUnmount`: the hook is the explicit `Field.Unmount` call. Component teardown is not modelled.
- Promise scheduling. `Promise.all` starts every field's validation at once. Races between overlapping `validateAsync` calls are not modelled. `Field.ValidateAsync` and `Form.ValidateAsync` run as one sequential step each. Each field writes only its own error, so the final state is the same. The moment at which `errors` still reads empty while validations are pending is not modelled.
- Rules with side effects or state. Rules are pure functions of the value, so "a later rule is never invoked" appears as "a later rule cannot affect the result" (`EvaluateAppend`, `FalseRuleLeavesFieldValid`). An invocation count is not modelled.
- JavaScript truthiness and `typeof`, beyond `True | Str | Other`. A thrown or rejected error's `message` is abstracted to a `RuleResult`. Throwing `null` or `undefined` makes reading `.message` fail inside the `catch`, so `checkRulesAsync` itself rejects. That case is not modelled.
- The test file `vue-tiny-validator.test.ts` is only a source for the scenarios in `scenarios.dfy`. `vite.config.ts` is build configuration and not part of this model.

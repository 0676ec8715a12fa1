# Fluent validator, modelled in Dafny

A model of `AppliableValidator`, the fluent parameter validator of the
`tracer-common` library. A caller wraps a value with `of(..)`, chains checks
(`notNull`, `on`, `onIf`), binds a success continuation with `onSuccess`, and
ends the chain with `onFailure`. That call returns the success continuation's
result when the value passed every check. Otherwise it returns the failure
continuation's result, given the value and the recorded error message.

The Java object mutates itself and returns `this`. Here a validator is an
immutable `Validator` value threaded through pure functions. API misuse
exceptions become an `Abort(Misuse)` outcome. Validation failures stay data:
a single error slot `err: Option<Failure>`.

Files:
- `wrappers.dfy`: `Option` (for Java null) and `Result` (normal result or misuse abort).
- `validator.dfy`: the validator state and the base-class primitives `CheckValue`,
  `KeepValidating`, `SetError`, `Valid`, `ErrMsg`.
- `appliable.dfy`: the factories, the three checks with and without an error code,
  `OnSuccess` and `OnFailure`.
- `chain.dfy`: a chain of checks (`Run`). It also holds the value-only reference
  definitions `Fails`, `Probes`, `FirstFailure`, `LastFailure` and `Passes`, and the
  lemmas for fail-fast and run-all behaviour.
- `pipeline.dfy`: a whole chain as one function (`Validate`), its result in each
  mode, and three worked examples.

Assumptions about the base class. `AbstractValidator` is not part of this model.
Its primitives are modelled in the smallest way consistent with how
`AppliableValidator` uses them:
- The constructor stores value, null-value code and mode, and starts with nothing recorded. It does not run `checkValue`.
- `checkValue` records `(nullValueCode, "value is null")` when the value is absent and nothing is recorded yet.
- `keepValidating` is `!fastValidate || isValid()`.
- `setError` overwrites the single slot.
- `isValid` means the slot is empty.
- `getErrMsg` reads the message in the slot.
- The texts of `NO_ERROR_CODE` and of the null-value message are placeholders.

Evaluation trace. To say which caller functions a check invoked, the state carries
a `log` field. It has no Java counterpart. Each check appends one entry listing
the mapper, condition and predicate calls it made, in order.

Behaviour of the code that the model keeps:
- `on` and `onIf` pass the value to their predicate and condition even when it
  is null. In run-all mode `checkValue` records the null failure but
  `keepValidating` stays true. So these functions take `Option<T>`.
  `notNull` guards with `value != null`, so its mapper takes `T`.
- In run-all mode a later failing check overwrites the null-value failure. So an
  absent value always ends in the failure continuation, but the null-value message
  is guaranteed only in fail-fast mode, or when no check fails.
- Run-all mode keeps the LAST failure (`RunAllLastWins`). Fail-fast mode keeps
  the FIRST (`FastFirstWins`).

## Model

| member | source | states |
|---|---|---|
| `Appliable.Of` | tracer-common/src/main/java/com/miracle/validate/AppliableValidator.java:62-67 | aborts with `NullErrorCode` exactly when the null-value code is null; otherwise the validator holds the given value, code and mode, with no failure recorded and no success handler |
| `Appliable.Fresh` | tracer-common/src/main/java/com/miracle/validate/AppliableValidator.java:24-26 | the private constructor stores the given value, code and mode, with no failure recorded, no success handler and an empty log (the base-class part is an assumption) |
| `Appliable.OfWithMode` | tracer-common/src/main/java/com/miracle/validate/AppliableValidator.java:48-50 | never aborts; uses the `NO_ERROR_CODE` sentinel as null-value code and the given mode |
| `Appliable.OfValue` | tracer-common/src/main/java/com/miracle/validate/AppliableValidator.java:36-38 | never aborts; sentinel null-value code, run-all (not fail-fast) mode |
| `Appliable.NotNull` | tracer-common/src/main/java/com/miracle/validate/AppliableValidator.java:88-96 | records `(errorCode, errorMsg)` only when validation continues, the value is present and the mapper yields null; otherwise the slot is what `checkValue` left. The mapper is invoked only when validation continues on a present value. Value, code, mode and handler are unchanged, and an error is never cleared |
| `Appliable.NotNullNoCode` | tracer-common/src/main/java/com/miracle/validate/AppliableValidator.java:76-78 | records `(NO_ERROR_CODE, errorMsg)` exactly when validation continues on a present value whose mapped value is null; otherwise the slot is what `checkValue` left |
| `Appliable.On` | tracer-common/src/main/java/com/miracle/validate/AppliableValidator.java:117-123 | inverted sense: records `(errorCode, errorMsg)` exactly when validation continues and the predicate HOLDS; otherwise only `checkValue`'s effect; the predicate is invoked only when validation continues; an error is never cleared |
| `Appliable.OnNoCode` | tracer-common/src/main/java/com/miracle/validate/AppliableValidator.java:105-107 | records `(NO_ERROR_CODE, errorMsg)` exactly when validation continues and the predicate holds; otherwise the slot is what `checkValue` left |
| `Appliable.OnIf` | tracer-common/src/main/java/com/miracle/validate/AppliableValidator.java:144-153 | records `(errorCode, errorMsg)` exactly when validation continues and both condition and predicate hold. The predicate is invoked only after a true condition. With a false condition only `checkValue`'s effect remains |
| `Appliable.OnIfNoCode` | tracer-common/src/main/java/com/miracle/validate/AppliableValidator.java:132-134 | records `(NO_ERROR_CODE, errorMsg)` exactly when validation continues and both condition and predicate hold; otherwise the slot is what `checkValue` left |
| `Appliable.OnSuccess` | tracer-common/src/main/java/com/miracle/validate/AppliableValidator.java:161-167 | aborts with `DuplicateSuccessHandler` exactly when a handler is already bound; otherwise binds it and leaves value, slot, code and mode unchanged |
| `Appliable.OnFailure` | tracer-common/src/main/java/com/miracle/validate/AppliableValidator.java:175-181 | aborts with `MissingSuccessHandler` exactly when no handler is bound. Otherwise, after a final `checkValue`, the result is the success handler applied to the present value when nothing is recorded, else the failure handler applied to the value and the recorded message |
| `Appliable.DefaultOverloads` | tracer-common/src/main/java/com/miracle/validate/AppliableValidator.java:36-134 | `of(v)` = `of(v, false)` = `of(v, NO_ERROR_CODE, false)`, and each check without a code equals the coded form with `NO_ERROR_CODE` |
| `Appliable.OnIgnoresPredicateWhenStopped` | tracer-common/src/main/java/com/miracle/validate/AppliableValidator.java:117-122 | when `keepValidating()` is false, `on` gives the same state for any two predicates, and the slot is what `checkValue` left |
| `Appliable.OnIfIgnoresPredicateWhenConditionFalse` | tracer-common/src/main/java/com/miracle/validate/AppliableValidator.java:144-153 | with a false condition, `onIf` gives the same state for any two predicates |
| `Appliable.AbsentValueReachesPredicate` | tracer-common/src/main/java/com/miracle/validate/AppliableValidator.java:117-122 | in run-all mode `on` invokes its predicate on an absent value. A failure it reports replaces the null-value failure |
| `Chain.Apply` | tracer-common/src/main/java/com/miracle/validate/AppliableValidator.java:88-153 | any check records its own failure exactly when validation continues and the value-only reference `Fails` holds; otherwise only `checkValue`'s effect. It logs exactly `Probes` when validation continues and nothing otherwise |
| `Chain.Run` | tracer-common/src/main/java/com/miracle/validate/AppliableValidator.java:88-153 | a chain never changes value, code, mode or handler, logs one entry per check, and never turns an invalid state valid |
| `Chain.RunAppend` | tracer-common/src/main/java/com/miracle/validate/AppliableValidator.java:88-153 | running two chains one after the other is running their concatenation, as chained calls on one validator do |
| `Chain.FastStops` | tracer-common/src/main/java/com/miracle/validate/AppliableValidator.java:88-153 | fail-fast: once a failure is recorded, it is kept and no later check invokes any caller function |
| `Chain.FastFirstWins` | tracer-common/src/main/java/com/miracle/validate/AppliableValidator.java:88-153 | fail-fast on a present value: the failure kept is the first failing check's (reference `FirstFailure`) |
| `Chain.FastEvaluatesUntilFirstFailure` | tracer-common/src/main/java/com/miracle/validate/AppliableValidator.java:88-153 | fail-fast on a present value: each check up to and including the first failing one invokes exactly its `Probes`, and every later check invokes nothing |
| `Chain.FastAbsent` | tracer-common/src/main/java/com/miracle/validate/AppliableValidator.java:88-153 | fail-fast on an absent value: the null-value failure is kept and no check invokes anything |
| `Chain.RunAllEvaluatesEvery` | tracer-common/src/main/java/com/miracle/validate/AppliableValidator.java:88-153 | run-all: every check invokes exactly its `Probes`, whatever failed before |
| `Chain.RunAllLastWins` | tracer-common/src/main/java/com/miracle/validate/AppliableValidator.java:88-153 | run-all: the failure kept is the last failing check's (reference `LastFailure`). With none failing it is what the first `checkValue` left |
| `Chain.SettledValidIffPasses` | tracer-common/src/main/java/com/miracle/validate/AppliableValidator.java:88-181 | in either mode, from a valid state, the chain plus a final `checkValue` stays valid exactly when the value is present and no check rejects it |
| `Pipeline.Validate` | tracer-common/src/main/java/com/miracle/validate/AppliableValidator.java:62-181 | a whole chain `of`, checks, `onSuccess`, `onFailure` aborts exactly when the null-value code is null, and then with `NullErrorCode` |
| `Pipeline.ValidateChoosesContinuation` | tracer-common/src/main/java/com/miracle/validate/AppliableValidator.java:175-181 | a correct chain never aborts. Its result is the success continuation's on the value when the value is present and passes every check, and otherwise the failure continuation's on the value |
| `Pipeline.ValidateFailFastMessage` | tracer-common/src/main/java/com/miracle/validate/AppliableValidator.java:175-181 | fail-fast: a rejected chain hands the failure continuation the null-value message for an absent value, otherwise the first failing check's message |
| `Pipeline.ValidateRunAllMessage` | tracer-common/src/main/java/com/miracle/validate/AppliableValidator.java:175-181 | run-all: a rejected chain hands the failure continuation the last failing check's message, or the null-value message when no check failed |
| `Pipeline.ExampleAccepted` | tracer-common/src/main/java/com/miracle/validate/AppliableValidator.java:117-181 | `of(42).on(v -> v < 0, ..).onSuccess(v -> v * 2).onFailure((v, m) -> -1)` yields 84 |
| `Pipeline.ExampleRejected` | tracer-common/src/main/java/com/miracle/validate/AppliableValidator.java:117-181 | the same chain on -5 yields -1, and the failure continuation receives "must be non-negative" |
| `Pipeline.ExampleAbsent` | tracer-common/src/main/java/com/miracle/validate/AppliableValidator.java:62-181 | `of(null, "ERR_NULL", false)` with no checks yields the null-value message, recorded under code "ERR_NULL" |

## Left out

- The base class `AbstractValidator` is not part of this model. Its primitives are the assumptions listed above, including the texts of `NO_ERROR_CODE` and of the null-value message.
- Exception classes and their messages (`NullPointerException`, `DuplicateSuccessHandlerException`): each misuse is one `Misuse` constructor of the abort outcome.
- Null `errorMsg`, `errorCode`, mapper, predicate or handler arguments: Dafny strings and functions cannot be null.
- Predicates and mappers that throw or have side effects are not modelled. For example, Java's `v -> v < 0` throws on a null `Integer`. Caller functions are total and pure here.
- Java generics and wildcards. The mapper of `notNull` returns `Option<R>`, and a `Check` chain fixes one `R` per chain.
- Aliasing of the mutable `this`, and reuse of a validator after `onFailure`: each call returns a new value.
- `Pipeline.Validate` binds the success handler after all checks. Calling `onSuccess` between checks is not modelled: checks never touch the handler and `onSuccess` never touches the slot.
- Concurrency: the validator is single-owner and sequential.

/** A whole fluent chain, `of(..)` then the checks then `onSuccess(..)` then
    `onFailure(..)`, as one function from its arguments to the chain's result,
    and what that result is in each mode. */
module Pipeline {
  import opened Wrappers
  import opened Validation
  import opened Appliable
  import opened Chain

  /** `of(value, nullValueCode, fast)`, the checks `cs`, `onSuccess(success)`,
      `onFailure(failure)`. */
  function Validate<T, U, R>(value: Option<T>, nullValueCode: Option<string>, fast: bool, cs: seq<Check<T, R>>,
                             success: T -> U, failure: (Option<T>, string) -> U): (r: Result<U, Misuse>)
    ensures r.Abort? <==> nullValueCode.None?
    ensures r.Abort? ==> r.error == NullErrorCode
  {
    match Of<T, U>(value, nullValueCode, fast)
    case Abort(e) => Abort(e)
    case Ok(v) =>
      match OnSuccess(Run(v, cs), success)
      case Abort(e) => Abort(e)
      case Ok(w) => OnFailure(w, failure)
  }

  /** In either mode, a correctly built chain never aborts and its result is the
      success continuation's exactly when the value is present and passes every
      check; otherwise it is the failure continuation's, given the value. */
  lemma ValidateChoosesContinuation<T, U, R>(value: Option<T>, code: string, fast: bool, cs: seq<Check<T, R>>,
                                             success: T -> U, failure: (Option<T>, string) -> U)
    ensures var r := Validate(value, Some(code), fast, cs, success, failure);
      && r.Ok?
      && (Passes(value, cs) ==> r.value == success(value.value))
      && (!Passes(value, cs) ==> exists m :: r.value == failure(value, m))
  {
    var v := Fresh<T, U>(value, code, fast);
    var w := Run(v, cs);
    SettledValidIffPasses(v, cs);
    if !Passes(value, cs) {
      var m := w.CheckValue().ErrMsg();
      assert Validate(value, Some(code), fast, cs, success, failure).value == failure(value, m);
    }
  }

  /** Fail-fast: a rejected chain reports the null-value message for an absent
      value, otherwise the message of the first check that failed. */
  lemma ValidateFailFastMessage<T, U, R>(value: Option<T>, code: string, cs: seq<Check<T, R>>,
                                         success: T -> U, failure: (Option<T>, string) -> U)
    requires !Passes(value, cs)
    ensures Validate(value, Some(code), true, cs, success, failure) ==
      Ok(failure(value, if value.None? then NullValueMessage else FirstFailure(value, cs).value.msg))
  {
    var v := Fresh<T, U>(value, code, true);
    SettledValidIffPasses(v, cs);
    if value.None? {
      if |cs| > 0 {
        FastAbsent(v, cs);
      }
    } else {
      FastFirstWins(v, cs);
    }
  }

  /** Run-all: a rejected chain reports the message of the LAST check that failed;
      when none failed (so the value is absent) it reports the null-value message. */
  lemma ValidateRunAllMessage<T, U, R>(value: Option<T>, code: string, cs: seq<Check<T, R>>,
                                       success: T -> U, failure: (Option<T>, string) -> U)
    requires !Passes(value, cs)
    ensures Validate(value, Some(code), false, cs, success, failure) ==
      Ok(failure(value, if LastFailure(value, cs).Some? then LastFailure(value, cs).value.msg else NullValueMessage))
  {
    var v := Fresh<T, U>(value, code, false);
    SettledValidIffPasses(v, cs);
    RunAllLastWins(v, cs);
  }

  /** The example's test `v -> v < 0`; an absent value is not examined by the examples. */
  predicate IsNegative(v: Option<int>) {
    v.Some? && v.value < 0
  }

  /** The example's check `on(v -> v < 0, "must be non-negative")`. */
  function MustBeNonNegative<R>(): Check<int, R> {
    OnCheck(IsNegative, "must be non-negative", NoErrorCode)
  }

  /** The chain `of(42).on(v -> v < 0, "must be non-negative").onSuccess(v -> v * 2)
      .onFailure((v, m) -> -1)` yields 84. */
  lemma ExampleAccepted()
    ensures Validate<int, int, ()>(Some(42), Some(NoErrorCode), false,
                                   [MustBeNonNegative()],
                                   v => v * 2, (v, m) => -1) == Ok(84)
  {
  }

  /** The same chain on -5 yields -1, and the recorded message is the check's. */
  lemma ExampleRejected()
    ensures Validate<int, int, ()>(Some(-5), Some(NoErrorCode), false,
                                   [MustBeNonNegative()],
                                   v => v * 2, (v, m) => -1) == Ok(-1)
    ensures Validate<int, string, ()>(Some(-5), Some(NoErrorCode), false,
                                      [MustBeNonNegative()],
                                      v => "", (v, m) => m) == Ok("must be non-negative")
  {
  }

  /** `of(null, "ERR_NULL", false).onSuccess(v -> v).onFailure((v, m) -> m)` yields
      the null-value message, recorded under code "ERR_NULL". */
  lemma ExampleAbsent()
    ensures Validate<string, string, ()>(None, Some("ERR_NULL"), false, [], v => v, (v, m) => m)
            == Ok(NullValueMessage)
    ensures Fresh<string, string>(None, "ERR_NULL", false).CheckValue().err == Some(Failure("ERR_NULL", NullValueMessage))
  {
  }
}

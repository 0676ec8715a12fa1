/** The concrete validator: factories, the three check shapes, and the two
    terminal operations that bind and run the success/failure continuations.
    Every check is a pure function from validator to validator; the Java object
    returns itself for chaining, here the new state is returned instead. */
module Appliable {
  import opened Wrappers
  import opened Validation

  /** API misuse, kept apart from validation failures. */
  datatype Misuse =
    | NullErrorCode           // `of` given a null nullValueCode
    | DuplicateSuccessHandler // a second `onSuccess`
    | MissingSuccessHandler   // `onFailure` before any `onSuccess`

  /** The private constructor: stores value, code and mode, with nothing recorded,
      no success handler and nothing evaluated. That the base-class constructor
      records nothing (in particular does not run CheckValue) is an assumption. */
  function Fresh<T, U>(value: Option<T>, nullValueCode: string, fast: bool): (v: Validator<T, U>)
    ensures v.value == value && v.nullValueCode == nullValueCode && v.fast == fast
    ensures v.Valid() && v.handler.None? && v.log == []
  {
    Validator(value, nullValueCode, fast, None, None, [])
  }

  /** `of(value, nullValueCode, fastValidate)`: aborts on a null code (None),
      otherwise a validator with nothing recorded and no success handler. */
  function Of<T, U>(value: Option<T>, nullValueCode: Option<string>, fast: bool): (r: Result<Validator<T, U>, Misuse>)
    ensures r.Abort? <==> nullValueCode.None?
    ensures r.Abort? ==> r.error == NullErrorCode
    ensures r.Ok? ==>
      && r.value.value == value
      && r.value.nullValueCode == nullValueCode.value
      && r.value.fast == fast
      && r.value.Valid()
      && r.value.handler.None?
      && r.value.log == []
  {
    if nullValueCode.None? then Abort(NullErrorCode) else Ok(Fresh(value, nullValueCode.value, fast))
  }

  /** `of(value, fastValidate)`: never aborts; the null-value code is the sentinel. */
  function OfWithMode<T, U>(value: Option<T>, fast: bool): (r: Result<Validator<T, U>, Misuse>)
    ensures r.Ok? && r.value.nullValueCode == NoErrorCode && r.value.fast == fast
    ensures r.value.value == value && r.value.Valid() && r.value.handler.None?
  {
    Of(value, Some(NoErrorCode), fast)
  }

  /** `of(value)`: never aborts; sentinel null-value code, run-all mode. */
  function OfValue<T, U>(value: Option<T>): (r: Result<Validator<T, U>, Misuse>)
    ensures r.Ok? && r.value.nullValueCode == NoErrorCode && !r.value.fast
    ensures r.value.value == value && r.value.Valid() && r.value.handler.None?
  {
    OfWithMode(value, false)
  }

  /** `notNull(mapper, errorMsg, errorCode)`: fails when the mapped value is absent.
      The mapper is applied only to a present value, and only when validation continues. */
  function NotNull<T, U, R>(v: Validator<T, U>, mapper: T -> Option<R>, errorMsg: string, errorCode: string): (w: Validator<T, U>)
    ensures SameSubject(v, w)
    ensures var c := v.CheckValue();
      var probed := c.KeepValidating() && v.value.Some?;
      && (probed && mapper(v.value.value).None? ==> w.err == Some(Failure(errorCode, errorMsg)))
      && (!(probed && mapper(v.value.value).None?) ==> w.err == c.err)
      && w.log == v.log + [if probed then [MapperCall] else []]
    ensures w.Valid() ==> v.Valid()
  {
    var c := v.CheckValue();
    var probed := c.KeepValidating() && c.value.Some?;
    var d := if probed && mapper(c.value.value).None? then c.SetError(errorCode, errorMsg) else c;
    d.(log := d.log + [if probed then [MapperCall] else []])
  }

  /** `notNull(mapper, errorMsg)`: a failure it records carries the sentinel code. */
  function NotNullNoCode<T, U, R>(v: Validator<T, U>, mapper: T -> Option<R>, errorMsg: string): (w: Validator<T, U>)
    ensures var c := v.CheckValue();
      w.err == if c.KeepValidating() && v.value.Some? && mapper(v.value.value).None?
               then Some(Failure(NoErrorCode, errorMsg)) else c.err
  {
    NotNull(v, mapper, errorMsg, NoErrorCode)
  }

  /** `on(predicate, errorMsg, errorCode)`: fails when the predicate HOLDS (the
      predicate describes the failing case). The predicate sees the value even when
      it is absent, as Java passes null to it in run-all mode. */
  function On<T, U>(v: Validator<T, U>, test: Option<T> -> bool, errorMsg: string, errorCode: string): (w: Validator<T, U>)
    ensures SameSubject(v, w)
    ensures var c := v.CheckValue();
      && (c.KeepValidating() && test(v.value) ==> w.err == Some(Failure(errorCode, errorMsg)))
      && (!(c.KeepValidating() && test(v.value)) ==> w.err == c.err)
      && w.log == v.log + [if c.KeepValidating() then [PredicateCall] else []]
    ensures w.Valid() ==> v.Valid()
  {
    var c := v.CheckValue();
    var d := if c.KeepValidating() && test(c.value) then c.SetError(errorCode, errorMsg) else c;
    d.(log := d.log + [if c.KeepValidating() then [PredicateCall] else []])
  }

  /** `on(predicate, errorMsg)`: a failure it records carries the sentinel code. */
  function OnNoCode<T, U>(v: Validator<T, U>, test: Option<T> -> bool, errorMsg: string): (w: Validator<T, U>)
    ensures var c := v.CheckValue();
      w.err == if c.KeepValidating() && test(v.value) then Some(Failure(NoErrorCode, errorMsg)) else c.err
  {
    On(v, test, errorMsg, NoErrorCode)
  }

  /** `onIf(predicate, errorMsg, errorCode, condition)`: fails when both the
      condition and the predicate hold; the predicate is evaluated only when the
      condition holds. */
  function OnIf<T, U>(v: Validator<T, U>, test: Option<T> -> bool, errorMsg: string, errorCode: string,
                      condition: Option<T> -> bool): (w: Validator<T, U>)
    ensures SameSubject(v, w)
    ensures var c := v.CheckValue();
      && (c.KeepValidating() && condition(v.value) && test(v.value) ==> w.err == Some(Failure(errorCode, errorMsg)))
      && (!(c.KeepValidating() && condition(v.value) && test(v.value)) ==> w.err == c.err)
      && (!c.KeepValidating() ==> w.log == v.log + [[]])
      && (c.KeepValidating() && !condition(v.value) ==> w.log == v.log + [[ConditionCall]])
      && (c.KeepValidating() && condition(v.value) ==> w.log == v.log + [[ConditionCall, PredicateCall]])
    ensures w.Valid() ==> v.Valid()
  {
    var c := v.CheckValue();
    var d := if c.KeepValidating() && condition(c.value) && test(c.value) then c.SetError(errorCode, errorMsg) else c;
    var probes := if !c.KeepValidating() then []
                  else if condition(c.value) then [ConditionCall, PredicateCall]
                  else [ConditionCall];
    d.(log := d.log + [probes])
  }

  /** `onIf(predicate, errorMsg, condition)`: a failure it records carries the sentinel code. */
  function OnIfNoCode<T, U>(v: Validator<T, U>, test: Option<T> -> bool, errorMsg: string,
                            condition: Option<T> -> bool): (w: Validator<T, U>)
    ensures var c := v.CheckValue();
      w.err == if c.KeepValidating() && condition(v.value) && test(v.value)
               then Some(Failure(NoErrorCode, errorMsg)) else c.err
  {
    OnIf(v, test, errorMsg, NoErrorCode, condition)
  }

  /** `onSuccess(handler)`: binds the success continuation, at most once. */
  function OnSuccess<T, U>(v: Validator<T, U>, handler: T -> U): (r: Result<Validator<T, U>, Misuse>)
    ensures r.Abort? <==> v.handler.Some?
    ensures r.Abort? ==> r.error == DuplicateSuccessHandler
    ensures r.Ok? ==>
      && r.value.handler == Some(handler)
      && r.value.value == v.value && r.value.err == v.err && r.value.fast == v.fast
      && r.value.nullValueCode == v.nullValueCode && r.value.log == v.log
  {
    if v.handler.Some? then Abort(DuplicateSuccessHandler) else Ok(v.(handler := Some(handler)))
  }

  /** `onFailure(errorHandler)`: the terminal operation. After one last CheckValue,
      exactly one continuation supplies the result: the success continuation,
      applied to the present value, when nothing is recorded; otherwise the failure
      continuation, applied to the (possibly absent) value and the recorded message. */
  function OnFailure<T, U>(v: Validator<T, U>, errorHandler: (Option<T>, string) -> U): (r: Result<U, Misuse>)
    ensures r.Abort? <==> v.handler.None?
    ensures r.Abort? ==> r.error == MissingSuccessHandler
    ensures r.Ok? && v.Valid() && v.value.Some? ==> r.value == v.handler.value(v.value.value)
    ensures r.Ok? && !(v.Valid() && v.value.Some?) ==>
      r.value == errorHandler(v.value, v.CheckValue().ErrMsg())
  {
    if v.handler.None? then Abort(MissingSuccessHandler)
    else
      var c := v.CheckValue();
      if c.Valid() then Ok(c.handler.value(c.value.value))
      else Ok(errorHandler(c.value, c.ErrMsg()))
  }

  /** The no-code overloads are the coded ones with the sentinel code, and the
      shorter factories are the canonical one with the default arguments. */
  lemma DefaultOverloads<T, U, R>(value: Option<T>, v: Validator<T, U>, mapper: T -> Option<R>,
                                  test: Option<T> -> bool, condition: Option<T> -> bool, msg: string)
    ensures OfValue<T, U>(value) == OfWithMode(value, false) == Of(value, Some(NoErrorCode), false)
    ensures NotNullNoCode(v, mapper, msg) == NotNull(v, mapper, msg, NoErrorCode)
    ensures OnNoCode(v, test, msg) == On(v, test, msg, NoErrorCode)
    ensures OnIfNoCode(v, test, msg, condition) == OnIf(v, test, msg, NoErrorCode, condition)
  {
  }

  /** When validation has stopped, `on` does not depend on its predicate:
      any two predicates give the same state. */
  lemma OnIgnoresPredicateWhenStopped<T, U>(v: Validator<T, U>, p: Option<T> -> bool, q: Option<T> -> bool,
                                            msg: string, code: string)
    requires !v.CheckValue().KeepValidating()
    ensures On(v, p, msg, code) == On(v, q, msg, code)
    ensures On(v, p, msg, code).err == v.CheckValue().err
  {
  }

  /** When the condition is false, `onIf` does not depend on its predicate. */
  lemma OnIfIgnoresPredicateWhenConditionFalse<T, U>(v: Validator<T, U>, p: Option<T> -> bool, q: Option<T> -> bool,
                                                     msg: string, code: string, condition: Option<T> -> bool)
    requires !condition(v.value)
    ensures OnIf(v, p, msg, code, condition) == OnIf(v, q, msg, code, condition)
    ensures OnIf(v, p, msg, code, condition).err == v.CheckValue().err
  {
  }

  /** In run-all mode the predicate of `on` is applied even to an absent value,
      and a failure it reports replaces the null-value failure. */
  lemma AbsentValueReachesPredicate<T, U>(v: Validator<T, U>, p: Option<T> -> bool, msg: string, code: string)
    requires !v.fast && v.value.None?
    ensures On(v, p, msg, code).log == v.log + [[PredicateCall]]
    ensures p(None) ==> On(v, p, msg, code).err == Some(Failure(code, msg))
    ensures !p(None) && v.Valid() ==> On(v, p, msg, code).err == Some(v.NullFailure())
  {
  }
}

/** The state of a validator and the primitives of its (unseen) base class.

    The base class that owns `value`, the error slot and the fail-fast flag is not
    part of this model. Its primitives are given here in the smallest form that is
    consistent with how the concrete validator uses them; each one is an ASSUMPTION:
    - the constructor stores value, null-value code and mode, and starts with
      nothing recorded (it does not run CheckValue);
    - CheckValue: an absent value with no error yet records the null-value failure;
    - KeepValidating: `!fast || Valid()`;
    - SetError: overwrites the single error slot;
    - Valid: the error slot is empty;
    - ErrMsg: the message held in the slot. */
module Validation {
  import opened Wrappers

  /** Error code used by the overloads that take none. Its text is an assumption. */
  const NoErrorCode: string := "NO_ERROR_CODE"

  /** Message recorded for an absent value. Its text is an assumption. */
  const NullValueMessage: string := "value is null"

  /** The single recorded validation failure: a business code and a message. */
  datatype Failure = Failure(code: string, msg: string)

  /** A caller-supplied function that a check may invoke. */
  datatype Role = MapperCall | PredicateCall | ConditionCall

  /** A validator.  `handler` is the success continuation, bound at most once.
      `log` is model instrumentation with no Java counterpart: every check appends
      one entry listing the caller-supplied functions it invoked, in order. */
  datatype Validator<!T, U> = Validator(
    value: Option<T>,
    nullValueCode: string,
    fast: bool,
    err: Option<Failure>,
    handler: Option<T -> U>,
    log: seq<seq<Role>>)
  {
    /** No failure has been recorded. */
    predicate Valid() {
      err.None?
    }

    /** Whether the next check may evaluate its caller-supplied functions. */
    predicate KeepValidating() {
      !fast || Valid()
    }

    /** Records the null-value failure when the value is absent and nothing is recorded yet. */
    function CheckValue(): (w: Validator<T, U>)
      ensures w.Valid() <==> Valid() && value.Some?
      ensures Valid() && value.None? ==> w.err == Some(NullFailure())
      ensures !Valid() || value.Some? ==> w == this
      ensures SameSubject(this, w) && w.log == log
    {
      if value.None? && Valid() then SetError(nullValueCode, NullValueMessage) else this
    }

    /** The failure CheckValue records for an absent value. */
    function NullFailure(): Failure {
      Failure(nullValueCode, NullValueMessage)
    }

    /** Overwrites the error slot, whatever it held. */
    function SetError(code: string, msg: string): (w: Validator<T, U>)
      ensures !w.Valid() && w.err.value == Failure(code, msg)
      ensures SameSubject(this, w) && w.log == log
    {
      this.(err := Some(Failure(code, msg)))
    }

    /** The recorded message; meaningful only once a failure is recorded. */
    function ErrMsg(): string
      requires !Valid()
    {
      err.value.msg
    }
  }

  /** `v` and `w` agree on everything a check may not change: the subject value,
      the null-value code, the fail-fast flag and the success continuation. */
  ghost predicate SameSubject<T, U>(v: Validator<T, U>, w: Validator<T, U>) {
    && w.value == v.value
    && w.nullValueCode == v.nullValueCode
    && w.fast == v.fast
    && w.handler == v.handler
  }

  /** CheckValue is idempotent: a second call finds the slot already decided. */
  lemma CheckValueIdempotent<T, U>(v: Validator<T, U>)
    ensures v.CheckValue().CheckValue() == v.CheckValue()
  {
  }
}

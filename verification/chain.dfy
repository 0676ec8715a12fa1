/** A chain of checks applied in order, as a caller writes
    `of(x).notNull(..).on(..).onIf(..)`, and what the chain as a whole does in
    each of the two modes, stated against reference definitions that look only at
    the value and the checks. */
module Chain {
  import opened Wrappers
  import opened Validation
  import opened Appliable

  /** One attached check, with its arguments. */
  datatype Check<-T, R> =
    | NotNullCheck(mapper: T -> Option<R>, msg: string, code: string)
    | OnCheck(test: Option<T> -> bool, msg: string, code: string)
    | OnIfCheck(test: Option<T> -> bool, msg: string, code: string, condition: Option<T> -> bool)
  {
    /** The failure this check records when it fails. */
    function Recorded(): Failure {
      Failure(code, msg)
    }
  }

  /** Whether check `c` reports `value` as failing, once it gets to look at it. */
  predicate Fails<T, R>(c: Check<T, R>, value: Option<T>) {
    match c
    case NotNullCheck(mapper, _, _) => value.Some? && mapper(value.value).None?
    case OnCheck(test, _, _) => test(value)
    case OnIfCheck(test, _, _, condition) => condition(value) && test(value)
  }

  /** The caller-supplied functions check `c` invokes on `value`, in order,
      once it gets to look at it. */
  function Probes<T, R>(c: Check<T, R>, value: Option<T>): seq<Role> {
    match c
    case NotNullCheck(_, _, _) => if value.Some? then [MapperCall] else []
    case OnCheck(_, _, _) => [PredicateCall]
    case OnIfCheck(_, _, _, condition) => if condition(value) then [ConditionCall, PredicateCall] else [ConditionCall]
  }

  /** No check of `cs` reports `value` as failing. */
  ghost predicate NoneFail<T, R>(value: Option<T>, cs: seq<Check<T, R>>) {
    forall i :: 0 <= i < |cs| ==> !Fails(cs[i], value)
  }

  /** What the whole chain should accept: a present value no check rejects. */
  ghost predicate Passes<T, R>(value: Option<T>, cs: seq<Check<T, R>>) {
    value.Some? && NoneFail(value, cs)
  }

  /** Applies one check through the matching operation. */
  function Apply<T, U, R>(v: Validator<T, U>, c: Check<T, R>): (w: Validator<T, U>)
    ensures SameSubject(v, w)
    ensures w.log == v.log + [if v.CheckValue().KeepValidating() then Probes(c, v.value) else []]
    ensures w.err == if v.CheckValue().KeepValidating() && Fails(c, v.value) then Some(c.Recorded())
                     else v.CheckValue().err
  {
    match c
    case NotNullCheck(mapper, msg, code) => NotNull(v, mapper, msg, code)
    case OnCheck(test, msg, code) => On(v, test, msg, code)
    case OnIfCheck(test, msg, code, condition) => OnIf(v, test, msg, code, condition)
  }

  /** Applies the checks of `cs` left to right. */
  function Run<T, U, R>(v: Validator<T, U>, cs: seq<Check<T, R>>): (w: Validator<T, U>)
    ensures SameSubject(v, w)
    ensures |w.log| == |v.log| + |cs| && w.log[..|v.log|] == v.log
    ensures w.Valid() ==> v.Valid()
    decreases |cs|
  {
    if |cs| == 0 then v else Run(Apply(v, cs[0]), cs[1..])
  }

  /** The failure of the first failing check, scanning from the front. */
  function FirstFailure<T, R>(value: Option<T>, cs: seq<Check<T, R>>): (r: Option<Failure>)
    ensures r.None? <==> NoneFail(value, cs)
    decreases |cs|
  {
    if |cs| == 0 then None
    else if Fails(cs[0], value) then Some(cs[0].Recorded())
    else
      var r := FirstFailure(value, cs[1..]);
      assert forall i :: 1 <= i < |cs| ==> cs[i] == cs[1..][i - 1];
      r
  }

  /** The failure of the last failing check, scanning from the back. */
  function LastFailure<T, R>(value: Option<T>, cs: seq<Check<T, R>>): (r: Option<Failure>)
    ensures r.None? <==> NoneFail(value, cs)
    decreases |cs|
  {
    if |cs| == 0 then None
    else if Fails(cs[|cs| - 1], value) then Some(cs[|cs| - 1].Recorded())
    else LastFailure(value, cs[..|cs| - 1])
  }

  /** Running a chain extended by one check is running the chain, then the check. */
  lemma {:induction false} RunSnoc<T, U, R>(v: Validator<T, U>, cs: seq<Check<T, R>>, c: Check<T, R>)
    ensures Run(v, cs + [c]) == Apply(Run(v, cs), c)
    decreases |cs|
  {
    if |cs| == 0 {
      assert cs + [c] == [c];
      assert [c][1..] == [];
    } else {
      assert (cs + [c])[0] == cs[0];
      assert (cs + [c])[1..] == cs[1..] + [c];
      RunSnoc(Apply(v, cs[0]), cs[1..], c);
    }
  }

  /** Running a concatenated chain is running its two parts one after the other. */
  lemma {:induction false} RunAppend<T, U, R>(v: Validator<T, U>, a: seq<Check<T, R>>, b: seq<Check<T, R>>)
    ensures Run(v, a + b) == Run(Run(v, a), b)
    decreases |a|
  {
    if |a| == 0 {
      assert a + b == b;
    } else {
      assert (a + b)[0] == a[0];
      assert (a + b)[1..] == a[1..] + b;
      RunAppend(Apply(v, a[0]), a[1..], b);
    }
  }

  /** Fail-fast: once a failure is recorded, no later check invokes anything
      and the recorded failure stays as it is. */
  lemma {:induction false} FastStops<T, U, R>(v: Validator<T, U>, cs: seq<Check<T, R>>)
    requires v.fast && !v.Valid()
    ensures Run(v, cs).err == v.err
    ensures forall i :: |v.log| <= i < |Run(v, cs).log| ==> Run(v, cs).log[i] == []
    decreases |cs|
  {
    if |cs| > 0 {
      var a := Apply(v, cs[0]);
      FastStops(a, cs[1..]);
      var w := Run(a, cs[1..]);
      forall i | |v.log| <= i < |w.log|
        ensures w.log[i] == []
      {
        if i == |v.log| {
          assert w.log[i] == w.log[..|a.log|][i] == a.log[i];
        }
      }
    }
  }

  /** Fail-fast on a present value: the first failing check's failure is the one kept. */
  lemma {:induction false} FastFirstWins<T, U, R>(v: Validator<T, U>, cs: seq<Check<T, R>>)
    requires v.fast && v.Valid() && v.value.Some?
    ensures Run(v, cs).err == FirstFailure(v.value, cs)
    decreases |cs|
  {
    if |cs| > 0 {
      var a := Apply(v, cs[0]);
      if Fails(cs[0], v.value) {
        FastStops(a, cs[1..]);
      } else {
        FastFirstWins(a, cs[1..]);
      }
    }
  }

  /** A prefix of length `i >= 1` has no failing check exactly when its first
      check passes and the rest of the prefix has none. */
  lemma NoneFailPrefix<T, R>(value: Option<T>, cs: seq<Check<T, R>>, i: int)
    requires 1 <= i <= |cs|
    ensures NoneFail(value, cs[..i]) <==> !Fails(cs[0], value) && NoneFail(value, cs[1..][..i - 1])
  {
    assert cs[..i][0] == cs[0];
    assert forall j :: 1 <= j < i ==> cs[..i][j] == cs[1..][..i - 1][j - 1];
  }

  /** Fail-fast on a present value: every check up to and including the first
      failing one invokes exactly its `Probes`, and every later check invokes nothing. */
  lemma {:induction false} FastEvaluatesUntilFirstFailure<T, U, R>(v: Validator<T, U>, cs: seq<Check<T, R>>)
    requires v.fast && v.Valid() && v.value.Some?
    ensures forall i :: 0 <= i < |cs| ==>
      Run(v, cs).log[|v.log| + i] == if NoneFail(v.value, cs[..i]) then Probes(cs[i], v.value) else []
    decreases |cs|
  {
    if |cs| > 0 {
      var a := Apply(v, cs[0]);
      var w := Run(a, cs[1..]);
      assert w.log[|v.log|] == w.log[..|a.log|][|v.log|] == a.log[|v.log|];
      assert NoneFail(v.value, cs[..0]);
      if Fails(cs[0], v.value) {
        FastStops(a, cs[1..]);
      } else {
        FastEvaluatesUntilFirstFailure(a, cs[1..]);
      }
      forall i | 1 <= i < |cs|
        ensures w.log[|v.log| + i] == if NoneFail(v.value, cs[..i]) then Probes(cs[i], v.value) else []
      {
        NoneFailPrefix(v.value, cs, i);
        assert cs[i] == cs[1..][i - 1];
        assert |v.log| + i == |a.log| + (i - 1);
      }
    }
  }

  /** Fail-fast on an absent value: the first check records the null-value failure,
      which is kept, and no check invokes anything. */
  lemma {:induction false} FastAbsent<T, U, R>(v: Validator<T, U>, cs: seq<Check<T, R>>)
    requires v.fast && v.Valid() && v.value.None? && |cs| > 0
    ensures Run(v, cs).err == Some(v.NullFailure())
    ensures forall i :: |v.log| <= i < |Run(v, cs).log| ==> Run(v, cs).log[i] == []
  {
    var a := Apply(v, cs[0]);
    FastStops(a, cs[1..]);
    var w := Run(a, cs[1..]);
    forall i | |v.log| <= i < |w.log|
      ensures w.log[i] == []
    {
      if i == |v.log| {
        assert w.log[i] == w.log[..|a.log|][i] == a.log[i];
      }
    }
  }

  /** Run-all: every check invokes its functions, whatever was recorded before. */
  lemma {:induction false} RunAllEvaluatesEvery<T, U, R>(v: Validator<T, U>, cs: seq<Check<T, R>>)
    requires !v.fast
    ensures forall i :: 0 <= i < |cs| ==> Run(v, cs).log[|v.log| + i] == Probes(cs[i], v.value)
    decreases |cs|
  {
    if |cs| > 0 {
      var a := Apply(v, cs[0]);
      RunAllEvaluatesEvery(a, cs[1..]);
      var w := Run(a, cs[1..]);
      forall i | 0 <= i < |cs|
        ensures w.log[|v.log| + i] == Probes(cs[i], v.value)
      {
        if i == 0 {
          assert w.log[|v.log|] == w.log[..|a.log|][|v.log|] == a.log[|v.log|];
        } else {
          assert cs[i] == cs[1..][i - 1];
          assert |v.log| + i == |a.log| + (i - 1);
        }
      }
    }
  }

  /** Run-all: the failure kept is the last failing check's; with none failing it is
      what the first CheckValue left (the null-value failure for an absent value). */
  lemma {:induction false} RunAllLastWins<T, U, R>(v: Validator<T, U>, cs: seq<Check<T, R>>)
    requires !v.fast
    ensures Run(v, cs).err ==
      if LastFailure(v.value, cs).Some? then LastFailure(v.value, cs)
      else if |cs| == 0 then v.err
      else v.CheckValue().err
    decreases |cs|
  {
    if |cs| > 0 {
      var init := cs[..|cs| - 1];
      var c := cs[|cs| - 1];
      assert cs == init + [c];
      RunSnoc(v, init, c);
      RunAllLastWins(v, init);
      if !Fails(c, v.value) && LastFailure(v.value, init).None? && |init| > 0 {
        CheckValueIdempotent(v);
      }
    }
  }

  /** In either mode, starting from a valid state, the chain followed by a final
      CheckValue leaves the state valid exactly when the value is present and no
      check rejects it. */
  lemma {:induction false} SettledValidIffPasses<T, U, R>(v: Validator<T, U>, cs: seq<Check<T, R>>)
    requires v.Valid()
    ensures Run(v, cs).CheckValue().Valid() <==> Passes(v.value, cs)
    decreases |cs|
  {
    if |cs| > 0 {
      var a := Apply(v, cs[0]);
      if a.Valid() {
        SettledValidIffPasses(a, cs[1..]);
        assert NoneFail(v.value, cs) <==> !Fails(cs[0], v.value) && NoneFail(v.value, cs[1..]) by {
          assert forall i :: 1 <= i < |cs| ==> cs[i] == cs[1..][i - 1];
        }
      }
    }
  }
}

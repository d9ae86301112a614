/** Properties of `Res` that relate several operations: casting keeps errors,
    wrapping composes to any depth, and the accessors undo the factories. */
module ResProperties {
  import opened Java
  import opened Commons

  // Inspection

  /** Every result is exactly one of value, empty and error: the variant set
      is closed. Documentation of the design; it follows from the contracts
      of `IsOk` and `IsEmpty`. */
  lemma VariantsExclusive<T>(r: Res<T>)
    ensures r.Ok? || IsEmpty(r) || IsError(r)
    ensures !(r.Ok? && IsEmpty(r)) && !(r.Ok? && IsError(r)) && !(IsEmpty(r) && IsError(r))
  {
  }

  // Casting

  /** Casting an error to another payload type and back gives the error itself. */
  lemma CastErrorRoundTrip<T, E>(r: Res<T>, show: T -> string, showE: E -> string)
    requires IsError(r)
    ensures CastError<E, T>(CastError<T, E>(r, show), showE) == r
  {
  }

  /** Casting twice is casting once: the second cast meets an error. */
  lemma CastErrorIdempotent<T, E, F>(r: Res<T>, show: T -> string, showE: E -> string)
    ensures CastError<E, F>(CastError<T, E>(r, show), showE) == CastError<T, F>(r, show)
  {
  }

  /** `error()` never throws on the result of `castError()`. */
  lemma ErrorOfCastReturns<T, E>(r: Res<T>, show: T -> string)
    ensures Error(CastError<T, E>(r, show)).Returned?
  {
  }

  // Wrapping

  /** `wrapError(m)` equals `castError().wrapError(m)` on every result; for a
      non-error this is the source's own definition. */
  lemma WrapErrorAbsorbsCast<T, E, F>(r: Res<T>, message: Nullable<string>, show: T -> string, showE: E -> string)
    ensures WrapError<T, F>(r, message, show) == WrapError<E, F>(CastError<T, E>(r, show), message, showE)
  {
  }

  /** Wrapping an error twice stacks both contexts, outermost first. */
  lemma WrapErrorTwice<T>(e: string, m1: string, m2: string, show: T -> string)
    ensures WrapError<T, T>(WrapError<T, T>(Err(e), NonNull(m1), show), NonNull(m2), show)
         == Err(m2 + Arrow + m1 + Arrow + e)
  {
  }

  /** A null context does not throw: it is rendered as "null". */
  lemma WrapErrorNullContext<T>(e: string, show: T -> string)
    ensures WrapError<T, T>(Err(e), Null, show) == Err("null\n  -> " + e)
  {
  }

  /** The inner message is the tail of the wrapped message after the context
      and the arrow. */
  lemma WrapErrorKeepsInner<T, E>(r: Res<T>, message: Nullable<string>, show: T -> string)
    requires IsError(r)
    ensures WrapError<T, E>(r, message, show).error[|StringOf(message)| + |Arrow|..] == r.error
  {
    var w := WrapError<T, E>(r, message, show).error;
    assert w == (StringOf(message) + Arrow) + r.error;
  }

  /** Wrapping loses nothing: the same context on two different errors gives
      two different errors. */
  lemma WrapErrorInjective<T, E>(r1: Res<T>, r2: Res<T>, message: Nullable<string>, show: T -> string)
    requires IsError(r1) && IsError(r2)
    requires WrapError<T, E>(r1, message, show) == WrapError<T, E>(r2, message, show)
    ensures r1 == r2
  {
    WrapErrorKeepsInner<T, E>(r1, message, show);
    WrapErrorKeepsInner<T, E>(r2, message, show);
  }

  /** `wrapError` applied once for each of `contexts`, first element first. */
  ghost function WrapAll<T>(r: Res<T>, contexts: seq<Nullable<string>>, show: T -> string): Res<T>
    decreases |contexts|
  {
    if contexts == [] then r else WrapAll(WrapError<T, T>(r, contexts[0], show), contexts[1..], show)
  }

  /** The message trail of an error wrapped with `contexts` in that order:
      the last context first, each followed by an arrow line, the original
      message last. */
  ghost function Chain(contexts: seq<Nullable<string>>, inner: string): string
    decreases |contexts|
  {
    if contexts == [] then inner
    else StringOf(contexts[|contexts| - 1]) + Arrow + Chain(contexts[..|contexts| - 1], inner)
  }

  /** Wrapping the innermost message first and then the rest gives the trail. */
  lemma {:induction false} ChainInnermost(contexts: seq<Nullable<string>>, inner: string)
    requires contexts != []
    ensures Chain(contexts[1..], StringOf(contexts[0]) + Arrow + inner) == Chain(contexts, inner)
  {
    var n := |contexts|;
    if n > 1 {
      var init := contexts[..n - 1];
      ChainInnermost(init, inner);
      assert init[1..] == contexts[1..][..n - 2];
      assert init[0] == contexts[0];
    }
  }

  /** Any depth of wrapping of an error yields the full trail of messages. */
  lemma {:induction false} NestedWrapping<T>(e: string, contexts: seq<Nullable<string>>, show: T -> string)
    ensures WrapAll(Err(e), contexts, show) == Err(Chain(contexts, e))
    decreases |contexts|
  {
    if contexts != [] {
      NestedWrapping(StringOf(contexts[0]) + Arrow + e, contexts[1..], show);
      ChainInnermost(contexts, e);
    }
  }

  /** Wrapping a value or an empty result at any depth yields the trail ending
      in the cast's message. */
  lemma {:induction false} NestedWrappingOfSuccess<T>(r: Res<T>, contexts: seq<Nullable<string>>, show: T -> string)
    requires IsOk(r) && contexts != []
    ensures WrapAll(r, contexts, show) == Err(Chain(contexts, CastError<T, T>(r, show).error))
  {
    var e := CastError<T, T>(r, show).error;
    NestedWrapping(StringOf(contexts[0]) + Arrow + e, contexts[1..], show);
    ChainInnermost(contexts, e);
  }

  // Construction and accessors

  /** `value()` returns what `ok(v)` was given. */
  lemma ValueOfOk<T>(v: T)
    ensures NewOk(NonNull(v)).Returned?
    ensures Value(NewOk(NonNull(v)).result) == Returned(v)
  {
  }

  /** `error()` returns what `error(m)` was given. */
  lemma ErrorOfNewError<T>(m: string)
    ensures NewError<T>(NonNull(m)).Returned?
    ensures Error(NewError<T>(NonNull(m)).result) == Returned(m)
  {
  }

  /** The message and the cause's message both survive in `error(msg, err)`. */
  lemma CauseFolded<T>(m: string, cause: string)
    ensures var o := NewErrorWithCause<T>(NonNull(m), NonNull(Throwable(NonNull(cause))));
      o.Returned? && o.result.error[..|m|] == m && o.result.error[|m| + |CauseSeparator|..] == cause
  {
    var w := m + CauseSeparator + cause;
    assert w == m + (CauseSeparator + cause);
    assert w == (m + CauseSeparator) + cause;
  }

  // String representation

  /** The message of an error can be read back from its string form. */
  lemma ErrorStringKeepsMessage<T>(r: Res<T>, show: T -> string)
    requires IsError(r)
    ensures ToString(r, show)[|ErrorStringPrefix|..] == r.error
  {
  }

  /** The scenario of the wrapping test: an integer error wrapped as a double
      error, then cast to a string result. */
  lemma WrapErrorScenario(showI: int -> string, showD: real -> string)
    ensures var resD := WrapError<int, real>(Err("Integer error"), NonNull("Double error"), showI);
      var resS := CastError<real, string>(resD, showD);
      !IsEmpty(resS) && IsError(resS) && !IsOk(resS)
      && ToString(resD, showD) == "Error: Double error\n  -> Integer error"
  {
  }
}

/** The tri-state result type `Res<T>` of org.openlca.commons: a value, an
    empty success, or an error message. The payload's `toString()` is the
    parameter `show`; `Empty` is usable at every payload type, where Java only
    types it as `Res<Void>`. */
module Commons {
  import opened Java

  /** The separator `error(msg, err)` puts between a message and its cause. */
  const CauseSeparator: string := ": "
  /** The separator `wrapError` puts between the outer and the inner message. */
  const Arrow: string := "\n  -> "

  const EmptyValueMessage: string := "Result is empty"
  const ErrorValuePrefix: string := "Result is an error: "
  const NotAnErrorMessage: string := "Result is not an error"
  const CastValuePrefix: string := "Value casted to error: "
  const CastEmptyMessage: string := "Casted to error"
  const EmptyString: string := "ok!"
  const ErrorStringPrefix: string := "Error: "

  /** The three record variants of the sealed interface. */
  datatype Res<T> = Ok(value: T) | Empty | Err(error: string)

  // Inspection

  /** `isError()`: false by default, true in `Err`. */
  predicate IsError<T>(r: Res<T>)
    ensures IsError(r) <==> r.Err?
  {
    match r
    case Err(_) => true
    case _ => false
  }

  /** `isOk()`: true by default, false in `Err`; the negation of `isError()`. */
  predicate IsOk<T>(r: Res<T>)
    ensures IsOk(r) == !IsError(r)
    ensures IsOk(r) <==> r.Ok? || r.Empty?
  {
    match r
    case Err(_) => false
    case _ => true
  }

  /** `isEmpty()`: false by default, true in `Empty`. */
  predicate IsEmpty<T>(r: Res<T>)
    ensures IsEmpty(r) ==> IsOk(r)
    ensures IsEmpty(r) <==> !IsError(r) && !r.Ok?
  {
    match r
    case Empty => true
    case _ => false
  }

  // Construction

  /** `ok(value)`, through the `Ok` record constructor that rejects null. */
  function NewOk<T>(value: Nullable<T>): (o: Outcome<Res<T>>)
    ensures o.Returned? <==> value.NonNull?
    ensures o.Returned? ==> IsOk(o.result) && !IsEmpty(o.result) && o.result.value == value.value
    ensures o.Thrown? ==> o.exception == NullPointerException
  {
    match value
    case Null => Thrown(NullPointerException)
    case NonNull(v) => Returned(Ok(v))
  }

  /** `ok()`: the shared `Empty` instance, typed `Res<Void>`. */
  function NewEmpty(): (r: Res<()>)
    ensures IsEmpty(r) && IsOk(r) && !IsError(r)
  {
    Empty
  }

  /** `error(message)`, through the `Err` record constructor that rejects null. */
  function NewError<T>(message: Nullable<string>): (o: Outcome<Res<T>>)
    ensures o.Returned? <==> message.NonNull?
    ensures o.Returned? ==> IsError(o.result) && o.result.error == message.value
    ensures o.Thrown? ==> o.exception == NullPointerException
  {
    match message
    case Null => Thrown(NullPointerException)
    case NonNull(m) => Returned(Err(m))
  }

  /** `error(message, err)`: a non-null cause is folded into the message as
      `message + ": " + err.getMessage()`, where concatenation renders a null
      operand as "null", so this never throws; a null cause makes it
      `error(message)`. */
  function NewErrorWithCause<T>(message: Nullable<string>, err: Nullable<Throwable>): (o: Outcome<Res<T>>)
    ensures err.Null? ==> o == NewError(message)
    ensures err.NonNull? ==> o.Returned? && IsError(o.result)
    ensures err.NonNull? ==>
      o.result.error == StringOf(message) + CauseSeparator + StringOf(err.value.message)
  {
    match err
    case NonNull(t) => NewError(NonNull(StringOf(message) + CauseSeparator + StringOf(t.message)))
    case Null => NewError(message)
  }

  // Accessors

  /** `value()`: the payload of `Ok`; `Empty` and `Err` throw. */
  function Value<T>(r: Res<T>): (o: Outcome<T>)
    ensures o.Returned? <==> IsOk(r) && !IsEmpty(r)
    ensures o.Returned? ==> r == Ok(o.result)
    ensures IsEmpty(r) ==> o == Thrown(IllegalStateException(EmptyValueMessage))
    ensures IsError(r) ==> o == Thrown(IllegalStateException(ErrorValuePrefix + r.error))
  {
    match r
    case Ok(v) => Returned(v)
    case Empty => Thrown(IllegalStateException("Result is empty"))
    case Err(e) => Thrown(IllegalStateException("Result is an error: " + e))
  }

  /** `error()`: the message of `Err`; `Ok` and `Empty` throw. */
  function Error<T>(r: Res<T>): (o: Outcome<string>)
    ensures o.Returned? <==> IsError(r)
    ensures o.Returned? ==> r == Err(o.result)
    ensures IsOk(r) ==> o == Thrown(IllegalStateException(NotAnErrorMessage))
  {
    match r
    case Err(e) => Returned(e)
    case _ => Thrown(IllegalStateException("Result is not an error"))
  }

  // Transformation

  /** `castError()`: an error keeps its message under the new payload type;
      a value or an empty result becomes a descriptive error instead of a
      failure of the call. */
  function CastError<T, E>(r: Res<T>, show: T -> string): (c: Res<E>)
    ensures IsError(c)
    ensures IsError(r) ==> c.error == r.error
    ensures r.Ok? ==> c.error == CastValuePrefix + show(r.value)
    ensures IsEmpty(r) ==> c.error == CastEmptyMessage
  {
    match r
    case Err(e) => Err(e)
    case Ok(v) => Err("Value casted to error: " + show(v))
    case Empty => Err("Casted to error")
  }

  /** `wrapError(message)`: an error gets `message` as outer context; any
      other result is first cast to an error and then wrapped, which is a
      single recursive step since the cast always yields an error. A null
      context is not rejected: concatenation renders it as "null". */
  function WrapError<T, E>(r: Res<T>, message: Nullable<string>, show: T -> string): (w: Res<E>)
    decreases if IsError(r) then 0 else 1
    ensures IsError(w)
    ensures IsError(r) ==> w.error == StringOf(message) + Arrow + r.error
    ensures !IsError(r) ==> w.error == StringOf(message) + Arrow + CastError<T, T>(r, show).error
  {
    match r
    case Err(inner) => Err(StringOf(message) + "\n  -> " + inner)
    case _ => WrapError<T, E>(CastError<T, T>(r, show), message, show)
  }

  // String representation

  /** `toString()` of each variant. */
  function ToString<T>(r: Res<T>, show: T -> string): (s: string)
    ensures r.Ok? ==> s == show(r.value)
    ensures IsEmpty(r) ==> s == EmptyString
    ensures IsError(r) ==> s == ErrorStringPrefix + r.error
  {
    match r
    case Ok(v) => show(v)
    case Empty => "ok!"
    case Err(e) => "Error: " + e
  }
}

/** The small part of the Java platform that `Res` relies on: references that
    may be null, the exceptions `Res` raises, the message of a `Throwable`, and
    the way string concatenation renders a reference. */
module Java {

  /** A Java reference: either `null` or a reference to a value. */
  datatype Nullable<T> = Null | NonNull(value: T)

  /** An exception that a Java call raises instead of returning. */
  datatype Exception =
    | NullPointerException
    | IllegalStateException(message: string)

  /** What a Java call does: it returns a result or throws an exception. */
  datatype Outcome<T> = Returned(result: T) | Thrown(exception: Exception)

  /** A `Throwable`, seen only through `getMessage()`, which may be `null`. */
  datatype Throwable = Throwable(message: Nullable<string>)

  /** How `+` on strings renders a string reference: `null` becomes "null". */
  function StringOf(s: Nullable<string>): string
  {
    match s
    case Null => "null"
    case NonNull(v) => v
  }
}

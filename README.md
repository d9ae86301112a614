# Res: a tri-state result value

A Dafny model of `Res<T>` from the openLCA commons library. A `Res<T>` is one of three things:

- `Ok(value)`: a value.
- `Empty`: a success with no value, for operations that return nothing.
- `Err(error)`: a failure that carries a message.

The model covers the factories, the inspection flags, the two throwing accessors, `castError`, `wrapError` and `toString`. Proofs show that casting keeps an error's message, and that wrapping to any depth gives the full trail of messages joined by `"\n  -> "`.

Files:

- `java.dfy` (module `Java`): what the code uses from the Java platform.
  - Nullable references, as `Nullable<T>`.
  - The exceptions raised, as `Exception`.
  - A call that returns or throws, as `Outcome<T>`.
  - A `Throwable`, seen only through its possibly-null `getMessage()`.
  - String concatenation, which renders `null` as `"null"`.
- `res.dfy` (module `Commons`): the datatype `Res<T>` and one function per operation of `Res.java`.
- `res_properties.dfy` (module `ResProperties`): lemmas that relate several operations, and the scenarios of `ResTest.java`.

Modelling choices:

- The payload's `toString()` is the parameter `show: T -> string`.
- The Java factories take `Nullable` arguments. This lets the model include the `NullPointerException` thrown by `Objects.requireNonNull` in the `Ok` and `Err` record constructors.
- The accessors return `Outcome` instead of throwing. `Thrown(IllegalStateException(msg))` carries the message of the Java exception.
- In the source, `error(message, err)` folds the cause into the message when the error is built. The result keeps no structured cause. A structured cause composed lazily, and the operations `orElse`/`orElseThrow`, do not exist in `Res.java`. The model follows the code.

## Model

| member | source | states |
|---|---|---|
| `Commons.IsError` | src/main/java/org/openlca/commons/Res.java:128-131 | true exactly for `Err`, false for `Ok` and `Empty` (default at lines 19-21) |
| `Commons.IsOk` | src/main/java/org/openlca/commons/Res.java:23-27 | exactly the negation of `isError()` for every variant (`Err` overrides it to false, lines 133-136), so true exactly for `Ok` and `Empty` |
| `Commons.IsEmpty` | src/main/java/org/openlca/commons/Res.java:29-32 | true exactly for `Empty` (override at lines 106-109), and an empty result is ok |
| `Commons.NewOk` | src/main/java/org/openlca/commons/Res.java:39-41 | `ok(v)` returns exactly when `v` is non-null; the result is an ok, non-empty result holding `v`; `null` throws `NullPointerException` (record constructor, lines 82-84) |
| `Commons.NewEmpty` | src/main/java/org/openlca/commons/Res.java:45-47 | `ok()` is an empty, ok, non-error `Res<Void>` |
| `Commons.NewError` | src/main/java/org/openlca/commons/Res.java:51-53 | `error(m)` returns exactly when `m` is non-null and is then an error holding `m`; `null` throws `NullPointerException` (record constructor, lines 124-126) |
| `Commons.NewErrorWithCause` | src/main/java/org/openlca/commons/Res.java:56-60 | with a null cause it is `error(message)`. With a cause it never throws, even for a null message or null cause message. It gives an error whose message is `message + ": " + getMessage()`, with null rendered as "null" |
| `Commons.Value` | src/main/java/org/openlca/commons/Res.java:101-104 | returns exactly for `Ok`, and returns its payload. `Empty` throws `IllegalStateException("Result is empty")`. `Err` throws `IllegalStateException("Result is an error: " + msg)` (lines 138-141) |
| `Commons.Error` | src/main/java/org/openlca/commons/Res.java:86-89 | returns exactly for `Err`, and returns its message. `Ok` and `Empty` (lines 111-114) throw `IllegalStateException("Result is not an error")` |
| `Commons.CastError` | src/main/java/org/openlca/commons/Res.java:62-70 | always an error. An error keeps its message. `Ok(v)` becomes "Value casted to error: " + show(v). `Empty` becomes "Casted to error" |
| `Commons.WrapError` | src/main/java/org/openlca/commons/Res.java:72-78 | always an error, and never throws. The context may be null, and is then rendered as "null". On `Err(inner)` the message is `message + "\n  -> " + inner`. On any other result it is the message of wrapping the cast result. The recursion ends after one step because the cast yields an error |
| `Commons.ToString` | src/main/java/org/openlca/commons/Res.java:91-94 | `show(v)` for `Ok`. "ok!" for `Empty` (lines 116-119). "Error: " + msg for `Err` (lines 143-146) |
| `ResProperties.VariantsExclusive` | src/main/java/org/openlca/commons/Res.java:19-32 | each result is exactly one of: a value, empty, an error |
| `ResProperties.CastErrorRoundTrip` | src/main/java/org/openlca/commons/Res.java:66 | casting an error to another type and back yields the same error: no information is lost |
| `ResProperties.CastErrorIdempotent` | src/main/java/org/openlca/commons/Res.java:64-70 | casting twice equals casting once, for every result |
| `ResProperties.ErrorOfCastReturns` | src/main/java/org/openlca/commons/Res.java:64-70 | `error()` never throws on the result of `castError()` |
| `ResProperties.WrapErrorAbsorbsCast` | src/main/java/org/openlca/commons/Res.java:76 | `wrapError(m)` equals `castError().wrapError(m)` on every result, whichever type the cast goes through |
| `ResProperties.WrapErrorTwice` | src/test/java/org/openlca/commons/ResTest.java:39-45 | wrapping `Err(e)` with `m1` and then with `m2` gives `m2 + "\n  -> " + m1 + "\n  -> " + e` |
| `ResProperties.WrapErrorNullContext` | src/main/java/org/openlca/commons/Res.java:75 | a null context on `Err(e)` gives `"null\n  -> " + e` and does not throw |
| `ResProperties.WrapErrorKeepsInner` | src/main/java/org/openlca/commons/Res.java:75 | the inner message is the tail of the wrapped message after the context and the arrow |
| `ResProperties.WrapErrorInjective` | src/main/java/org/openlca/commons/Res.java:75 | the same context on two errors yields the same error only if the two errors are equal |
| `ResProperties.ChainInnermost` | src/main/java/org/openlca/commons/Res.java:75 | joining the innermost context onto the message first, then chaining the rest, gives the full trail |
| `ResProperties.NestedWrapping` | src/main/java/org/openlca/commons/Res.java:73-78 | wrapping an error with any sequence of contexts, null ones included, gives an error with the full trail: the last context first, the original message last |
| `ResProperties.NestedWrappingOfSuccess` | src/main/java/org/openlca/commons/Res.java:76 | wrapping a value or an empty result with one or more contexts gives the trail that ends in the cast's message |
| `ResProperties.ValueOfOk` | src/test/java/org/openlca/commons/ResTest.java:11-12 | `ok(v).value()` returns `v` |
| `ResProperties.ErrorOfNewError` | src/main/java/org/openlca/commons/Res.java:51-53 | `error(m).error()` returns `m` |
| `ResProperties.CauseFolded` | src/main/java/org/openlca/commons/Res.java:58 | in `error(m, err)` the message starts with `m` and ends, after ": ", with the cause's message |
| `ResProperties.ErrorStringKeepsMessage` | src/main/java/org/openlca/commons/Res.java:144-146 | an error's message can be read back from its `toString()` after "Error: " |
| `ResProperties.WrapErrorScenario` | src/test/java/org/openlca/commons/ResTest.java:38-46 | "Integer error" wrapped with "Double error" prints as "Error: Double error\n  -> Integer error". Casting it again gives a non-empty error that is not ok |

## Left out

- `Strings.java` (`compareIgnoreCase`, `isBlank`): thin wrappers over the JDK's case-insensitive comparison and `String.isBlank`. Their behaviour lies in library code that is not part of this model.
- `Copyable.java`: an interface with one method and no behaviour.
- The identity of the `Empty.instance` singleton: it is a reference, not a value. The nullary constructor `Empty` stands for the one empty value. `Empty` is also available at every payload type, where Java types it only as `Res<Void>`.
- Java's unchecked generic cast in `castError`: under erasure, re-typing an error is the identity on its message. `WrapError` casts through the payload's own type, and `WrapErrorAbsorbsCast` shows that the intermediate type does not matter.
- The `Throwable` cause: only its `getMessage()` is modelled. Stack traces and other cause objects are not.
- The payload's `toString()`: it is the parameter `show`. A `toString()` that throws, or that returns `null`, is not modelled.

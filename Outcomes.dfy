/**
 * Java's exception machinery and references, as data.
 *
 * A Java call either returns or throws; here it returns an `Outcome`.
 * The toolkit catches every `Throwable` alike, so failures are told apart
 * only as far as the toolkit itself creates or inspects them.
 */
module Outcomes {

  /** What a call can throw. */
  datatype Failure =
    | Raised(kind: string)          // any exception thrown by caller-supplied code
    | Wrapped(cause: Failure)       // `new RuntimeException(cause)`
    | IllegalState(message: string) // `new IllegalStateException(message)`
    | NullPointer                   // `Objects.requireNonNull(null)`, `Optional.of(null)`, unboxing null

  /** The result of a call that may throw. */
  datatype Outcome<R> = Ok(value: R) | Fail(error: Failure)

  /** `java.util.Optional`: present or empty, never holding null. */
  datatype Option<T> = None | Some(value: T)

  /** A Java reference, which may be null. */
  datatype Nullable<T> = Null | NonNull(value: T)
}

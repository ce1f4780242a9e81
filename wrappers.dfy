/** Failure-compatible results and the Java exceptions the modelled code raises. */
module Wrappers {

  /** A possibly-absent value; `None` stands for a Java `null` reference or an empty `Optional`. */
  datatype Option<+T> = None | Some(value: T)

  /** The exceptions thrown by the modelled code, by Java class. */
  datatype JavaError =
    | NullPointerException
    | IllegalArgumentException
    | IllegalStateException
    | RuntimeException
    | UncheckedIOException

  /** The result of a Java call that either returns a value or throws. */
  datatype Result<+R> = Success(value: R) | Failure(error: JavaError) {
    predicate IsFailure() { Failure? }
    function PropagateFailure<U>(): Result<U>
      requires Failure?
    {
      Failure(error)
    }
    function Extract(): R
      requires Success?
    {
      value
    }
  }

  /** The result of a Java `void` call that either completes or throws. */
  datatype Outcome = Pass | Fail(error: JavaError) {
    predicate IsFailure() { Fail? }
    function PropagateFailure(): Outcome
      requires Fail?
    {
      this
    }
  }
}

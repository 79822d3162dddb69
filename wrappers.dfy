/** Failure-compatible result types used for the error paths of the factorisation. */
module Wrappers {

  /** A computation that either produced a value or failed with an error. */
  datatype Result<+T, +E> = Success(value: T) | Failure(error: E) {
    predicate IsFailure() { Failure? }

    function PropagateFailure<U>(): Result<U, E>
      requires Failure?
    {
      Failure(error)
    }

    function Extract(): T
      requires Success?
    {
      value
    }
  }

  /** A computation that either completed or failed with an error, carrying no value. */
  datatype Outcome<+E> = Pass | Fail(error: E)
}

/** Failure-compatible wrappers: `Option` stands for a Java reference that may
    be null, `Result` for a call that either returns or throws. */
module Wrappers {

  /** A possibly-null value. */
  datatype Option<+T> = None | Some(value: T)

  /** The outcome of a call that may throw: the value it returns, or the
      exception it raises. */
  datatype Result<+R, +E> = Success(value: R) | Failure(error: E) {

    predicate IsFailure() {
      Failure?
    }

    function PropagateFailure<U>(): Result<U, E>
      requires Failure?
    {
      Failure(error)
    }

    function Extract(): R
      requires Success?
    {
      value
    }
  }
}

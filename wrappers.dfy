/** Option and Result, the failure-compatible wrappers used by the validators. */
module Wrappers {

  /** A value that may be absent; `None` stands for PHP's `null`. */
  datatype Option<+T> = None | Some(value: T)

  /** The outcome of a PHP call that either returns a value or throws. */
  datatype Result<+R, +E> = Success(value: R) | Failure(error: E) {

    predicate IsFailure() {
      Failure?
    }

    function PropagateFailure<U>(): Result<U, E>
      requires Failure?
    {
      Failure(error)
    }

    function Extract(): R
      requires Success?
    {
      value
    }
  }
}

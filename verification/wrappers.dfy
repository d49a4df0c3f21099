/** Failure-carrying return types used in place of Python's `None` results and raised exceptions. */
module Wrappers {

  /** A value that may be absent: Python's `Optional[...]` / pandas NaN. */
  datatype Option<+T> = None | Some(value: T) {

    /** The wrapped value, or `default` when absent (pandas `fillna`). */
    function GetOr(default: T): T {
      match this
      case Some(v) => v
      case None => default
    }
  }

  /** Either a computed value or the error an operation raised. */
  datatype Result<+T, +E> = Success(value: T) | Failure(error: E) {

    predicate IsFailure() {
      Failure?
    }

    function PropagateFailure<U>(): Result<U, E>
      requires Failure?
    {
      Failure(error)
    }

    function Extract(): T
      requires Success?
    {
      value
    }
  }
}

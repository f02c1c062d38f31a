/** Failure-carrying return values used in place of Python's `None` results and raised exceptions. */
module Wrappers {

  /** An absent-or-present value; `None` is the "no data" marker, distinct from an empty collection. */
  datatype Option<+T> = None | Some(value: T)

  /** The value of an operation that either produces a result or is rejected with an error. */
  datatype Result<+T, +E> = Success(value: T) | Failure(error: E)

  /** The outcome of a checked assignment: it took effect, or it was rejected with an error. */
  datatype Outcome<+E> = Pass | Fail(error: E)
}

/** Option and Result values used wherever the source returns `undefined`,
    `NaN` or shows an error toast instead of a value. */
module Wrappers {

  datatype Option<+T> = None | Some(value: T)

  datatype Result<+T, +E> = Success(value: T) | Failure(error: E)

  /** An operation that either completes or reports an error, with no value. */
  datatype Outcome<+E> = Pass | Fail(error: E)
}

/** Failure-compatible wrappers used throughout the model: a nullable column
    value is an `Option`, an operation that pandas would abort with an
    exception returns a `Result`. */
module Wrappers {

  /** A value that may be missing (a null / NaN cell). */
  datatype Option<+T> = None | Some(value: T)

  /** Why a stage aborts the run. */
  datatype Error =
    | CannotCastMissingToInt   // astype(int) on a column that still holds a NaN
    | DivisionByZero           // a ratio over an empty input

  /** Either the value an operation produced or the error that aborted it. */
  datatype Result<+R> = Success(value: R) | Failure(error: Error)
}

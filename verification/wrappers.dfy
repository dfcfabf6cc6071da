/** Failure-compatible wrappers used by the loan engine. */
module Wrappers {

  /** A value that may be missing, such as the result of a "first matching row" query. */
  datatype Option<+T> = None | Some(value: T)

  /** Either a successful value or the error the operation raised. */
  datatype Result<+R, +E> = Success(value: R) | Failure(error: E)
}

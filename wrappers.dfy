/** The absent-value and error-or-value results that the project-path functions return. */
module Wrappers {

  /** Python's `None` or a value. */
  datatype Option<+T> = None | Some(value: T)

  /** A value, or the exception a Python function would raise instead. */
  datatype Result<+R, +E> = Success(value: R) | Failure(error: E)
}

/** Failure-compatible wrappers used across the model. */
module Wrappers {

  /** An optional value; `None` stands for "absent" (a file that cannot be read, a body that does not parse). */
  datatype Option<+T> = None | Some(value: T)

  /** A value or an error message, in place of Go's `(value, error)` pair. */
  datatype Result<+T> = Success(value: T) | Failure(error: string)
}

/** Optional values and success-or-error results, as the handler's data uses them. */
module Wrappers {

  /** A value that may be absent: Python's `None` or a found tag or attribute. */
  datatype Option<+T> = None | Some(value: T)

  /** The outcome of a step that can fail with an error of type `E`. */
  datatype Result<+R, +E> = Success(value: R) | Failure(error: E)
}

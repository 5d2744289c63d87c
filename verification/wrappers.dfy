/** Optional values and results with an error, used for Python's `None` returns and raised exceptions. */
module Wrappers {

  /** A value that may be absent (Python's `None`). */
  datatype Option<+T> = None | Some(value: T)

  /** The outcome of a call that can fail with an error of type E (a raised exception). */
  datatype Result<+T, +E> = Ok(value: T) | Err(error: E)
}

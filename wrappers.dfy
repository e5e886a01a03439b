/** Optional values and results that carry either a value or an error. */
module Wrappers {

  /** A value that may be absent (Java's `null`, Python's `None`). */
  datatype Option<+T> = None | Some(value: T)

  /** Either a value or the exception the source would throw instead. */
  datatype Result<+T, +E> = Ok(value: T) | Err(error: E)
}

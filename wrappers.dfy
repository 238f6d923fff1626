/** Optional values and results that either carry a value or an error. */
module Wrappers {

  /** A dictionary key that may be absent, or a property that may be left off. */
  datatype Option<+T> = None | Some(value: T)

  datatype Result<+T, +E> = Ok(value: T) | Err(error: E)
}

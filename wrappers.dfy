/** Optional values and results with an error code. */
module Wrappers {
  datatype Option<T> = None | Some(value: T)

  /** A computation that either yields a value or fails with a (positive) errno. */
  datatype Result<T> = Ok(value: T) | Err(errno: nat)
}

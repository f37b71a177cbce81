/** Optional values and results, used throughout the model. */
module Wrappers {

  /** A value that may be absent; Go's nil pointer or nil error. */
  datatype Option<+T> = None | Some(value: T)

  /** The (value, error) pair a Go function returns, as one value. */
  datatype Result<+T, +E> = Ok(value: T) | Err(error: E)
}

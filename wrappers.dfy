/** Optional values and results with an error, used for nulls and for the exceptions of the source. */
module Wrappers {

  /** A possibly missing value; `None` models a null cell. */
  datatype Option<+T> = None | Some(value: T)

  /** The outcome of an operation that either succeeds or raises an error. */
  datatype Result<+T, +E> = Ok(value: T) | Err(error: E)
}

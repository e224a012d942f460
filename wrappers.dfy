/** Optional values (Java `null` / `Optional`) and results of operations that may throw. */
module Wrappers {

  /** A nullable column or an `Optional` return value. */
  datatype Option<+T> = None | Some(value: T)

  /** The outcome of a service operation: its response, or the exception it throws. */
  datatype Result<+T, +E> = Ok(value: T) | Err(error: E)
}

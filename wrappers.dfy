/** Option and Result types for the Go functions that return `(value, error)` or a sentinel. */
module Wrappers {

  datatype Option<T> = None | Some(value: T)

  datatype Result<T, E> = Ok(value: T) | Err(error: E)
}

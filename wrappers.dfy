/** Optional values and results with an error, as Go expresses them with nil and (value, error) pairs. */
module Wrappers {

  /** A value that may be absent: Go's nil pointer or nil error. */
  datatype Option<T> = None | Some(value: T)

  /** A value or the error that prevented it: Go's (value, error) return pair. */
  datatype Result<T, E> = Ok(value: T) | Err(error: E)
}

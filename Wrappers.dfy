/** Optional values and results with an error, for configuration keys that
    may be absent and for checks that abort the run. */
module Wrappers {
  datatype Option<T> = None | Some(value: T)

  datatype Result<T, E> = Ok(value: T) | Err(error: E)
}

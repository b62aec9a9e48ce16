/** Optional values and results with an error, used where the source returns
    `None` from a regex search or stops with an error message. */
module Wrappers {

  datatype Option<+T> = None | Some(value: T)

  datatype Result<+T, +E> = Ok(value: T) | Err(error: E)
}

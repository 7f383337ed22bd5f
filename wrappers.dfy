/** Optional values and results with an error, for the places where the
    Python code raises (StopIteration, ValueError, TypeError) or returns None. */
module Wrappers {

  datatype Option<+T> = None | Some(value: T)

  datatype Result<+T, +E> = Ok(value: T) | Err(error: E)
}

/** Optional values and results with an error, used where the program can fail. */
module Wrappers {

  /** A value that may be absent (a Python variable that was never bound). */
  datatype Option<+T> = None | Some(value: T)

  /** Either a computed value or the error the program raises instead. */
  datatype Result<+T, +E> = Ok(value: T) | Err(error: E)
}

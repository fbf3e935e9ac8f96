/** Optional values and results carrying either a value or a failure. */
module Wrappers {

  /** A value that may be missing: the model's reading of a .NET `null`. */
  datatype Option<T> = None | Some(value: T)

  /** The value, or an error standing for the exception the code throws. */
  datatype Result<T, E> = Ok(value: T) | Err(error: E)
}

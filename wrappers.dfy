/** Optional values and results with a typed error, used throughout the model
    in place of Java's `null`, `Optional` and thrown exceptions. */
module Wrappers {

  datatype Option<+T> = None | Some(value: T)

  datatype Result<+T, +E> = Ok(value: T) | Err(error: E)
}

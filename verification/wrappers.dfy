/** Failure-carrying values used throughout the model: Go's `nil`-or-value
    pointers become `Option`, and Go's `(value, error)` pairs become `Result`. */
module Wrappers {

  datatype Option<+T> = None | Some(value: T)

  datatype Result<+T, +E> = Ok(value: T) | Err(error: E)
}

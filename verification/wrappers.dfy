/** Failure-carrying datatypes used by the model: `Option` for a value that
    may be absent (a file line that could not be read) and `Result` for an
    operation that either succeeds or raises. */
module Wrappers {

  datatype Option<+T> = None | Some(value: T)

  datatype Result<+R, +E> = Success(value: R) | Failure(error: E)
}

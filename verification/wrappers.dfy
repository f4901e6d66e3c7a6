/** Failure-carrying datatypes shared by the whole model: Go's `(value, error)`
    pairs become `Result`, nilable references and optional errors become `Option`. */
module Wrappers {

  datatype Option<+T> = None | Some(value: T)

  datatype Result<+T, +E> = Success(value: T) | Failure(error: E)
}

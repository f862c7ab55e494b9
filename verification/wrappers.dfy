/** Failure-carrying datatypes shared by the whole model: the Go `(value, error)`
    return convention becomes a `Result`, a nullable `error` becomes an `Option<Error>`. */
module Wrappers {

  /** A value that may be absent. */
  datatype Option<+T> = None | Some(value: T)

  /** Either a value or an error, as a Go function returning `(T, error)`. */
  datatype Result<+T, +E> = Success(value: T) | Failure(error: E)

  /** A Go `error` value; the model only ever looks at what `Error()` prints. */
  datatype Error = Error(message: string)
}

/** Failure-carrying values shared by the whole model. A Go `(T, error)` pair becomes a `Result`,
    a Go value that may be nil becomes an `Option`, and a Go `error` becomes an `Error` carrying its message. */
module Wrappers {

  datatype Option<+T> = None | Some(value: T)

  datatype Result<+T, +E> = Success(value: T) | Failure(error: E)

  /** An `error` value; sentinel errors are told apart by their messages. */
  datatype Error = Error(message: string)
}

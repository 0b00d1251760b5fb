/** Option and Result values used for the client's "no value" and
    "thrown error" paths. */
module Wrappers {

  datatype Option<+T> = None | Some(value: T)

  /** A computation that either produced a value or stopped with an error
      (a JavaScript `throw` caught further up). */
  datatype Result<+T, +E> = Success(value: T) | Failure(error: E)
}

/** Failure-carrying values: Swift optionals and thrown errors. */
module Wrappers {

  /** A Swift optional: `nil` is `None`. */
  datatype Option<+T> = None | Some(value: T)

  /** The outcome of a Swift function that `throws`: a value or the error thrown. */
  datatype Result<+T, +E> = Success(value: T) | Failure(error: E)
}

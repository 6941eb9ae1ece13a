/** Option and Result values used for nullable fields and for the error paths
    (exceptions, 404s and refused operations) of the order system. */
module Wrappers {

  /** A nullable value: a NULL column or a missing reference. */
  datatype Option<+T> = None | Some(value: T)

  /** The outcome of an operation that either produces a value or fails. */
  datatype Result<+T, +E> = Success(value: T) | Failure(error: E)
}

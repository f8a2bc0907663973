/** Failure-carrying datatypes shared by the rest of the model. */
module Wrappers {

  /** A value that may be missing: PHP's `null` or an unset array entry. */
  datatype Option<+T> = None | Some(value: T)

  /** A computation that either produced a value or failed with a reason. */
  datatype Result<+T, +E> = Success(value: T) | Failure(error: E)
}

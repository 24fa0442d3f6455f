/** Result values, standing for absl::StatusOr. */
module Wrappers {

  datatype Result<+T, +E> = Success(value: T) | Failure(error: E)
}

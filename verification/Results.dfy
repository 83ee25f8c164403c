/** Status values: the source returns absl::Status and absl::StatusOr. */
module Results {

  datatype Error = InvalidArgument | Internal | UndefinedBehavior

  datatype Status = Ok | Failed(error: Error)

  datatype Result<+T> = Success(value: T) | Failure(error: Error)
}

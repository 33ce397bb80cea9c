/** Result types shared by every module: an optional value, and a value or the exception of the Python code. */
module Basics {
  datatype Option<+T> = None | Some(value: T)

  datatype Result<+T, +E> = Success(value: T) | Failure(error: E)
}

/** Optional values and the status codes that the library's operations return. */
module Wrappers {
  /** A value that may be absent: a null pointer or an empty optional in the library. */
  datatype Option<+T> = None | Some(value: T)

  /** The error codes the library reports through its status objects. */
  datatype Code = InvalidArgument | AlreadyExists | NotFound | DataLoss

  /** The outcome of an operation that either succeeds or fails with a code. */
  datatype Status = Ok | Err(code: Code)

  /** A value, or the code of the error that prevented computing it. */
  datatype Result<+T> = Success(value: T) | Failure(code: Code)
}

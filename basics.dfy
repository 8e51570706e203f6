/** Shared vocabulary: bytes and the failure-carrying wrappers used for the
    exceptions the modelled code can raise. */
module Basics {

  /** An unsigned 8-bit value, as held in a C# byte[] or a Node Buffer. */
  type byte = b: int | 0 <= b < 256

  datatype Option<+T> = None | Some(value: T)

  datatype Result<+T, +E> = Success(value: T) | Failure(error: E)
}

/** Option and Result values standing in for the source's nullable results and exceptions. */
module Wrappers {
  /** A value that may be absent: the model of a C# nullable reference. */
  datatype Option<+T> = None | Some(value: T)

  /** The outcome of an operation that may throw: `Failure` carries the exception. */
  datatype Result<+T, +E> = Success(value: T) | Failure(error: E)
}

/** Octets, as the .NET `byte` type. Shifts and masks on bytes are written with `/` and `%`. */
module Bytes {
  type byte = x: int | 0 <= x < 256
}

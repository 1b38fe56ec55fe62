/** Shared vocabulary: the unsigned byte of the .NET runtime and the
    failure-compatible wrappers used for the source's exceptions and nulls. */
module Common {

  /** An unsigned 8-bit value (C# `byte`). */
  type byte = bv8

  /** A nullable reference: `None` stands for C# `null`. */
  datatype Option<+T> = None | Some(value: T)

  /** The outcome of an operation that may throw: `Failure` carries the exception. */
  datatype Result<+T, +E> = Success(value: T) | Failure(error: E)

  function Min(a: int, b: int): int
  {
    if a <= b then a else b
  }
}

/** Types shared by the three components of the movement detector. */
module Common {

  /** An unsigned 8-bit value: a colour channel or a byte written to a network stream. */
  type byte = x: int | 0 <= x < 256

  /** A value that may be absent (the source's `default` tuple, or a null reference). */
  datatype Option<+T> = None | Some(value: T)

  /** The outcome of an operation that may throw: a value, or the exception it raises. */
  datatype Result<+T, +E> = Success(value: T) | Failure(error: E)
}

/** Small shared vocabulary: optional values, results with an error, bytes. */
module Common {

  datatype Option<T> = None | Some(value: T)

  /** The outcome of a Python call that either returns a value or raises. */
  datatype Result<T, E> = Success(value: T) | Failure(error: E)

  type byte = bv8

  function Min(a: int, b: int): int { if a <= b then a else b }

  function Max(a: int, b: int): int { if a >= b then a else b }
}

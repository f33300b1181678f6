/** Failure-compatible wrappers shared by every module of the model. */
module Wrappers {

  /** `Some(v)` for a present value, `None` where the source uses `null` or `undefined`. */
  datatype Option<+T> = None | Some(value: T)

  /** The outcome of an operation that either returns a value or throws. */
  datatype Result<+T, +E> = Success(value: T) | Failure(error: E)

  function Max(a: int, b: int): int {
    if a < b then b else a
  }
}

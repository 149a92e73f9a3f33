/** Option and Result: the null/undefined values and the thrown failures of the modelled code. */
module Wrappers {

  /** `None` stands for JavaScript's `null`/`undefined` or Rust's `None`. */
  datatype Option<+T> = None | Some(value: T) {
    function GetOr(default: T): T {
      match this
      case Some(v) => v
      case None => default
    }
  }

  /** A call that either returns a value or fails (a Rust panic surfacing as a thrown error). */
  datatype Result<+R, +E> = Success(value: R) | Failure(error: E)

  function Max(a: int, b: int): int {
    if a < b then b else a
  }
}

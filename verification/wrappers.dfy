/** Failure-carrying result types shared by the other modules. */
module Wrappers {

  /** An optional value. */
  datatype Option<+T> = None | Some(value: T)

  /** Either a computed value or the reason the computation stopped
      (the model's stand-in for a Rust panic or an early `?` return). */
  datatype Result<+R, +E> = Success(value: R) | Failure(error: E)
}

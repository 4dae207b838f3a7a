/** Failure-carrying value types shared by the MAC address model and the
    controller model: an optional value, a value-or-error and a pass-or-error. */
module Wrappers {

  /** An optional value (Rust's `Option<T>`). */
  datatype Option<+T> = None | Some(value: T) {
    /** The value, or `default` when there is none (Rust's `unwrap_or`). */
    function GetOr(default: T): T {
      match this
      case Some(v) => v
      case None => default
    }
  }

  /** A value or an error (Rust's `Result<T, E>`). */
  datatype Result<+T, +E> = Ok(value: T) | Err(error: E)

  /** Success without a value, or an error (Rust's `Result<(), E>`). */
  datatype Outcome<+E> = Pass | Fail(error: E)
}

/** Failure-carrying datatypes used throughout the model. */
module Wrappers {

  /** A value that may be absent: JavaScript's `undefined`, a missing map key, a failed parse. */
  datatype Option<+T> = None | Some(value: T) {

    /** The carried value, or `default` when absent (JavaScript's `x ?? default`). */
    function GetOr(default: T): T {
      match this
      case Some(v) => v
      case None => default
    }
  }

  /** The outcome of an operation that can throw: either a value or the error it throws. */
  datatype Result<+T, +E> = Ok(value: T) | Err(error: E)
}

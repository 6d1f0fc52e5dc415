/** Option and Result, the failure-carrying values every handler and parser returns. */
module Wrappers {

  datatype Option<+T> = None | Some(value: T) {

    /** The value in Some, or `default` for None (Rust's `unwrap_or`). */
    function GetOr(default: T): T {
      match this
      case Some(v) => v
      case None => default
    }
  }

  /** Rust's `Result<T, E>`: Ok carries the value, Err the error. */
  datatype Result<+T, +E> = Ok(value: T) | Err(error: E) {

    /** Rust's `.ok()`: the value, forgetting the error. */
    function ToOption(): Option<T> {
      match this
      case Ok(v) => Some(v)
      case Err(_) => None
    }
  }
}

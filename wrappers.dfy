/** Option and Result, the two failure-carrying wrappers the model uses. */
module Wrappers {

  /** An optional value; `GetOr` is Rust's `unwrap_or`. */
  datatype Option<T> = None | Some(value: T) {
    function GetOr(default: T): T {
      match this
      case Some(v) => v
      case None => default
    }
  }

  /** The outcome of a contract invocation: a value, or the panic that aborted it. */
  datatype Result<T, E> = Ok(value: T) | Err(error: E)
}

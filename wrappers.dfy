/** Option and Result, the two failure-compatible shapes the parser returns. */
module Wrappers {

  /** Rust's `Option<T>`. */
  datatype Option<+T> = None | Some(value: T)

  /** A computation that either yields a value or stops with an error
      (here: the panic the Rust code raises). */
  datatype Result<+T, +E> = Ok(value: T) | Err(error: E)
}

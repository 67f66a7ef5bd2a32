/** Optional values and results, as used by every lexical production. */
module Wrappers {

  /** Rust's `Option`. */
  datatype Option<+T> = None | Some(value: T)

  /** Rust's `Result` with a single, message-free error value. */
  datatype Result<+T> = Ok(value: T) | Err
}

/** Option and Result values shared by both drafts of the engine. */
module Wrappers {

  /** An absent or present value (Rust's `Option`). */
  datatype Option<+T> = None | Some(value: T)

  /** A success or an error message (Rust's `Result<T, String>`). */
  datatype Result<+T> = Ok(value: T) | Err(error: string)
}

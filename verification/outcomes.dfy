/** Failure-carrying wrappers shared by the editor and the todo list models. */
module Outcomes {

  /** A value that may be absent (Rust's `Option`). */
  datatype Option<+T> = None | Some(value: T)

  /** A computation that either yields a value or stops with an error: the model of a
      Rust panic (`assert!`, `expect`, an arithmetic underflow) as a returned value. */
  datatype Result<+T, +E> = Ok(value: T) | Err(error: E)
}

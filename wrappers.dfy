/** Failure-carrying results shared by the compiler and the renderer. */
module Wrappers {

  datatype Option<+T> = None | Some(value: T)

  /** A computation that either finishes or panics with the given message
      (Rust's `panic!`, `assert!`, `expect` and `unwrap` on a failure). */
  datatype Outcome<+T> = Ok(value: T) | Panic(message: string)
}

/** Option and Result, as used across the model. */
module Wrappers {

  datatype Option<+T> = None | Some(value: T)

  /** A computation that either yields a value or stops with a Rust panic
      and its message. */
  datatype Result<+T> = Ok(value: T) | Panic(message: string)
}

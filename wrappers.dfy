/** The Rust `Result` type, as the codec and the dispatcher return it. */
module Wrappers {

  datatype Result<+T, +E> = Ok(value: T) | Err(error: E)
}

/** Option and Result values, standing for Rust's `Option`/`Result` and for the
    panics and exceptions of the modelled code (an `Err` is a run that stopped). */
module Wrappers {

  datatype Option<+T> = None | Some(value: T)

  datatype Result<+T, +E> = Ok(value: T) | Err(error: E)
}

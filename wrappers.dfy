/** Option and Result, standing for Rust's `Option<T>` and `Result<T, E>`.
    An `unwrap` that would panic in the server is modelled as an `Err`. */
module Wrappers {

  datatype Option<+T> = None | Some(value: T)

  datatype Result<+T, +E> = Ok(value: T) | Err(error: E)
}

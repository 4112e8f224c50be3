/** Option and Result: the failure values of the Rust code (`Option`, `Result<T, &str>`). */
module Wrappers {

  datatype Option<+T> = None | Some(value: T)

  datatype Result<+T, +E> = Ok(value: T) | Err(error: E)
}

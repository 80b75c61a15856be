// Option and Result, shared by every module of the model: `None`/`Err`
// stand for the Java code's `null`/absent values and thrown exceptions.
module Wrappers {
  datatype Option<T> = None | Some(value: T)

  datatype Result<T, E> = Ok(value: T) | Err(error: E)
}

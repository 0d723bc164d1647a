/** Option and Result values shared by the models of the application's modules. */
module Wrappers {

  /** A value that may be absent: Python's `None` against a present value. */
  datatype Option<+T> = None | Some(value: T)

  /** The outcome of an operation that either produces a value or fails with a message. */
  datatype Result<+T> = Ok(value: T) | Err(message: string)
}

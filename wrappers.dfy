/** Option and Result values shared by the other modules. */
module Wrappers {

  datatype Option<+T> = None | Some(value: T)

  /** The outcome of an operation that the source lets raise `ValueError`. */
  datatype Result<+T> = Ok(value: T) | Fail(message: string)
}

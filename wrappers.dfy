/** Option and Result values shared by the other modules. */
module Wrappers {

  /** A value that may be absent; stands for a nullable reference or java.util.Optional. */
  datatype Option<+T> = None | Some(value: T)

  /** The value of a computation that may fail with an error of type E. */
  datatype Result<+T, +E> = Ok(value: T) | Err(error: E)
}

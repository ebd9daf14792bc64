/** Failure-carrying result types shared by the codecs. */
module Wrappers {

  datatype Option<+T> = None | Some(value: T)

  /** The value-or-error pair that Go functions such as `decodeBinary` return. */
  datatype Result<+T, +E> = Ok(value: T) | Err(error: E)
}

/** Failure-carrying values used by the byte-format parsers. */
module Wrappers {

  /** A value that may be absent, as Swift's optional `T?`. */
  datatype Option<+T> = None | Some(value: T)

  /** Either a decoded value or the reason decoding stopped. */
  datatype Result<+T, +E> = Ok(value: T) | Err(error: E)
}

/** Octets, and the Option type used across the model. */
module Bytes {

  /** One octet of a packet or of a text buffer. */
  type byte = b: int | 0 <= b < 256

  type bytes = seq<byte>

  datatype Option<+T> = None | Some(value: T)
}

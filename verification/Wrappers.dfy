/** Small shared types: an optional value and machine bytes. */
module Wrappers {
  datatype Option<+T> = None | Some(value: T)

  /** An unsigned char. */
  type byte = x: int | 0 <= x < 256

  type Bytes = seq<byte>
}

/** What the other modules share: a value that may be missing, and strings of bytes. */
module Wrappers {
  datatype Option<+T> = None | Some(value: T)
}

module ByteStrings {
  type byte = x: int | 0 <= x < 256
  type Bytes = seq<byte>
}

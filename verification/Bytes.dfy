/** Bytes, as blobs on the wire hold them. */
module Bytes {
  newtype Byte = x: int | 0 <= x < 256

  type Blob = seq<Byte>
}

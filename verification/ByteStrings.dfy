/** Bytes and byte strings. */
module ByteStrings {

  newtype byte = x: int | 0 <= x < 256

  type Bytes = seq<byte>
}

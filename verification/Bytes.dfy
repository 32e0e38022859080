/** Bytes, and the numbers that sequences of them spell. */
module Bytes {

  type Byte = b: int | 0 <= b < 256

  /** First byte most significant. */
  function BigEndian(bytes: seq<Byte>): nat {
    if bytes == [] then 0 else BigEndian(bytes[..|bytes| - 1]) * 256 + bytes[|bytes| - 1]
  }
}

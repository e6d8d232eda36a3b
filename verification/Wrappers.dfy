/** Small types shared by every model. */
module Wrappers {

  /** A value that may be absent: a NULL pointer, a free lock, a missing option. */
  datatype Option<+T> = None | Some(value: T)

  /** An unsigned char. */
  type byte = bv8

  /** An unsigned char as a number, where arithmetic rather than bits is the point. */
  type octet = x: nat | x < 256

  /** The byte with a given value, counted up so that no bit-level conversion is involved. */
  function ToByte(v: octet): (b: byte)
    ensures b as int == v
  {
    if v == 0 then 0 else ByteSuccessor(ToByte(v - 1)); ToByte(v - 1) + 1
  }

  lemma ByteSuccessor(b: byte)
    requires b as int < 255
    ensures (b + 1) as int == b as int + 1
  {
  }

  lemma ByteInjective(a: byte, b: byte)
    requires a as int == b as int
    ensures a == b
  {
  }
}

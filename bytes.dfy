/**
 * Swift's `UInt8` and its conversion from a parsed number.
 */
module Bytes {
  /** Swift's `UInt8`. */
  type byte = bv8

  /** A value below 256 survives the conversion to a byte and back. */
  lemma ByteOfNat(v: nat)
    requires v < 256
    ensures (v as byte) as nat == v
  {
  }
}

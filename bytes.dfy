/** Conversions between bytes and their integer codes. */
module Bytes {
  /** An integer in 0..255 survives the round trip through a byte. Dafny proves it
      alone; it is stated so that larger proofs can call it as a hint. */
  lemma IntByteRoundTrip(n: int)
    requires 0 <= n < 256
    ensures (n as bv8) as int == n
  {
  }

  /** A byte survives the round trip through its integer code (a hint, like the
      lemma above). */
  lemma ByteIntRoundTrip(b: bv8)
    ensures (b as int) as bv8 == b
  {
  }

  /** The conversion a `Uint8Array` element applies to a stored number: modulo 256. */
  function ToUint8(x: int): (b: bv8)
  {
    (x % 0x100) as bv8
  }

  /** Storing a byte's own code gives the byte back. */
  lemma ToUint8OfByte(b: bv8)
    ensures ToUint8(b as int) == b
  {
    assert (b as int) % 0x100 == b as int;
  }
}

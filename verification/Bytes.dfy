/** Bytes, and the conversion of small numbers to bytes. */
module Bytes {

  type Byte = bv8

  lemma {:induction false} SomeByte(n: nat) returns (b: Byte)
    requires n < 256
    ensures b as nat == n
  {
    if n == 0 {
      b := 0;
    } else {
      var c := SomeByte(n - 1);
      NextByte(c);
      b := c + 1;
    }
  }

  lemma NextByte(b: Byte)
    requires b as nat < 255
    ensures (b + 1) as nat == b as nat + 1
  {
  }

  /** `n as u8` for a value that fits. */
  function U8(n: nat): (b: Byte)
    requires n < 256
    ensures b as nat == n
  {
    ByteOfNat(n);
    n as Byte
  }

  lemma ByteOfNat(n: nat)
    requires n < 256
    ensures (n as Byte) as nat == n
  {
    var b := SomeByte(n);
    assert (b as nat) as Byte == b;
  }

  lemma U8OfByte(b: Byte)
    ensures b as nat < 256 && U8(b as nat) == b
  {
  }
}

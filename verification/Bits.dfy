/**
 Bit-vector facts the checksum rests on: distribution of shifts over exclusive or, and conversions
 between bytes, words and naturals.
 */
module Bits {

  lemma XorShiftRight(a: bv32, b: bv32)
    ensures (a ^ b) >> 1 == (a >> 1) ^ (b >> 1)
  {}

  lemma XorLowBit(a: bv32, b: bv32)
    ensures (a ^ b) & 1 == (a & 1) ^ (b & 1)
  {}

  lemma LowBit(a: bv32)
    ensures a & 1 == 0 || a & 1 == 1
  {}

  lemma XorRegroup(p: bv32, a: bv32, b: bv32)
    ensures p ^ (a ^ b) == (p ^ a) ^ b
    ensures p ^ (a ^ b) == a ^ (p ^ b)
    ensures a ^ b == (p ^ a) ^ (p ^ b)
  {}

  lemma ByteRoundTrip(b: bv8)
    ensures (b as int) as bv8 == b
  {}

  lemma NextByte(b: bv8)
    requires b as nat < 255
    ensures (b + 1) as nat == b as nat + 1
  {
    assert b < 255;
  }

  lemma {:induction false} ByteReached(a: nat) returns (b: bv8)
    requires a < 256
    ensures b as nat == a
  {
    if a == 0 {
      b := 0;
    } else {
      var c := ByteReached(a - 1);
      NextByte(c);
      b := c + 1;
    }
  }

  lemma NarrowRoundTrip(a: nat)
    requires a < 256
    ensures (a as bv8) as nat == a
  {
    var b := ByteReached(a);
    ByteRoundTrip(b);
  }

  lemma NatRoundTrip(a: bv32)
    ensures a as nat < 0x1_0000_0000
    ensures (a as nat) as bv32 == a
  {}

  lemma WidenedIsLow(b: bv8)
    ensures b as bv32 & 0xff == b as bv32
  {}

  lemma WidenInjective(a: bv8, b: bv8)
    requires a as bv32 == b as bv32
    ensures a == b
  {}
}

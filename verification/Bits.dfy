/** Bytes, their bits, and the integers they are cut from. */
module Bits {
  import opened Messages

  /** The low eight bits of an integer, as a conversion to a byte keeps them. */
  function LowByte(n: int): byte {
    (n % 256) as byte
  }

  lemma ByteOfBits(x: bv8)
    ensures ((x as byte) as bv8) == x
  {
  }

  lemma LastBits(x: bv8)
    ensures x == 255 <==> x as int == 255
  {
  }

  lemma NextBits(x: bv8)
    requires x < 255
    ensures (x + 1) as int == x as int + 1
  {
  }

  /** Counting up reaches the bits of every number a byte can hold. */
  lemma {:induction false} BitsFor(n: nat) returns (x: bv8)
    requires n < 256
    ensures x as int == n
  {
    if n == 0 {
      x := 0;
    } else {
      var y := BitsFor(n - 1);
      LastBits(y);
      NextBits(y);
      x := y + 1;
    }
  }

  lemma BitsOfByte(b: byte)
    ensures ((b as bv8) as byte) == b
  {
    var x := BitsFor(b as int);
    assert x as byte == b;
    ByteOfBits(x);
  }

  lemma SmallBits(b: byte)
    ensures (b as bv8) < 16 <==> b < 16
  {
  }

  lemma SameBits(x: bv8, b: byte)
    ensures x as byte == b <==> x == b as bv8
  {
    ByteOfBits(x);
    BitsOfByte(b);
  }

  lemma LowByteIff(n: int)
    ensures LowByte(n) as int == n <==> 0 <= n < 256
  {
  }

  lemma ProductIsNonNegative(x: int, d: int)
    requires x >= 0 && d >= 0
    ensures x * d >= 0
  {
  }

  lemma NextMultiple(x: int, y: int, d: int)
    requires d > 0
    ensures x < y ==> x * d + d <= y * d
  {
    if x < y {
      assert y * d == x * d + d + (y - x - 1) * d;
      ProductIsNonNegative(y - x - 1, d);
    }
  }

  lemma ModOfSum(a: int, b: int, d: int)
    requires d > 0 && 0 <= b < d
    ensures (a * d + b) % d == b
  {
    var q := (a * d + b) / d;
    assert a * d + b == q * d + (a * d + b) % d;
    NextMultiple(a, q, d);
    NextMultiple(q, a, d);
  }

  lemma LowFourOfEight(n: int)
    ensures (n % 256) % 16 == n % 16
  {
    var q, m := n / 256, n % 256;
    assert n == (16 * q + m / 16) * 16 + m % 16;
    ModOfSum(16 * q + m / 16, m % 16, 16);
  }

  lemma LowSevenOfEight(n: int)
    ensures (n % 256) % 128 == n % 128
  {
    var q, m := n / 256, n % 256;
    assert n == (2 * q + m / 128) * 128 + m % 128;
    ModOfSum(2 * q + m / 128, m % 128, 128);
  }

  lemma LowByteBits(n: int)
    ensures (LowByte(n) % 16) as int == n % 16
    ensures (LowByte(n) % 128) as int == n % 128
  {
    LowFourOfEight(n);
    LowSevenOfEight(n);
  }

  function ShiftUp(b: byte): byte {
    ((b as bv8) << 1) as byte
  }

  function ShiftDown(b: byte): byte {
    ((b as bv8) >> 1) as byte
  }

  lemma LowSevenBits(x: bv8)
    ensures (x & 0x7F) as byte == (x as byte) % 128
  {
  }

  lemma LowFourBits(x: bv8)
    ensures (x & 0x0F) as byte == (x as byte) % 16
  {
  }

  lemma ShiftedBits(b: byte)
    ensures ShiftDown(ShiftUp(b)) == ((b as bv8) & 0x7F) as byte
  {
    var x := b as bv8;
    ByteOfBits(x << 1);
    assert (x << 1) >> 1 == x & 0x7F;
  }

  /** Up and down again loses the top bit. */
  lemma ShiftedBack(b: byte)
    ensures ShiftDown(ShiftUp(b)) == b % 128
  {
    ShiftedBits(b);
    LowSevenBits(b as bv8);
    BitsOfByte(b);
  }
}

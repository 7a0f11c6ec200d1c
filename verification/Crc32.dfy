/** One byte step of the CRC-32 of section 3.2.9 of IEEE 802.3, bit-reflected, on naturals. */
module Crc32 {
  import opened Prefix

  /** Exclusive or of the low `k` bits. */
  function Xor(a: nat, b: nat, k: nat): nat {
    if k == 0 then 0 else 2 * Xor(a / 2, b / 2, k - 1) + (a % 2 + b % 2) % 2
  }

  /** The generator polynomial, least significant bit first. */
  const POLY: nat := 0xedb8_8320

  function ShiftBit(c: nat): nat { if c % 2 == 1 then Xor(c / 2, POLY, 32) else c / 2 }

  function ShiftBits(c: nat, n: nat): nat { if n == 0 then c else ShiftBit(ShiftBits(c, n - 1)) }

  function StepByte(crc: U32, x: char): U32 {
    WordSize();
    XorBound(crc, x as int % 256, 32);
    ShiftBitsBound(Xor(crc, x as int % 256, 32), 8);
    ShiftBits(Xor(crc, x as int % 256, 32), 8)
  }

  lemma WordSize()
    ensures Shl(1, 31) == 0x8000_0000 && Shl(1, 32) == 0x1_0000_0000
  {
    assert Shl(1, 8) == 256;
    assert Shl(1, 16) == 256 * Shl(1, 8);
    assert Shl(1, 24) == 256 * Shl(1, 16);
    assert Shl(1, 31) == 128 * Shl(1, 24);
  }

  lemma {:induction false} XorBound(a: nat, b: nat, k: nat)
    ensures Xor(a, b, k) < Shl(1, k)
  {
    if k > 0 { XorBound(a / 2, b / 2, k - 1); }
  }

  lemma LowBit(a: nat, b: nat, m: nat, high: nat, other: nat)
    requires a < 2 && b < 2 && m < 2 && 2 * high + (a + m) % 2 == 2 * other + (b + m) % 2
    ensures a == b && high == other
  {}

  lemma {:induction false} XorInjective(a: nat, b: nat, m: nat, k: nat)
    requires a < Shl(1, k) && b < Shl(1, k) && Xor(a, m, k) == Xor(b, m, k)
    ensures a == b
  {
    if k > 0 {
      LowBit(a % 2, b % 2, m % 2, Xor(a / 2, m / 2, k - 1), Xor(b / 2, m / 2, k - 1));
      XorInjective(a / 2, b / 2, m / 2, k - 1);
    }
  }

  lemma {:induction false} XorCommutes(a: nat, b: nat, k: nat)
    ensures Xor(a, b, k) == Xor(b, a, k)
  {
    if k > 0 { XorCommutes(a / 2, b / 2, k - 1); }
  }

  /** The top bit of an exclusive or is that of one of the two. */
  lemma {:induction false} XorTop(a: nat, b: nat, k: nat)
    requires k > 0 && a < Shl(1, k) && b < Shl(1, k)
    ensures Xor(a, b, k) >= Shl(1, k - 1) <==> (a >= Shl(1, k - 1)) != (b >= Shl(1, k - 1))
  {
    if k == 1 {
      assert Xor(a / 2, b / 2, 0) == 0;
    } else {
      XorTop(a / 2, b / 2, k - 1);
    }
  }

  lemma ShiftBitBound(c: nat)
    requires c < Shl(1, 32)
    ensures ShiftBit(c) < Shl(1, 32)
  {
    WordSize();
    XorBound(c / 2, POLY, 32);
  }

  lemma {:induction false} ShiftBitsBound(c: nat, n: nat)
    requires c < Shl(1, 32)
    ensures ShiftBits(c, n) < Shl(1, 32)
  {
    if n > 0 {
      ShiftBitsBound(c, n - 1);
      ShiftBitBound(ShiftBits(c, n - 1));
    }
  }

  /** The polynomial has its top bit set, so the top bit of the result tells whether it was added. */
  lemma ShiftBitInjective(a: nat, b: nat)
    requires a < Shl(1, 32) && b < Shl(1, 32) && ShiftBit(a) == ShiftBit(b)
    ensures a == b
  {
    WordSize();
    XorTop(a / 2, POLY, 32);
    XorTop(b / 2, POLY, 32);
    if a % 2 == 1 && b % 2 == 1 { XorInjective(a / 2, b / 2, POLY, 32); }
  }

  lemma {:induction false} ShiftBitsInjective(a: nat, b: nat, n: nat)
    requires a < Shl(1, 32) && b < Shl(1, 32) && ShiftBits(a, n) == ShiftBits(b, n)
    ensures a == b
  {
    if n > 0 {
      ShiftBitsBound(a, n - 1);
      ShiftBitsBound(b, n - 1);
      ShiftBitInjective(ShiftBits(a, n - 1), ShiftBits(b, n - 1));
      ShiftBitsInjective(a, b, n - 1);
    }
  }

  /** A step tells states apart, */
  lemma StepTellsStates(a: U32, b: U32, x: char)
    requires StepByte(a, x) == StepByte(b, x)
    ensures a == b
  {
    var m := x as int % 256;
    WordSize();
    XorBound(a, m, 32);
    XorBound(b, m, 32);
    ShiftBitsInjective(Xor(a, m, 32), Xor(b, m, 32), 8);
    XorInjective(a, b, m, 32);
  }

  /** and bytes. */
  lemma StepTellsBytes(a: U32, x: char, y: char)
    requires x as int < 256 && y as int < 256 && StepByte(a, x) == StepByte(a, y)
    ensures x == y
  {
    var m, n := x as int % 256, y as int % 256;
    WordSize();
    XorBound(a, m, 32);
    XorBound(a, n, 32);
    ShiftBitsInjective(Xor(a, m, 32), Xor(a, n, 32), 8);
    XorCommutes(a, m, 32);
    XorCommutes(a, n, 32);
    XorInjective(m, n, a, 32);
  }
}

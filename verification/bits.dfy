/**
 Bitwise AND on unbounded naturals, defined bit by bit. The values the
 8086 core manipulates are integers; the one place where the source ANDs
 two arbitrary values (its byte-register write) is expressed through And.
 */
module Bits {

  /** Bitwise AND: bit i of the result is set iff bit i is set in both operands. */
  function And(x: nat, y: nat): (r: nat)
    ensures r <= x && r <= y
    decreases x
  {
    if x == 0 || y == 0 then 0
    else 2 * And(x / 2, y / 2) + (if x % 2 == 1 && y % 2 == 1 then 1 else 0)
  }

  lemma {:induction false} AndCommutes(x: nat, y: nat)
    ensures And(x, y) == And(y, x)
    decreases x
  {
    if x != 0 && y != 0 {
      AndCommutes(x / 2, y / 2);
    }
  }

  /** ANDing with an even mask: the low bit is cleared and the rest shifts. */
  lemma AndEven(x: nat, y: nat)
    ensures And(x, 2 * y) == 2 * And(x / 2, y)
  {
    assert (2 * y) / 2 == y && (2 * y) % 2 == 0;
    if x < 2 || y == 0 {
      assert And(x / 2, y) == 0;
    }
  }

  /** ANDing with an odd mask keeps the low bit of x. */
  lemma AndOdd(x: nat, y: nat)
    ensures And(x, 2 * y + 1) == 2 * And(x / 2, y) + x % 2
  {
    assert (2 * y + 1) / 2 == y && (2 * y + 1) % 2 == 1;
    if x == 0 {
      assert And(x / 2, y) == 0;
    }
  }

  // Shifting both operands by 2, 4 and 8 bits, in stages the solver can follow.

  lemma AndShift2(x: nat, y: nat)
    ensures And(x, 4 * y) == 4 * And(x / 4, y)
  {
    AndEven(x, 2 * y);
    AndEven(x / 2, y);
    Halves(x);
  }

  lemma AndShift4(x: nat, y: nat)
    ensures And(x, 16 * y) == 16 * And(x / 16, y)
  {
    AndShift2(x, 4 * y);
    AndShift2(x / 4, y);
    Quarters(x);
  }

  /** Shifting both operands left by eight bits shifts their AND. */
  lemma AndShift8(x: nat, y: nat)
    ensures And(x, 256 * y) == 256 * And(x / 256, y)
  {
    AndShift4(x, 16 * y);
    AndShift4(x / 16, y);
    Sixteenths(x);
  }

  // A mask whose low 2, 4 or 8 bits are all set keeps those bits of x.

  lemma AndKeep2(x: nat, y: nat)
    ensures And(x, 4 * y + 3) == 4 * And(x / 4, y) + x % 4
  {
    AndOdd(x, 2 * y + 1);
    AndOdd(x / 2, y);
    Halves(x);
  }

  lemma AndKeep4(x: nat, y: nat)
    ensures And(x, 16 * y + 15) == 16 * And(x / 16, y) + x % 16
  {
    AndKeep2(x, 4 * y + 3);
    AndKeep2(x / 4, y);
    Quarters(x);
  }

  lemma AndKeep8(x: nat, y: nat)
    ensures And(x, 256 * y + 255) == 256 * And(x / 256, y) + x % 256
  {
    AndKeep4(x, 16 * y + 15);
    AndKeep4(x / 16, y);
    Sixteenths(x);
  }

  /**
   A value whose low byte is clear and a value below 256 share no set bit:
   their AND is zero, in either order.
   */
  lemma AndDisjointBytes(x: nat, y: nat)
    requires x % 256 == 0
    requires y < 256
    ensures And(x, y) == 0
    ensures And(y, x) == 0
  {
    AndShift8(y, x / 256);
    assert 256 * (x / 256) == x;
    AndCommutes(x, y);
  }

  /** x AND 0xFF is the low byte of x. */
  lemma AndLowByte(x: nat)
    ensures And(x, 0xFF) == x % 256
  {
    AndKeep8(x, 0);
  }

  /** For a 16-bit x, x AND 0xFF00 is x with its low byte cleared. */
  lemma AndHighByte(x: nat)
    requires x < 65536
    ensures And(x, 0xFF00) == (x / 256) * 256
  {
    AndShift8(x, 0xFF);
    AndLowByte(x / 256);
  }

  // Masks of the low 1, 2, 3, 6 and 7 bits.

  lemma AndOnes1(x: nat)
    ensures And(x, 1) == x % 2
  {
    AndOdd(x, 0);
  }

  lemma AndOnes2(x: nat)
    ensures And(x, 3) == x % 4
  {
    AndKeep2(x, 0);
  }

  lemma AndOnes3(x: nat)
    ensures And(x, 7) == x % 8
  {
    AndOdd(x, 3);
    AndOnes2(x / 2);
    Mod8(x);
  }

  lemma AndOnes6(x: nat)
    ensures And(x, 63) == x % 64
  {
    AndKeep4(x, 3);
    AndOnes2(x / 16);
    Mod64(x);
  }

  lemma AndOnes7(x: nat)
    ensures And(x, 127) == x % 128
  {
    AndKeep4(x, 7);
    AndOnes3(x / 16);
    Mod128(x);
  }

  // The opcode masks of the 8086 dispatcher, on a byte.

  lemma AndMaskFC(b: nat)
    requires b < 256
    ensures And(b, 0xFC) == 4 * (b / 4)
  {
    AndShift2(b, 63);
    AndOnes6(b / 4);
    SmallQuotient(b, 4, 64);
  }

  lemma AndMaskF0(b: nat)
    requires b < 256
    ensures And(b, 0xF0) == 16 * (b / 16)
  {
    AndShift4(b, 15);
    AndKeep4(b / 16, 0);
    SmallQuotient(b, 16, 16);
  }

  lemma AndMaskFE(b: nat)
    requires b < 256
    ensures And(b, 0xFE) == 2 * (b / 2)
  {
    AndEven(b, 127);
    AndOnes7(b / 2);
    SmallQuotient(b, 2, 128);
  }

  /** 49 is 0b110001: bits 0, 4 and 5. */
  lemma AndMask49(z: nat)
    ensures And(z, 49) == 16 * ((z / 16) % 4) + z % 2
  {
    AndOdd(z, 24);
    AndEven(z / 2, 12);
    AndEven(z / 4, 6);
    AndEven(z / 8, 3);
    AndOnes2(z / 16);
    Halves(z);
    Eighths(z);
  }

  lemma AndMaskC4(b: nat)
    requires b < 256
    ensures And(b, 0xC4) == 64 * (b / 64) + 4 * ((b / 4) % 2)
  {
    AndShift2(b, 49);
    AndMask49(b / 4);
    MaskC4Value(b, And(b / 4, 49));
  }

  lemma AndMaskC6(b: nat)
    requires b < 256
    ensures And(b, 0xC6) == 64 * (b / 64) + 2 * ((b / 2) % 4)
  {
    AndEven(b, 99);
    AndOdd(b / 2, 49);
    Halves(b);
    AndMask49(b / 4);
    MaskC6Value(b, And(b / 4, 49));
  }

  // Plain arithmetic facts, kept apart from the unfolding of And.

  lemma Halves(x: nat)
    ensures x / 2 / 2 == x / 4
    ensures 2 * ((x / 2) % 2) + x % 2 == x % 4
  {
  }

  lemma Quarters(x: nat)
    ensures x / 4 / 4 == x / 16
    ensures 4 * ((x / 4) % 4) + x % 4 == x % 16
  {
  }

  lemma Sixteenths(x: nat)
    ensures x / 16 / 16 == x / 256
    ensures 16 * ((x / 16) % 16) + x % 16 == x % 256
  {
  }

  lemma Eighths(z: nat)
    ensures z / 4 / 2 == z / 8
    ensures z / 8 / 2 == z / 16
  {
  }

  lemma Mod8(x: nat)
    ensures 2 * ((x / 2) % 4) + x % 2 == x % 8
  {
  }

  lemma Mod64(x: nat)
    ensures 16 * ((x / 16) % 4) + x % 16 == x % 64
  {
  }

  lemma Mod128(x: nat)
    ensures 16 * ((x / 16) % 8) + x % 16 == x % 128
  {
  }

  /** A byte divided by d is below 256 / d, so reducing it modulo 256 / d changes nothing. */
  lemma SmallQuotient(b: nat, d: nat, n: nat)
    requires b < 256 && 0 < d && d * n == 256
    ensures (b / d) % n == b / d
  {
  }

  lemma MaskC4Value(b: nat, a: nat)
    requires b < 256
    requires a == 16 * ((b / 4 / 16) % 4) + (b / 4) % 2
    ensures 4 * a == 64 * (b / 64) + 4 * ((b / 4) % 2)
  {
    QuarterOfQuarter(b);
    SmallQuotient(b, 64, 4);
  }

  lemma MaskC6Value(b: nat, a: nat)
    requires b < 256
    requires a == 16 * ((b / 4 / 16) % 4) + (b / 4) % 2
    ensures 2 * (2 * a + (b / 2) % 2) == 64 * (b / 64) + 2 * ((b / 2) % 4)
  {
    QuarterOfQuarter(b);
    SmallQuotient(b, 64, 4);
    Halves(b);
    Halves(b / 2);
  }

  lemma QuarterOfQuarter(b: nat)
    ensures b / 4 / 16 == b / 64
  {
  }
}

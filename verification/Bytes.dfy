/** Octets as bounded integers, with exclusive-or defined bit by bit. */
module Bytes {

  type Byte = x: int | 0 <= x < 256

  /** Bitwise exclusive-or of the `width` low bits. */
  function XorBits(a: nat, b: nat, width: nat): (r: nat) {
    if width == 0 then 0 else 2 * XorBits(a / 2, b / 2, width - 1) + (a + b) % 2
  }

  function Pow2(n: nat): (p: nat)
    ensures p >= 1
  {
    if n == 0 then 1 else 2 * Pow2(n - 1)
  }

  lemma {:induction false} XorBitsBound(a: nat, b: nat, width: nat)
    ensures XorBits(a, b, width) < Pow2(width)
  {
    if width > 0 { XorBitsBound(a / 2, b / 2, width - 1); }
  }

  lemma HalfOfXor(y: nat, a: nat, b: nat)
    ensures (2 * y + (a + b) % 2) / 2 == y
    ensures (2 * y + (a + b) % 2 + b) % 2 == a % 2
  {
  }

  lemma {:induction false} XorBitsCancels(a: nat, b: nat, width: nat)
    requires a < Pow2(width)
    ensures XorBits(XorBits(a, b, width), b, width) == a
  {
    if width > 0 {
      XorBitsCancels(a / 2, b / 2, width - 1);
      var y := XorBits(a / 2, b / 2, width - 1);
      HalfOfXor(y, a, b);
    }
  }

  function Xor(a: Byte, b: Byte): (r: Byte) {
    assert Pow2(8) == 256 by { assert Pow2(4) == 16; }
    XorBitsBound(a, b, 8);
    XorBits(a, b, 8)
  }

  lemma XorCancels(a: Byte, b: Byte)
    ensures Xor(Xor(a, b), b) == a
  {
    assert Pow2(8) == 256 by { assert Pow2(4) == 16; }
    XorBitsCancels(a, b, 8);
  }

  lemma {:induction false} XorBitsCommute(a: nat, b: nat, width: nat)
    ensures XorBits(a, b, width) == XorBits(b, a, width)
  {
    if width > 0 { XorBitsCommute(a / 2, b / 2, width - 1); }
  }

  lemma XorCommutes(a: Byte, b: Byte)
    ensures Xor(a, b) == Xor(b, a)
  {
    XorBitsCommute(a, b, 8);
  }

  lemma {:induction false} XorBitsZero(a: nat, width: nat)
    requires a < Pow2(width)
    ensures XorBits(a, 0, width) == a
  {
    if width > 0 { XorBitsZero(a / 2, width - 1); }
  }

  lemma XorZero(a: Byte)
    ensures Xor(a, 0) == a
  {
    assert Pow2(8) == 256 by { assert Pow2(4) == 16; }
    XorBitsZero(a, 8);
  }

  /** Bit `k` of a number, the lowest being bit 0. */
  predicate BitAt(x: nat, k: nat) {
    if k == 0 then x % 2 == 1 else BitAt(x / 2, k - 1)
  }

  lemma {:induction false} XorBitsAt(a: nat, b: nat, width: nat, k: nat)
    requires k < width
    ensures BitAt(XorBits(a, b, width), k) == (BitAt(a, k) != BitAt(b, k))
  {
    var y := XorBits(a / 2, b / 2, width - 1);
    if k == 0 {
      LowBit(y, a, b);
    } else {
      XorBitsAt(a / 2, b / 2, width - 1, k - 1);
      HalfOfXor(y, a, b);
    }
  }

  lemma LowBit(y: nat, a: nat, b: nat)
    ensures (2 * y + (a + b) % 2) % 2 == 1 <==> ((a % 2 == 1) != (b % 2 == 1))
  {
  }

  /** A bit of the exclusive-or is set exactly where the operands differ. */
  lemma XorAt(a: Byte, b: Byte, k: nat)
    requires k < 8
    ensures BitAt(Xor(a, b), k) == (BitAt(a, k) != BitAt(b, k))
  {
    XorBitsAt(a, b, 8, k);
  }

  /** Adding a power of two to a number in which its bit is clear sets that bit and no other. */
  lemma {:induction false} SetBitAt(x: nat, k: nat, j: nat)
    requires !BitAt(x, k)
    ensures BitAt(x + Pow2(k), j) <==> BitAt(x, j) || j == k
  {
    if k > 0 {
      assert (x + Pow2(k)) / 2 == x / 2 + Pow2(k - 1) && (x + Pow2(k)) % 2 == x % 2;
      if j > 0 { SetBitAt(x / 2, k - 1, j - 1); }
    } else {
      assert (x + 1) / 2 == x / 2;
    }
  }

  lemma BitBehindFour(x: nat, j: nat)
    ensures BitAt(x, j + 4) <==> BitAt(x / 16, j)
  {
    assert BitAt(x, j + 4) == BitAt(x / 2, j + 3) == BitAt(x / 2 / 2, j + 2) == BitAt(x / 2 / 2 / 2, j + 1);
    assert x / 2 / 2 / 2 / 2 == x / 16;
  }

  lemma BitTwo(x: nat)
    ensures BitAt(x, 2) <==> x / 4 % 2 == 1
  {
    var y := x / 2 / 2;
    assert BitAt(x, 2) == BitAt(x / 2, 1) == BitAt(y, 0);
    assert y == x / 4;
  }

  lemma BitThree(x: nat)
    ensures BitAt(x, 3) <==> x / 8 % 2 == 1
  {
    BitTwo(x / 2);
    assert x / 2 / 4 == x / 8;
  }

  /** Bits 11 and 14, as the program tests them. */
  lemma HighBits(x: nat)
    ensures BitAt(x, 11) <==> x / 0x800 % 2 == 1
    ensures BitAt(x, 14) <==> x / 0x4000 % 2 == 1
  {
    var y := x / 16 / 16;
    BitBehindFour(x, 7);
    BitBehindFour(x / 16, 3);
    BitThree(y);
    assert y / 8 == x / 0x800;
    BitBehindFour(x, 10);
    BitBehindFour(x / 16, 6);
    BitBehindFour(y, 2);
    BitTwo(y / 16);
    assert y / 16 / 4 == x / 0x4000;
  }

  function Zeros(n: nat): (s: seq<Byte>)
    ensures |s| == n && forall i :: 0 <= i < n ==> s[i] == 0
  {
    seq(n, i => 0)
  }
}

/** Single bits of bytes, and byte arrays read as bitmaps in either bit order. */
module Bits {

  /** The byte with bit `i` set alone. */
  function Mask(i: nat): bv8
    requires i < 8
  {
    if i < 4 then (if i < 2 then (if i == 0 then 0x01 else 0x02) else if i == 2 then 0x04 else 0x08)
    else if i < 6 then (if i == 4 then 0x10 else 0x20)
    else if i == 6 then 0x40 else 0x80
  }

  predicate Bit(b: bv8, i: nat)
    requires i < 8
  {
    b & Mask(i) != 0
  }

  function SetBit(b: bv8, i: nat): bv8
    requires i < 8
  {
    b | Mask(i)
  }

  function ClearBit(b: bv8, i: nat): bv8
    requires i < 8
  {
    b & !Mask(i)
  }

  function FlipBit(b: bv8, i: nat): bv8
    requires i < 8
  {
    b ^ Mask(i)
  }

  lemma SetLaw(b: bv8, i: nat, j: nat)
    requires i < 8 && j < 8
    ensures Bit(SetBit(b, i), j) == (i == j || Bit(b, j))
  {
  }

  lemma ClearLaw(b: bv8, i: nat, j: nat)
    requires i < 8 && j < 8
    ensures Bit(ClearBit(b, i), j) == (i != j && Bit(b, j))
  {
  }

  lemma FlipLaw(b: bv8, i: nat, j: nat)
    requires i < 8 && j < 8
    ensures Bit(FlipBit(b, i), j) == (Bit(b, j) != (i == j))
  {
  }

  lemma FullByte(b: bv8)
    ensures b == 0xff <==> forall i :: 0 <= i < 8 ==> Bit(b, i)
  {
    if forall i :: 0 <= i < 8 ==> Bit(b, i) {
      assert Bit(b, 0) && Bit(b, 1) && Bit(b, 2) && Bit(b, 3);
      assert Bit(b, 4) && Bit(b, 5) && Bit(b, 6) && Bit(b, 7);
    }
  }

  /** The position of bit number `n` in its byte: counted from the low end, or from the high end. */
  function Place(msb: bool, n: nat): (i: nat)
    ensures i < 8
  {
    if msb then 7 - n % 8 else n % 8
  }

  /** A byte string as a bitmap. */
  ghost function BitsOf(s: seq<bv8>, msb: bool): (r: seq<bool>)
    ensures |r| == 8 * |s|
  {
    seq(8 * |s|, n requires 0 <= n < 8 * |s| => Bit(s[n / 8], Place(msb, n)))
  }

  /** Changing one bit of one byte changes one entry of the bitmap. */
  lemma UpdateBit(s: seq<bv8>, msb: bool, n: nat, b: bv8, v: bool)
    requires n < 8 * |s|
    requires forall j :: 0 <= j < 8 ==> Bit(b, j) == if j == Place(msb, n) then v else Bit(s[n / 8], j)
    ensures BitsOf(s[n / 8 := b], msb) == BitsOf(s, msb)[n := v]
  {
    var s' := s[n / 8 := b];
    forall m | 0 <= m < 8 * |s| ensures BitsOf(s', msb)[m] == BitsOf(s, msb)[n := v][m] {
      if m / 8 == n / 8 {
        assert Bit(b, Place(msb, m)) == if Place(msb, m) == Place(msb, n) then v else Bit(s[n / 8], Place(msb, m));
        assert Place(msb, m) == Place(msb, n) <==> m == n;
      }
    }
  }

  lemma SetUpdates(s: seq<bv8>, msb: bool, n: nat)
    requires n < 8 * |s|
    ensures BitsOf(s[n / 8 := SetBit(s[n / 8], Place(msb, n))], msb) == BitsOf(s, msb)[n := true]
  {
    var b := SetBit(s[n / 8], Place(msb, n));
    forall j | 0 <= j < 8 ensures Bit(b, j) == if j == Place(msb, n) then true else Bit(s[n / 8], j) {
      SetLaw(s[n / 8], Place(msb, n), j);
    }
    UpdateBit(s, msb, n, b, true);
  }

  lemma ClearUpdates(s: seq<bv8>, msb: bool, n: nat)
    requires n < 8 * |s|
    ensures BitsOf(s[n / 8 := ClearBit(s[n / 8], Place(msb, n))], msb) == BitsOf(s, msb)[n := false]
  {
    var b := ClearBit(s[n / 8], Place(msb, n));
    forall j | 0 <= j < 8 ensures Bit(b, j) == if j == Place(msb, n) then false else Bit(s[n / 8], j) {
      ClearLaw(s[n / 8], Place(msb, n), j);
    }
    UpdateBit(s, msb, n, b, false);
  }

  lemma FlipUpdates(s: seq<bv8>, msb: bool, n: nat)
    requires n < 8 * |s|
    ensures BitsOf(s[n / 8 := FlipBit(s[n / 8], Place(msb, n))], msb) == BitsOf(s, msb)[n := !BitsOf(s, msb)[n]]
  {
    var b := FlipBit(s[n / 8], Place(msb, n));
    var v := !Bit(s[n / 8], Place(msb, n));
    forall j | 0 <= j < 8 ensures Bit(b, j) == if j == Place(msb, n) then v else Bit(s[n / 8], j) {
      FlipLaw(s[n / 8], Place(msb, n), j);
    }
    UpdateBit(s, msb, n, b, v);
  }

  // ----- counting

  /** The number of clear bits from position `i` on. */
  function ClearFrom(s: seq<bool>, i: nat): (n: nat)
    requires i <= |s|
    decreases |s| - i
  {
    if i == |s| then 0 else (if s[i] then 0 else 1) + ClearFrom(s, i + 1)
  }

  lemma {:induction false} ClearFromUpdate(s: seq<bool>, i: nat, k: nat, v: bool)
    requires i <= |s| && k < |s|
    ensures ClearFrom(s[k := v], i)
         == ClearFrom(s, i) + if k < i || s[k] == v then 0 else if v then -1 else 1
    decreases |s| - i
  {
    if i < |s| { ClearFromUpdate(s, i + 1, k, v); }
  }

  lemma {:induction false} ClearFromZero(s: seq<bool>, i: nat)
    requires i <= |s|
    ensures ClearFrom(s, i) == 0 <==> forall k :: i <= k < |s| ==> s[k]
    decreases |s| - i
  {
    if i < |s| { ClearFromZero(s, i + 1); }
  }
}

/** Printing and parsing numbers. */
module Numbers {
  import opened Bytes

  const INT_MAX: int := 0x7FFF_FFFF
  const INT_MIN: int := -0x8000_0000
  const MINUS: Byte := 0x2D
  const PLUS: Byte := 0x2B

  predicate IsDigit(c: Byte) { 0x30 <= c <= 0x39 }

  predicate IsSpace(c: Byte) { c == 0x20 || 9 <= c <= 13 }

  /** The character of a digit below sixteen. */
  function DigitChar(d: nat): (c: Byte)
    requires d < 16
  {
    if d < 10 then 0x30 + d else 0x57 + d
  }

  function DigitValue(c: Byte): (d: nat) {
    if IsDigit(c) then c - 0x30 else if 0x61 <= c <= 0x66 then c - 0x57 else 0
  }

  /** The number that a string of digits denotes. */
  function Value(s: seq<Byte>, base: nat): (v: nat) {
    if s == [] then 0 else Value(s[..|s| - 1], base) * base + DigitValue(s[|s| - 1])
  }

  /** The sixteen digits. */
  lemma DigitChars(d: nat)
    requires d < 16
    ensures DigitChar(d) == "0123456789abcdef"[d] as int && DigitValue(DigitChar(d)) == d
  {
  }

  function Power(b: nat, n: nat): nat { if n == 0 then 1 else b * Power(b, n - 1) }

  /** The first digit counts the highest power of the base. */
  lemma {:induction false} ValueFront(c: Byte, s: seq<Byte>, base: nat)
    ensures Value([c] + s, base) == DigitValue(c) * Power(base, |s|) + Value(s, base)
  {
    var t := [c] + s;
    if s == [] {
      assert t[..0] == [];
    } else {
      var n := |s| - 1;
      var init, last := s[..n], DigitValue(s[n]);
      assert t[..n + 1] == [c] + init;
      ValueFront(c, init, base);
      var a, p, v := DigitValue(c) as int, Power(base, n), Value(init, base);
      Spread(a, p, v, base);
    }
  }

  lemma Spread(a: int, p: int, v: int, base: int)
    ensures (a * p + v) * base == a * (base * p) + v * base
  {
  }

  /** The digits of a number, most significant first; none for zero. */
  function Digits(v: nat, base: nat): (s: seq<Byte>)
    requires 2 <= base <= 16
    decreases v
  {
    if v == 0 then [] else Digits(v / base, base) + [DigitChar(v % base)]
  }

  /** Every character is a digit of the base. */
  predicate DigitsOf(s: seq<Byte>, base: nat) {
    forall i :: 0 <= i < |s| ==> DigitValue(s[i]) < base && (IsDigit(s[i]) || 0x61 <= s[i] <= 0x66)
  }

  /** The digits denote the number, none is out of range, and the first is not zero. */
  lemma {:induction false} DigitsDenote(v: nat, base: nat)
    requires 2 <= base <= 16
    ensures var s := Digits(v, base);
            && Value(s, base) == v && DigitsOf(s, base) && (v > 0 ==> |s| > 0 && s[0] != 0x30)
            && (base <= 10 ==> forall i :: 0 <= i < |s| ==> IsDigit(s[i]))
    decreases v
  {
    if v > 0 {
      DigitsDenote(v / base, base);
      var s := Digits(v, base);
      assert s[..|s| - 1] == Digits(v / base, base);
      assert DigitValue(DigitChar(v % base)) == v % base;
      Recompose(v, base);
      if v / base == 0 { assert s == [DigitChar(v % base)]; }
    }
  }

  lemma Recompose(v: nat, base: nat)
    requires base > 0
    ensures v / base * base + v % base == v
  {
  }

  function Reversed(s: seq<Byte>): (r: seq<Byte>)
    ensures |r| == |s|
  {
    seq(|s|, i requires 0 <= i < |s| => s[|s| - 1 - i])
  }

  lemma Halves(v: nat, base: nat, n: nat)
    requires base >= 2 && n > 0 && v < Pow2(n)
    ensures v / base < Pow2(n - 1)
  {
    Recompose(v, base);
    AtLeastDouble(v / base, base);
  }

  lemma AtLeastDouble(q: nat, base: nat)
    requires base >= 2
    ensures q * base >= 2 * q
  {
  }

  lemma PowByte(n: nat)
    ensures Pow2(n + 8) == 256 * Pow2(n)
  {
    assert Pow2(n + 2) == 4 * Pow2(n);
    assert Pow2(n + 4) == 4 * Pow2(n + 2);
    assert Pow2(n + 6) == 4 * Pow2(n + 4);
  }

  /** Splits off the lowest digit. */
  method NextDigit(v: nat, base: nat, ghost n: nat) returns (c: Byte, q: nat)
    requires 2 <= base <= 16 && n > 0 && 0 < v < Pow2(n)
    ensures Digits(v, base) == Digits(q, base) + [c] && q < Pow2(n - 1)
  {
    Halves(v, base, n);
    c, q := DigitChar(v % base), v / base;
  }

  lemma ReversedSnoc(s: seq<Byte>, c: Byte)
    ensures Reversed(s + [c]) == [c] + Reversed(s)
  {
  }

  /** The digits from the low end. The buffer is large enough for every base. */
  method LowDigits(value: nat, base: nat, width: nat) returns (buf: array<Byte>, n: nat)
    requires value < Pow2(width) && 2 <= base <= 16
    ensures n <= width == buf.Length && Reversed(buf[..n]) == Digits(value, base)
  {
    buf := new Byte[width];
    n := 0;
    var v: nat := value;
    assert Digits(v, base) + Reversed(buf[..0]) == Digits(value, base);
    while v > 0 && n < width
      invariant n <= width && v < Pow2(width - n)
      invariant Digits(value, base) == Digits(v, base) + Reversed(buf[..n])
      decreases width - n
    {
      var c, q := NextDigit(v, base, width - n);
      ReversedSnoc(buf[..n], c);
      buf[n] := c;
      assert buf[..n + 1] == buf[..n] + [c];
      v := q;
      n := n + 1;
    }
    assert Digits(v, base) == [];
  }

  method Flip(buf: array<Byte>, n: nat) returns (r: seq<Byte>)
    requires n <= buf.Length
    ensures r == Reversed(buf[..n])
  {
    r := [];
    for j := 0 to n
      invariant r == Reversed(buf[..n])[..j]
    {
      r := r + [buf[n - j - 1]];
    }
  }

  /** `uintToStr` and `ulongToStr`: digits from the low end into a buffer of `width` characters, then reversed. */
  method UnsignedToStr(value: nat, base: int, width: nat) returns (r: seq<Byte>)
    requires value < Pow2(width)
    ensures !(2 <= base <= 16) ==> r == []
    ensures 2 <= base <= 16 ==>
            && Value(r, base) == value && DigitsOf(r, base) && 0 < |r| && (|r| <= width || value == 0)
            && (value > 0 ==> r[0] != 0x30 && r == Digits(value, base)) && (value == 0 ==> r == [0x30])
  {
    if base < 2 || base > 16 { return []; }
    if value == 0 {
      r := [0x30];
      assert r[..0] == [];
      return;
    }
    var buf, i := LowDigits(value, base, width);
    r := Flip(buf, i);
    DigitsDenote(value, base);
  }

  lemma WordSize()
    ensures Pow2(32) == 0x1_0000_0000
  {
    PowByte(0);
    PowByte(8);
    PowByte(16);
    PowByte(24);
  }

  /** Zero minus a negative number, in 32-bit words. */
  function Negated(value: int): (m: nat)
    requires INT_MIN <= value < 0
    ensures m == -value
  {
    var word := 0x1_0000_0000;
    (word - (value + word) % word) % word
  }

  /** `intToStr`: the magnitude of a negative number is its negation modulo the word size. */
  method IntToStr(value: int, base: int) returns (r: seq<Byte>)
    requires INT_MIN <= value <= INT_MAX
    ensures !(2 <= base <= 16) ==> r == if value < 0 then [MINUS] else []
    ensures 2 <= base <= 16 && value >= 0 ==> Value(r, base) == value && DigitsOf(r, base) && 0 < |r| <= 32
    ensures 2 <= base <= 16 && value < 0 ==>
            1 < |r| <= 33 && r[0] == MINUS && Value(r[1..], base) == -value && DigitsOf(r[1..], base)
    ensures base == 10 ==> r == Decimal(value)
  {
    WordSize();
    if value >= 0 {
      r := UnsignedToStr(value, base, 32);
    } else {
      var rest := UnsignedToStr(Negated(value), base, 32);
      r := [MINUS] + rest;
      assert r[1..] == rest;
    }
  }

  /** The decimal text of an integer. */
  function Decimal(value: int): seq<Byte> {
    if value == 0 then [0x30] else if value > 0 then Digits(value, 10) else [MINUS] + Digits(-value, 10)
  }

  // ----- parsing

  function SkipSpaces(s: seq<Byte>): seq<Byte> {
    if s != [] && IsSpace(s[0]) then SkipSpaces(s[1..]) else s
  }

  function SkipSign(s: seq<Byte>): seq<Byte> {
    if s != [] && (s[0] == MINUS || s[0] == PLUS) then s[1..] else s
  }

  /** The longest prefix of decimal digits. */
  function Leading(s: seq<Byte>): (n: nat)
    ensures n <= |s| && (forall i :: 0 <= i < n ==> IsDigit(s[i])) && (n < |s| ==> !IsDigit(s[n]))
  {
    if s == [] || !IsDigit(s[0]) then 0 else 1 + Leading(s[1..])
  }

  function Magnitude(s: seq<Byte>): nat {
    var t := SkipSign(SkipSpaces(s));
    Value(t[..Leading(t)], 10)
  }

  datatype Parsed = Number(value: int) | Overflow

  /** What `atoi` returns; a magnitude above the largest `int` overflows. */
  function Parse(s: seq<Byte>): Parsed {
    var t := SkipSpaces(s);
    var m: int := Magnitude(s);
    if m > INT_MAX then Overflow else Number(if t != [] && t[0] == MINUS then -m else m)
  }

  predicate AllSpaces(s: seq<Byte>) { forall i :: 0 <= i < |s| ==> IsSpace(s[i]) }

  predicate AllDigits(s: seq<Byte>) { forall i :: 0 <= i < |s| ==> 0x30 <= s[i] <= 0x39 }

  /** A text cut into white space, a sign if there is one, digits, and the rest. */
  predicate Pieces(s: seq<Byte>, spaces: seq<Byte>, sign: seq<Byte>, digits: seq<Byte>, rest: seq<Byte>) {
    && s == spaces + sign + digits + rest
    && AllSpaces(spaces) && AllDigits(digits) && (rest != [] ==> !(0x30 <= rest[0] <= 0x39))
    && (sign == [0x2D] || sign == [0x2B] || (sign == [] && (digits == [] && rest != [] ==>
          rest[0] != 0x2D && rest[0] != 0x2B && rest[0] != 0x20 && !(9 <= rest[0] <= 13))))
  }

  /** Every text has such a cut. */
  lemma HasPieces(s: seq<Byte>) returns (spaces: seq<Byte>, sign: seq<Byte>, digits: seq<Byte>, rest: seq<Byte>)
    ensures Pieces(s, spaces, sign, digits, rest)
  {
    var n := SpacesEnd(s);
    var t := s[n..];
    spaces := s[..n];
    if t != [] && (t[0] == MINUS || t[0] == PLUS) { sign := t[..1]; } else { sign := []; }
    var u := t[|sign|..];
    var k := Leading(u);
    digits, rest := u[..k], u[k..];
    Rejoin(s, t, u, spaces, sign, digits, rest);
  }

  lemma Rejoin(s: seq<Byte>, t: seq<Byte>, u: seq<Byte>, a: seq<Byte>, b: seq<Byte>, c: seq<Byte>, r: seq<Byte>)
    requires |a| <= |s| && a == s[..|a|] && t == s[|a|..] && |b| <= |t| && b == t[..|b|] && u == t[|b|..]
    requires |c| <= |u| && c == u[..|c|] && r == u[|c|..]
    ensures s == a + b + c + r
  {
    assert u == c + r;
    assert t == b + u;
    assert b + (c + r) == (b + c) + r;
    assert a + ((b + c) + r) == a + b + c + r;
    assert s == a + t;
  }

  lemma {:induction false} SpacesEnd(s: seq<Byte>) returns (n: nat)
    ensures n <= |s| && AllSpaces(s[..n]) && (n < |s| ==> !IsSpace(s[n])) && SkipSpaces(s) == s[n..]
  {
    if s == [] || !IsSpace(s[0]) {
      n := 0;
    } else {
      var m := SpacesEnd(s[1..]);
      n := m + 1;
      assert s[..n] == [s[0]] + s[1..][..m] && s[n..] == s[1..][m..];
    }
  }

  lemma {:induction false} SkipAll(spaces: seq<Byte>, t: seq<Byte>)
    requires AllSpaces(spaces) && (t != [] ==> !IsSpace(t[0]))
    ensures SkipSpaces(spaces + t) == t
  {
    if spaces == [] {
      assert spaces + t == t;
    } else {
      assert (spaces + t)[1..] == spaces[1..] + t;
      SkipAll(spaces[1..], t);
    }
  }

  /** What parsing gives, for every text: white space is skipped, either sign is taken, and the digits count up to the
      first other character; a magnitude above the largest `int` overflows. */
  lemma ParseLaw(s: seq<Byte>, spaces: seq<Byte>, sign: seq<Byte>, digits: seq<Byte>, rest: seq<Byte>)
    requires Pieces(s, spaces, sign, digits, rest)
    ensures var v: int := Value(digits, 10);
            Parse(s) == if v > 0x7FFF_FFFF then Overflow else Number(if sign == [0x2D] then -v else v)
  {
    var u := digits + rest;
    var t := sign + u;
    assert s == spaces + t;
    SkipAll(spaces, t);
    assert SkipSign(t) == u by {
      if sign != [] { assert t[1..] == u; } else { assert t == u; }
    }
    LeadingIs(u, |digits|);
    assert u[..|digits|] == digits;
  }

  lemma {:induction false} LeadingIs(s: seq<Byte>, n: nat)
    requires n <= |s| && (forall i :: 0 <= i < n ==> IsDigit(s[i])) && (n < |s| ==> !IsDigit(s[n]))
    ensures Leading(s) == n
  {
  }

  lemma {:induction false} ValuePrefix(s: seq<Byte>, k: nat)
    requires k <= |s|
    ensures Value(s[..k], 10) <= Value(s, 10)
    decreases |s| - k
  {
    if k < |s| {
      ValuePrefix(s, k + 1);
      assert s[..k + 1][..k] == s[..k];
    } else {
      assert s[..k] == s;
    }
  }

  method Atoi(s: seq<Byte>) returns (r: Parsed)
    ensures r == Parse(s)
  {
    var i := 0;
    assert s[0..] == s;
    while i < |s| && IsSpace(s[i])
      invariant i <= |s| && SkipSpaces(s) == SkipSpaces(s[i..])
    {
      assert s[i..][1..] == s[i + 1..];
      i := i + 1;
    }
    var sign := 1;
    ghost var t := SkipSpaces(s);
    assert t == s[i..];
    if i < |s| && s[i] == MINUS {
      sign := -1;
      i := i + 1;
    } else if i < |s| && s[i] == PLUS {
      i := i + 1;
    }
    assert s[i..] == SkipSign(t);
    var m := ReadDigits(s[i..]);
    return if m < 0 then Overflow else Number(sign * m);
  }

  /** The leading digits as a number, or -1 where it exceeds the largest `int`. */
  method ReadDigits(u: seq<Byte>) returns (result: int)
    ensures var v := Value(u[..Leading(u)], 10); result == if v > INT_MAX then -1 else v
  {
    var n := 0;
    result := 0;
    while n < |u| && IsDigit(u[n])
      invariant n <= |u| && (forall k :: 0 <= k < n ==> IsDigit(u[k]))
      invariant result == Value(u[..n], 10) <= INT_MAX
    {
      assert u[..n + 1][..n] == u[..n];
      var next := result * 10 + (u[n] - 0x30);
      if next > INT_MAX {
        OverflowStays(u, n + 1);
        return -1;
      }
      result := next;
      n := n + 1;
    }
    LeadingIs(u, n);
  }

  lemma OverflowStays(u: seq<Byte>, n: nat)
    requires n <= |u| && (forall k :: 0 <= k < n ==> IsDigit(u[k])) && Value(u[..n], 10) > INT_MAX
    ensures Value(u[..Leading(u)], 10) > INT_MAX
  {
    assert n <= Leading(u);
    ValuePrefix(u[..Leading(u)], n);
    assert u[..Leading(u)][..n] == u[..n];
  }

  /** Parsing the decimal text of an `int` gives it back, except for the smallest one, whose magnitude overflows. */
  lemma RoundTrip(value: int)
    requires INT_MIN <= value <= INT_MAX
    ensures Parse(Decimal(value)) == if value == INT_MIN then Overflow else Number(value)
  {
    var s := Decimal(value);
    if value == 0 {
      LeadingIs(s, 1);
      assert SkipSign(SkipSpaces(s)) == s && s[..1] == s && s[..0] == [];
      assert Value(s, 10) == 0;
    } else {
      var m := if value > 0 then value else -value;
      var t := Digits(m, 10);
      DigitsDenote(m, 10);
      assert SkipSign(SkipSpaces(s)) == t;
      LeadingIs(t, |t|);
      assert t[..|t|] == t;
    }
  }
}

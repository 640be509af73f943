/** Entry names: the rewriting of a user's name into the eleven bytes of a directory entry. */
module Names {
  import opened Bytes

  const NAME_LEN: nat := 11
  const NAME_BUFFER: nat := 256
  const SPACE: Byte := 0x20
  const DOT: Byte := 0x2E

  predicate Digit(c: Byte) { 0x30 <= c <= 0x39 }

  predicate Lower(c: Byte) { 0x61 <= c <= 0x7A }

  predicate Alpha(c: Byte) { 0x41 <= c <= 0x5A || Lower(c) }

  predicate Alnum(c: Byte) { Digit(c) || Alpha(c) }

  function ToUpper(c: Byte): Byte {
    if Lower(c) then c - 32 else c
  }

  // ----- buffers holding C strings

  /** The length of the string in a buffer. */
  function StrLen(buf: seq<Byte>): (n: nat)
    ensures n <= |buf| && (forall i :: 0 <= i < n ==> buf[i] != 0) && (n < |buf| ==> buf[n] == 0)
  {
    if buf == [] || buf[0] == 0 then 0 else 1 + StrLen(buf[1..])
  }

  function Str(buf: seq<Byte>): (s: seq<Byte>)
    ensures forall i :: 0 <= i < |s| ==> s[i] != 0
  {
    buf[..StrLen(buf)]
  }

  lemma {:induction false} StrLenIs(buf: seq<Byte>, n: nat)
    requires n <= |buf| && (forall i :: 0 <= i < n ==> buf[i] != 0) && (n < |buf| ==> buf[n] == 0)
    ensures StrLen(buf) == n
  {
  }

  /** What `strncpy` of at most `n` bytes leaves in a zeroed name buffer. */
  function Copied(s: seq<Byte>, n: nat): (buf: seq<Byte>)
    requires n < NAME_BUFFER
    ensures |buf| == NAME_BUFFER
  {
    var k := if |s| <= n then |s| else n;
    s[..k] + Zeros(NAME_BUFFER - k)
  }

  lemma CopiedStr(s: seq<Byte>, n: nat)
    requires n < NAME_BUFFER && forall i :: 0 <= i < |s| ==> s[i] != 0
    ensures Str(Copied(s, n)) == if |s| <= n then s else s[..n]
  {
    StrLenIs(Copied(s, n), if |s| <= n then |s| else n);
  }

  // ----- what a valid name is, and its canonical form

  /** Upper-casing touches the first eleven characters only. */
  function Upper(s: seq<Byte>): (u: seq<Byte>)
    ensures |u| == |s|
  {
    seq(|s|, i requires 0 <= i < |s| => if i < NAME_LEN then ToUpper(s[i]) else s[i])
  }

  /** The position of the first dot. */
  function DotAt(s: seq<Byte>): (n: nat)
    ensures n <= |s| && (forall i :: 0 <= i < n ==> s[i] != DOT) && (n < |s| ==> s[n] == DOT)
  {
    if s == [] || s[0] == DOT then 0 else 1 + DotAt(s[1..])
  }

  function Base(s: seq<Byte>): seq<Byte> { s[..DotAt(s)] }

  function Extension(s: seq<Byte>): seq<Byte> { if DotAt(s) < |s| then s[DotAt(s) + 1..] else [] }

  /** The characters before position `n` are letters or digits, save the first dot. */
  predicate Plain(s: seq<Byte>, n: nat)
    requires n <= |s|
  {
    forall i :: 0 <= i < n && i != DotAt(s) ==> Alnum(s[i])
  }

  /** One to eight letters or digits, then perhaps a dot and up to three more. */
  predicate Regular(s: seq<Byte>) {
    1 <= DotAt(s) <= 8 && |s| <= DotAt(s) + 4 && Plain(s, |s|)
  }

  function Spaces(n: nat): (s: seq<Byte>)
    ensures |s| == n && forall i :: 0 <= i < n ==> s[i] == 0x20
  {
    seq(n, i => SPACE)
  }

  function Padded(s: seq<Byte>, width: nat): (p: seq<Byte>)
    requires |s| <= width
    ensures |p| == width
  {
    s + Spaces(width - |s|)
  }

  /** The canonical form: base padded to eight bytes, extension padded to three. */
  function Canonical(s: seq<Byte>): (key: seq<Byte>)
    requires Regular(s)
    ensures |key| == NAME_LEN
  {
    Padded(Base(s), 8) + Padded(Extension(s), 3)
  }

  predicate Dotted(s: seq<Byte>) { |s| > 0 && s[0] == DOT }

  function DotKey(s: seq<Byte>): (key: seq<Byte>)
    requires Dotted(s)
    ensures |key| == NAME_LEN
  {
    if |s| > 1 && s[1] == DOT then [DOT, DOT] + Spaces(9) else [DOT] + Spaces(10)
  }

  predicate Accepted(s: seq<Byte>) { Dotted(s) || Regular(s) }

  /** The buffer after formatting: bytes from the twelfth on are never touched. */
  function Formatted(buf: seq<Byte>): (r: seq<Byte>)
    requires |buf| == NAME_BUFFER
    ensures |r| == |buf|
  {
    var s := Str(buf);
    if Dotted(s) then DotKey(s) + buf[NAME_LEN..]
    else if Regular(Upper(s)) then Canonical(Upper(s)) + buf[NAME_LEN..]
    else Upper(s) + buf[|s|..]
  }

  /** The eleven bytes that `fsCreate` and `fsMkdir` store for a name. */
  function Stored(s: seq<Byte>): (key: seq<Byte>)
    ensures |key| == NAME_LEN
  {
    Formatted(Copied(s, NAME_BUFFER - 1))[..NAME_LEN]
  }

  /** The eleven bytes that `fsLookup` searches for. */
  function Searched(s: seq<Byte>): (key: seq<Byte>)
    ensures |key| == NAME_LEN
  {
    Formatted(Copied(s, NAME_LEN))[..NAME_LEN]
  }

  // ----- the in-place rewriting

  method StrLength(buf: array<Byte>) returns (n: nat)
    ensures n == StrLen(buf[..])
  {
    n := 0;
    while n < buf.Length && buf[n] != 0
      invariant n <= buf.Length && forall i :: 0 <= i < n ==> buf[i] != 0
    {
      n := n + 1;
    }
    StrLenIs(buf[..], n);
  }

  method UpperString(buf: array<Byte>, ghost len: nat)
    requires len == StrLen(buf[..])
    modifies buf
    ensures buf[..] == Upper(old(buf[..len])) + old(buf[len..])
  {
    var i := 0;
    while i < buf.Length && i < NAME_LEN && buf[i] != 0
      invariant i <= len && i <= NAME_LEN
      invariant forall k :: 0 <= k < buf.Length ==> buf[k] == if k < i then ToUpper(old(buf[k])) else old(buf[k])
    {
      assert old(buf[..])[i] == old(buf[i]);
      buf[i] := ToUpper(buf[i]);
      i := i + 1;
    }
    assert i == len || i == NAME_LEN;
  }

  /** The state of the scan after `i` characters: what it has put into the two fields. */
  ghost predicate Scanned(u: seq<Byte>, i: nat, extender: bool, n: nat, x: nat, regular: seq<Byte>)
    requires i <= |u|
  {
    && |regular| == NAME_LEN && n <= 8 <= x <= NAME_LEN
    && extender == (DotAt(u) < i)
    && (if extender then n == DotAt(u) && x == 8 + (i - n - 1) else n == i && x == 8)
    && regular == Padded(u[..n], 8) + Padded(if extender then u[n + 1..i] else [], 3)
    && Plain(u, i)
  }

  /** Another letter or digit goes to the next free byte of its field. */
  lemma ScanAppends(u: seq<Byte>, i: nat, extender: bool, n: nat, x: nat, regular: seq<Byte>)
    requires i < |u| && Scanned(u, i, extender, n, x, regular) && Alnum(u[i])
    requires if extender then x < NAME_LEN else n < 8
    ensures if extender then Scanned(u, i + 1, true, n, x + 1, regular[x := u[i]])
            else Scanned(u, i + 1, false, n + 1, x, regular[n := u[i]])
  {
    if extender {
      assert u[n + 1..i + 1] == u[n + 1..i] + [u[i]];
      assert regular[x := u[i]] == Padded(u[..n], 8) + Padded(u[n + 1..i + 1], 3);
    } else {
      assert u[..n + 1] == u[..n] + [u[i]];
      assert regular[n := u[i]] == Padded(u[..n + 1], 8) + Padded([], 3);
    }
  }

  /** A character that the scan refuses makes the name irregular. */
  lemma ScanRefuses(u: seq<Byte>, i: nat, extender: bool, n: nat, x: nat, regular: seq<Byte>)
    requires i < |u| && Scanned(u, i, extender, n, x, regular)
    requires if u[i] == DOT then extender else !Alnum(u[i]) || if extender then x >= NAME_LEN else n >= 8
    ensures !Regular(u)
  {
    if extender {
      assert Extension(u)[i - n - 1] == u[i];
    } else if u[i] != DOT {
      assert Base(u)[i] == u[i];
    }
  }

  lemma ScanEnds(u: seq<Byte>, extender: bool, n: nat, x: nat, regular: seq<Byte>)
    requires Scanned(u, |u|, extender, n, x, regular)
    ensures Regular(u) == (n > 0)
    ensures n > 0 ==> Canonical(u) == regular
  {
    assert Base(u) == u[..n];
    assert Extension(u) == if extender then u[n + 1..] else [];
  }

  /** Copies a key over the first eleven bytes. */
  method Overwrite(name: array<Byte>, key: seq<Byte>)
    requires name.Length == NAME_BUFFER && |key| == NAME_LEN
    modifies name
    ensures name[..] == key + old(name[NAME_LEN..])
  {
    for k := 0 to NAME_LEN
      invariant forall j :: 0 <= j < NAME_BUFFER ==> name[j] == if j < k then key[j] else old(name[j])
    {
      name[k] := key[k];
    }
  }

  /** The scan of an upper-cased name into base and extension. */
  method Scan(name: array<Byte>, length: nat, ghost u: seq<Byte>) returns (ok: bool, regular: seq<Byte>)
    requires length == |u| <= name.Length && name[..length] == u
    ensures ok == Regular(u) && (ok ==> regular == Canonical(u))
  {
    regular := Spaces(NAME_LEN);
    var extender, n, x, i := false, 0, 8, 0;
    assert regular == Padded([], 8) + Padded([], 3);
    while i < length
      invariant i <= length
      invariant Scanned(u, i, extender, n, x, regular)
    {
      assert name[i] == u[i];
      if name[i] == DOT {
        if extender { ScanRefuses(u, i, extender, n, x, regular); return false, regular; }
        extender := true;
        assert u[n + 1..i + 1] == [];
      } else if !Alnum(name[i]) || (if extender then x >= NAME_LEN else n >= 8) {
        ScanRefuses(u, i, extender, n, x, regular);
        return false, regular;
      } else {
        ScanAppends(u, i, extender, n, x, regular);
        if extender {
          regular, x := regular[x := name[i]], x + 1;
        } else {
          regular, n := regular[n := name[i]], n + 1;
        }
      }
      i := i + 1;
    }
    ScanEnds(u, extender, n, x, regular);
    ok := n > 0;
  }

  /** `formatName`: rewrites the buffer and says whether the name is acceptable. */
  method FormatName(name: array<Byte>) returns (ok: bool)
    requires name.Length == NAME_BUFFER && StrLen(name[..]) < NAME_BUFFER
    modifies name
    ensures ok == Accepted(Str(old(name[..])))
    ensures name[..] == Formatted(old(name[..]))
  {
    ghost var buf := name[..];
    ghost var s := Str(buf);
    assert Dotted(s) <==> name[0] == DOT;
    if name[0] == DOT {
      assert DotKey(s) == if name[1] == DOT then [DOT, DOT] + Spaces(9) else [DOT] + Spaces(10);
      Overwrite(name, if name[1] == DOT then [DOT, DOT] + Spaces(9) else [DOT] + Spaces(10));
      return true;
    }
    var length := StrLength(name);
    UpperString(name, length);
    UpperRegular(s);
    var regular;
    ok, regular := Scan(name, length, Upper(s));
    if ok {
      assert name[NAME_LEN..] == buf[NAME_LEN..] by { UpperTail(buf, length); }
      Overwrite(name, regular);
    }
  }

  lemma UpperTail(buf: seq<Byte>, len: nat)
    requires len <= |buf| && NAME_LEN <= |buf|
    ensures (Upper(buf[..len]) + buf[len..])[NAME_LEN..] == buf[NAME_LEN..]
  {
    var u := Upper(buf[..len]) + buf[len..];
    assert |u| == |buf|;
    forall i | NAME_LEN <= i < |buf| ensures u[i] == buf[i] { }
  }

  // ----- laws of the canonical form

  lemma {:induction false} DotAtIs(s: seq<Byte>, n: nat)
    requires n <= |s| && (forall i :: 0 <= i < n ==> s[i] != DOT) && (n < |s| ==> s[n] == DOT)
    ensures DotAt(s) == n
  {
  }

  /** Letter case does not matter for acceptance, and upper-casing commutes with the split. */
  lemma UpperRegular(s: seq<Byte>)
    ensures DotAt(Upper(s)) == DotAt(s) && Regular(Upper(s)) == Regular(s) && Dotted(Upper(s)) == Dotted(s)
  {
    var u := Upper(s);
    assert forall i :: 0 <= i < |s| ==> (u[i] == DOT <==> s[i] == DOT) && Alnum(u[i]) == Alnum(s[i]);
    DotAtIs(u, DotAt(s));
  }

  /** A C string that fits the name buffer. */
  predicate Text(s: seq<Byte>) {
    |s| < NAME_BUFFER && forall i :: 0 <= i < |s| ==> s[i] != 0
  }

  /** The stored key in terms of the name itself. */
  lemma StoredIs(s: seq<Byte>)
    requires Text(s) && Accepted(s)
    ensures Stored(s) == if Dotted(s) then DotKey(s) else (UpperRegular(s); Canonical(Upper(s)))
  {
    CopiedStr(s, NAME_BUFFER - 1);
    UpperRegular(s);
  }

  /** The searched key in terms of the (cut) name: an unacceptable name keeps its upper-cased bytes. */
  lemma SearchedIs(s: seq<Byte>)
    requires forall i :: 0 <= i < |s| ==> s[i] != 0
    ensures var c := if |s| <= NAME_LEN then s else s[..NAME_LEN];
            Searched(s) == if Dotted(c) then DotKey(c)
                           else if Regular(c) then (UpperRegular(c); Canonical(Upper(c)))
                           else Upper(c) + Zeros(NAME_LEN - |c|)
  {
    var c := if |s| <= NAME_LEN then s else s[..NAME_LEN];
    CopiedStr(s, NAME_LEN);
    UpperRegular(c);
    var buf := Copied(s, NAME_LEN);
    assert buf[|c|..] == Zeros(NAME_BUFFER - |c|);
    if !Dotted(c) && !Regular(c) {
      assert Formatted(buf)[..NAME_LEN] == Upper(c) + Zeros(NAME_LEN - |c|);
    }
  }

  /** The character of the name that byte `i` of its key holds, or the length of the name for padding. */
  function Origin(s: seq<Byte>, i: nat): (j: nat)
    ensures j <= |s|
  {
    var d := DotAt(s);
    if i < d && i < 8 then i else if 8 <= i && d + i - 7 < |s| then d + i - 7 else |s|
  }

  lemma KeyAt(s: seq<Byte>, i: nat)
    requires Text(s) && Regular(s) && i < NAME_LEN
    ensures Stored(s)[i] == if Origin(s, i) == |s| then SPACE else Upper(s)[Origin(s, i)]
    ensures Origin(s, i) < |s| ==> Alnum(Stored(s)[i])
  {
    StoredIs(s);
    UpperRegular(s);
    CanonicalAt(Upper(s), i);
    var j := Origin(s, i);
    if j < |s| { assert j != DotAt(s) && Alnum(s[j]); }
  }

  lemma CanonicalAt(u: seq<Byte>, i: nat)
    requires Regular(u) && i < NAME_LEN
    ensures Canonical(u)[i] == if Origin(u, i) == |u| then SPACE else u[Origin(u, i)]
  {
    var d := DotAt(u);
    if i < d {
      assert Base(u)[i] == u[i];
    } else if i >= 8 && d + i - 7 < |u| {
      assert Extension(u)[i - 8] == u[d + i - 7];
    }
  }

  // ----- what is accepted and what is stored, in terms of base and extension

  predicate LettersOrDigits(s: seq<Byte>) {
    forall i :: 0 <= i < |s| ==> 0x30 <= s[i] <= 0x39 || 0x41 <= s[i] <= 0x5A || 0x61 <= s[i] <= 0x7A
  }

  /** The name is one to eight letters or digits, alone or with a dot and up to three more. */
  predicate Parts(s: seq<Byte>, base: seq<Byte>, ext: seq<Byte>) {
    && LettersOrDigits(base) && LettersOrDigits(ext) && 1 <= |base| <= 8 && |ext| <= 3
    && (s == base + [0x2E] + ext || (s == base && ext == []))
  }

  lemma PartsDot(s: seq<Byte>, base: seq<Byte>, ext: seq<Byte>)
    requires Parts(s, base, ext)
    ensures DotAt(s) == |base| && Regular(s)
  {
    DotAtIs(s, |base|);
    forall i | 0 <= i < |s| && i != |base| ensures Alnum(s[i]) {
      if i > |base| { assert s[i] == ext[i - |base| - 1]; }
    }
  }

  /** Exactly such names and those that start with a dot are accepted. */
  lemma AcceptedLaw(s: seq<Byte>)
    ensures Accepted(s) <==> (s != [] && s[0] == 0x2E) || exists base, ext :: Parts(s, base, ext)
  {
    if base, ext :| Parts(s, base, ext) { PartsDot(s, base, ext); }
    if Regular(s) { RegularParts(s); }
  }

  lemma RegularParts(s: seq<Byte>)
    requires Regular(s)
    ensures Parts(s, Base(s), Extension(s))
  {
    var n, ext := DotAt(s), Extension(s);
    forall i | 0 <= i < |ext| ensures Alnum(ext[i]) { assert ext[i] == s[n + 1 + i]; }
    if n < |s| { assert s == Base(s) + [0x2E] + ext; } else { assert s == Base(s); }
  }

  /** The capital form of a letter. */
  function Capital(c: Byte): Byte { if 0x61 <= c <= 0x7A then c - 0x20 else c }

  /** The stored bytes: the base in capitals, filled up with spaces to eight; the extension likewise to three, but a
      character beyond the eleventh of the name stays as it is. */
  lemma StoredLaw(s: seq<Byte>, base: seq<Byte>, ext: seq<Byte>, i: nat)
    requires Text(s) && Parts(s, base, ext) && i < 11
    ensures Stored(s)[i] ==
            if i < 8 then (if i < |base| then Capital(base[i]) else 0x20)
            else if i - 8 >= |ext| then 0x20
            else if |base| + 1 + (i - 8) < 11 then Capital(ext[i - 8])
            else ext[i - 8]
  {
    PartsDot(s, base, ext);
    KeyAt(s, i);
    OriginLaw(s, base, ext, i);
  }

  lemma OriginLaw(s: seq<Byte>, base: seq<Byte>, ext: seq<Byte>, i: nat)
    requires Parts(s, base, ext) && i < 11 && DotAt(s) == |base|
    ensures var j := Origin(s, i);
            if i < 8 then (if i < |base| then j == i < |s| && s[j] == base[i] else j == |s|)
            else if i - 8 >= |ext| then j == |s| else j == |base| + 1 + (i - 8) < |s| && s[j] == ext[i - 8]
  {
  }

  /** A name that starts with a dot is stored as one dot, or as two if another follows. */
  lemma StoredDots(s: seq<Byte>, i: nat)
    requires Text(s) && s != [] && s[0] == 0x2E && i < 11
    ensures Stored(s)[i] == if i == 0 || (i == 1 && |s| > 1 && s[1] == 0x2E) then 0x2E else 0x20
  {
    StoredIs(s);
  }

  /** Every byte of a stored key is a space, a letter, a digit or a leading dot, so no key looks like a marker. */
  lemma KeyBytes(s: seq<Byte>)
    requires Text(s) && Accepted(s)
    ensures forall i :: 0 <= i < NAME_LEN ==> Stored(s)[i] == SPACE || Alnum(Stored(s)[i]) || (i < 2 && Stored(s)[i] == DOT)
    ensures Stored(s)[0] == DOT <==> Dotted(s)
    ensures Stored(s)[0] != SPACE && Stored(s)[0] > 1
  {
    if Dotted(s) {
      StoredIs(s);
    } else {
      forall i | 0 <= i < NAME_LEN ensures Stored(s)[i] == SPACE || Alnum(Stored(s)[i]) { KeyAt(s, i); }
      KeyAt(s, 0);
    }
  }

  /** A canonical key is itself irregular: it is too long or holds a space. */
  lemma KeyIrregular(s: seq<Byte>)
    requires Text(s) && Regular(s)
    ensures !Accepted(Stored(s))
  {
    var key := Stored(s);
    KeyBytes(s);
    KeyAt(s, 1);
    DotAtIs(key, NAME_LEN);
  }

  /** The lower-case letter that upper-casing misses: the twelfth character of a full-length name. */
  predicate CaseLeak(s: seq<Byte>) {
    |s| > NAME_LEN && Lower(s[NAME_LEN])
  }

  /** Formatting a stored key again leaves its bytes as they are (while reporting an error),
      except where the twelfth character was a lower-case letter. */
  lemma ReformatLaw(s: seq<Byte>)
    requires Text(s) && Regular(s)
    ensures !Accepted(Stored(s))
    ensures Searched(Stored(s)) == Stored(s) <==> !CaseLeak(s)
  {
    var key := Stored(s);
    KeyBytes(s);
    KeyIrregular(s);
    KeyUpper(s);
    IrregularKey(key);
    UpperFixed(key);
  }

  lemma IrregularKey(key: seq<Byte>)
    requires |key| == NAME_LEN && 0 !in key && !Accepted(key)
    ensures Searched(key) == Upper(key)
  {
    SearchedIs(key);
  }

  /** The key is in upper case unless the twelfth character leaks into it. */
  lemma KeyUpper(s: seq<Byte>)
    requires Text(s) && Regular(s)
    ensures NoLower(Stored(s)) <==> !CaseLeak(s)
  {
    if CaseLeak(s) {
      LeakedByte(s);
    } else {
      forall i | 0 <= i < NAME_LEN ensures !Lower(Stored(s)[i]) { UpperByte(s, i); }
    }
  }

  lemma UpperByte(s: seq<Byte>, i: nat)
    requires Text(s) && Regular(s) && !CaseLeak(s) && i < NAME_LEN
    ensures !Lower(Stored(s)[i])
  {
    KeyAt(s, i);
  }

  lemma LeakedByte(s: seq<Byte>)
    requires Text(s) && Regular(s) && CaseLeak(s)
    ensures Lower(Stored(s)[10])
  {
    assert DotAt(s) == 8 && Origin(s, 10) == NAME_LEN;
    assert Upper(s)[NAME_LEN] == s[NAME_LEN];
    KeyAt(s, 10);
  }

  predicate NoLower(s: seq<Byte>) { forall i :: 0 <= i < |s| ==> !Lower(s[i]) }

  lemma UpperFixed(s: seq<Byte>)
    requires |s| <= NAME_LEN
    ensures Upper(s) == s <==> NoLower(s)
  {
    if i :| 0 <= i < |s| && Lower(s[i]) { assert Upper(s)[i] != s[i]; }
  }

  lemma ReformatDotted(s: seq<Byte>)
    requires Text(s) && Dotted(s)
    ensures Searched(Stored(s)) == Stored(s) && Accepted(Stored(s))
  {
    StoredIs(s);
    KeyBytes(s);
    SearchedIs(Stored(s));
  }

  /** Looking a name up searches for the key that was stored under it, exactly when it has at most eleven characters. */
  lemma LookupLaw(s: seq<Byte>)
    requires Text(s) && Accepted(s)
    ensures Searched(s) == Stored(s) <==> Dotted(s) || |s| <= NAME_LEN
  {
    StoredIs(s);
    SearchedIs(s);
    if !Dotted(s) && |s| > NAME_LEN { CutName(s); }
  }

  /** A full-length name, cut to eleven characters, loses the last letter of its extension. */
  lemma CutName(s: seq<Byte>)
    requires Text(s) && Regular(s) && |s| > NAME_LEN
    ensures Searched(s)[10] == SPACE && Stored(s)[10] != SPACE
  {
    var c := s[..NAME_LEN];
    DotAtIs(c, 8);
    UpperRegular(s);
    UpperRegular(c);
    assert Searched(s)[10] == SPACE by {
      SearchedIs(s);
      assert |Extension(Upper(c))| == 2;
    }
    assert Stored(s)[10] == Upper(s)[11] by {
      StoredIs(s);
      assert Extension(Upper(s))[2] == Upper(s)[11];
    }
    assert Alnum(s[11]);
  }

  /** `abcdefgh.txt` */
  function LongName(): seq<Byte> {
    [0x61, 0x62, 0x63, 0x64, 0x65, 0x66, 0x67, 0x68, DOT, 0x74, 0x78, 0x74]
  }

  /** A full-length name whose last character is in lower case. */
  predicate Leaky(s: seq<Byte>) { Text(s) && Regular(s) && CaseLeak(s) }

  lemma LongNameLeaks(s: seq<Byte>)
    requires s == LongName()
    ensures Leaky(s)
  {
    DotAtIs(s, 8);
  }

  /** Such a name, for instance `abcdefgh.txt`, is not found under its own name, and its key changes when formatted again. */
  lemma FullLengthName(s: seq<Byte>)
    requires Leaky(s)
    ensures Searched(s) != Stored(s) && Searched(Stored(s)) != Stored(s)
  {
    LookupLaw(s);
    ReformatLaw(s);
  }

  /** Names of at most eleven characters that differ only in letter case have one key. */
  lemma CaseBlind(s: seq<Byte>, t: seq<Byte>)
    requires Text(s) && Text(t) && |s| <= NAME_LEN && Upper(s) == Upper(t)
    ensures Accepted(s) == Accepted(t) && Searched(s) == Searched(t)
    ensures Accepted(s) ==> Stored(s) == Stored(t)
  {
    UpperRegular(s);
    UpperRegular(t);
    SearchedIs(s);
    SearchedIs(t);
    if Accepted(s) { StoredIs(s); StoredIs(t); }
    if Dotted(s) && |s| > 1 { assert Upper(s)[1] == Upper(t)[1]; }
  }

  lemma PaddedInjective(a: seq<Byte>, b: seq<Byte>, width: nat)
    requires |a| <= |b| <= width && SPACE !in b
    ensures Padded(a, width) == Padded(b, width) <==> a == b
  {
    var p, q := Padded(a, width), Padded(b, width);
    if |a| < |b| { assert p[|a|] == SPACE && q[|a|] == b[|a|] && b[|a|] in b; }
    assert a == p[..|a|] && b == q[..|b|];
  }

  lemma SplitPlain(s: seq<Byte>)
    requires Regular(s)
    ensures SPACE !in Base(s) && SPACE !in Extension(s)
  {
  }

  /** Two names share a key exactly when base and extension agree in their upper-cased form, which leaves a twelfth
      character as it is: for names of at most eleven characters, when they agree up to letter case. */
  lemma KeyInjective(s: seq<Byte>, t: seq<Byte>)
    requires Text(s) && Text(t) && Regular(s) && Regular(t)
    ensures Stored(s) == Stored(t) <==> Base(Upper(s)) == Base(Upper(t)) && Extension(Upper(s)) == Extension(Upper(t))
  {
    StoredIs(s);
    StoredIs(t);
    UpperRegular(s);
    UpperRegular(t);
    if Stored(s) == Stored(t) {
      assert Stored(s)[..8] == Padded(Base(Upper(s)), 8) && Stored(t)[..8] == Padded(Base(Upper(t)), 8);
      assert Stored(s)[8..] == Padded(Extension(Upper(s)), 3) && Stored(t)[8..] == Padded(Extension(Upper(t)), 3);
      SplitPlain(Upper(s));
      SplitPlain(Upper(t));
      var (a, b, x, y) := (Base(Upper(s)), Base(Upper(t)), Extension(Upper(s)), Extension(Upper(t)));
      if |a| <= |b| { PaddedInjective(a, b, 8); } else { PaddedInjective(b, a, 8); }
      if |x| <= |y| { PaddedInjective(x, y, 3); } else { PaddedInjective(y, x, 3); }
    }
  }
}

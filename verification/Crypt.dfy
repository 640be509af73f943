/** Encrypting and decrypting a file in place with a repeated password. */
module Crypt {
  import opened Bytes
  import opened FsModel
  import opened FsWrite
  import opened FsOps
  import opened FileSystems

  const CHECK_BYTE: Byte := 0xA5
  const BUF_MAX: nat := 12288
  const ENCRYPT_FLAG: nat := 0x800

  // ----- the transform

  function KeyByte(password: seq<Byte>, i: nat): Byte
    requires password != []
  {
    Xor(password[i % |password|], i * 31 % 256)
  }

  function Crypted(s: seq<Byte>, password: seq<Byte>): (r: seq<Byte>)
    ensures |r| == |s|
  {
    if password == [] then s
    else seq<Byte>(|s|, i requires 0 <= i < |s| => Xor(s[i], KeyByte(password, i)))
  }

  /** Applying the transform twice gives the input back. */
  lemma CryptedTwice(s: seq<Byte>, password: seq<Byte>)
    ensures Crypted(Crypted(s, password), password) == s
  {
    if password != [] {
      forall i | 0 <= i < |s| ensures Crypted(Crypted(s, password), password)[i] == s[i] {
        XorCancels(s[i], KeyByte(password, i));
      }
    }
  }

  /** The key stream, bit by bit: the password over and over, and the position times 31. */
  lemma CryptedBits(s: seq<Byte>, password: seq<Byte>, i: nat, k: nat)
    requires password != [] && i < |s| && k < 8
    ensures BitAt(Crypted(s, password)[i], k) <==>
            (BitAt(s[i], k) != (BitAt(password[i % |password|], k) != BitAt(i * 31 % 256, k)))
  {
    XorAt(s[i], KeyByte(password, i), k);
    XorAt(password[i % |password|], i * 31 % 256, k);
  }

  /** Two passwords agree at the first `n` positions, each repeated as often as needed. */
  predicate SameStream(p: seq<Byte>, q: seq<Byte>, n: nat)
    requires p != [] && q != []
  {
    forall k :: 0 <= k < n ==> p[k % |p|] == q[k % |q|]
  }

  /** A second transform with another password undoes the first exactly where the passwords agree. */
  lemma OtherByte(s: seq<Byte>, p: seq<Byte>, q: seq<Byte>, i: nat)
    requires p != [] && q != [] && i < |s|
    ensures Crypted(Crypted(s, p), q)[i] == s[i] <==> p[i % |p|] == q[i % |q|]
  {
    XorInjective(s[i], KeyByte(p, i), KeyByte(q, i));
    XorCancels(p[i % |p|], i * 31 % 256);
    XorCancels(q[i % |q|], i * 31 % 256);
  }

  lemma XorInjective(a: Byte, k: Byte, l: Byte)
    ensures Xor(Xor(a, k), l) == a <==> k == l
  {
    XorCancels(a, k);
    if Xor(Xor(a, k), l) == a {
      XorCancels(Xor(a, k), l);
      XorCommutes(a, k);
      XorCommutes(a, l);
      XorCancels(k, a);
      XorCancels(l, a);
    }
  }

  method CryptXor(buf: array<Byte>, len: nat, password: seq<Byte>)
    requires len <= buf.Length
    modifies buf
    ensures buf[..len] == Crypted(old(buf[..len]), password) && buf[len..] == old(buf[len..])
  {
    if |password| == 0 { return; }
    for i := 0 to len
      invariant forall k :: 0 <= k < buf.Length ==>
        buf[k] == if k < i then Xor(old(buf[k]), KeyByte(password, k)) else old(buf[k])
    {
      buf[i] := Xor(buf[i], Xor(password[i % |password|], i * 31 % 256));
    }
  }

  // ----- the commands on values

  predicate Marked(n: Inode) { n.flags / ENCRYPT_FLAG % 2 == 1 }

  function WithMark(n: Inode, on: bool): (m: Inode)
    ensures Marked(m) == on && m == n.(flags := m.flags)
    ensures Marked(n) == on ==> m == n
  {
    if Marked(n) == on then n else n.(flags := if on then n.flags + ENCRYPT_FLAG else n.flags - ENCRYPT_FLAG)
  }

  /** The mark is bit 11 of the flags, and marking leaves every other bit alone. */
  lemma MarkIsBit(n: Inode, on: bool, j: nat)
    ensures Marked(n) <==> BitAt(n.flags, 11)
    ensures BitAt(WithMark(n, on).flags, j) <==> if j == 11 then on else BitAt(n.flags, j)
  {
    var m := WithMark(n, on);
    assert Pow2(11) == 0x800 by { assert Pow2(4) == 16; assert Pow2(8) == 256; }
    HighBits(n.flags);
    HighBits(m.flags);
    if Marked(n) && !on { SetBitAt(m.flags, 11, j); }
    if !Marked(n) && on { SetBitAt(n.flags, 11, j); }
  }

  function Mark(d: Disk, i: nat, on: bool): Disk
    requires Number(i)
  {
    SetNode(d, i, WithMark(Node(d, i), on))
  }

  function Encrypt(d: Disk, i: nat, password: seq<Byte>): (r: (Disk, bool))
    requires Number(i) && Sized(Node(d, i))
  {
    var n := Node(d, i);
    if password == [] || IsDir(n) || Marked(n) || n.size + 1 > BUF_MAX then (d, false)
    else
      var (e, ok) := Write(d, i, 0, Crypted([CHECK_BYTE] + Contents(d, n), password));
      if ok then (Mark(e, i, true), true) else (e, false)
  }

  function Decrypt(d: Disk, i: nat, password: seq<Byte>): (r: (Disk, bool))
    requires Number(i) && Sized(Node(d, i))
  {
    var n := Node(d, i);
    if password == [] || !Marked(n) || n.size > BUF_MAX then (d, false)
    else
      var plain := Crypted(Contents(d, n), password);
      if |plain| < 1 || plain[0] != CHECK_BYTE then (d, false)
      else
        var (e, ok) := Write(d, i, 0, plain[1..]);
        if ok then (Mark(e, i, false), true) else (e, false)
  }

  /** Marking an inode changes its flags only. */
  lemma MarkLaw(d: Disk, e: Disk, i: nat, on: bool)
    requires Books(e) && Number(i) && OthersKept(d, e, i)
    ensures Books(Mark(e, i, on)) && OthersKept(d, Mark(e, i, on), i)
    ensures Sized(Node(e, i)) ==> Contents(Mark(e, i, on), Node(Mark(e, i, on), i)) == Contents(e, Node(e, i))
  {
    var f := Mark(e, i, on);
    assert NodeOk(e.used, e.table[i - 1]);
    Adopt(e.used, e.table, f.used, i - 1, Node(f, i));
    forall j | Number(j) && j != i ensures Same(d, f, j) { assert Same(d, e, j); }
  }

  /** What an encrypted file holds: the check byte and the plain bytes, transformed. */
  lemma EncryptLaw(d: Disk, i: nat, password: seq<Byte>)
    requires Books(d) && Number(i) && Sized(Node(d, i)) && Encrypt(d, i, password).1
    ensures var e := Encrypt(d, i, password).0;
            var n, m := Node(d, i), Node(e, i);
            && Books(e) && OthersKept(d, e, i) && Sized(m) && Marked(m) && m.mode == n.mode && m.size == n.size + 1 <= BUF_MAX
            && m.flags == WithMark(n, true).flags && !Marked(n) && password != []
            && m.blocks <= DIRECT && m.blocks == BlockCount(n.size + 1)
            && Contents(e, m) == Crypted([0xA5] + Contents(d, n), password)
  {
    var n := Node(d, i);
    var out := Crypted([CHECK_BYTE] + Contents(d, n), password);
    WriteRollsBack(d, i, 0, out);
    WriteLaw(d, i, 0, out);
    var e := Write(d, i, 0, out).0;
    assert Zeros(0) + out == out;
    OwnersKept(d, e, i);
    MarkLaw(d, e, i, true);
  }

  /** Decrypting with the same password gives the file back: its bytes, size, mode and flags; no other file changes. */
  lemma RoundTrip(d: Disk, i: nat, password: seq<Byte>)
    requires Books(d) && Number(i) && Sized(Node(d, i)) && Encrypt(d, i, password).1
    ensures var e := Encrypt(d, i, password).0;
            && Sized(Node(e, i))
            && var (f, ok) := Decrypt(e, i, password);
               var n, m := Node(d, i), Node(f, i);
               && ok && Books(f) && OthersKept(d, f, i)
               && Sized(m) && Contents(f, m) == Contents(d, n)
               && m.size == n.size && m.mode == n.mode && m.flags == n.flags
  {
    var e := Encrypt(d, i, password).0;
    var n := Node(d, i);
    EncryptLaw(d, i, password);
    CryptedTwice([CHECK_BYTE] + Contents(d, n), password);
    assert ([CHECK_BYTE] + Contents(d, n))[1..] == Contents(d, n);
    Restore(d, e, i, Contents(d, n));
  }

  /** The write that a decryption ends with cannot fail: it needs no more blocks than the file has. */
  lemma Restore(d: Disk, e: Disk, i: nat, plain: seq<Byte>)
    requires Books(e) && Number(i) && OthersKept(d, e, i) && Node(e, i).blocks <= DIRECT
    requires Node(e, i).blocks == BlockCount(|plain| + 1)
    ensures var (f, ok) := Write(e, i, 0, plain);
            var g := Mark(f, i, false);
            var m := Node(g, i);
            && ok && Books(g) && OthersKept(d, g, i) && Sized(m) && Contents(g, m) == plain
            && m.mode == Node(e, i).mode && m.flags == WithMark(Node(e, i), false).flags && m.size == |plain|
  {
    WriteRollsBack(e, i, 0, plain);
    WriteLaw(e, i, 0, plain);
    var f := Write(e, i, 0, plain).0;
    assert Zeros(0) + plain == plain;
    OwnersKept(e, f, i);
    forall j | Number(j) && j != i ensures Same(d, f, j) { assert Same(d, e, j) && Same(e, f, j); }
    MarkLaw(d, f, i, false);
  }

  /** The check byte survives a second transform exactly when the first characters agree. */
  lemma CheckByte(password: seq<Byte>, other: seq<Byte>)
    requires password != [] && other != []
    ensures Xor(Xor(CHECK_BYTE, KeyByte(password, 0)), KeyByte(other, 0)) == CHECK_BYTE <==> password[0] == other[0]
  {
    FirstKeyByte(password);
    FirstKeyByte(other);
    XorInjective(CHECK_BYTE, Xor(password[0], 0), Xor(other[0], 0));
    XorCancels(password[0], 0);
    XorCancels(other[0], 0);
  }

  lemma FirstKeyByte(password: seq<Byte>)
    requires password != []
    ensures KeyByte(password, 0) == Xor(password[0], 0)
  {
  }

  /** A refused decryption leaves the disk as it was; after an encryption it is refused exactly when the passwords
      differ in their first character, or there is none. */
  lemma WrongPassword(d: Disk, i: nat, password: seq<Byte>, other: seq<Byte>)
    requires Books(d) && Number(i) && Sized(Node(d, i)) && Encrypt(d, i, password).1
    ensures var e := Encrypt(d, i, password).0;
            && Sized(Node(e, i))
            && (Decrypt(e, i, other).1 <==> other != [] && other[0] == password[0])
            && (!Decrypt(e, i, other).1 ==> Decrypt(e, i, other).0 == e)
  {
    var e := Encrypt(d, i, password).0;
    EncryptLaw(d, i, password);
    if other != [] {
      var plain := Crypted(Contents(e, Node(e, i)), other);
      assert plain[0] == Xor(Xor(CHECK_BYTE, KeyByte(password, 0)), KeyByte(other, 0));
      CheckByte(password, other);
      Restore(d, e, i, plain[1..]);
    }
  }

  /** A decryption with another password gives the file back exactly if that agrees with the right one at all positions of
      the file, the check byte included. */
  lemma OtherPassword(d: Disk, i: nat, password: seq<Byte>, other: seq<Byte>)
    requires Books(d) && Number(i) && Sized(Node(d, i)) && Encrypt(d, i, password).1 && password != []
    requires var e := Encrypt(d, i, password).0; Sized(Node(e, i)) && Decrypt(e, i, other).1 && other != []
    ensures var f := Decrypt(Encrypt(d, i, password).0, i, other).0;
            && Sized(Node(f, i))
            && (Contents(f, Node(f, i)) == Contents(d, Node(d, i)) <==> SameStream(password, other, Node(d, i).size + 1))
  {
    var e := Encrypt(d, i, password).0;
    EncryptLaw(d, i, password);
    WrongPassword(d, i, password, other);
    var whole := [CHECK_BYTE] + Contents(d, Node(d, i));
    var plain := Crypted(Contents(e, Node(e, i)), other);
    Restore(d, e, i, plain[1..]);
    Undone(whole, password, other);
  }

  lemma Undone(whole: seq<Byte>, password: seq<Byte>, other: seq<Byte>)
    requires password != [] && other != [] && |whole| > 0 && other[0] == password[0]
    ensures Crypted(Crypted(whole, password), other)[1..] == whole[1..] <==> SameStream(password, other, |whole|)
  {
    var plain := Crypted(Crypted(whole, password), other);
    forall k | 0 <= k < |whole| ensures plain[k] == whole[k] <==> password[k % |password|] == other[k % |other|] {
      OtherByte(whole, password, other, k);
    }
    if plain[1..] == whole[1..] {
      forall k | 0 <= k < |whole| ensures plain[k] == whole[k] {
        if k > 0 { assert plain[1..][k - 1] == whole[1..][k - 1]; }
      }
    }
  }

  /** In every case: a refused decryption changes nothing. */
  lemma RefusedDecrypt(d: Disk, i: nat, password: seq<Byte>)
    requires Books(d) && Number(i) && Sized(Node(d, i)) && !Decrypt(d, i, password).1
    ensures Decrypt(d, i, password).0 == d
  {
    var plain := Crypted(Contents(d, Node(d, i)), password);
    if |plain| > 0 { WriteRollsBack(d, i, 0, plain[1..]); }
  }

  /** Decryption succeeds exactly on a marked file of 1 to 12288 bytes whose first byte the first character of the password
      turns into the check byte, if the write that ends it does; the file then holds the other bytes transformed. */
  lemma DecryptWhen(d: Disk, i: nat, password: seq<Byte>)
    requires Books(d) && Number(i) && Sized(Node(d, i))
    ensures var (e, ok) := Decrypt(d, i, password);
            var n := Node(d, i);
            var all := Contents(d, n);
            && (ok <==> password != [] && Marked(n) && 1 <= n.size <= 12288 && Xor(all[0], password[0]) == 0xA5 && CanWrite(d, i, n.size - 1))
            && (ok ==> Sized(Node(e, i)) && Contents(e, Node(e, i)) == Crypted(all, password)[1..]
                       && Node(e, i).mode == n.mode && Node(e, i).flags == WithMark(n, false).flags && OthersKept(d, e, i))
  {
    var n := Node(d, i);
    var all := Contents(d, n);
    if password != [] && Marked(n) && 1 <= n.size <= 12288 {
      var plain := Crypted(all, password);
      XorZero(password[0]);
      assert plain[0] == Xor(all[0], password[0]);
      WriteRollsBack(d, i, 0, plain[1..]);
      if plain[0] == 0xA5 && CanWrite(d, i, n.size - 1) { DecryptWrites(d, i, plain[1..]); }
    }
  }

  lemma DecryptWrites(d: Disk, i: nat, plain: seq<Byte>)
    requires Books(d) && CanWrite(d, i, |plain|)
    ensures var e := Mark(Write(d, i, 0, plain).0, i, false);
            && Sized(Node(e, i)) && Contents(e, Node(e, i)) == plain && OthersKept(d, e, i)
            && Node(e, i).mode == Node(d, i).mode && Node(e, i).flags == WithMark(Node(d, i), false).flags
  {
    WriteLaw(d, i, 0, plain);
    var f := Write(d, i, 0, plain).0;
    assert Zeros(0) + plain == plain;
    OwnersKept(d, f, i);
    MarkLaw(d, f, i, false);
  }

  /** Encryption succeeds exactly on an unmarked file with a password, room for the check byte and enough blocks;
      a refused one changes nothing. */
  lemma EncryptWhen(d: Disk, i: nat, password: seq<Byte>)
    requires Books(d) && Number(i) && Sized(Node(d, i))
    ensures Encrypt(d, i, password).1 <==>
            var n := Node(d, i);
            password != [] && !IsDir(n) && !Marked(n) && n.size < 12288 && CanWrite(d, i, n.size + 1)
    ensures !Encrypt(d, i, password).1 ==> Encrypt(d, i, password).0 == d
  {
    WriteRollsBack(d, i, 0, Crypted([CHECK_BYTE] + Contents(d, Node(d, i)), password));
  }

  // ----- the commands in place

  /** `read_whole_file`: block by block into the buffer from position `at` on, never outside it. */
  method ReadWhole(fs: FileSystem, ino: nat, buf: array<Byte>, at: nat) returns (total: nat)
    requires fs.Valid() && Number(ino) && Sized(Node(fs.State(), ino)) && buf !in fs.Parts()
    requires at + Node(fs.State(), ino).size <= buf.Length
    modifies buf
    ensures fs.State() == old(fs.State()) && total == Node(fs.State(), ino).size
    ensures buf[..at] == old(buf[..at]) && buf[at..at + total] == Contents(fs.State(), Node(fs.State(), ino))
  {
    ghost var d := fs.State();
    ghost var all := Contents(d, Node(d, ino));
    total := 0;
    while at + total < buf.Length
      invariant fs.State() == d
      invariant total <= |all| && buf[..at + total] == old(buf[..at]) + all[..total]
      decreases |all| - total
    {
      var k := ReadPiece(fs, ino, buf, at, total);
      if k == 0 { break; }
      assert all[..total + k] == all[..total] + all[total..total + k];
      total := total + k;
    }
    assert buf[..at + total][at..] == all;
  }

  /** One read of at most a block, put where the previous ones ended. */
  method ReadPiece(fs: FileSystem, ino: nat, buf: array<Byte>, at: nat, total: nat) returns (k: nat)
    requires fs.Valid() && Number(ino) && Sized(Node(fs.State(), ino)) && buf !in fs.Parts()
    requires at + Node(fs.State(), ino).size <= buf.Length && total <= Node(fs.State(), ino).size
    modifies buf
    ensures fs.State() == old(fs.State())
    ensures var all := Contents(fs.State(), Node(fs.State(), ino));
            && total + k <= |all| && (k == 0 <==> total == |all|)
            && buf[..at + total + k] == old(buf[..at + total]) + all[total..total + k]
  {
    ReadLaw(fs.State(), Node(fs.State(), ino), total, BLOCK_SIZE);
    var r := fs.Read(ino, total, BLOCK_SIZE);
    CopyAt(buf, at + total, r);
    k := |r|;
  }

  method CopyAt(buf: array<Byte>, at: nat, r: seq<Byte>)
    requires at + |r| <= buf.Length
    modifies buf
    ensures buf[..at + |r|] == old(buf[..at]) + r
  {
    for i := 0 to |r|
      invariant forall k :: 0 <= k < buf.Length ==> buf[k] == if at <= k < at + i then r[k - at] else old(buf[k])
    {
      buf[at + i] := r[i];
    }
  }

  /** `shell_cmd_encrypt` on a file that has been looked up. */
  method EncryptFile(fs: FileSystem, ino: nat, password: seq<Byte>, cryptbuf: array<Byte>) returns (ok: bool)
    requires fs.Valid() && Books(fs.State()) && Number(ino) && Sized(Node(fs.State(), ino))
    requires cryptbuf.Length == BUF_MAX && cryptbuf !in fs.Parts()
    modifies fs, fs.blockMap, fs.table, fs.data, cryptbuf
    ensures (fs.State(), ok) == Encrypt(old(fs.State()), ino, password)
  {
    var node := fs.table[ino - 1];
    if |password| == 0 || IsDir(node) || Marked(node) || node.size + 1 > BUF_MAX { return false; }
    ghost var d := fs.State();
    cryptbuf[0] := CHECK_BYTE;
    var total := ReadWhole(fs, ino, cryptbuf, 1);
    assert cryptbuf[..total + 1] == [CHECK_BYTE] + Contents(d, node);
    CryptXor(cryptbuf, total + 1, password);
    assert fs.State() == d;
    ok := Store(fs, ino, cryptbuf[..total + 1], true);
  }

  /** Writes the bytes and, if that succeeds, sets or clears the mark. */
  method Store(fs: FileSystem, ino: nat, out: seq<Byte>, on: bool) returns (ok: bool)
    requires fs.Valid() && Books(fs.State()) && Number(ino)
    modifies fs, fs.blockMap, fs.table, fs.data
    ensures NodeOk(old(fs.State()).used, Node(old(fs.State()), ino))
    ensures var (e, done) := Write(old(fs.State()), ino, 0, out);
            ok == done && fs.State() == if done then Mark(e, ino, on) else e
  {
    assert NodeOk(fs.State().used, fs.State().table[ino - 1]);
    ok := fs.Write(ino, 0, out);
    if ok { fs.table[ino - 1] := WithMark(fs.table[ino - 1], on); }
  }

  /** `shell_cmd_decrypt` on a file that has been looked up. */
  method DecryptFile(fs: FileSystem, ino: nat, password: seq<Byte>, cryptbuf: array<Byte>) returns (ok: bool)
    requires fs.Valid() && Books(fs.State()) && Number(ino) && Sized(Node(fs.State(), ino))
    requires cryptbuf.Length == BUF_MAX && cryptbuf !in fs.Parts()
    modifies fs, fs.blockMap, fs.table, fs.data, cryptbuf
    ensures (fs.State(), ok) == Decrypt(old(fs.State()), ino, password)
  {
    var node := fs.table[ino - 1];
    if |password| == 0 || !Marked(node) || node.size > BUF_MAX { return false; }
    ghost var d := fs.State();
    var total := ReadWhole(fs, ino, cryptbuf, 0);
    assert cryptbuf[..total] == cryptbuf[0..0 + total] == Contents(d, node);
    CryptXor(cryptbuf, total, password);
    ghost var plain := cryptbuf[..total];
    assert fs.State() == d;
    if total < 1 || cryptbuf[0] != CHECK_BYTE { return false; }
    ShiftDown(cryptbuf, total);
    assert cryptbuf[..total - 1] == plain[1..] && fs.State() == d;
    ok := Store(fs, ino, cryptbuf[..total - 1], false);
  }

  /** Moves the bytes after the check byte down by one. */
  method ShiftDown(buf: array<Byte>, total: nat)
    requires 1 <= total <= buf.Length
    modifies buf
    ensures buf[..total - 1] == old(buf[1..total])
  {
    for i := 0 to total - 1
      invariant forall k :: 0 <= k < buf.Length ==> buf[k] == if k < i then old(buf[k + 1]) else old(buf[k])
    {
      buf[i] := buf[i + 1];
    }
  }
}

/** The frame format shared by the kernel's messenger and the hub: two magic bytes, sender,
    target, a little-endian 16-bit length, the payload and an XOR check byte. */
module Wire {

  import opened Bytes

  const MAGIC0: Byte := 0x1D
  const MAGIC1: Byte := 0x05
  const NO_NODE: Byte := 0xFF
  const HDR_LEN := 6
  const MAX_NODES := 8
  const MAX_PAYLOAD := 512
  const MAX_FRAME := HDR_LEN + MAX_PAYLOAD + 1

  datatype Frame = Frame(sender: Byte, target: Byte, payload: seq<Byte>)

  predicate ValidFrame(f: Frame) {
    1 <= |f.payload| <= MAX_PAYLOAD
  }

  function Checksum(s: seq<Byte>): Byte {
    if s == [] then 0 else Xor(Checksum(s[..|s| - 1]), s[|s| - 1])
  }

  function Low(n: nat): Byte { n % 256 }

  function High(n: nat): Byte { n / 256 % 256 }

  function LengthOf(lo: Byte, hi: Byte): (n: nat)
    ensures n < 65536
  {
    lo + 256 * hi
  }

  /** Storing a 16-bit length as two bytes and reading it back are inverse to each other. */
  lemma LengthBytes(n: nat, lo: Byte, hi: Byte)
    requires n < 65536
    ensures LengthOf(Low(n), High(n)) == n
    ensures Low(LengthOf(lo, hi)) == lo && High(LengthOf(lo, hi)) == hi
  {
  }

  function Body(f: Frame): (s: seq<Byte>)
    ensures |s| == HDR_LEN + |f.payload|
  {
    [MAGIC0, MAGIC1, f.sender, f.target, Low(|f.payload|), High(|f.payload|)] + f.payload
  }

  /** The body of a frame whose length bytes are known. */
  lemma BodyIs(f: Frame, lo: Byte, hi: Byte)
    requires |f.payload| == LengthOf(lo, hi)
    ensures Body(f) == [MAGIC0, MAGIC1, f.sender, f.target, lo, hi] + f.payload
  {
    LengthBytes(0, lo, hi);
  }

  function Encode(f: Frame): (s: seq<Byte>)
    ensures |s| == HDR_LEN + |f.payload| + 1
  {
    Body(f) + [Checksum(Body(f))]
  }

  function EncodeAll(fs: seq<Frame>): seq<Byte> {
    if fs == [] then [] else Encode(fs[0]) + EncodeAll(fs[1..])
  }

  lemma {:induction false} EncodeAllAppend(fs: seq<Frame>, gs: seq<Frame>)
    ensures EncodeAll(fs + gs) == EncodeAll(fs) + EncodeAll(gs)
  {
    if fs == [] {
      assert fs + gs == gs;
    } else {
      assert (fs + gs)[0] == fs[0] && (fs + gs)[1..] == fs[1..] + gs;
      EncodeAllAppend(fs[1..], gs);
    }
  }

  lemma EncodeAllTake(fs: seq<Frame>, k: nat)
    requires k < |fs|
    ensures EncodeAll(fs[..k + 1]) == Encode(fs[0]) + EncodeAll(fs[1..][..k])
  {
    assert fs[..k + 1][1..] == fs[1..][..k];
  }

  lemma EncodeAllSnoc(fs: seq<Frame>, f: Frame)
    ensures EncodeAll(fs + [f]) == EncodeAll(fs) + Encode(f)
  {
    EncodeAllAppend(fs, [f]);
    assert [f][1..] == [];
    assert EncodeAll([f]) == Encode(f);
  }

  /** The layout of a frame, byte by byte. */
  lemma EncodeLayout(f: Frame)
    requires 1 <= |f.payload| <= 512
    ensures var e, n := Encode(f), |f.payload|;
            var lo: int, hi: int := e[4], e[5];
            && ValidFrame(f) && |e| == n + 7
            && e[0] == 0x1D && e[1] == 0x05 && e[2] == f.sender && e[3] == f.target
            && lo == n % 256 && lo + 256 * hi == n && e[6..6 + n] == f.payload
            && e[6 + n] == Checksum(e[..6 + n])
  {
    LengthBytes(|f.payload|, 0, 0);
    assert Encode(f)[..6 + |f.payload|] == Body(f);
  }

  /** How many bytes have bit `k` set. */
  function Ones(s: seq<Byte>, k: nat): nat {
    if s == [] then 0 else Ones(s[..|s| - 1], k) + if BitAt(s[|s| - 1], k) then 1 else 0
  }

  lemma {:induction false} ZeroBits(k: nat)
    ensures !BitAt(0, k)
  {
    if k > 0 { ZeroBits(k - 1); }
  }

  /** Each bit of the check byte is the parity of that bit over all bytes. */
  lemma {:induction false} ChecksumParity(s: seq<Byte>, k: nat)
    requires k < 8
    ensures BitAt(Checksum(s), k) <==> Ones(s, k) % 2 == 1
  {
    if s == [] {
      ZeroBits(k);
    } else {
      ChecksumParity(s[..|s| - 1], k);
      XorAt(Checksum(s[..|s| - 1]), s[|s| - 1], k);
    }
  }

  /** A change of one byte changes the check byte. */
  lemma {:induction false} ChecksumDetects(s: seq<Byte>, i: nat, b: Byte)
    requires i < |s| && b != s[i]
    ensures Checksum(s[i := b]) != Checksum(s)
  {
    var pre, l := s[..|s| - 1], s[|s| - 1];
    var t := s[i := b];
    if i == |s| - 1 {
      assert t[..|t| - 1] == pre;
      XorCommutes(Checksum(pre), l);
      XorCommutes(Checksum(pre), b);
      XorCancels(l, Checksum(pre));
      XorCancels(b, Checksum(pre));
    } else {
      assert t[..|t| - 1] == pre[i := b];
      ChecksumDetects(pre, i, b);
      XorCancels(Checksum(pre), l);
      XorCancels(Checksum(pre[i := b]), l);
    }
  }

  /** The accumulating loop that both programs use. */
  method ComputeChecksum(data: array<Byte>, len: nat) returns (c: Byte)
    requires len <= data.Length
    ensures c == Checksum(data[..len])
  {
    c := 0;
    for i := 0 to len
      invariant c == Checksum(data[..i])
    {
      assert data[..i + 1][..i] == data[..i];
      c := Xor(c, data[i]);
    }
  }

  datatype SendError = IdNotSet | BadTarget | BadLength

  datatype SendResult = Packet(bytes: seq<Byte>) | Refused(error: SendError)

  /** Builds the packet in place: header, payload copy, then the check byte over both. */
  method MsgSend(nodeId: Byte, target: Byte, text: array<Byte>, len: int) returns (r: SendResult)
    requires len <= text.Length
    ensures r.Refused? <==> nodeId == NO_NODE || target >= MAX_NODES || len <= 0 || len > MAX_PAYLOAD
    ensures r.Refused? ==> r.error == if nodeId == NO_NODE then IdNotSet
                                      else if target >= MAX_NODES then BadTarget else BadLength
    ensures r.Packet? ==> ValidFrame(Frame(nodeId, target, text[..len]))
                          && r.bytes == Encode(Frame(nodeId, target, text[..len]))
  {
    if nodeId == NO_NODE { return Refused(IdNotSet); }
    if target >= MAX_NODES { return Refused(BadTarget); }
    if len <= 0 || len > MAX_PAYLOAD { return Refused(BadLength); }
    var pkt := new Byte[MAX_FRAME];
    pkt[0], pkt[1], pkt[2], pkt[3] := MAGIC0, MAGIC1, nodeId, target;
    pkt[4], pkt[5] := Low(len), High(len);
    ghost var f := Frame(nodeId, target, text[..len]);
    for i := 0 to len
      invariant forall k :: 0 <= k < HDR_LEN + i ==> pkt[k] == Body(f)[k]
    {
      pkt[HDR_LEN + i] := text[i];
    }
    assert pkt[..HDR_LEN + len] == Body(f);
    pkt[HDR_LEN + len] := ComputeChecksum(pkt, HDR_LEN + len);
    assert pkt[..HDR_LEN + len + 1] == Encode(f);
    r := Packet(pkt[..HDR_LEN + len + 1]);
  }
}

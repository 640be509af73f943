/** What the receiver makes of any byte string: the pieces it is cut into, and the frames that lie in it. */
module RxPieces {
  import opened Bytes
  import opened Wire
  import opened Receiver

  // ----- pieces

  /** A byte that starts nothing, a first magic byte alone, a header with a bad length, a frame with a bad check byte, or
      a frame. */
  datatype Piece =
    | Noise(b: Byte)
    | Lonely(b: Byte)
    | BadHeader(sender: Byte, target: Byte, lo: Byte, hi: Byte)
    | BadCheck(f: Frame, c: Byte)
    | Whole(f: Frame)

  function BytesOf(p: Piece): (s: seq<Byte>)
    ensures s != []
  {
    match p
    case Noise(b) => [b]
    case Lonely(b) => [MAGIC0, b]
    case BadHeader(sender, target, lo, hi) => [MAGIC0, MAGIC1, sender, target, lo, hi]
    case BadCheck(f, c) => Encode(f)[..|Encode(f)| - 1] + [c]
    case Whole(f) => Encode(f)
  }

  predicate PieceOk(p: Piece) {
    match p
    case Noise(b) => b != MAGIC0
    case Lonely(b) => b != MAGIC1
    case BadHeader(_, _, lo, hi) => !(1 <= lo + 256 * hi <= MAX_PAYLOAD)
    case BadCheck(f, c) => ValidFrame(f) && c != Encode(f)[|Encode(f)| - 1]
    case Whole(f) => ValidFrame(f)
  }

  ghost predicate AllOk(ps: seq<Piece>) { forall k :: 0 <= k < |ps| ==> PieceOk(ps[k]) }

  function Flat(ps: seq<Piece>): seq<Byte> {
    if ps == [] then [] else Flat(ps[..|ps| - 1]) + BytesOf(ps[|ps| - 1])
  }

  function Frames(ps: seq<Piece>): seq<Frame> {
    if ps == [] then []
    else Frames(ps[..|ps| - 1]) + if ps[|ps| - 1].Whole? then [ps[|ps| - 1].f] else []
  }

  /** The beginning of a piece that is not complete. */
  ghost predicate Begun(rest: seq<Byte>) {
    exists p :: PieceOk(p) && rest < BytesOf(p)
  }

  // ----- one piece

  /** The state inside a header with a bad length, after its first `k` bytes. */
  function InHeader(s: seq<Byte>, k: nat): Rx
    requires k <= |s|
  {
    if k == 0 || k == 6 then Idle else if k == 1 then Magic else Header(s[..k])
  }

  lemma HeaderStep(p: Piece, k: nat)
    requires p.BadHeader? && PieceOk(p) && k < 6
    ensures var s := BytesOf(p); RxOk(InHeader(s, k)) && RxStep(InHeader(s, k), s[k]) == (InHeader(s, k + 1), [])
  {
    var s := BytesOf(p);
    assert s[..k] + [s[k]] == s[..k + 1];
    if k == 1 { assert s[..2] == [MAGIC0, MAGIC1]; }
  }

  lemma {:induction false} BadHeaderRun(p: Piece, k: nat)
    requires p.BadHeader? && PieceOk(p) && k <= 6
    ensures RxRun(Idle, BytesOf(p)[..k]) == (InHeader(BytesOf(p), k), [])
  {
    if k > 0 {
      BadHeaderRun(p, k - 1);
      HeaderStep(p, k - 1);
      assert BytesOf(p)[..k][..k - 1] == BytesOf(p)[..k - 1];
      RunStep(Idle, BytesOf(p)[..k]);
    }
  }

  lemma LonelyRun(b: Byte)
    requires b != MAGIC1
    ensures RxRun(Idle, [MAGIC0]) == (Magic, []) && RxRun(Idle, [MAGIC0, b]) == (Idle, [])
  {
    assert [MAGIC0][..0] == [] && [MAGIC0, b][..1] == [MAGIC0];
    RunStep(Idle, [MAGIC0]);
    RunStep(Idle, [MAGIC0, b]);
  }

  lemma BadCheckRun(f: Frame, c: Byte)
    requires ValidFrame(f) && c != Encode(f)[|Encode(f)| - 1]
    ensures RxRun(Idle, BytesOf(BadCheck(f, c))) == (Idle, [])
  {
    var k := |Encode(f)| - 1;
    WithinRun(f, k);
    WithinOk(f, k);
    assert Encode(f)[..k] == Body(f);
    RunSnoc(Idle, Body(f), c);
  }

  /** A piece brings the receiver from idle to idle, and only a whole frame is delivered. */
  lemma PieceRun(p: Piece)
    requires PieceOk(p)
    ensures RxRun(Idle, BytesOf(p)) == (Idle, if p.Whole? then [p.f] else [])
  {
    match p
    case Noise(b) =>
      assert [b][..0] == [];
      RunStep(Idle, [b]);
    case Lonely(b) => LonelyRun(b);
    case BadHeader(_, _, _, _) =>
      BadHeaderRun(p, 6);
      assert BytesOf(p)[..6] == BytesOf(p);
    case BadCheck(f, c) => BadCheckRun(f, c);
    case Whole(f) => WholeFrame(f);
  }

  /** The beginning of a piece delivers nothing. */
  lemma BegunRun(p: Piece, rest: seq<Byte>)
    requires PieceOk(p) && rest < BytesOf(p)
    ensures RxRun(Idle, rest).1 == []
  {
    var k := |rest|;
    assert rest == BytesOf(p)[..k];
    match p
    case Noise(b) =>
    case Lonely(b) => LonelyRun(b);
    case BadHeader(_, _, _, _) => BadHeaderRun(p, k);
    case BadCheck(f, c) =>
      assert rest == Encode(f)[..k];
      WithinRun(f, k);
    case Whole(f) => WithinRun(f, k);
  }

  /** However a string is cut into pieces and the beginning of one, the frames delivered are its whole frames. */
  lemma {:induction false} PiecesRun(ps: seq<Piece>)
    requires AllOk(ps)
    ensures RxRun(Idle, Flat(ps)) == (Idle, Frames(ps))
  {
    if ps != [] {
      var p := ps[|ps| - 1];
      PiecesRun(ps[..|ps| - 1]);
      PieceRun(p);
      RxRunAppend(Idle, Flat(ps[..|ps| - 1]), BytesOf(p));
    }
  }

  // ----- every string

  /** What the state says about the bytes since the receiver was idle. */
  predicate Holds(st: RxState, rest: seq<Byte>) {
    match st
    case Idle => rest == []
    case Magic => rest == [MAGIC0]
    case Header(got) => rest == got && got[0] == MAGIC0 && got[1] == MAGIC1
    case Data(got, _) => rest == got && got[0] == MAGIC0 && got[1] == MAGIC1
    case Check(got, _) => rest == got && got[0] == MAGIC0 && got[1] == MAGIC1
  }

  /** The frame whose body has been taken. */
  lemma TakenFrame(got: seq<Byte>, n: nat) returns (f: Frame)
    requires RxOk(Check(got, n)) && got[0] == MAGIC0 && got[1] == MAGIC1
    ensures ValidFrame(f) && Body(f) == got && Encode(f)[..|Encode(f)| - 1] == got
    ensures f == Frame(got[2], got[3], got[HDR_LEN..])
  {
    f := Frame(got[2], got[3], got[HDR_LEN..]);
    BodyIs(f, got[4], got[5]);
  }

  /** The next byte goes on with the piece begun, or completes it. */
  lemma NextByte(st: RxState, rest: seq<Byte>, b: Byte) returns (done: seq<Piece>)
    requires Holds(st, rest)
    ensures |done| <= 1 && AllOk(done)
    ensures done == [] ==> Holds(RxStep(st, b).0, rest + [b])
    ensures done != [] ==> RxStep(st, b).0 == Idle && BytesOf(done[0]) == rest + [b]
  {
    done := [];
    match st
    case Idle => if b != MAGIC0 { done := [Noise(b)]; }
    case Magic => if b != MAGIC1 { done := [Lonely(b)]; }
    case Header(got) =>
      if |got| + 1 == HDR_LEN && !(1 <= LengthOf(got[4], b) <= MAX_PAYLOAD) { done := [BadHeader(got[2], got[3], got[4], b)]; }
    case Data(_, _) =>
    case Check(got, n) =>
      var f := TakenFrame(got, n);
      done := [if b == Encode(f)[|Encode(f)| - 1] then Whole(f) else BadCheck(f, b)];
  }

  lemma FlatSnoc(ps: seq<Piece>, p: Piece)
    ensures Flat(ps + [p]) == Flat(ps) + BytesOf(p)
  {
    assert (ps + [p])[..|ps|] == ps;
  }

  /** The bytes read so far are cut up, and the rest is what the state holds. */
  ghost predicate SoFar(s: seq<Byte>, ps: seq<Piece>, rest: seq<Byte>) {
    AllOk(ps) && s == Flat(ps) + rest && Holds(RxRun(Idle, s).0, rest)
  }

  lemma GoesOn(s: seq<Byte>, b: Byte, ps: seq<Piece>, rest: seq<Byte>)
    requires SoFar(s, ps, rest) && Holds(RxStep(RxRun(Idle, s).0, b).0, rest + [b])
    ensures SoFar(s + [b], ps, rest + [b])
  {
    Reassociate(Flat(ps), rest, [b]);
    RunSnoc(Idle, s, b);
  }

  lemma Completes(s: seq<Byte>, b: Byte, ps: seq<Piece>, rest: seq<Byte>, p: Piece)
    requires SoFar(s, ps, rest) && RxStep(RxRun(Idle, s).0, b).0 == Idle && PieceOk(p) && BytesOf(p) == rest + [b]
    ensures SoFar(s + [b], ps + [p], [])
  {
    Reassociate(Flat(ps), rest, [b]);
    FlatSnoc(ps, p);
    assert Flat(ps + [p]) + [] == Flat(ps + [p]);
    RunSnoc(Idle, s, b);
  }

  /** Every string is cut that way. */
  lemma {:induction false} CutUp(s: seq<Byte>) returns (ps: seq<Piece>, rest: seq<Byte>)
    ensures SoFar(s, ps, rest)
  {
    if s == [] {
      ps, rest := [], [];
    } else {
      var pre, b := s[..|s| - 1], s[|s| - 1];
      ps, rest := CutUp(pre);
      assert s == pre + [b];
      var done := NextByte(RxRun(Idle, pre).0, rest, b);
      if done == [] {
        GoesOn(pre, b, ps, rest);
        rest := rest + [b];
      } else {
        Completes(pre, b, ps, rest, done[0]);
        ps, rest := ps + [done[0]], [];
      }
    }
  }

  /** What the state holds is the beginning of a piece. */
  lemma HeldIsBegun(st: RxState, rest: seq<Byte>)
    requires Holds(st, rest)
    ensures Begun(rest)
  {
    match st
    case Idle => assert PieceOk(Noise(0)) && rest < BytesOf(Noise(0));
    case Magic => assert PieceOk(Lonely(0)) && rest < BytesOf(Lonely(0));
    case Header(got) =>
      var p := BadHeader(if |got| > 2 then got[2] else 0, if |got| > 3 then got[3] else 0, if |got| > 4 then got[4] else 0, 255);
      assert PieceOk(p) && rest < BytesOf(p);
    case Data(got, n) =>
      var full := got + Zeros(HDR_LEN + n - |got|);
      var f := TakenFrame(full, n);
      assert got == full[..|got|] == Encode(f)[..|got|];
      assert PieceOk(Whole(f)) && rest < BytesOf(Whole(f));
    case Check(got, n) =>
      var f := TakenFrame(got, n);
      assert PieceOk(Whole(f)) && rest < BytesOf(Whole(f));
  }

  /** The receiver, characterised: every string is a sequence of pieces and the beginning of one, and however it is so,
      exactly the whole frames among the pieces are delivered. */
  lemma Received(s: seq<Byte>)
    ensures exists ps, rest :: IsCut(s, ps, rest)
    ensures forall ps, rest :: IsCut(s, ps, rest) ==> RxRun(Idle, s).1 == Frames(ps)
  {
    var ps, rest := CutUp(s);
    HeldIsBegun(RxRun(Idle, s).0, rest);
    assert IsCut(s, ps, rest);
    forall ps, rest | IsCut(s, ps, rest) ensures RxRun(Idle, s).1 == Frames(ps) {
      var p :| PieceOk(p) && rest < BytesOf(p);
      PiecesRun(ps);
      BegunRun(p, rest);
      RxRunAppend(Idle, Flat(ps), rest);
    }
  }

  ghost predicate IsCut(s: seq<Byte>, ps: seq<Piece>, rest: seq<Byte>) {
    AllOk(ps) && Begun(rest) && s == Flat(ps) + rest
  }

  // ----- nothing else is delivered

  /** The whole encoding of the frame, right check byte included, lies in the string at place `k`. */
  predicate LiesAt(s: seq<Byte>, f: Frame, k: nat) {
    ValidFrame(f) && k + |Encode(f)| <= |s| && s[k..k + |Encode(f)|] == Encode(f)
  }

  /** The frames lie in the string at these places, one after the other. */
  ghost predicate LieAt(s: seq<Byte>, fs: seq<Frame>, at: seq<nat>) {
    && |at| == |fs|
    && (forall k :: 0 <= k < |fs| ==> LiesAt(s, fs[k], at[k]))
    && (forall j, k :: 0 <= j < k < |fs| ==> at[j] + |Encode(fs[j])| <= at[k])
  }

  lemma LiesLonger(s: seq<Byte>, t: seq<Byte>, f: Frame, k: nat)
    requires LiesAt(s, f, k)
    ensures LiesAt(s + t, f, k)
  {
    assert (s + t)[k..k + |Encode(f)|] == s[k..k + |Encode(f)|];
  }

  lemma LieLonger(s: seq<Byte>, t: seq<Byte>, fs: seq<Frame>, at: seq<nat>)
    requires LieAt(s, fs, at)
    ensures LieAt(s + t, fs, at)
  {
    forall k | 0 <= k < |fs| ensures LiesAt(s + t, fs[k], at[k]) { LiesLonger(s, t, fs[k], at[k]); }
  }

  lemma LieOneMore(s: seq<Byte>, f: Frame, fs: seq<Frame>, at: seq<nat>)
    requires LieAt(s, fs, at) && ValidFrame(f)
    ensures LieAt(s + Encode(f), fs + [f], at + [|s|])
  {
    LieLonger(s, Encode(f), fs, at);
    assert LiesAt(s + Encode(f), f, |s|);
    forall j | 0 <= j < |fs| ensures at[j] + |Encode(fs[j])| <= |s| { assert LiesAt(s, fs[j], at[j]); }
  }

  lemma {:induction false} FramesLie(ps: seq<Piece>) returns (at: seq<nat>)
    requires AllOk(ps)
    ensures LieAt(Flat(ps), Frames(ps), at)
  {
    if ps == [] {
      at := [];
    } else {
      var pre, p := ps[..|ps| - 1], ps[|ps| - 1];
      at := FramesLie(pre);
      if p.Whole? {
        LieOneMore(Flat(pre), p.f, Frames(pre), at);
        at := at + [|Flat(pre)|];
      } else {
        LieLonger(Flat(pre), BytesOf(p), Frames(pre), at);
        assert Frames(ps) == Frames(pre) + [] == Frames(pre);
      }
    }
  }

  /** Of any string whatever the receiver delivers only frames whose whole encodings, right check byte included, lie in
      it, at places that do not overlap and in their order. */
  lemma DeliveredLie(s: seq<Byte>) returns (at: seq<nat>)
    ensures LieAt(s, RxRun(Idle, s).1, at)
  {
    var ps, rest := CutUp(s);
    HeldIsBegun(RxRun(Idle, s).0, rest);
    Received(s);
    assert IsCut(s, ps, rest);
    at := FramesLie(ps);
    LieLonger(Flat(ps), rest, Frames(ps), at);
  }

  /** So a string in which no frame's encoding lies delivers nothing. */
  lemma NothingElse(s: seq<Byte>)
    ensures RxRun(Idle, s).1 == [] || exists f, k :: LiesAt(s, f, k)
  {
    var at := DeliveredLie(s);
    var fs := RxRun(Idle, s).1;
    if fs != [] { assert LiesAt(s, fs[0], at[0]); }
  }

  // ----- a corrupted byte

  /** The frame that a change of its byte `k` makes. */
  function Altered(f: Frame, k: nat, b: Byte): (g: Frame)
    requires k == 2 || k == 3 || HDR_LEN <= k < HDR_LEN + |f.payload|
    ensures |g.payload| == |f.payload|
  {
    if k == 2 then f.(sender := b) else if k == 3 then f.(target := b) else f.(payload := f.payload[k - HDR_LEN := b])
  }

  /** A frame one of whose bytes was changed, the length bytes excepted, is not delivered, whatever the change. */
  lemma CorruptedByte(f: Frame, k: nat, b: Byte)
    requires ValidFrame(f) && 2 <= k < |Encode(f)| && k != 4 && k != 5 && b != Encode(f)[k]
    ensures RxRun(Idle, Encode(f)[k := b]) == (Idle, [])
  {
    var e, n := Encode(f), |Encode(f)| - 1;
    var p := if k == n then BadCheck(f, b) else BadCheck(Altered(f, k, b), e[n]);
    if k < n {
      ChecksumDetects(Body(f), k, b);
      assert Body(f)[k := b] == Body(Altered(f, k, b));
    }
    assert BytesOf(p) == e[k := b];
    PieceRun(p);
  }
}

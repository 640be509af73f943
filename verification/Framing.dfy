/** What the hub's scanner extracts from a byte stream, stated three ways: as a verdict on the
    first byte of the stream, as a recursive parse, and as a declarative description that
    mentions only encoded frames and possible continuations of the stream. */
module Framing {
  import opened Bytes
  import opened Wire

  /** The verdict on the first byte of a stream: not enough bytes to decide, not the start of
      a frame, or the start of the given complete frame. */
  datatype Verdict = Wait | Skip | Take(frame: Frame)

  function Judge(s: seq<Byte>): Verdict {
    if |s| < 2 then Wait
    else if !(s[0] == MAGIC0 && s[1] == MAGIC1) then Skip
    else if |s| < HDR_LEN then Wait
    else
      var n := LengthOf(s[4], s[5]);
      if n == 0 || n > MAX_PAYLOAD then Skip
      else if |s| < HDR_LEN + n + 1 then Wait
      else if Checksum(s[..HDR_LEN + n]) != s[HDR_LEN + n] then Skip
      else Take(Frame(s[2], s[3], s[HDR_LEN..HDR_LEN + n]))
  }

  /** Some continuation of `s` begins with a valid frame. */
  ghost predicate Viable(s: seq<Byte>) {
    exists f: Frame, t: seq<Byte> :: ValidFrame(f) && Encode(f) <= s + t
  }

  lemma TakeIsEncoded(s: seq<Byte>, f: Frame)
    requires Judge(s) == Take(f)
    ensures ValidFrame(f) && Encode(f) <= s
  {
    var n := LengthOf(s[4], s[5]);
    BodyIs(f, s[4], s[5]);
    assert s[..HDR_LEN + n] == s[..HDR_LEN] + f.payload;
    assert s[..HDR_LEN] == [MAGIC0, MAGIC1, f.sender, f.target, s[4], s[5]];
    assert Encode(f) == s[..HDR_LEN + n + 1];
  }

  lemma EncodedIsTaken(f: Frame, t: seq<Byte>)
    requires ValidFrame(f)
    ensures Judge(Encode(f) + t) == Take(f)
  {
    var s, n := Encode(f) + t, |f.payload|;
    LengthBytes(n, 0, 0);
    assert s[0] == MAGIC0 && s[1] == MAGIC1 && s[2] == f.sender && s[3] == f.target;
    assert s[4] == Low(n) && s[5] == High(n);
    assert s[..HDR_LEN + n] == Body(f);
    assert s[HDR_LEN..HDR_LEN + n] == f.payload;
  }

  /** `Take` means precisely that the stream begins with the encoding of that frame. */
  lemma TakeIsPrefix(s: seq<Byte>, f: Frame)
    ensures Judge(s) == Take(f) <==> ValidFrame(f) && Encode(f) <= s
  {
    if Judge(s) == Take(f) { TakeIsEncoded(s, f); }
    if ValidFrame(f) && Encode(f) <= s {
      EncodedIsTaken(f, s[|Encode(f)|..]);
      assert Encode(f) + s[|Encode(f)|..] == s;
    }
  }

  /** A decided verdict never changes when more bytes arrive. */
  lemma VerdictStable(s: seq<Byte>, t: seq<Byte>)
    requires !Judge(s).Wait?
    ensures Judge(s + t) == Judge(s)
  {
    assert forall i :: 0 <= i < |s| ==> (s + t)[i] == s[i];
    if |s| >= HDR_LEN {
      var n := LengthOf(s[4], s[5]);
      if |s| >= HDR_LEN + n + 1 {
        assert (s + t)[..HDR_LEN + n] == s[..HDR_LEN + n];
        assert (s + t)[HDR_LEN..HDR_LEN + n] == s[HDR_LEN..HDR_LEN + n];
      }
    }
  }

  /** `Skip` means precisely that no continuation whatsoever can make a frame start here. */
  lemma SkipIsHopeless(s: seq<Byte>)
    requires |s| >= 2
    ensures Judge(s).Skip? <==> !Viable(s)
  {
    if Judge(s).Skip? && Viable(s) {
      var f: Frame, t: seq<Byte> :| ValidFrame(f) && Encode(f) <= s + t;
      VerdictStable(s, t);
      TakeIsPrefix(s + t, f);
    }
    if Judge(s).Take? {
      TakeIsPrefix(s, Judge(s).frame);
      assert s + [] == s;
    }
    if Judge(s).Wait? {
      var f, t := Completion(s);
    }
  }

  /** An undecided header can be completed to one that announces a payload. */
  lemma HeaderCompletion(s: seq<Byte>) returns (head: seq<Byte>)
    requires 2 <= |s| < HDR_LEN && Judge(s).Wait?
    ensures |head| == HDR_LEN && Judge(head).Wait? && s <= head
  {
    var h := s + Zeros(HDR_LEN - |s|);
    head := if |s| <= 4 then h[..4] + [1, 0] else h[..5] + [if h[4] == 0 then 1 else 0];
    assert head[0] == s[0] && head[1] == s[1];
  }

  /** A header that announces a payload, and part of the payload, can be completed to a frame. */
  lemma PayloadCompletion(s: seq<Byte>) returns (f: Frame, t: seq<Byte>)
    requires |s| >= HDR_LEN && Judge(s).Wait?
    ensures ValidFrame(f) && Encode(f) == s + t && t != []
  {
    var n := LengthOf(s[4], s[5]);
    var more := Zeros(HDR_LEN + n - |s|);
    f := Frame(s[2], s[3], s[HDR_LEN..] + more);
    BodyIs(f, s[4], s[5]);
    assert s[..HDR_LEN] == [MAGIC0, MAGIC1, s[2], s[3], s[4], s[5]];
    assert Body(f) == s + more by { assert s == s[..HDR_LEN] + s[HDR_LEN..]; }
    t := more + [Checksum(Body(f))];
  }

  /** An undecided stream of two bytes or more is a proper prefix of some frame's encoding. */
  lemma Completion(s: seq<Byte>) returns (f: Frame, t: seq<Byte>)
    requires |s| >= 2 && Judge(s).Wait?
    ensures ValidFrame(f) && Encode(f) == s + t && t != []
  {
    var head := s;
    if |s| < HDR_LEN { head := HeaderCompletion(s); }
    f, t := PayloadCompletion(head);
    t := head[|s|..] + t;
    assert s + head[|s|..] == head;
    assert s + t == head + t[|head| - |s|..];
  }

  datatype Segment = Junk(b: Byte) | Good(frame: Frame)

  datatype Parsed = Parsed(segs: seq<Segment>, rest: seq<Byte>)

  function SegBytes(g: Segment): seq<Byte> {
    match g
    case Junk(b) => [b]
    case Good(f) => Encode(f)
  }

  function Flat(segs: seq<Segment>): seq<Byte> {
    if segs == [] then [] else SegBytes(segs[0]) + Flat(segs[1..])
  }

  function FrameOf(g: Segment): seq<Frame> {
    if g.Good? then [g.frame] else []
  }

  /** The frames of a parse, in stream order. */
  function Frames(segs: seq<Segment>): seq<Frame> {
    if segs == [] then [] else FrameOf(segs[0]) + Frames(segs[1..])
  }

  /** Leftmost-greedy parse: take a frame where one starts, otherwise drop one byte. */
  function Parse(s: seq<Byte>): Parsed
    decreases |s|
  {
    match Judge(s)
    case Wait => Parsed([], s)
    case Skip =>
      var p := Parse(s[1..]);
      Parsed([Junk(s[0])] + p.segs, p.rest)
    case Take(f) =>
      var p := (TakeIsPrefix(s, f); Parse(s[|Encode(f)|..]));
      Parsed([Good(f)] + p.segs, p.rest)
  }

  /** The declarative description.  The segments and the rest spell the stream; a dropped byte
      is one where no frame can start however the stream goes on; the rest holds no complete
      frame and is either shorter than two bytes or the beginning of a possible frame. */
  ghost predicate IsParse(s: seq<Byte>, p: Parsed) {
    && s == Flat(p.segs) + p.rest
    && (forall i :: 0 <= i < |p.segs| ==> SegmentJustified(p, i))
    && (|p.rest| < 2 || Viable(p.rest))
    && (forall f: Frame :: ValidFrame(f) ==> !(Encode(f) <= p.rest))
    && (p.rest == [] && p.segs != [] ==> p.segs[|p.segs| - 1].Good?)
  }

  ghost predicate SegmentJustified(p: Parsed, i: nat)
    requires i < |p.segs|
  {
    match p.segs[i]
    case Junk(b) => !Viable(Flat(p.segs[i..]) + p.rest)
    case Good(f) => ValidFrame(f)
  }

  /** Dropping the first segment of a justified parse leaves a justified parse. */
  lemma JustifiedTail(p: Parsed, i: nat)
    requires p.segs != [] && i < |p.segs| - 1
    ensures SegmentJustified(Parsed(p.segs[1..], p.rest), i) == SegmentJustified(p, i + 1)
  {
    assert p.segs[1..][i..] == p.segs[i + 1..];
  }

  lemma {:induction false} ParseIsParse(s: seq<Byte>)
    ensures IsParse(s, Parse(s))
    decreases |s|
  {
    var p := Parse(s);
    match Judge(s)
    case Wait =>
      if |s| >= 2 { SkipIsHopeless(s); }
      forall f: Frame | ValidFrame(f) ensures !(Encode(f) <= s) { TakeIsPrefix(s, f); }
    case Skip =>
      var q := Parse(s[1..]);
      ParseIsParse(s[1..]);
      SkipIsHopeless(s);
      ParseCons(s, Junk(s[0]), q);
    case Take(f) =>
      TakeIsPrefix(s, f);
      var q := Parse(s[|Encode(f)|..]);
      ParseIsParse(s[|Encode(f)|..]);
      ParseCons(s, Good(f), q);
  }

  /** Putting one more justified segment in front of a parse. */
  lemma ParseCons(s: seq<Byte>, g: Segment, q: Parsed)
    requires SegBytes(g) <= s && IsParse(s[|SegBytes(g)|..], q)
    requires g.Good? ==> ValidFrame(g.frame)
    requires g.Junk? ==> |s| >= 2 && !Viable(s)
    ensures IsParse(s, Parsed([g] + q.segs, q.rest))
  {
    var p := Parsed([g] + q.segs, q.rest);
    FlatCons(s, g, q);
    forall i | 0 <= i < |p.segs| ensures SegmentJustified(p, i) {
      if i > 0 {
        JustifiedTail(p, i - 1);
        assert SegmentJustified(q, i - 1);
      } else {
        assert p.segs[0..] == p.segs;
      }
    }
  }

  lemma FlatCons(s: seq<Byte>, g: Segment, q: Parsed)
    requires SegBytes(g) <= s && s[|SegBytes(g)|..] == Flat(q.segs) + q.rest
    ensures s == Flat([g] + q.segs) + q.rest && ([g] + q.segs)[1..] == q.segs
    ensures q.segs == [] ==> Flat(q.segs) == []
  {
    assert ([g] + q.segs)[1..] == q.segs;
    Associative(SegBytes(g), Flat(q.segs), q.rest);
  }

  lemma FlatUncons(s: seq<Byte>, p: Parsed)
    requires p.segs != [] && s == Flat(p.segs) + p.rest
    ensures SegBytes(p.segs[0]) <= s
    ensures s[|SegBytes(p.segs[0])|..] == Flat(p.segs[1..]) + p.rest
    ensures p.segs == [p.segs[0]] + p.segs[1..]
  {
    Associative(SegBytes(p.segs[0]), Flat(p.segs[1..]), p.rest);
  }

  /** Taking the first segment off a parse. */
  lemma ParseUncons(s: seq<Byte>, p: Parsed)
    requires IsParse(s, p) && p.segs != []
    ensures SegBytes(p.segs[0]) <= s
    ensures IsParse(s[|SegBytes(p.segs[0])|..], Parsed(p.segs[1..], p.rest))
    ensures p.segs[0].Good? ==> ValidFrame(p.segs[0].frame)
    ensures p.segs[0].Junk? ==> |s| >= 2 && !Viable(s)
  {
    var q := Parsed(p.segs[1..], p.rest);
    FlatUncons(s, p);
    forall i | 0 <= i < |q.segs| ensures SegmentJustified(q, i) {
      JustifiedTail(p, i);
      assert SegmentJustified(p, i + 1);
    }
    assert SegmentJustified(p, 0);
    assert p.segs[0..] == p.segs;
    if p.segs[0].Junk? && |s| < 2 { FlatEmpty(q.segs); }
  }

  /** The declarative description has only one solution, the recursive parse. */
  lemma {:induction false} ParseUnique(s: seq<Byte>, p: Parsed)
    requires IsParse(s, p)
    ensures p == Parse(s)
    decreases |s|
  {
    if p.segs == [] {
      assert s == p.rest;
      UndecidedRest(s);
    } else {
      var g := p.segs[0];
      ParseUncons(s, p);
      ParseUnique(s[|SegBytes(g)|..], Parsed(p.segs[1..], p.rest));
      ParsedCons(p);
      ParseFirst(s, g);
    }
  }

  lemma ParsedCons(p: Parsed)
    requires p.segs != []
    ensures p == Parsed([p.segs[0]] + p.segs[1..], p.rest)
  {
    assert p.segs == [p.segs[0]] + p.segs[1..];
  }

  lemma UndecidedRest(s: seq<Byte>)
    requires (|s| < 2 || Viable(s)) && forall f: Frame :: ValidFrame(f) ==> !(Encode(f) <= s)
    ensures Judge(s).Wait?
  {
    if |s| >= 2 { SkipIsHopeless(s); }
    if Judge(s).Take? { TakeIsPrefix(s, Judge(s).frame); }
  }

  lemma ParseFirst(s: seq<Byte>, g: Segment)
    requires SegBytes(g) <= s && if g.Good? then ValidFrame(g.frame) else |s| >= 2 && !Viable(s)
    ensures var p := Parse(s[|SegBytes(g)|..]); Parse(s) == Parsed([g] + p.segs, p.rest)
  {
    if g.Good? { TakeIsPrefix(s, g.frame); } else { SkipIsHopeless(s); }
  }

  lemma FlatEmpty(segs: seq<Segment>)
    requires Flat(segs) == []
    ensures segs == []
  {
  }

  /** The hub's scanner computes the one parse the description allows. */
  lemma ParseCharacterised(s: seq<Byte>, p: Parsed)
    ensures IsParse(s, p) <==> p == Parse(s)
  {
    ParseIsParse(s);
    if IsParse(s, p) { ParseUnique(s, p); }
  }

  /** Independence of chunking: parsing a first chunk, then its rest together with a second
      chunk, finds the same frames and leaves the same rest as parsing both at once. */
  lemma {:induction false} ChunkIndependence(s: seq<Byte>, t: seq<Byte>)
    ensures Parse(s + t) == Parsed(Parse(s).segs + Parse(Parse(s).rest + t).segs, Parse(Parse(s).rest + t).rest)
    decreases |s|
  {
    match Judge(s)
    case Wait =>
    case Skip =>
      VerdictStable(s, t);
      assert (s + t)[1..] == s[1..] + t;
      ChunkIndependence(s[1..], t);
      Associative([Junk(s[0])], Parse(s[1..]).segs, Parse(Parse(s).rest + t).segs);
    case Take(f) =>
      VerdictStable(s, t);
      TakeIsPrefix(s, f);
      var n := |Encode(f)|;
      assert (s + t)[n..] == s[n..] + t;
      ChunkIndependence(s[n..], t);
      Associative([Good(f)], Parse(s[n..]).segs, Parse(Parse(s).rest + t).segs);
  }

  lemma Associative<T>(a: seq<T>, b: seq<T>, c: seq<T>)
    ensures a + b + c == a + (b + c)
  {
  }

  lemma {:induction false} FramesAppend(a: seq<Segment>, b: seq<Segment>)
    ensures Frames(a + b) == Frames(a) + Frames(b)
  {
    if a == [] {
      assert a + b == b;
    } else {
      assert (a + b)[0] == a[0] && (a + b)[1..] == a[1..] + b;
      FramesAppend(a[1..], b);
      Associative(FrameOf(a[0]), Frames(a[1..]), Frames(b));
    }
  }

  lemma ParseGrows(s: seq<Byte>, t: seq<Byte>)
    ensures Parse(s + t).rest == Parse(Parse(s).rest + t).rest
    ensures Frames(Parse(s + t).segs) == Frames(Parse(s).segs) + Frames(Parse(Parse(s).rest + t).segs)
  {
    ChunkIndependence(s, t);
    FramesAppend(Parse(s).segs, Parse(Parse(s).rest + t).segs);
  }

  /** What is left over is always shorter than the longest frame. */
  lemma {:induction false} RestBound(s: seq<Byte>)
    ensures |Parse(s).rest| < MAX_FRAME
    ensures Parse(Parse(s).rest) == Parsed([], Parse(s).rest)
    decreases |s|
  {
    match Judge(s)
    case Wait =>
    case Skip => RestBound(s[1..]);
    case Take(f) => TakeIsPrefix(s, f); RestBound(s[|Encode(f)|..]);
  }

  function Goods(fs: seq<Frame>): seq<Segment> {
    seq(|fs|, i requires 0 <= i < |fs| => Good(fs[i]))
  }

  lemma {:induction false} FramesOfGoods(fs: seq<Frame>)
    ensures Frames(Goods(fs)) == fs
  {
    if fs != [] {
      assert Goods(fs)[1..] == Goods(fs[1..]);
      FramesOfGoods(fs[1..]);
    }
  }

  lemma ParseAfterTake(f: Frame, rest: seq<Byte>)
    requires ValidFrame(f)
    ensures Parse(Encode(f) + rest) == Parsed([Good(f)] + Parse(rest).segs, Parse(rest).rest)
  {
    EncodedIsTaken(f, rest);
    assert (Encode(f) + rest)[|Encode(f)|..] == rest;
  }

  /** On a stream of encoded frames cut anywhere, the parse finds exactly the complete ones. */
  lemma ParseOfFrames(fs: seq<Frame>, cut: seq<Byte>)
    requires forall i :: 0 <= i < |fs| ==> ValidFrame(fs[i])
    requires cut == [] || exists g: Frame :: ValidFrame(g) && cut < Encode(g)
    ensures Parse(EncodeAll(fs) + cut) == Parsed(Goods(fs), cut)
  {
    assert Judge(cut).Wait? by {
      if cut != [] {
        var g: Frame :| ValidFrame(g) && cut < Encode(g);
        ProperPrefixWaits(g, cut);
      }
    }
    ParseBefore(fs, cut);
  }

  lemma {:induction false} ParseBefore(fs: seq<Frame>, cut: seq<Byte>)
    requires (forall i :: 0 <= i < |fs| ==> ValidFrame(fs[i])) && Judge(cut).Wait?
    ensures Parse(EncodeAll(fs) + cut) == Parsed(Goods(fs), cut)
    decreases |fs|
  {
    if fs == [] {
      assert EncodeAll(fs) + cut == cut;
    } else {
      var rest := EncodeAll(fs[1..]) + cut;
      assert EncodeAll(fs) + cut == Encode(fs[0]) + rest;
      ParseAfterTake(fs[0], rest);
      ParseBefore(fs[1..], cut);
      assert Goods(fs) == [Good(fs[0])] + Goods(fs[1..]);
    }
  }

  /** The scanner never decides on a proper prefix of a frame. */
  lemma ProperPrefixWaits(g: Frame, cut: seq<Byte>)
    requires ValidFrame(g) && cut < Encode(g)
    ensures Judge(cut).Wait?
  {
    var t := Encode(g)[|cut|..];
    assert cut + t == Encode(g);
    TakeIsPrefix(cut + t, g);
    if !Judge(cut).Wait? {
      VerdictStable(cut, t);
      TakeIsPrefix(cut, g);
    }
  }
}

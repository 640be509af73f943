/** The kernel's byte-at-a-time receiver state machine. */
module Receiver {
  import opened Bytes
  import opened Wire

  /** Receiver states; `got` is the part of the receive buffer filled so far. */
  datatype Rx =
    | Idle
    | Magic
    | Header(got: seq<Byte>)
    | Data(got: seq<Byte>, need: nat)
    | Check(got: seq<Byte>, need: nat)

  predicate RxOk(st: Rx) {
    match st
    case Idle => true
    case Magic => true
    case Header(got) => 2 <= |got| < HDR_LEN
    case Data(got, need) => 1 <= need <= MAX_PAYLOAD && HDR_LEN <= |got| < HDR_LEN + need && need == LengthOf(got[4], got[5])
    case Check(got, need) => 1 <= need <= MAX_PAYLOAD && |got| == HDR_LEN + need && need == LengthOf(got[4], got[5])
  }

  type RxState = st: Rx | RxOk(st) witness Idle

  /** One received byte: the next state and the frame it completes, if its checksum holds. */
  function RxStep(st: RxState, b: Byte): (r: (RxState, seq<Frame>)) {
    match st
    case Idle => (if b == MAGIC0 then Magic else Idle, [])
    case Magic => (if b == MAGIC1 then Header([MAGIC0, MAGIC1]) else Idle, [])
    case Header(got) =>
      var got' := got + [b];
      if |got'| < HDR_LEN then (Header(got'), [])
      else
        var need := LengthOf(got'[4], got'[5]);
        (if need > MAX_PAYLOAD || need == 0 then Idle else Data(got', need), [])
    case Data(got, need) =>
      var got' := got + [b];
      (if |got'| < HDR_LEN + need then Data(got', need) else Check(got', need), [])
    case Check(got, need) =>
      (Idle, if Checksum(got) == b then [Frame(got[2], got[3], got[HDR_LEN..])] else [])
  }

  /** The state after a byte string and the frames it completes. */
  function RxRun(st: RxState, s: seq<Byte>): (r: (RxState, seq<Frame>)) {
    if s == [] then (st, [])
    else
      var (mid, fs) := RxRun(st, s[..|s| - 1]);
      var (end, gs) := RxStep(mid, s[|s| - 1]);
      (end, fs + gs)
  }

  lemma SplitLast(s: seq<Byte>, t: seq<Byte>)
    requires t != []
    ensures t == t[..|t| - 1] + [t[|t| - 1]] && s + t == s + t[..|t| - 1] + [t[|t| - 1]]
  {
  }

  /** One more byte is one more step. */
  lemma RunSnoc(st: RxState, s: seq<Byte>, b: Byte)
    ensures RxRun(st, s + [b]).0 == RxStep(RxRun(st, s).0, b).0
    ensures RxRun(st, s + [b]).1 == RxRun(st, s).1 + RxStep(RxRun(st, s).0, b).1
  {
    assert (s + [b])[..|s|] == s;
  }

  lemma RunStep(st: RxState, s: seq<Byte>)
    requires s != []
    ensures var (mid, fs) := RxRun(st, s[..|s| - 1]);
            && RxRun(st, s).0 == RxStep(mid, s[|s| - 1]).0
            && RxRun(st, s).1 == fs + RxStep(mid, s[|s| - 1]).1
            && (fs == [] ==> RxRun(st, s).1 == RxStep(mid, s[|s| - 1]).1)
  {
  }

  ghost predicate Composes(st: RxState, s: seq<Byte>, t: seq<Byte>) {
    && RxRun(st, s + t).0 == RxRun(RxRun(st, s).0, t).0
    && RxRun(st, s + t).1 == RxRun(st, s).1 + RxRun(RxRun(st, s).0, t).1
  }

  lemma AppendOne(st: RxState, s: seq<Byte>, t: seq<Byte>, b: Byte)
    requires Composes(st, s, t)
    ensures Composes(st, s, t + [b])
  {
    Reassociate(s, t, [b]);
    RunSnoc(st, s + t, b);
    RunSnoc(RxRun(st, s).0, t, b);
    var m := RxRun(st, s).0;
    Reassociate(RxRun(st, s).1, RxRun(m, t).1, RxStep(RxRun(m, t).0, b).1);
  }

  lemma Reassociate<T>(a: seq<T>, b: seq<T>, c: seq<T>)
    ensures a + (b + c) == a + b + c
  {
  }

  lemma {:induction false} RxRunAppend(st: RxState, s: seq<Byte>, t: seq<Byte>)
    ensures Composes(st, s, t)
  {
    if t == [] {
      assert s + t == s;
    } else {
      var t', b := t[..|t| - 1], t[|t| - 1];
      SplitLast(s, t);
      RxRunAppend(st, s, t');
      AppendOne(st, s, t', b);
    }
  }

  /** The state reached inside the encoding of `f`, after its first `k` bytes. */
  function Within(f: Frame, k: nat): (st: Rx)
    requires ValidFrame(f) && k < |Encode(f)|
  {
    var e, n := Encode(f)[..k], |f.payload|;
    if k == 0 then Idle
    else if k == 1 then Magic
    else if k < HDR_LEN then Header(e)
    else if k < HDR_LEN + n then Data(e, n)
    else Check(e, n)
  }

  lemma WithinOk(f: Frame, k: nat)
    requires ValidFrame(f) && k < |Encode(f)|
    ensures RxOk(Within(f, k))
  {
    LengthBytes(|f.payload|, 0, 0);
  }

  /** Inside a frame every byte moves one position on and completes nothing. */
  lemma WithinStep(f: Frame, k: nat)
    requires ValidFrame(f) && k + 1 < |Encode(f)| && RxOk(Within(f, k))
    ensures RxStep(Within(f, k), Encode(f)[k]) == (Within(f, k + 1), [])
  {
    LengthBytes(|f.payload|, 0, 0);
    var e := Encode(f);
    assert e[..k] + [e[k]] == e[..k + 1];
    if k == 1 { assert e[..2] == [MAGIC0, MAGIC1]; }
  }

  lemma {:induction false} WithinRun(f: Frame, k: nat)
    requires ValidFrame(f) && k < |Encode(f)|
    ensures RxRun(Idle, Encode(f)[..k]) == (Within(f, k), [])
  {
    if k > 0 {
      WithinRun(f, k - 1);
      assert Encode(f)[..k][..k - 1] == Encode(f)[..k - 1];
      WithinOk(f, k - 1);
      WithinStep(f, k - 1);
      RunStep(Idle, Encode(f)[..k]);
    }
  }

  /** A whole frame is recognised and the receiver is idle again. */
  lemma WholeFrame(f: Frame)
    requires ValidFrame(f)
    ensures RxRun(Idle, Encode(f)) == (Idle, [f])
  {
    var e := Encode(f);
    var k := |e| - 1;
    WithinRun(f, k);
    WithinOk(f, k);
    assert e[..k] == Body(f);
    RunStep(Idle, e);
    assert Body(f)[HDR_LEN..] == f.payload;
  }

  /** How many bytes of a frame have been taken so far. */
  function Taken(st: RxState): nat {
    match st
    case Idle => 0
    case Magic => 1
    case Header(got) => |got|
    case Data(got, _) => |got|
    case Check(got, _) => |got|
  }

  /** Every byte is added to what is taken, or else the count starts again later than where the input does. */
  lemma {:induction false} TakenGrows(st: RxState, s: seq<Byte>)
    ensures var n := Taken(RxRun(st, s).0); n == Taken(st) + |s| || n < |s|
  {
    if s != [] {
      TakenGrows(st, s[..|s| - 1]);
      RunStep(st, s);
    }
  }

  /** The receiver has this very frame, up to its check byte. */
  predicate Recognises(st: RxState, f: Frame) { st == Check(Body(f), |f.payload|) }

  /** Whatever bytes come first: the receiver recognises the frame behind them if and only if it is idle when they end;
      then it delivers it. */
  lemma RecognisedBehind(junk: seq<Byte>, f: Frame)
    requires ValidFrame(f)
    ensures Recognises(RxRun(Idle, junk + Body(f)).0, f) <==> RxRun(Idle, junk).0 == Idle
    ensures RxRun(Idle, junk).0 == Idle ==> RxRun(Idle, junk + Encode(f)) == (Idle, RxRun(Idle, junk).1 + [f])
  {
    var st := RxRun(Idle, junk).0;
    RxRunAppend(Idle, junk, Body(f));
    RxRunAppend(Idle, junk, Encode(f));
    if st == Idle {
      WithinRun(f, |Encode(f)| - 1);
      WithinOk(f, |Encode(f)| - 1);
      assert Encode(f)[..|Encode(f)| - 1] == Body(f);
      WholeFrame(f);
    } else {
      TakenGrows(st, Body(f));
    }
  }

  /** On a stream of frames cut anywhere the receiver recognises exactly the complete ones, and
      at every frame boundary it is idle. */
  lemma {:induction false} RxOfFrames(fs: seq<Frame>, cut: seq<Byte>)
    requires forall i :: 0 <= i < |fs| ==> ValidFrame(fs[i])
    requires cut == [] || exists g: Frame :: ValidFrame(g) && cut < Encode(g)
    ensures RxRun(Idle, EncodeAll(fs) + cut).1 == fs
    ensures cut == [] ==> RxRun(Idle, EncodeAll(fs) + cut).0 == Idle
  {
    if fs == [] {
      assert EncodeAll(fs) + cut == cut;
      if cut != [] {
        var g: Frame :| ValidFrame(g) && cut < Encode(g);
        assert cut == Encode(g)[..|cut|];
        WithinRun(g, |cut|);
      }
    } else {
      var rest := EncodeAll(fs[1..]) + cut;
      assert EncodeAll(fs) + cut == Encode(fs[0]) + rest;
      RxRunAppend(Idle, Encode(fs[0]), rest);
      WholeFrame(fs[0]);
      RxOfFrames(fs[1..], cut);
    }
  }

  /** The frames addressed to node `id`, as (sender, payload) pairs. */
  function Addressed(id: Byte, fs: seq<Frame>): seq<(Byte, seq<Byte>)> {
    if fs == [] then []
    else
      Addressed(id, fs[..|fs| - 1])
      + (if fs[|fs| - 1].target == id then [(fs[|fs| - 1].sender, fs[|fs| - 1].payload)] else [])
  }

  lemma {:induction false} AddressedAppend(id: Byte, fs: seq<Frame>, gs: seq<Frame>)
    ensures Addressed(id, fs + gs) == Addressed(id, fs) + Addressed(id, gs)
  {
    if gs == [] {
      assert fs + gs == fs;
    } else {
      assert (fs + gs)[..|fs + gs| - 1] == fs + gs[..|gs| - 1];
      AddressedAppend(id, fs, gs[..|gs| - 1]);
    }
  }

  datatype Phase = RX_IDLE | RX_MAGIC1 | RX_HDR | RX_DATA | RX_CHK

  /** The receiver with its static variables. */
  class MsgReceiver {
    var nodeId: Byte
    var phase: Phase
    var buf: array<Byte>
    var pos: int
    var need: int

    ghost predicate Valid()
      reads this, buf
    {
      && buf.Length == MAX_FRAME
      && match phase
         case RX_IDLE => true
         case RX_MAGIC1 => pos == 1 && buf[0] == MAGIC0
         case RX_HDR => 2 <= pos < HDR_LEN && buf[0] == MAGIC0 && buf[1] == MAGIC1
         case RX_DATA => 1 <= need <= MAX_PAYLOAD && HDR_LEN <= pos < HDR_LEN + need && need == LengthOf(buf[4], buf[5])
         case RX_CHK => 1 <= need <= MAX_PAYLOAD && pos == HDR_LEN + need && need == LengthOf(buf[4], buf[5])
    }

    ghost function State(): (st: RxState)
      requires Valid()
      reads this, buf
    {
      match phase
      case RX_IDLE => Idle
      case RX_MAGIC1 => Magic
      case RX_HDR => Header(buf[..pos])
      case RX_DATA => Data(buf[..pos], need)
      case RX_CHK => Check(buf[..pos], need)
    }

    constructor ()
      ensures Valid() && fresh(buf) && State() == Idle && nodeId == NO_NODE
    {
      nodeId := NO_NODE;
      phase := RX_IDLE;
      buf := new Byte[MAX_FRAME];
      pos := 0;
      need := 0;
    }

    /** One iteration of the polling loop.  Every write to `buf` is in bounds, including the
        terminator written behind a delivered payload. */
    method Receive(b: Byte) returns (delivered: seq<(Byte, seq<Byte>)>)
      requires Valid()
      modifies this`phase, this`pos, this`need, buf
      ensures Valid() && State() == RxStep(old(State()), b).0
      ensures delivered == Addressed(nodeId, RxStep(old(State()), b).1)
    {
      delivered := [];
      match phase {
        case RX_IDLE =>
          if b == MAGIC0 {
            buf[0] := b;
            pos := 1;
            phase := RX_MAGIC1;
          }
        case RX_MAGIC1 =>
          if b == MAGIC1 {
            buf[1] := b;
            pos := 2;
            phase := RX_HDR;
            assert buf[..pos] == [MAGIC0, MAGIC1];
          } else {
            phase := RX_IDLE;
          }
        case RX_HDR =>
          ghost var got := buf[..pos];
          buf[pos] := b;
          pos := pos + 1;
          assert buf[..pos] == got + [b];
          if pos >= HDR_LEN {
            need := LengthOf(buf[4], buf[5]);
            phase := if need > MAX_PAYLOAD || need == 0 then RX_IDLE else RX_DATA;
          }
        case RX_DATA =>
          ghost var got := buf[..pos];
          buf[pos] := b;
          pos := pos + 1;
          assert buf[..pos] == got + [b];
          if pos >= HDR_LEN + need {
            phase := RX_CHK;
          }
        case RX_CHK =>
          ghost var got := buf[..pos];
          var bodyLen := HDR_LEN + need;
          var c := ComputeChecksum(buf, bodyLen);
          if c == b {
            if buf[3] == nodeId {
              var len := LengthOf(buf[4], buf[5]);
              buf[HDR_LEN + len] := 0;
              delivered := [(buf[2], buf[HDR_LEN..HDR_LEN + len])];
              assert buf[HDR_LEN..HDR_LEN + len] == got[HDR_LEN..];
            }
          }
          phase := RX_IDLE;
      }
    }

    /** Drains the bytes that are waiting on the serial port. */
    method Poll(input: seq<Byte>) returns (delivered: seq<(Byte, seq<Byte>)>)
      requires Valid()
      modifies this`phase, this`pos, this`need, buf
      ensures Valid() && State() == RxRun(old(State()), input).0
      ensures delivered == Addressed(nodeId, RxRun(old(State()), input).1)
    {
      delivered := [];
      for i := 0 to |input|
        invariant Valid() && State() == RxRun(old(State()), input[..i]).0
        invariant delivered == Addressed(nodeId, RxRun(old(State()), input[..i]).1)
      {
        assert input[..i + 1][..i] == input[..i];
        ghost var mid, fs := State(), RxRun(old(State()), input[..i]).1;
        var more := Receive(input[i]);
        AddressedAppend(nodeId, fs, RxStep(mid, input[i]).1);
        delivered := delivered + more;
      }
      assert input[..|input|] == input;
    }
  }
}

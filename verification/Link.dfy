/** Runs of the whole link: connections come and go, chunks arrive in any sizes and any
    interleaving, sends fail at any point, and the nodes read what the hub sent them. */
module Link {
  import opened Bytes
  import opened Wire
  import opened Framing
  import opened HubModel
  import opened Receiver

  /** The hub together with every byte it ever received, by connection. */
  datatype World = World(hub: Hub, got: map<int, seq<Byte>>)

  datatype Event = Connect(fd: int) | Turn(slot: nat, r: Recv)

  function Start(): World { World(Hub(EmptyTable(), []), map[]) }

  predicate Enabled(w: World, e: Event) {
    match e
    case Connect(fd) => fd >= 0 && fd !in w.got
    case Turn(slot, r) => slot < MAX_PEERS
  }

  function Arrived(w: World, slot: nat, r: Recv): (got: map<int, seq<Byte>>)
    requires slot < |w.hub.peers|
  {
    var p := w.hub.peers[slot];
    if p.fd >= 0 && |p.buf| < BUF_CAP && r.Chunk? && p.fd in w.got
    then w.got[p.fd := w.got[p.fd] + Room(r.bytes, p.buf)]
    else w.got
  }

  /** One step; an event that cannot happen in `w` changes nothing. */
  function Step(w: World, e: Event, net: Net): (r: World)
    requires |w.hub.peers| == MAX_PEERS
    ensures |r.hub.peers| == MAX_PEERS
  {
    if !Enabled(w, e) then w else
    match e
    case Connect(fd) =>
      if FreeSlot(w.hub.peers, 0) < 0 then w
      else World(w.hub.(peers := Accept(w.hub.peers, fd)), w.got[fd := []])
    case Turn(slot, r) => World(Serve(w.hub, slot, r, net), Arrived(w, slot, r))
  }

  /** What holds in every reachable world.  The buffer of a live slot is the unparsed rest of
      everything that connection sent, and the frames handled from any connection, live or
      gone, are those of the declarative parse of its whole stream. */
  ghost predicate WorldOk(w: World) {
    TableOk(w.hub.peers) && LogOk(w.hub, w.got.Keys) && BuffersOk(w) && HandledOk(w)
  }

  ghost predicate BuffersOk(w: World)
    requires |w.hub.peers| == MAX_PEERS
  {
    forall i :: 0 <= i < MAX_PEERS && w.hub.peers[i].fd >= 0 ==>
      w.hub.peers[i].fd in w.got && w.hub.peers[i].buf == Parse(w.got[w.hub.peers[i].fd]).rest
  }

  ghost predicate HandledOk(w: World) {
    forall c :: c in w.got ==> HandledFrom(w.hub.log, c) == Frames(Parse(w.got[c]).segs)
  }

  lemma StartOk()
    ensures WorldOk(Start())
  {
  }

  lemma {:induction false} HandledUnknown(log: seq<Act>, c: int)
    requires forall k :: 0 <= k < |log| ==> log[k].conn != c
    ensures HandledFrom(log, c) == []
  {
    if log != [] { HandledUnknown(log[..|log| - 1], c); }
  }

  lemma ConnectKeepsOk(w: World, fd: int, net: Net)
    requires WorldOk(w) && Enabled(w, Connect(fd))
    ensures WorldOk(Step(w, Connect(fd), net))
  {
    if FreeSlot(w.hub.peers, 0) >= 0 {
      assert forall j :: 0 <= j < MAX_PEERS && w.hub.peers[j].fd >= 0 ==> w.hub.peers[j].fd != fd;
      AcceptLaw(w.hub.peers, fd);
      AcceptKeepsLog(w.hub, w.got.Keys, fd);
      assert w.got[fd := []].Keys == w.got.Keys + {fd};
      AcceptKeepsBuffers(w, fd);
      AcceptKeepsHandled(w, fd);
    }
  }

  lemma AcceptKeepsBuffers(w: World, fd: int)
    requires |w.hub.peers| == MAX_PEERS && BuffersOk(w) && fd !in w.got && FreeSlot(w.hub.peers, 0) >= 0
    ensures BuffersOk(World(w.hub.(peers := Accept(w.hub.peers, fd)), w.got[fd := []]))
  {
    assert Parse([]) == Parsed([], []);
  }

  lemma AcceptKeepsHandled(w: World, fd: int)
    requires |w.hub.peers| == MAX_PEERS && LogOk(w.hub, w.got.Keys) && HandledOk(w) && fd !in w.got
    ensures HandledOk(World(w.hub.(peers := Accept(w.hub.peers, fd)), w.got[fd := []]))
  {
    HandledUnknown(w.hub.log, fd);
    assert Parse([]) == Parsed([], []);
  }

  lemma AcceptKeepsLog(h: Hub, known: set<int>, fd: int)
    requires |h.peers| == MAX_PEERS && LogOk(h, known) && fd !in known
    ensures LogOk(h.(peers := Accept(h.peers, fd)), known + {fd})
  {
  }

  lemma ChunkStep(w: World, slot: nat, bytes: seq<Byte>, net: Net)
    requires WorldOk(w) && slot < MAX_PEERS && w.hub.peers[slot].fd >= 0
    requires |w.hub.peers[slot].buf| < BUF_CAP && bytes != []
    ensures var p := w.hub.peers[slot]; var more := Room(bytes, p.buf);
            Step(w, Turn(slot, Chunk(bytes)), net)
              == World(Process(WithBuf(w.hub, slot, p.buf + more), slot, net), w.got[p.fd := w.got[p.fd] + more])
  {
    assert Room(bytes, w.hub.peers[slot].buf) != [];
  }

  lemma ChunkKeepsOk(w: World, slot: nat, more: seq<Byte>, net: Net)
    requires WorldOk(w) && slot < MAX_PEERS && w.hub.peers[slot].fd >= 0
    ensures var p := w.hub.peers[slot];
            WorldOk(World(Process(WithBuf(w.hub, slot, p.buf + more), slot, net), w.got[p.fd := w.got[p.fd] + more]))
  {
    var p := w.hub.peers[slot];
    var h0 := WithBuf(w.hub, slot, p.buf + more);
    var h1 := Process(h0, slot, net);
    var got := w.got[p.fd := w.got[p.fd] + more];
    BufKeepsTable(w.hub, slot, p.buf + more);
    BufKeepsLog(w.hub, slot, p.buf + more, w.got.Keys);
    ProcessKeepsLog(h0, slot, net, w.got.Keys);
    assert got.Keys == w.got.Keys;
    ProcessLaw(h0, slot, net, p.fd);
    ParseGrows(w.got[p.fd], more);
    forall i | 0 <= i < MAX_PEERS && h1.peers[i].fd >= 0
      ensures h1.peers[i].fd in got && h1.peers[i].buf == Parse(got[h1.peers[i].fd]).rest
    {
      if i != slot { BystanderKeepsBuf(w, h0, h1, slot, i); }
    }
    forall c | c in got ensures HandledFrom(h1.log, c) == Frames(Parse(got[c]).segs) {
      ProcessLaw(h0, slot, net, c);
    }
  }

  lemma BystanderKeepsBuf(w: World, h0: Hub, h1: Hub, slot: nat, i: nat)
    requires WorldOk(w) && slot < MAX_PEERS && i < MAX_PEERS && i != slot && w.hub.peers[slot].fd >= 0
    requires Others(w.hub.peers, h0.peers, slot) && Others(h0.peers, h1.peers, slot) && h1.peers[i].fd >= 0
    ensures h1.peers[i].fd == w.hub.peers[i].fd != w.hub.peers[slot].fd
    ensures h1.peers[i].buf == w.hub.peers[i].buf
  {
    assert Bystander(w.hub.peers[i], h0.peers[i]) && Bystander(h0.peers[i], h1.peers[i]);
  }

  lemma DropKeepsOk(w: World, slot: nat)
    requires WorldOk(w) && slot < MAX_PEERS
    ensures WorldOk(w.(hub := w.hub.(peers := w.hub.peers[slot := Dropped(w.hub.peers[slot])])))
  {
    DropKeepsTable(w.hub.peers, slot, slot);
    var qs := w.hub.peers[slot := Dropped(w.hub.peers[slot])];
    assert forall i :: 0 <= i < |qs| && qs[i].fd >= 0 ==> qs[i] == w.hub.peers[i];
  }

  lemma StepKeepsOk(w: World, e: Event, net: Net)
    requires WorldOk(w)
    ensures WorldOk(Step(w, e, net))
  {
    if !Enabled(w, e) { return; }
    match e
    case Connect(fd) => ConnectKeepsOk(w, fd, net);
    case Turn(slot, r) =>
      var p := w.hub.peers[slot];
      if p.fd >= 0 {
        BufferNeverFull(w, slot);
        DropKeepsOk(w, slot);
        if r.Chunk? {
          if r.bytes == [] {
            assert w.got[p.fd] + [] == w.got[p.fd];
            assert Arrived(w, slot, r) == w.got;
          } else {
            ChunkStep(w, slot, r.bytes, net);
            ChunkKeepsOk(w, slot, Room(r.bytes, p.buf), net);
          }
        }
      }
  }

  /** The receive buffer always has room: the "buffer full" branch is never taken. */
  lemma BufferNeverFull(w: World, slot: nat)
    requires WorldOk(w) && slot < MAX_PEERS
    ensures |w.hub.peers[slot].buf| < MAX_FRAME < BUF_CAP
  {
    var p := w.hub.peers[slot];
    if p.fd >= 0 { RestBound(w.got[p.fd]); }
  }

  /** The world after a run of events from the start. */
  function After(es: seq<Event>, net: Net): (w: World)
    ensures |w.hub.peers| == MAX_PEERS
  {
    if es == [] then Start() else Step(After(es[..|es| - 1], net), es[|es| - 1], net)
  }

  /** The invariant holds after every run. */
  lemma {:induction false} RunOk(es: seq<Event>, net: Net)
    ensures WorldOk(After(es, net))
  {
    if es == [] {
      StartOk();
    } else {
      RunOk(es[..|es| - 1], net);
      StepKeepsOk(After(es[..|es| - 1], net), es[|es| - 1], net);
    }
  }

  /** A turn for every polled slot whose connection is ready, with what `recv` reports there. */
  function TurnsOf(polled: seq<Polled>, ready: int -> bool, recv: int -> Recv): seq<Event> {
    if polled == [] then []
    else
      var p := polled[|polled| - 1];
      TurnsOf(polled[..|polled| - 1], ready, recv) + if ready(p.fd) then [Turn(p.slot, recv(p.fd))] else []
  }

  /** The events of a round: the waiting connection, then a turn for every slot that was live and is ready. */
  function RoundEvents(ps: seq<Peer>, incoming: int, ready: int -> bool, recv: int -> Recv): seq<Event> {
    (if incoming >= 0 then [Connect(incoming)] else []) + TurnsOf(Snapshot(ps, |ps|), ready, recv)
  }

  /** Every round of the hub's main loop is the run of just these events. */
  lemma RoundIsRun(es: seq<Event>, net: Net, incoming: int, ready: int -> bool, recv: int -> Recv)
    requires incoming >= 0 ==> incoming !in After(es, net).got
    ensures After(es + RoundEvents(After(es, net).hub.peers, incoming, ready, recv), net).hub
         == Round(After(es, net).hub, incoming, ready, recv, net)
  {
    RunOk(es, net);
    if incoming < 0 {
      PollsAreRun(es, net, After(es, net).hub.peers, ready, recv);
      var turns := TurnsOf(Snapshot(After(es, net).hub.peers, MAX_PEERS), ready, recv);
      assert [] + turns == turns;
    } else {
      AcceptThenPolls(es, net, incoming, ready, recv);
    }
  }

  /** The turns of the slots polled before, from a table that still has their connections. */
  lemma PollsAreRun(es: seq<Event>, net: Net, ps: Table, ready: int -> bool, recv: int -> Recv)
    requires forall i :: 0 <= i < MAX_PEERS && ps[i].fd >= 0 ==> After(es, net).hub.peers[i].fd == ps[i].fd
    ensures InTable(Snapshot(ps, MAX_PEERS))
    ensures After(es + TurnsOf(Snapshot(ps, MAX_PEERS), ready, recv), net).hub
         == Turns(After(es, net).hub, Snapshot(ps, MAX_PEERS), ready, recv, net)
  {
    var polled := Snapshot(ps, MAX_PEERS);
    SnapshotLaw(ps, MAX_PEERS);
    TurnsAreRun(es, net, polled, ready, recv, |polled|);
    assert polled[..|polled|] == polled;
  }

  lemma AcceptThenPolls(es: seq<Event>, net: Net, incoming: int, ready: int -> bool, recv: int -> Recv)
    requires incoming >= 0 && incoming !in After(es, net).got && WorldOk(After(es, net))
    ensures After(es + RoundEvents(After(es, net).hub.peers, incoming, ready, recv), net).hub
         == Round(After(es, net).hub, incoming, ready, recv, net)
  {
    var w, es1 := After(es, net), es + [Connect(incoming)];
    assert es1[..|es1| - 1] == es;
    assert forall j :: 0 <= j < MAX_PEERS && w.hub.peers[j].fd >= 0 ==> w.hub.peers[j].fd != incoming;
    AcceptLaw(w.hub.peers, incoming);
    assert After(es1, net).hub == w.hub.(peers := Accept(w.hub.peers, incoming));
    PollsAreRun(es1, net, w.hub.peers, ready, recv);
    Reassociate(es, [Connect(incoming)], TurnsOf(Snapshot(w.hub.peers, MAX_PEERS), ready, recv));
  }

  lemma {:induction false} TurnsAreRun(es: seq<Event>, net: Net, polled: seq<Polled>, ready: int -> bool, recv: int -> Recv, n: nat)
    requires InTable(polled) && n <= |polled|
    requires forall k :: 0 <= k < |polled| ==> After(es, net).hub.peers[polled[k].slot].fd == polled[k].fd
    ensures InTable(polled[..n])
    ensures After(es + TurnsOf(polled[..n], ready, recv), net).hub == Turns(After(es, net).hub, polled[..n], ready, recv, net)
  {
    if n == 0 {
      assert es + TurnsOf(polled[..0], ready, recv) == es;
    } else {
      TurnsAreRun(es, net, polled, ready, recv, n - 1);
      RunOk(es, net);
      StillPolled(After(es, net).hub, polled, ready, recv, net, n - 1);
      assert polled[..n][..n - 1] == polled[..n - 1];
      var p, pre := polled[n - 1], TurnsOf(polled[..n - 1], ready, recv);
      OneTurn(es, pre, net, p, ready, recv);
    }
  }

  lemma OneTurn(es: seq<Event>, pre: seq<Event>, net: Net, p: Polled, ready: int -> bool, recv: int -> Recv)
    requires p.slot < MAX_PEERS
    requires var h := After(es + pre, net).hub; h.peers[p.slot].fd >= 0 ==> h.peers[p.slot].fd == p.fd
    ensures After(es + (pre + if ready(p.fd) then [Turn(p.slot, recv(p.fd))] else []), net).hub
         == PolledTurn(After(es + pre, net).hub, p, ready, recv, net)
  {
    if ready(p.fd) {
      var e := Turn(p.slot, recv(p.fd));
      Reassociate(es, pre, [e]);
      assert (es + pre + [e])[..|es + pre|] == es + pre;
    } else {
      assert pre + [] == pre;
    }
  }

  // ----- the sending side

  /** If a node sent only packets of `fs`, however cut into chunks, the frames handled from it
      are exactly those of `fs` whose last byte has arrived, in order. */
  lemma HandledIsPrefix(w: World, c: int, fs: seq<Frame>) returns (k: nat)
    requires WorldOk(w) && c in w.got && w.got[c] <= EncodeAll(fs)
    requires forall i :: 0 <= i < |fs| ==> ValidFrame(fs[i])
    ensures k <= |fs| && HandledFrom(w.hub.log, c) == fs[..k]
    ensures |EncodeAll(fs[..k])| <= |w.got[c]|
    ensures k < |fs| ==> |w.got[c]| < |EncodeAll(fs[..k + 1])|
  {
    var cut;
    k, cut := CutFrames(fs, w.got[c]);
    ParseOfFrames(fs[..k], cut);
    FramesOfGoods(fs[..k]);
  }

  /** A prefix of a stream of frames is some complete frames and a cut one. */
  lemma {:induction false} CutFrames(fs: seq<Frame>, p: seq<Byte>) returns (k: nat, cut: seq<Byte>)
    requires p <= EncodeAll(fs) && forall i :: 0 <= i < |fs| ==> ValidFrame(fs[i])
    ensures k <= |fs| && p == EncodeAll(fs[..k]) + cut
    ensures cut == [] || (k < |fs| && cut < Encode(fs[k]))
    ensures k < |fs| ==> |p| < |EncodeAll(fs[..k + 1])|
    decreases |fs|
  {
    if fs == [] {
      k, cut := 0, [];
    } else {
      var e := Encode(fs[0]);
      if |p| < |e| {
        k, cut := 0, p;
        EncodeAllTake(fs, 0);
      } else {
        assert p == e + p[|e|..];
        k, cut := CutFrames(fs[1..], p[|e|..]);
        EncodeAllTake(fs, k);
        if k + 1 < |fs| { EncodeAllTake(fs, k + 1); }
        Associative(e, EncodeAll(fs[1..][..k]), cut);
        k := k + 1;
      }
    }
  }

  // ----- the receiving side

  function SentPart(a: Act): seq<Byte> {
    var e := Encode(a.frame);
    if a.Send? && a.outcome.Failed? then e[..if a.outcome.partial < |e| then a.outcome.partial else |e| - 1] else e
  }

  predicate SendsTo(a: Act, c: int) { a.Send? && a.conn == c }

  /** The bytes put on connection `c`, including the beginning of a frame whose send failed. */
  function StreamTo(log: seq<Act>, c: int): seq<Byte> {
    if log == [] then []
    else
      var a := log[|log| - 1];
      StreamTo(log[..|log| - 1], c) + (if SendsTo(a, c) then SentPart(a) else [])
  }

  /** The frames completely sent on connection `c`. */
  function SentTo(log: seq<Act>, c: int): seq<Frame> {
    if log == [] then []
    else
      var a := log[|log| - 1];
      SentTo(log[..|log| - 1], c) + (if SendsTo(a, c) && a.outcome.Delivered? then [a.frame] else [])
  }

  ghost predicate FailedOn(log: seq<Act>, c: int) {
    exists k :: 0 <= k < |log| && SendsTo(log[k], c) && log[k].outcome.Failed?
  }

  ghost predicate AllValid(fs: seq<Frame>) { forall i :: 0 <= i < |fs| ==> ValidFrame(fs[i]) }

  /** The stream to `c` is the frames completely sent. */
  ghost predicate Whole(log: seq<Act>, c: int) {
    StreamTo(log, c) == EncodeAll(SentTo(log, c)) && AllValid(SentTo(log, c))
  }

  /** The stream to `c` is the frames completely sent, and possibly a beginning `cut` of the frame whose send failed. */
  ghost predicate Shape(log: seq<Act>, c: int, last: seq<Frame>, cut: seq<Byte>) {
    && StreamTo(log, c) == EncodeAll(SentTo(log, c)) + cut && AllValid(SentTo(log, c))
    && |last| <= 1 && (cut != [] ==> FailedOn(log, c) && |last| == 1 && ValidFrame(last[0]) && cut < Encode(last[0]))
  }

  lemma WholeShape(log: seq<Act>, c: int, last: seq<Frame>)
    requires |last| <= 1
    ensures Whole(log, c) <==> Shape(log, c, last, [])
  {
    assert EncodeAll(SentTo(log, c)) + [] == EncodeAll(SentTo(log, c));
  }

  lemma {:induction false} StreamShape(log: seq<Act>, c: int) returns (last: seq<Frame>, cut: seq<Byte>)
    requires FailureIsLast(log) && forall k :: 0 <= k < |log| ==> ValidFrame(log[k].frame)
    ensures Shape(log, c, last, cut)
  {
    if log == [] {
      last, cut := [], [];
    } else {
      var a := log[|log| - 1];
      last, cut := StreamShape(log[..|log| - 1], c);
      if !SendsTo(a, c) {
        ShapeSkips(log, c, last, cut);
      } else {
        NotFailedBefore(log, c);
        WholeShape(log[..|log| - 1], c, last);
        if a.outcome.Failed? {
          ShapeCut(log, c);
          last, cut := [a.frame], SentPart(a);
        } else {
          WholeGrows(log, c);
          WholeShape(log, c, last);
        }
      }
    }
  }

  /** An act that is no send to `c`. */
  lemma ShapeSkips(log: seq<Act>, c: int, last: seq<Frame>, cut: seq<Byte>)
    requires log != [] && !SendsTo(log[|log| - 1], c) && Shape(log[..|log| - 1], c, last, cut)
    ensures Shape(log, c, last, cut)
  {
    var pre := log[..|log| - 1];
    assert StreamTo(pre, c) + [] == StreamTo(pre, c) && SentTo(pre, c) + [] == SentTo(pre, c);
    if FailedOn(pre, c) {
      var k :| 0 <= k < |pre| && SendsTo(pre[k], c) && pre[k].outcome.Failed?;
      assert log[k] == pre[k];
    }
  }

  lemma NotFailedBefore(log: seq<Act>, c: int)
    requires log != [] && FailureIsLast(log) && SendsTo(log[|log| - 1], c)
    ensures !FailedOn(log[..|log| - 1], c)
  {
    var pre := log[..|log| - 1];
    forall k | 0 <= k < |pre| && SendsTo(pre[k], c) ensures !pre[k].outcome.Failed? { assert log[k] == pre[k]; }
  }

  /** A send to `c` that succeeds, no earlier one having failed. */
  lemma WholeGrows(log: seq<Act>, c: int)
    requires log != [] && SendsTo(log[|log| - 1], c) && log[|log| - 1].outcome.Delivered? && ValidFrame(log[|log| - 1].frame)
    requires Whole(log[..|log| - 1], c)
    ensures Whole(log, c)
  {
    EncodeAllSnoc(SentTo(log[..|log| - 1], c), log[|log| - 1].frame);
  }

  /** A send to `c` that fails, the first one to do so. */
  lemma ShapeCut(log: seq<Act>, c: int)
    requires log != [] && SendsTo(log[|log| - 1], c) && log[|log| - 1].outcome.Failed? && ValidFrame(log[|log| - 1].frame)
    requires Whole(log[..|log| - 1], c)
    ensures Shape(log, c, [log[|log| - 1].frame], SentPart(log[|log| - 1]))
  {
    var pre := log[..|log| - 1];
    assert SentTo(pre, c) + [] == SentTo(pre, c);
    assert SendsTo(log[|log| - 1], c);
  }

  /** After a send that failed on `c`, the stream to `c` ends in as many bytes of its frame as were put on the connection,
      but not all of them. */
  lemma {:induction false} StreamCut(log: seq<Act>, c: int, k: nat)
    requires FailureIsLast(log) && forall j :: 0 <= j < |log| ==> ValidFrame(log[j].frame)
    requires k < |log| && log[k].Send? && log[k].conn == c && log[k].outcome.Failed?
    ensures var e, n := Encode(log[k].frame), log[k].outcome.partial;
            StreamTo(log, c) == EncodeAll(SentTo(log, c)) + e[..if n < |e| then n else |e| - 1]
  {
    var pre := log[..|log| - 1];
    assert forall j :: 0 <= j < |pre| ==> pre[j] == log[j];
    assert StreamTo(pre, c) + [] == StreamTo(pre, c) && SentTo(pre, c) + [] == SentTo(pre, c);
    if k < |pre| {
      StreamCut(pre, c, k);
    } else {
      NotFailedBefore(log, c);
      var last, cut := StreamShape(pre, c);
      assert EncodeAll(SentTo(pre, c)) + [] == EncodeAll(SentTo(pre, c));
    }
  }

  function Concat(chunks: seq<seq<Byte>>): seq<Byte> {
    if chunks == [] then [] else Concat(chunks[..|chunks| - 1]) + chunks[|chunks| - 1]
  }

  /** What successive polls deliver, the bytes waiting at each poll being one chunk. */
  function Polls(id: Byte, chunks: seq<seq<Byte>>): (RxState, seq<(Byte, seq<Byte>)>) {
    if chunks == [] then (Idle, [])
    else
      var pre := Polls(id, chunks[..|chunks| - 1]);
      var run := RxRun(pre.0, chunks[|chunks| - 1]);
      (run.0, pre.1 + Addressed(id, run.1))
  }

  lemma {:induction false} PollsConcat(id: Byte, chunks: seq<seq<Byte>>)
    ensures Polls(id, chunks).0 == RxRun(Idle, Concat(chunks)).0
    ensures Polls(id, chunks).1 == Addressed(id, RxRun(Idle, Concat(chunks)).1)
  {
    if chunks != [] {
      var pre, c := chunks[..|chunks| - 1], chunks[|chunks| - 1];
      PollsConcat(id, pre);
      RxRunAppend(Idle, Concat(pre), c);
      AddressedAppend(id, RxRun(Idle, Concat(pre)).1, RxRun(Polls(id, pre).0, c).1);
    }
  }

  /** End to end.  In every run, whatever bytes the peers sent, however they were chunked and
      however often sends failed: a node on connection `c` that has read some part of what was
      put on its connection, polling whenever it likes, has accepted exactly the frames
      addressed to it among the first `k` frames the hub sent it, where `k` counts the frames
      it has read completely; and when nothing is cut it is idle. */
  lemma EndToEnd(es: seq<Event>, net: Net, c: int, id: Byte, chunks: seq<seq<Byte>>) returns (k: nat)
    requires Concat(chunks) <= StreamTo(After(es, net).hub.log, c)
    ensures var sent := SentTo(After(es, net).hub.log, c);
            && k <= |sent|
            && Polls(id, chunks).1 == Addressed(id, sent[..k])
            && |EncodeAll(sent[..k])| <= |Concat(chunks)|
            && (k < |sent| ==> |Concat(chunks)| < |EncodeAll(sent[..k + 1])|)
            && (|EncodeAll(sent[..k])| == |Concat(chunks)| ==> Polls(id, chunks).0 == Idle)
  {
    RunOk(es, net);
    var log, p := After(es, net).hub.log, Concat(chunks);
    PollsConcat(id, chunks);
    var last, cut := StreamShape(log, c);
    var rest;
    k, rest := ReadPart(SentTo(log, c), last, cut, p);
    RxOfFrames(SentTo(log, c)[..k], rest);
  }

  lemma PrefixBefore(all: seq<Byte>, cut: seq<Byte>, p: seq<Byte>)
    requires p <= all + cut && |p| <= |all|
    ensures p <= all
  {
    assert forall i :: 0 <= i < |p| ==> p[i] == (all + cut)[i] == all[i];
  }

  /** Some part of a stream of frames with a cut one behind it, read completely or cut. */
  lemma ReadPart(sent: seq<Frame>, last: seq<Frame>, cut: seq<Byte>, p: seq<Byte>) returns (k: nat, rest: seq<Byte>)
    requires forall i :: 0 <= i < |sent| ==> ValidFrame(sent[i])
    requires cut != [] ==> |last| == 1 && ValidFrame(last[0]) && cut < Encode(last[0])
    requires p <= EncodeAll(sent) + cut
    ensures k <= |sent| && p == EncodeAll(sent[..k]) + rest
    ensures k < |sent| ==> |p| < |EncodeAll(sent[..k + 1])|
    ensures rest == [] || exists g: Frame :: ValidFrame(g) && rest < Encode(g)
  {
    var all := EncodeAll(sent);
    if |p| <= |all| {
      PrefixBefore(all, cut, p);
      k, rest := CutFrames(sent, p);
    } else {
      k, rest := |sent|, p[|all|..];
      assert sent[..k] == sent;
      PrefixBehind(all, cut, p);
      PrefixOfPrefix(rest, cut, Encode(last[0]));
    }
  }

  lemma PrefixBehind(all: seq<Byte>, cut: seq<Byte>, p: seq<Byte>)
    requires p <= all + cut && |p| > |all|
    ensures p == all + p[|all|..] && p[|all|..] <= cut && cut != []
  {
    assert forall i :: 0 <= i < |p| ==> p[i] == (all + cut)[i];
  }

  lemma PrefixOfPrefix(a: seq<Byte>, b: seq<Byte>, c: seq<Byte>)
    requires a <= b && b < c
    ensures a < c
  {
    assert forall i :: 0 <= i < |a| ==> a[i] == b[i] == c[i];
  }

  /** Nothing is forged: each frame sent on `c` was handled before from another connection, and
      if that connection's node sent only packets of `fs`, it is one of them. */
  lemma SentWasHandled(log: seq<Act>, c: int, i: nat) returns (from: int)
    requires Causal(log) && i < |SentTo(log, c)|
    ensures from != c && SentTo(log, c)[i] in HandledFrom(log, from)
  {
    var pre, a := log[..|log| - 1], log[|log| - 1];
    assert Causal(pre) by {
      forall k | 0 <= k < |pre| && pre[k].Send? ensures exists m :: 0 <= m < k && CausedBy(pre[k], pre[m]) {
        var m :| 0 <= m < k && CausedBy(log[k], log[m]);
        assert CausedBy(pre[k], pre[m]);
      }
    }
    if i < |SentTo(pre, c)| {
      from := SentWasHandled(pre, c, i);
    } else {
      var m :| 0 <= m < |log| - 1 && CausedBy(log[|log| - 1], log[m]);
      from := log[m].conn;
      HandledContains(log, m);
    }
  }

  lemma {:induction false} HandledContains(log: seq<Act>, m: nat)
    requires m < |log| && log[m].Handle?
    ensures log[m].frame in HandledFrom(log, log[m].conn)
  {
    if m < |log| - 1 { HandledContains(log[..|log| - 1], m); }
  }

  /** Together: every message a node accepts was sent by some other node, to its id. */
  lemma AcceptedWasSent(es: seq<Event>, net: Net, c: int, id: Byte, chunks: seq<seq<Byte>>,
                        sent: map<int, seq<Frame>>, j: nat)
    returns (from: int, f: Frame)
    requires Concat(chunks) <= StreamTo(After(es, net).hub.log, c)
    requires forall d :: d in After(es, net).got ==> d in sent && After(es, net).got[d] <= EncodeAll(sent[d])
    requires forall d, i :: d in sent && 0 <= i < |sent[d]| ==> ValidFrame(sent[d][i])
    requires j < |Polls(id, chunks).1|
    ensures from != c && from in sent && f in sent[from]
    ensures f.target == id && Polls(id, chunks).1[j] == (f.sender, f.payload)
  {
    var w := After(es, net);
    RunOk(es, net);
    var k := EndToEnd(es, net, c, id, chunks);
    var i := AddressedSource(id, SentTo(w.hub.log, c)[..k], j);
    f := SentTo(w.hub.log, c)[i];
    from := SentWasHandled(w.hub.log, c, i);
    if from !in w.got {
      HandledUnknown(w.hub.log, from);
      assert false;
    }
    var m := HandledIsPrefix(w, from, sent[from]);
  }

  lemma {:induction false} AddressedSource(id: Byte, fs: seq<Frame>, j: nat) returns (i: nat)
    requires j < |Addressed(id, fs)|
    ensures i < |fs| && fs[i].target == id && Addressed(id, fs)[j] == (fs[i].sender, fs[i].payload)
  {
    var pre := fs[..|fs| - 1];
    if j < |Addressed(id, pre)| { i := AddressedSource(id, pre, j); } else { i := |fs| - 1; }
  }

  // ----- where hub and receiver disagree

  /** The bytes a receiver state remembers. */
  function Held(st: RxState): nat {
    match st
    case Idle => 0
    case Magic => 1
    case Header(got) => |got|
    case Data(got, _) => |got|
    case Check(got, _) => |got|
  }

  lemma StepFits(st: RxState, b: Byte)
    ensures Held(RxStep(st, b).0) <= Held(st) + 1
    ensures forall i :: 0 <= i < |RxStep(st, b).1| ==> |Encode(RxStep(st, b).1[i])| <= Held(st) + 1
  {
  }

  /** A recognised frame is never longer than what was read. */
  lemma {:induction false} RecognisedFits(s: seq<Byte>)
    ensures Held(RxRun(Idle, s).0) <= |s|
    ensures forall i :: 0 <= i < |RxRun(Idle, s).1| ==> |Encode(RxRun(Idle, s).1[i])| <= |s|
  {
    if s != [] {
      RecognisedFits(s[..|s| - 1]);
      RunStep(Idle, s);
      StepFits(RxRun(Idle, s[..|s| - 1]).0, s[|s| - 1]);
    }
  }

  /** With the first magic byte already seen, a frame's first two bytes lead back to idle. */
  lemma AfterStrayMagic(f: Frame)
    requires ValidFrame(f)
    ensures RxRun(Magic, Encode(f)).1 == RxRun(Idle, Encode(f)[2..]).1
  {
    var e := Encode(f);
    assert e == [MAGIC0] + ([MAGIC1] + e[2..]);
    assert [MAGIC0][..0] == [] && [MAGIC1][..0] == [];
    RunStep(Magic, [MAGIC0]);
    RxRunAppend(Magic, [MAGIC0], [MAGIC1] + e[2..]);
    RunStep(Idle, [MAGIC1]);
    RxRunAppend(Idle, [MAGIC1], e[2..]);
  }

  /** The hub drops byte after byte in front of a frame, as long as none of them is the second magic byte. */
  lemma {:induction false} HubSkipsJunk(junk: seq<Byte>, f: Frame)
    requires ValidFrame(f) && MAGIC1 !in junk
    ensures Frames(Parse(junk + Encode(f)).segs) == [f]
  {
    if junk == [] {
      assert junk + Encode(f) == EncodeAll([f]) + [] by { assert [f][1..] == []; }
      ParseOfFrames([f], []);
      FramesOfGoods([f]);
    } else {
      var s := junk + Encode(f);
      assert s[1..] == junk[1..] + Encode(f) && s[0] == junk[0];
      assert s[1] == if |junk| > 1 then junk[1] else MAGIC0;
      HubSkipsJunk(junk[1..], f);
      FramesCons(Junk(s[0]), Parse(s[1..]).segs);
    }
  }

  /** The number of first magic bytes at the end. */
  function Trailing(junk: seq<Byte>): nat {
    if junk == [] || junk[|junk| - 1] != MAGIC0 then 0 else 1 + Trailing(junk[..|junk| - 1])
  }

  /** The receiver pairs first magic bytes off: it waits for a second one after an odd number of them. */
  lemma {:induction false} AfterJunk(junk: seq<Byte>)
    requires MAGIC1 !in junk
    ensures RxRun(Idle, junk) == (if Trailing(junk) % 2 == 1 then Magic else Idle, [])
  {
    if junk != [] {
      var pre, b := junk[..|junk| - 1], junk[|junk| - 1];
      AfterJunk(pre);
      RunStep(Idle, junk);
      NextParity(Trailing(pre));
      JunkStep(Trailing(pre) % 2 == 1, b);
    }
  }

  lemma NextParity(t: nat)
    ensures (1 + t) % 2 == 1 <==> t % 2 == 0
  {
  }

  lemma JunkStep(waiting: bool, b: Byte)
    requires b != MAGIC1
    ensures RxStep(if waiting then Magic else Idle, b) == (if b == MAGIC0 && !waiting then Magic else Idle, [])
  {
  }

  /** On arbitrary streams hub and receiver do not agree.  After any bytes among which the second magic byte does not
      occur the hub finds the frame that follows; the receiver finds it exactly if those bytes end in an even number
      of first magic bytes, for otherwise it takes the frame's own first byte for a bad second one. */
  lemma StrayBytes(junk: seq<Byte>, f: Frame)
    requires ValidFrame(f) && MAGIC1 !in junk
    ensures Frames(Parse(junk + Encode(f)).segs) == [f]
    ensures RxRun(Idle, junk + Encode(f)).1 == [f] <==> Trailing(junk) % 2 == 0
  {
    HubSkipsJunk(junk, f);
    AfterJunk(junk);
    RxRunAppend(Idle, junk, Encode(f));
    if Trailing(junk) % 2 == 1 { StrayMagicLoses(f); } else { WholeFrame(f); }
  }

  lemma StrayMagicLoses(f: Frame)
    requires ValidFrame(f)
    ensures RxRun(Magic, Encode(f)).1 != [f]
  {
    AfterStrayMagic(f);
    var s := Encode(f)[2..];
    RecognisedFits(s);
    var fs := RxRun(Idle, s).1;
    assert forall i :: 0 <= i < |fs| ==> fs[i] != f;
    assert [f][0] == f;
  }
}

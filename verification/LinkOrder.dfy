/** The order of deliveries: what a node accepts is, per source, an order-preserving selection of what that source sent. */
module LinkOrder {
  import opened Bytes
  import opened Wire
  import opened Framing
  import opened HubModel
  import opened Receiver
  import opened Link

  // ----- the log as a sequence of groups

  /** The last frame handled before position `k` of the log, or -1. */
  function LastHandle(log: seq<Act>, k: nat): (m: int)
    requires k <= |log|
    ensures -1 <= m < k && (m >= 0 ==> log[m].Handle?) && forall i :: m < i < k ==> log[i].Send?
  {
    if k == 0 then -1 else if log[k - 1].Handle? then k - 1 else LastHandle(log, k - 1)
  }

  lemma {:induction false} LastHandleIs(log: seq<Act>, k: nat, m: int)
    requires k <= |log| && -1 <= m < k && (m >= 0 ==> log[m].Handle?) && forall i :: m < i < k ==> log[i].Send?
    ensures LastHandle(log, k) == m
  {
  }

  lemma LastHandleKept(log: seq<Act>, more: seq<Act>, k: nat)
    requires k <= |log|
    ensures LastHandle(log + more, k) == LastHandle(log, k)
  {
    var m := LastHandle(log, k);
    assert forall i :: 0 <= i < k ==> (log + more)[i] == log[i];
    LastHandleIs(log + more, k, m);
  }

  /** Every send belongs to the last frame handled before it, which came from another connection. */
  ghost predicate SendOk(log: seq<Act>, k: nat)
    requires k < |log|
  {
    log[k].Send? ==> LastHandle(log, k) >= 0 && CausedBy(log[k], log[LastHandle(log, k)])
  }

  /** Two sends on one connection belong to different frames handled, in the same order. */
  ghost predicate SendsApart(log: seq<Act>, k: nat, l: nat)
    requires k < l < |log|
  {
    log[k].Send? && log[l].Send? && log[k].conn == log[l].conn ==> LastHandle(log, k) < LastHandle(log, l)
  }

  /** The log is a sequence of groups: a frame handled, then sent on at most once per connection. */
  ghost predicate InGroups(log: seq<Act>) {
    && (forall k :: 0 <= k < |log| ==> SendOk(log, k))
    && (forall k, l :: 0 <= k < l < |log| ==> SendsApart(log, k, l))
  }

  ghost predicate NoRepeat(conns: seq<int>) {
    forall i, j :: 0 <= i < j < |conns| ==> conns[i] != conns[j]
  }

  lemma {:induction false} BurstAt(conns: seq<int>, f: Frame, net: Net, at: nat)
    ensures var b := Burst(conns, f, net, at);
            |b| == |conns| && forall j :: 0 <= j < |b| ==> b[j].Send? && b[j].conn == conns[j] && b[j].frame == f
  {
    if conns != [] { BurstAt(conns[1..], f, net, at + 1); }
  }

  /** Adding a group keeps the groups. */
  lemma GroupAdded(log: seq<Act>, c: int, f: Frame, b: seq<Act>, conns: seq<int>)
    requires InGroups(log) && NoRepeat(conns) && c !in conns && |b| == |conns|
    requires forall j :: 0 <= j < |b| ==> b[j].Send? && b[j].conn == conns[j] && b[j].frame == f
    ensures InGroups(log + [Handle(c, f)] + b)
  {
    var all, n := log + [Handle(c, f)] + b, |log|;
    assert all == log + ([Handle(c, f)] + b);
    forall k | 0 <= k <= n ensures LastHandle(all, k) == LastHandle(log, k) { LastHandleKept(log, [Handle(c, f)] + b, k); }
    forall k | n < k < |all| ensures LastHandle(all, k) == n && all[k] == b[k - n - 1] { LastHandleIs(all, k, n); }
    forall k | 0 <= k < |all| ensures SendOk(all, k) {
      if k < n { assert SendOk(log, k); }
    }
    forall k, l | 0 <= k < l < |all| ensures SendsApart(all, k, l) {
      if l < n { assert SendsApart(log, k, l); }
    }
  }

  lemma {:induction false} LiveOthersApart(ps: seq<Peer>, idx: nat, j: nat)
    requires DistinctConns(ps) && j <= |ps|
    ensures NoRepeat(LiveOthers(ps, idx, j))
    ensures forall c :: c in LiveOthers(ps, idx, j) ==> exists i :: j <= i < |ps| && ps[i].fd == c && c >= 0
    decreases |ps| - j
  {
    if j < |ps| {
      LiveOthersApart(ps, idx, j + 1);
      var rest := LiveOthers(ps, idx, j + 1);
      forall k | 0 <= k < |rest| && ps[j].fd >= 0 ensures rest[k] != ps[j].fd {
        assert rest[k] in rest;
      }
    }
  }

  lemma RouteInGroups(h: Hub, idx: nat, f: Frame, net: Net)
    requires TableOk(h.peers) && idx < |h.peers| && h.peers[idx].fd >= 0 && InGroups(h.log)
    ensures InGroups(Route(h, idx, f, net).log)
  {
    var conns := RoutingLaw(h, idx, f, net);
    LiveOthersApart(h.peers, idx, 0);
    BurstAt(conns, f, net, |h.log| + 1);
    GroupAdded(h.log, h.peers[idx].fd, f, Burst(conns, f, net, |h.log| + 1), conns);
  }

  lemma {:induction false} ProcessInGroups(h: Hub, idx: nat, net: Net)
    requires TableOk(h.peers) && idx < |h.peers| && h.peers[idx].fd >= 0 && InGroups(h.log)
    ensures InGroups(Process(h, idx, net).log)
    decreases |h.peers[idx].buf|
  {
    var buf := h.peers[idx].buf;
    match Judge(buf)
    case Wait =>
    case Skip =>
      BufKeepsTable(h, idx, buf[1..]);
      ProcessInGroups(WithBuf(h, idx, buf[1..]), idx, net);
    case Take(f) =>
      TakeIsPrefix(buf, f);
      RouteKeepsTable(h, idx, f, net);
      RouteInGroups(h, idx, f, net);
      var h1, rest := Route(h, idx, f, net), buf[|Encode(f)|..];
      BufKeepsTable(h1, idx, rest);
      ProcessInGroups(WithBuf(h1, idx, rest), idx, net);
  }

  lemma StepInGroups(w: World, e: Event, net: Net)
    requires WorldOk(w) && InGroups(w.hub.log)
    ensures InGroups(Step(w, e, net).hub.log)
  {
    if Enabled(w, e) && e.Turn? {
      var p := w.hub.peers[e.slot];
      if p.fd >= 0 && |p.buf| < BUF_CAP && e.r.Chunk? {
        var got := p.buf + Room(e.r.bytes, p.buf);
        BufKeepsTable(w.hub, e.slot, got);
        ProcessInGroups(WithBuf(w.hub, e.slot, got), e.slot, net);
      }
    }
  }

  /** In every run the log is a sequence of groups. */
  lemma {:induction false} RunInGroups(es: seq<Event>, net: Net)
    ensures InGroups(After(es, net).hub.log)
  {
    if es != [] {
      RunInGroups(es[..|es| - 1], net);
      RunOk(es[..|es| - 1], net);
      StepInGroups(After(es[..|es| - 1], net), es[|es| - 1], net);
    }
  }

  // ----- positions

  ghost predicate Increasing(idx: seq<int>) {
    forall i, j :: 0 <= i < j < |idx| ==> idx[i] < idx[j]
  }

  /** Where in the log the frames delivered on `c` were sent. */
  function SentAt(log: seq<Act>, c: int): (idx: seq<int>)
    ensures forall i :: 0 <= i < |idx| ==> 0 <= idx[i] < |log|
  {
    if log == [] then []
    else
      var a := log[|log| - 1];
      SentAt(log[..|log| - 1], c) + (if SendsTo(a, c) && a.outcome.Delivered? then [|log| - 1] else [])
  }

  lemma {:induction false} SentAtLaw(log: seq<Act>, c: int)
    ensures |SentAt(log, c)| == |SentTo(log, c)| && Increasing(SentAt(log, c))
    ensures forall i :: 0 <= i < |SentAt(log, c)| ==>
              log[SentAt(log, c)[i]].Send? && log[SentAt(log, c)[i]].conn == c && log[SentAt(log, c)[i]].frame == SentTo(log, c)[i]
  {
    if log != [] {
      var pre := log[..|log| - 1];
      SentAtLaw(pre, c);
      assert forall i :: 0 <= i < |pre| ==> pre[i] == log[i];
    }
  }

  /** Which of the frames are addressed to `id`. */
  function AddressedAt(id: Byte, fs: seq<Frame>): (idx: seq<int>)
    ensures forall i :: 0 <= i < |idx| ==> 0 <= idx[i] < |fs|
  {
    if fs == [] then []
    else AddressedAt(id, fs[..|fs| - 1]) + (if fs[|fs| - 1].target == id then [|fs| - 1] else [])
  }

  lemma {:induction false} AddressedAtLaw(id: Byte, fs: seq<Frame>)
    ensures |AddressedAt(id, fs)| == |Addressed(id, fs)| && Increasing(AddressedAt(id, fs))
    ensures forall i :: 0 <= i < |AddressedAt(id, fs)| ==>
              var f := fs[AddressedAt(id, fs)[i]]; f.target == id && Addressed(id, fs)[i] == (f.sender, f.payload)
  {
    if fs != [] {
      var pre := fs[..|fs| - 1];
      AddressedAtLaw(id, pre);
      assert forall i :: 0 <= i < |pre| ==> pre[i] == fs[i];
    }
  }

  /** None of them is left out. */
  lemma {:induction false} AddressedAtAll(id: Byte, fs: seq<Frame>, k: nat)
    requires k < |fs| && fs[k].target == id
    ensures k in AddressedAt(id, fs)
  {
    if k < |fs| - 1 { AddressedAtAll(id, fs[..|fs| - 1], k); }
  }

  /** The frame handled that a delivery belongs to. */
  function Cause(log: seq<Act>, c: int, i: nat): int
    requires i < |SentAt(log, c)|
  {
    LastHandle(log, SentAt(log, c)[i])
  }

  lemma CauseLaw(log: seq<Act>, c: int, i: nat)
    requires InGroups(log) && i < |SentAt(log, c)|
    ensures var m := Cause(log, c, i);
            && 0 <= m < |log| && log[m].Handle? && log[m].conn != c && |SentTo(log, c)| == |SentAt(log, c)|
            && log[m].frame == SentTo(log, c)[i]
    ensures forall j :: 0 <= j < i ==> Cause(log, c, j) < Cause(log, c, i)
  {
    SentAtLaw(log, c);
    var k := SentAt(log, c)[i];
    assert SendOk(log, k);
    forall j | 0 <= j < i ensures Cause(log, c, j) < Cause(log, c, i) {
      assert SendsApart(log, SentAt(log, c)[j], k);
    }
  }

  /** The accepted messages, each with the place in the log where its frame was handled: the places are increasing. */
  lemma AcceptedInOrder(es: seq<Event>, net: Net, c: int, id: Byte, chunks: seq<seq<Byte>>) returns (idx: seq<int>)
    requires Concat(chunks) <= StreamTo(After(es, net).hub.log, c)
    ensures |idx| == |Polls(id, chunks).1| && Increasing(idx)
    ensures forall j :: 0 <= j < |idx| ==> AcceptedAt(After(es, net).hub.log, c, id, idx[j], Polls(id, chunks).1[j])
  {
    var log := After(es, net).hub.log;
    var k := EndToEnd(es, net, c, id, chunks);
    var sent := SentTo(log, c)[..k];
    RunInGroups(es, net);
    SentAtLaw(log, c);
    AddressedAtLaw(id, sent);
    var at := AddressedAt(id, sent);
    idx := seq(|at|, j requires 0 <= j < |at| => Cause(log, c, at[j]));
    forall j | 0 <= j < |idx| ensures AcceptedAt(log, c, id, idx[j], Polls(id, chunks).1[j]) {
      CauseLaw(log, c, at[j]);
    }
    forall i, j | 0 <= i < j < |idx| ensures idx[i] < idx[j] { CauseLaw(log, c, at[j]); }
  }

  /** At position `m` a frame for `id` was handled from another connection than `c`, with this sender and payload. */
  ghost predicate AcceptedAt(log: seq<Act>, c: int, id: Byte, m: int, message: (Byte, seq<Byte>)) {
    && 0 <= m < |log| && log[m].Handle? && log[m].conn != c
    && log[m].frame.target == id && message == (log[m].frame.sender, log[m].frame.payload)
  }

  /** How many frames were handled from a connection before position `m`. */
  function Rank(log: seq<Act>, m: int, from: int): nat
    requires 0 <= m <= |log|
  {
    |HandledFrom(log[..m], from)|
  }

  lemma RankLaw(log: seq<Act>, m: int, from: int)
    requires 0 <= m < |log| && log[m].Handle? && log[m].conn == from
    ensures Rank(log, m, from) < |HandledFrom(log, from)| && HandledFrom(log, from)[Rank(log, m, from)] == log[m].frame
    ensures forall l :: m < l <= |log| ==> Rank(log, m, from) < Rank(log, l, from)
  {
    var pre := log[..m];
    assert log[..m + 1][..m] == pre;
    assert HandledFrom(log[..m + 1], from) == HandledFrom(pre, from) + [log[m].frame];
    forall l | m < l <= |log|
      ensures HandledFrom(log[..m + 1], from) <= HandledFrom(log[..l], from)
    {
      assert log[..l] == log[..m + 1] + log[m + 1..l];
      HandledAppend(log[..m + 1], log[m + 1..l], from);
    }
    assert log[..|log|] == log;
  }

  /** Message `j` accepted is frame number `pos[j].1` of what node `pos[j].0` sent. */
  ghost predicate Selected(pos: seq<(int, nat)>, c: int, id: Byte, sent: map<int, seq<Frame>>, messages: seq<(Byte, seq<Byte>)>) {
    && |pos| == |messages|
    && (forall j :: 0 <= j < |pos| ==>
          && pos[j].0 != c && pos[j].0 in sent && pos[j].1 < |sent[pos[j].0]|
          && var f := sent[pos[j].0][pos[j].1]; f.target == id && messages[j] == (f.sender, f.payload))
    && (forall i, j :: 0 <= i < j < |pos| && pos[i].0 == pos[j].0 ==> pos[i].1 < pos[j].1)
  }

  lemma RankSent(w: World, m: int, sent: map<int, seq<Frame>>)
    requires WorldOk(w) && 0 <= m < |w.hub.log| && w.hub.log[m].Handle?
    requires forall d :: d in w.got ==> d in sent && w.got[d] <= EncodeAll(sent[d])
    requires forall d, i :: d in sent && 0 <= i < |sent[d]| ==> ValidFrame(sent[d][i])
    ensures var from := w.hub.log[m].conn;
            from in sent && Rank(w.hub.log, m, from) < |sent[from]| && sent[from][Rank(w.hub.log, m, from)] == w.hub.log[m].frame
  {
    var from := w.hub.log[m].conn;
    assert from in w.got;
    RankLaw(w.hub.log, m, from);
    var k := HandledIsPrefix(w, from, sent[from]);
  }

  /** If every node sends only packets, then what a node accepts is, from each other node, a selection of what that one
      sent for it, in the order sent and without repetition. */
  lemma AcceptedSelection(es: seq<Event>, net: Net, c: int, id: Byte, chunks: seq<seq<Byte>>, sent: map<int, seq<Frame>>)
    returns (pos: seq<(int, nat)>)
    requires Concat(chunks) <= StreamTo(After(es, net).hub.log, c)
    requires forall d :: d in After(es, net).got ==> d in sent && After(es, net).got[d] <= EncodeAll(sent[d])
    requires forall d, i :: d in sent && 0 <= i < |sent[d]| ==> ValidFrame(sent[d][i])
    ensures Selected(pos, c, id, sent, Polls(id, chunks).1)
  {
    var w := After(es, net);
    var log := w.hub.log;
    var idx := AcceptedInOrder(es, net, c, id, chunks);
    RunOk(es, net);
    assert forall j :: 0 <= j < |idx| ==> AcceptedAt(log, c, id, idx[j], Polls(id, chunks).1[j]);
    pos := seq(|idx|, j requires 0 <= j < |idx| => (log[idx[j]].conn, Rank(log, idx[j], log[idx[j]].conn)));
    forall j | 0 <= j < |idx| ensures var from := log[idx[j]].conn;
      from in sent && Rank(log, idx[j], from) < |sent[from]| && sent[from][Rank(log, idx[j], from)] == log[idx[j]].frame
    {
      RankSent(w, idx[j], sent);
    }
    forall i, j | 0 <= i < j < |pos| && pos[i].0 == pos[j].0 ensures pos[i].1 < pos[j].1 {
      RankLaw(log, idx[i], pos[i].0);
    }
  }
}

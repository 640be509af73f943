/** What the hub must do: every frame is attempted on every connection that it is for. */
module LinkServed {
  import opened Bytes
  import opened Wire
  import opened Framing
  import opened HubModel
  import opened Receiver
  import opened Link
  import opened LinkOrder

  // ----- the node id of a connection, read off the log

  /** The sender of the last frame handled from `c`, until a frame with that sender is handled from another connection;
      -1 if there is none. */
  function Claim(log: seq<Act>, c: int): int {
    if log == [] then -1
    else
      var a, id := log[|log| - 1], Claim(log[..|log| - 1], c);
      if a.Send? then id else if a.conn == c then a.frame.sender else if a.frame.sender == id then -1 else id
  }

  lemma ClaimSnoc(log: seq<Act>, a: Act, c: int)
    ensures Claim(log + [a], c)
         == if a.Send? then Claim(log, c) else if a.conn == c then a.frame.sender
            else if a.frame.sender == Claim(log, c) then -1 else Claim(log, c)
  {
    assert (log + [a])[..|log|] == log;
  }

  lemma {:induction false} ClaimSends(log: seq<Act>, b: seq<Act>, c: int)
    requires forall k :: 0 <= k < |b| ==> b[k].Send?
    ensures Claim(log + b, c) == Claim(log, c)
  {
    if b == [] {
      assert log + b == log;
    } else {
      var b', a := b[..|b| - 1], b[|b| - 1];
      ClaimSends(log, b', c);
      ClaimSnoc(log + b', a, c);
      assert log + b == log + b' + [a];
    }
  }

  /** The table holds for every live connection the id that the log gives it. */
  ghost predicate ClaimsOk(h: Hub) {
    forall j :: 0 <= j < |h.peers| && h.peers[j].fd >= 0 ==> ClaimOk(h.peers[j], h.log)
  }

  predicate ClaimOk(p: Peer, log: seq<Act>) { Claim(log, p.fd) == if p.haveNode then p.nodeId else -1 }

  /** Sending only drops peers. */
  ghost predicate OnlyDrops(ps: seq<Peer>, qs: seq<Peer>) {
    |ps| == |qs| && forall j :: 0 <= j < |ps| && qs[j].fd >= 0 ==> qs[j] == ps[j]
  }

  lemma {:induction false} BroadcastDrops(h: Hub, idx: nat, f: Frame, net: Net, j: nat)
    requires j <= |h.peers|
    ensures OnlyDrops(h.peers, Broadcast(h, idx, f, net, j).peers)
    decreases |h.peers| - j
  {
    if j < |h.peers| {
      if h.peers[j].fd < 0 || j == idx {
        BroadcastDrops(h, idx, f, net, j + 1);
      } else {
        BroadcastDrops(SendTo(h, j, f, net), idx, f, net, j + 1);
      }
    }
  }

  lemma ForwardDrops(h: Hub, idx: nat, f: Frame, net: Net)
    requires idx < |h.peers|
    ensures OnlyDrops(h.peers, Forward(h, idx, f, net).peers)
  {
    BroadcastDrops(h, idx, f, net, 0);
  }

  lemma RouteClaims(h: Hub, idx: nat, f: Frame, net: Net)
    requires TableOk(h.peers) && idx < |h.peers| && h.peers[idx].fd >= 0 && ClaimsOk(h)
    ensures ClaimsOk(Route(h, idx, f, net))
  {
    var r, qs, a := Route(h, idx, f, net), Learn(h.peers, idx, f.sender), Handle(h.peers[idx].fd, f);
    var conns := RoutingLaw(h, idx, f, net);
    LearnShape(h.peers, idx, f.sender);
    ForwardDrops(Hub(qs, h.log + [a]), idx, f, net);
    BurstAt(conns, f, net, |h.log| + 1);
    forall j | 0 <= j < |r.peers| && r.peers[j].fd >= 0 ensures ClaimOk(r.peers[j], r.log) {
      ClaimSnoc(h.log, a, qs[j].fd);
      ClaimSends(h.log + [a], Burst(conns, f, net, |h.log| + 1), qs[j].fd);
      assert ClaimOk(h.peers[j], h.log);
    }
  }

  lemma BufClaims(h: Hub, idx: nat, buf: seq<Byte>)
    requires idx < |h.peers| && ClaimsOk(h)
    ensures ClaimsOk(WithBuf(h, idx, buf))
  {
    var qs := WithBuf(h, idx, buf).peers;
    forall j | 0 <= j < |qs| && qs[j].fd >= 0 ensures ClaimOk(qs[j], h.log) { assert ClaimOk(h.peers[j], h.log); }
  }

  // ----- what is due, and what was done

  /** The frame handled at position `m` is for connection `c`: a broadcast, or addressed to the id that `c` then had. */
  predicate Due(log: seq<Act>, m: nat, c: int)
    requires m < |log|
  {
    && log[m].Handle? && log[m].conn != c && log[m].frame.target != log[m].frame.sender
    && (log[m].frame.target == BROADCAST || Claim(log[..m], c) == log[m].frame.target)
  }

  /** It was attempted on `c` before another frame was handled. */
  ghost predicate Attempted(log: seq<Act>, m: nat, c: int)
    requires m < |log|
  {
    exists k :: m < k < |log| && log[k].Send? && log[k].conn == c && log[k].frame == log[m].frame && LastHandle(log, k) == m
  }

  /** Between two logs every frame that was due on `c` was attempted there. */
  ghost predicate Served(from: seq<Act>, to: seq<Act>, c: int) {
    from <= to && forall m :: |from| <= m < |to| && Due(to, m, c) ==> Attempted(to, m, c)
  }

  lemma AttemptedKept(log: seq<Act>, all: seq<Act>, m: nat, c: int)
    requires log <= all && m < |log| && Attempted(log, m, c)
    ensures Attempted(all, m, c)
  {
    var k :| m < k < |log| && log[k].Send? && log[k].conn == c && log[k].frame == log[m].frame && LastHandle(log, k) == m;
    assert all == log + all[|log|..];
    LastHandleKept(log, all[|log|..], k);
    assert all[k] == log[k] && all[m] == log[m];
  }

  lemma ServedThen(a: seq<Act>, b: seq<Act>, d: seq<Act>, c: int)
    requires Served(a, b, c) && Served(b, d, c)
    ensures Served(a, d, c)
  {
    forall m | |a| <= m < |d| && Due(d, m, c) ensures Attempted(d, m, c) {
      if m < |b| {
        assert b[..m] == d[..m] && b[m] == d[m];
        assert Due(b, m, c);
        AttemptedKept(b, d, m, c);
      }
    }
  }

  ghost predicate Live(ps: seq<Peer>, c: int) {
    exists j :: 0 <= j < |ps| && ps[j].fd == c
  }

  /** The recipients of a frame include every connection that it is for. */
  lemma DueIsRecipient(h: Hub, idx: nat, f: Frame, conns: seq<int>, c: int)
    requires TableOk(h.peers) && idx < |h.peers| && h.peers[idx].fd >= 0 && ClaimsOk(h) && c >= 0 && Live(h.peers, c)
    requires Recipients(h.peers, idx, f, conns) && c != h.peers[idx].fd && f.target != f.sender
    requires f.target == BROADCAST || Claim(h.log, c) == f.target
    ensures c in conns
  {
    var i :| 0 <= i < |h.peers| && h.peers[i].fd == c;
    if f.target == BROADCAST {
      LiveOthersComplete(h.peers, idx, 0, i);
      assert multiset(conns)[c] == 1;
    } else {
      assert ClaimOk(h.peers[i], h.log);
      assert Holds(h.peers[i], f.target);
      var j :| 0 <= j < |h.peers| && j != idx && Holds(h.peers[j], f.target) && conns == [h.peers[j].fd];
      assert Known(h.peers[i]) && Known(h.peers[j]);
    }
  }

  lemma RouteServes(h: Hub, idx: nat, f: Frame, net: Net, c: int)
    requires TableOk(h.peers) && idx < |h.peers| && h.peers[idx].fd >= 0 && ClaimsOk(h) && c >= 0 && Live(h.peers, c)
    ensures Served(h.log, Route(h, idx, f, net).log, c)
  {
    var conns := RoutingLaw(h, idx, f, net);
    BurstAt(conns, f, net, |h.log| + 1);
    if c != h.peers[idx].fd && f.target != f.sender && (f.target == BROADCAST || Claim(h.log, c) == f.target) {
      DueIsRecipient(h, idx, f, conns, c);
    }
    GroupServes(h.log, h.peers[idx].fd, f, Burst(conns, f, net, |h.log| + 1), conns, c);
  }

  /** A group whose sends include every connection that its frame is for. */
  lemma GroupServes(log: seq<Act>, from: int, f: Frame, b: seq<Act>, conns: seq<int>, c: int)
    requires |b| == |conns| && forall j :: 0 <= j < |b| ==> b[j].Send? && b[j].conn == conns[j] && b[j].frame == f
    requires c != from && f.target != f.sender && (f.target == BROADCAST || Claim(log, c) == f.target) ==> c in conns
    ensures Served(log, log + [Handle(from, f)] + b, c)
  {
    var all, n := log + [Handle(from, f)] + b, |log|;
    forall m | n < m < |all| ensures all[m] == b[m - n - 1] { }
    forall m | n <= m < |all| && Due(all, m, c) ensures Attempted(all, m, c) {
      assert m == n && all[..n] == log && all[n] == Handle(from, f);
      var j :| 0 <= j < |conns| && conns[j] == c;
      LastHandleIs(all, n + 1 + j, n);
      assert all[n + 1 + j] == b[j];
    }
  }

  // ----- runs

  lemma LiveBefore(ps: seq<Peer>, qs: seq<Peer>, idx: nat, c: int)
    requires Others(ps, qs, idx) && idx < |ps| && qs[idx].fd == ps[idx].fd && c >= 0 && Live(qs, c)
    ensures Live(ps, c)
  {
    var j :| 0 <= j < |qs| && qs[j].fd == c;
    if j != idx { assert Bystander(ps[j], qs[j]); }
    assert ps[j].fd == c;
  }

  /** Processing a buffer keeps the claims, and serves every connection that is live when it ends. */
  lemma {:induction false} ProcessServes(h: Hub, idx: nat, net: Net, c: int)
    requires TableOk(h.peers) && idx < |h.peers| && h.peers[idx].fd >= 0 && ClaimsOk(h)
    ensures ClaimsOk(Process(h, idx, net))
    ensures c >= 0 && Live(Process(h, idx, net).peers, c) ==> Served(h.log, Process(h, idx, net).log, c)
    decreases |h.peers[idx].buf|
  {
    var buf := h.peers[idx].buf;
    match Judge(buf)
    case Wait =>
    case Skip =>
      BufKeepsTable(h, idx, buf[1..]);
      BufClaims(h, idx, buf[1..]);
      ProcessServes(WithBuf(h, idx, buf[1..]), idx, net, c);
    case Take(f) =>
      TakeIsPrefix(buf, f);
      RouteThenProcess(h, idx, f, buf[|Encode(f)|..], net, c);
      ProcessServes(WithBuf(Route(h, idx, f, net), idx, buf[|Encode(f)|..]), idx, net, c);
      if c >= 0 && Live(Process(h, idx, net).peers, c) {
        ServedThen(h.log, Route(h, idx, f, net).log, Process(h, idx, net).log, c);
      }
  }

  lemma RouteThenProcess(h: Hub, idx: nat, f: Frame, rest: seq<Byte>, net: Net, c: int)
    requires TableOk(h.peers) && idx < |h.peers| && h.peers[idx].fd >= 0 && ClaimsOk(h)
    ensures var h1 := WithBuf(Route(h, idx, f, net), idx, rest);
            && TableOk(h1.peers) && h1.peers[idx].fd >= 0 && ClaimsOk(h1)
            && (c >= 0 && Live(Process(h1, idx, net).peers, c) ==> Served(h.log, h1.log, c))
  {
    var r := Route(h, idx, f, net);
    var h1 := WithBuf(r, idx, rest);
    RouteKeepsTable(h, idx, f, net);
    RouteClaims(h, idx, f, net);
    BufKeepsTable(r, idx, rest);
    BufClaims(r, idx, rest);
    if c >= 0 && Live(Process(h1, idx, net).peers, c) {
      ProcessLaw(h1, idx, net, c);
      OthersTransitive(h.peers, r.peers, h1.peers, idx);
      OthersTransitive(h.peers, h1.peers, Process(h1, idx, net).peers, idx);
      LiveBefore(h.peers, Process(h1, idx, net).peers, idx, c);
      RouteServes(h, idx, f, net, c);
    }
  }

  lemma DropClaims(h: Hub, idx: nat)
    requires idx < |h.peers| && ClaimsOk(h)
    ensures ClaimsOk(h.(peers := h.peers[idx := Dropped(h.peers[idx])]))
  {
  }

  lemma ServeServes(h: Hub, idx: nat, r: Recv, net: Net, c: int)
    requires TableOk(h.peers) && idx < |h.peers| && ClaimsOk(h)
    ensures ClaimsOk(Serve(h, idx, r, net))
    ensures c >= 0 && Live(Serve(h, idx, r, net).peers, c) ==> Served(h.log, Serve(h, idx, r, net).log, c)
  {
    var p := h.peers[idx];
    DropClaims(h, idx);
    if p.fd >= 0 && |p.buf| < BUF_CAP && r.Chunk? {
      var got := p.buf + Room(r.bytes, p.buf);
      BufKeepsTable(h, idx, got);
      BufClaims(h, idx, got);
      ProcessServes(WithBuf(h, idx, got), idx, net, c);
    }
  }

  lemma {:induction false} UnknownClaim(log: seq<Act>, c: int)
    requires forall k :: 0 <= k < |log| ==> log[k].conn != c
    ensures Claim(log, c) == -1
  {
    if log != [] { UnknownClaim(log[..|log| - 1], c); }
  }

  lemma AcceptClaims(w: World, fd: int)
    requires WorldOk(w) && ClaimsOk(w.hub) && fd >= 0 && fd !in w.got
    ensures ClaimsOk(w.hub.(peers := Accept(w.hub.peers, fd)))
  {
    var qs := Accept(w.hub.peers, fd);
    UnknownClaim(w.hub.log, fd);
    forall j | 0 <= j < |qs| && qs[j].fd >= 0 ensures ClaimOk(qs[j], w.hub.log) {
      assert qs[j] != Peer(fd, false, 0, []) ==> ClaimOk(w.hub.peers[j], w.hub.log);
    }
  }

  lemma StepServes(w: World, e: Event, net: Net, c: int)
    requires WorldOk(w) && ClaimsOk(w.hub)
    ensures ClaimsOk(Step(w, e, net).hub)
    ensures c >= 0 && Live(Step(w, e, net).hub.peers, c) ==> Served(w.hub.log, Step(w, e, net).hub.log, c)
  {
    if Enabled(w, e) {
      match e
      case Connect(fd) => AcceptClaims(w, fd);
      case Turn(slot, r) => ServeServes(w.hub, slot, r, net, c);
    }
  }

  lemma {:induction false} RunClaims(es: seq<Event>, net: Net)
    ensures ClaimsOk(After(es, net).hub)
  {
    if es != [] {
      RunClaims(es[..|es| - 1], net);
      RunOk(es[..|es| - 1], net);
      StepServes(After(es[..|es| - 1], net), es[|es| - 1], net, 0);
    }
  }

  /** A connection once seen does not come back. */
  lemma StillLive(w: World, e: Event, net: Net, c: int)
    requires WorldOk(w) && c >= 0 && c in w.got && Live(Step(w, e, net).hub.peers, c)
    ensures Live(w.hub.peers, c) && c in Step(w, e, net).got
  {
    var w' := Step(w, e, net);
    var j :| 0 <= j < |w'.hub.peers| && w'.hub.peers[j].fd == c;
    if Enabled(w, e) && e.Turn? { ServeLaw(w.hub, e.slot, e.r, net); }
    assert w.hub.peers[j].fd == c;
  }

  lemma GotGrows(w: World, e: Event, net: Net)
    requires |w.hub.peers| == MAX_PEERS
    ensures w.got.Keys <= Step(w, e, net).got.Keys
  {
  }

  lemma {:induction false} SeenStays(pre: seq<Event>, more: seq<Event>, net: Net)
    ensures After(pre, net).got.Keys <= After(pre + more, net).got.Keys
  {
    if more == [] {
      assert pre + more == pre;
    } else {
      var m := more[..|more| - 1];
      SeenStays(pre, m, net);
      assert (pre + more)[..|pre + more| - 1] == pre + m;
      GotGrows(After(pre + m, net), more[|more| - 1], net);
    }
  }

  /** In every run, for every connection that is live at some point and still live later: each frame handled in between
      from another connection that is a broadcast, or is addressed to the id that the connection then had, was attempted
      on it before another frame was handled. */
  lemma {:induction false} EveryFrameAttempted(pre: seq<Event>, more: seq<Event>, net: Net, c: int)
    requires c >= 0 && Live(After(pre, net).hub.peers, c) && Live(After(pre + more, net).hub.peers, c)
    ensures Served(After(pre, net).hub.log, After(pre + more, net).hub.log, c)
  {
    if more == [] {
      assert pre + more == pre;
    } else {
      var m, e := more[..|more| - 1], more[|more| - 1];
      var w := After(pre + m, net);
      assert (pre + more)[..|pre + more| - 1] == pre + m && (pre + more)[|pre + more| - 1] == e;
      RunOk(pre, net);
      RunOk(pre + m, net);
      RunClaims(pre + m, net);
      SeenStays(pre, m, net);
      StillLive(w, e, net, c);
      EveryFrameAttempted(pre, m, net, c);
      StepServes(w, e, net, c);
      ServedThen(After(pre, net).hub.log, w.hub.log, After(pre + more, net).hub.log, c);
    }
  }

  // ----- who is connected

  /** A connection that may be made is live afterwards if a slot is unused, and otherwise nothing changes. */
  lemma ConnectedIsLive(w: World, fd: int, net: Net)
    requires WorldOk(w) && Enabled(w, Connect(fd))
    ensures var w' := Step(w, Connect(fd), net);
            if exists i :: 0 <= i < MAX_PEERS && w.hub.peers[i].fd < 0
            then Live(w'.hub.peers, fd) && fd in w'.got && w'.got[fd] == [] && HandledFrom(w'.hub.log, fd) == []
            else w' == w
  {
    assert forall j :: 0 <= j < MAX_PEERS && w.hub.peers[j].fd >= 0 ==> w.hub.peers[j].fd != fd;
    AcceptLaw(w.hub.peers, fd);
    HandledUnknown(w.hub.log, fd);
    if i :| 0 <= i < MAX_PEERS && w.hub.peers[i].fd < 0 {
      var k :| 0 <= k < MAX_PEERS && Accept(w.hub.peers, fd) == w.hub.peers[k := Peer(fd, false, 0, [])];
      assert Accept(w.hub.peers, fd)[k].fd == fd;
    }
  }

  /** A send on `c` failed after position `from`. */
  ghost predicate FailedSince(log: seq<Act>, from: nat, c: int) {
    exists k :: from <= k < |log| && log[k].Send? && log[k].conn == c && log[k].outcome.Failed?
  }

  /** Whoever was live still is, unless a send to it failed. */
  ghost predicate LostByFailure(h: Hub, r: Hub) {
    && h.log <= r.log && |h.peers| == |r.peers|
    && forall j :: 0 <= j < |h.peers| && h.peers[j].fd >= 0 ==> r.peers[j].fd == h.peers[j].fd || FailedSince(r.log, |h.log|, h.peers[j].fd)
  }

  lemma LostThen(a: Hub, b: Hub, d: Hub)
    requires LostByFailure(a, b) && LostByFailure(b, d)
    ensures LostByFailure(a, d)
  {
    forall j | 0 <= j < |a.peers| && a.peers[j].fd >= 0 && d.peers[j].fd != a.peers[j].fd
      ensures FailedSince(d.log, |a.log|, a.peers[j].fd)
    {
      if b.peers[j].fd == a.peers[j].fd {
        assert FailedSince(d.log, |b.log|, b.peers[j].fd);
      } else {
        var k :| |a.log| <= k < |b.log| && b.log[k].Send? && b.log[k].conn == a.peers[j].fd && b.log[k].outcome.Failed?;
        assert d.log[k] == b.log[k];
      }
    }
  }

  lemma SendLoses(h: Hub, j: nat, f: Frame, net: Net)
    requires j < |h.peers| && h.peers[j].fd >= 0
    ensures LostByFailure(h, SendTo(h, j, f, net))
  {
    var r := SendTo(h, j, f, net);
    assert r.log[|h.log|].conn == h.peers[j].fd;
  }

  lemma {:induction false} BroadcastLoses(h: Hub, idx: nat, f: Frame, net: Net, j: nat)
    requires j <= |h.peers|
    ensures LostByFailure(h, Broadcast(h, idx, f, net, j))
    decreases |h.peers| - j
  {
    if j < |h.peers| {
      if h.peers[j].fd < 0 || j == idx {
        BroadcastLoses(h, idx, f, net, j + 1);
      } else {
        SendLoses(h, j, f, net);
        BroadcastLoses(SendTo(h, j, f, net), idx, f, net, j + 1);
        LostThen(h, SendTo(h, j, f, net), Broadcast(h, idx, f, net, j));
      }
    }
  }

  lemma RouteLoses(h: Hub, idx: nat, f: Frame, net: Net)
    requires TableOk(h.peers) && idx < |h.peers| && h.peers[idx].fd >= 0
    ensures LostByFailure(h, Route(h, idx, f, net))
  {
    var h1 := Hub(Learn(h.peers, idx, f.sender), h.log + [Handle(h.peers[idx].fd, f)]);
    LearnShape(h.peers, idx, f.sender);
    if f.target != f.sender {
      if f.target == BROADCAST {
        BroadcastLoses(h1, idx, f, net, 0);
      } else {
        var dst := FindByNode(h1.peers, f.target, 0);
        if dst >= 0 { SendLoses(h1, dst, f, net); }
      }
    }
    LostThen(h, h1, Route(h, idx, f, net));
  }

  lemma {:induction false} ProcessLoses(h: Hub, idx: nat, net: Net)
    requires TableOk(h.peers) && idx < |h.peers| && h.peers[idx].fd >= 0
    ensures LostByFailure(h, Process(h, idx, net))
    decreases |h.peers[idx].buf|
  {
    var buf := h.peers[idx].buf;
    match Judge(buf)
    case Wait =>
    case Skip =>
      BufKeepsTable(h, idx, buf[1..]);
      ProcessLoses(WithBuf(h, idx, buf[1..]), idx, net);
    case Take(f) =>
      TakeIsPrefix(buf, f);
      RouteKeepsTable(h, idx, f, net);
      RouteLoses(h, idx, f, net);
      var h1 := WithBuf(Route(h, idx, f, net), idx, buf[|Encode(f)|..]);
      BufKeepsTable(Route(h, idx, f, net), idx, buf[|Encode(f)|..]);
      ProcessLoses(h1, idx, net);
      LostThen(h, h1, Process(h, idx, net));
  }

  /** The stream of connection `c` ends in this event. */
  predicate Ends(w: World, e: Event, c: int)
    requires |w.hub.peers| == MAX_PEERS
  {
    e.Turn? && e.slot < MAX_PEERS && w.hub.peers[e.slot].fd == c && (e.r == Closed || e.r == Chunk([]))
  }

  /** A live connection leaves the table exactly when its stream ends or a send to it fails. */
  lemma LeavesWhen(w: World, e: Event, net: Net, c: int)
    requires WorldOk(w) && c >= 0 && Live(w.hub.peers, c)
    ensures var w' := Step(w, e, net);
            Live(w'.hub.peers, c) <==> !Ends(w, e, c) && !FailedSince(w'.hub.log, |w.hub.log|, c)
  {
    var w' := Step(w, e, net);
    var j :| 0 <= j < MAX_PEERS && w.hub.peers[j].fd == c;
    StepKeepsOk(w, e, net);
    if Enabled(w, e) && e.Turn? {
      TurnLeaves(w, e.slot, e.r, net, c, j);
    } else {
      StepKeepsLive(w, e, net, j);
    }
  }

  lemma StepKeepsLive(w: World, e: Event, net: Net, j: nat)
    requires WorldOk(w) && j < MAX_PEERS && w.hub.peers[j].fd >= 0 && !(Enabled(w, e) && e.Turn?)
    ensures Step(w, e, net).hub.peers[j] == w.hub.peers[j] && Step(w, e, net).hub.log == w.hub.log
    ensures !Ends(w, e, w.hub.peers[j].fd)
  {
    if Enabled(w, e) {
      assert forall i :: 0 <= i < MAX_PEERS && w.hub.peers[i].fd >= 0 ==> w.hub.peers[i].fd != e.fd;
      AcceptLaw(w.hub.peers, e.fd);
    }
  }

  lemma TurnLeaves(w: World, slot: nat, r: Recv, net: Net, c: int, j: nat)
    requires WorldOk(w) && slot < MAX_PEERS && c >= 0 && j < MAX_PEERS && w.hub.peers[j].fd == c
    requires WorldOk(Step(w, Turn(slot, r), net))
    ensures var w' := Step(w, Turn(slot, r), net);
            Live(w'.hub.peers, c) <==> !Ends(w, Turn(slot, r), c) && !FailedSince(w'.hub.log, |w.hub.log|, c)
  {
    var w' := Step(w, Turn(slot, r), net);
    ServeLaw(w.hub, slot, r, net);
    BufferNeverFull(w, slot);
    ServeLoses(w.hub, slot, r, net);
    LiveIsSame(w.hub.peers, w'.hub.peers, c, j);
    if FailedSince(w'.hub.log, |w.hub.log|, c) { FailedIsGone(w', |w.hub.log|, c); }
  }

  /** A turn loses its own connection at the end of the stream, and others by failed sends only. */
  lemma ServeLoses(h: Hub, slot: nat, r: Recv, net: Net)
    requires TableOk(h.peers) && slot < MAX_PEERS && |h.peers[slot].buf| < BUF_CAP
    ensures var r' := Serve(h, slot, r, net);
            if h.peers[slot].fd >= 0 && (r == Closed || r == Chunk([])) then OnlyDropped(h, r', slot) else LostByFailure(h, r')
  {
    var p := h.peers[slot];
    if p.fd >= 0 && r.Chunk? && r.bytes != [] {
      var got := p.buf + Room(r.bytes, p.buf);
      BufKeepsTable(h, slot, got);
      ProcessLoses(WithBuf(h, slot, got), slot, net);
    }
  }

  /** A slot either keeps its connection or is unused, so a connection stays where it is. */
  lemma LiveIsSame(ps: seq<Peer>, qs: seq<Peer>, c: int, j: nat)
    requires TableOk(ps) && |qs| == |ps| && j < |ps| && ps[j].fd == c >= 0
    requires forall i :: 0 <= i < |ps| ==> qs[i].fd in {ps[i].fd, -1}
    ensures Live(qs, c) <==> qs[j].fd == c
  {
  }

  lemma FailedIsGone(w: World, from: nat, c: int)
    requires WorldOk(w) && c >= 0 && FailedSince(w.hub.log, from, c)
    ensures !Live(w.hub.peers, c)
  {
  }
}

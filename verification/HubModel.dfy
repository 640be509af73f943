/** The hub as a value: its peer table, the record of what it did, and one function per
    routine.  Everything the sockets decide is a parameter. */
module HubModel {
  import opened Bytes
  import opened Wire
  import opened Framing

  const MAX_PEERS := 64
  const BUF_CAP := 8192
  const BROADCAST: Byte := 0xFF

  /** One slot of the peer table; `fd` is negative when the slot is unused.  A descriptor
      stands for its connection, so a new connection always gets a new number. */
  datatype Peer = Peer(fd: int, haveNode: bool, nodeId: Byte, buf: seq<Byte>)

  /** How a send ended; a failed one may have transmitted part of the frame. */
  datatype Outcome = Delivered | Failed(partial: nat)

  datatype Act =
    | Handle(conn: int, frame: Frame)
    | Send(conn: int, frame: Frame, outcome: Outcome)

  datatype Hub = Hub(peers: seq<Peer>, log: seq<Act>)

  /** The outcome of a send, indexed by the length of the log when it is attempted. */
  type Net = nat -> Outcome

  type Table = ps: seq<Peer> | |ps| == MAX_PEERS witness seq(MAX_PEERS, i => Peer(-1, false, 0, []))

  function EmptyTable(): (ps: Table)
    ensures forall i :: 0 <= i < MAX_PEERS ==> ps[i] == Peer(-1, false, 0, [])
  {
    seq(MAX_PEERS, i => Peer(-1, false, 0, []))
  }

  predicate Holds(p: Peer, id: Byte) {
    p.fd >= 0 && p.haveNode && p.nodeId == id
  }

  /** The lowest slot from `i` on that holds node `id`, or -1. */
  function FindByNode(ps: seq<Peer>, id: Byte, i: nat): (r: int)
    requires i <= |ps|
    ensures -1 <= r < |ps|
    ensures r >= 0 ==> i <= r && Holds(ps[r], id)
    ensures r < 0 ==> forall j :: i <= j < |ps| ==> !Holds(ps[j], id)
    decreases |ps| - i
  {
    if i == |ps| then -1 else if Holds(ps[i], id) then i else FindByNode(ps, id, i + 1)
  }

  /** The lowest unused slot from `i` on, or -1. */
  function FreeSlot(ps: seq<Peer>, i: nat): (r: int)
    requires i <= |ps|
    ensures -1 <= r < |ps|
    ensures r >= 0 ==> i <= r && ps[r].fd < 0
    ensures r < 0 ==> forall j :: i <= j < |ps| ==> ps[j].fd >= 0
    decreases |ps| - i
  {
    if i == |ps| then -1 else if ps[i].fd < 0 then i else FreeSlot(ps, i + 1)
  }

  function Accept(ps: Table, fd: int): (r: Table) {
    var i := FreeSlot(ps, 0);
    if i < 0 then ps else ps[i := Peer(fd, false, 0, [])]
  }

  function Dropped(p: Peer): Peer {
    if p.fd < 0 then p else p.(fd := -1, haveNode := false, buf := [])
  }

  /** One send to slot `j`; the slot is dropped when the send fails. */
  function SendTo(h: Hub, j: nat, f: Frame, net: Net): (r: Hub)
    requires j < |h.peers|
    ensures |r.peers| == |h.peers|
  {
    var o := net(|h.log|);
    Hub(if o.Failed? then h.peers[j := Dropped(h.peers[j])] else h.peers,
        h.log + [Send(h.peers[j].fd, f, o)])
  }

  /** Sends to every live slot from `j` on except `idx`. */
  function Broadcast(h: Hub, idx: nat, f: Frame, net: Net, j: nat): (r: Hub)
    requires j <= |h.peers|
    ensures |r.peers| == |h.peers|
    decreases |h.peers| - j
  {
    if j == |h.peers| then h
    else if h.peers[j].fd < 0 || j == idx then Broadcast(h, idx, f, net, j + 1)
    else Broadcast(SendTo(h, j, f, net), idx, f, net, j + 1)
  }

  /** Binds `sender` to slot `idx`, taking it away from the slot that held it. */
  function Learn(ps: seq<Peer>, idx: nat, sender: Byte): (r: seq<Peer>)
    requires idx < |ps|
    ensures |r| == |ps|
  {
    if ps[idx].haveNode && ps[idx].nodeId == sender then ps
    else
      var prev := FindByNode(ps, sender, 0);
      var ps' := if prev >= 0 && prev != idx then ps[prev := ps[prev].(haveNode := false)] else ps;
      ps'[idx := ps'[idx].(haveNode := true, nodeId := sender)]
  }

  /** Passes a frame on: to nobody, to everybody else, or to the slot holding its target. */
  function Forward(h: Hub, idx: nat, f: Frame, net: Net): (r: Hub)
    requires idx < |h.peers|
    ensures |r.peers| == |h.peers|
  {
    if f.target == f.sender then h
    else if f.target == BROADCAST then Broadcast(h, idx, f, net, 0)
    else
      var dst := FindByNode(h.peers, f.target, 0);
      if dst < 0 then h else SendTo(h, dst, f, net)
  }

  /** Everything the hub does with one frame received on slot `idx`. */
  function Route(h: Hub, idx: nat, f: Frame, net: Net): (r: Hub)
    requires idx < |h.peers|
    ensures |r.peers| == |h.peers|
  {
    Forward(Hub(Learn(h.peers, idx, f.sender), h.log + [Handle(h.peers[idx].fd, f)]), idx, f, net)
  }

  function WithBuf(h: Hub, idx: nat, buf: seq<Byte>): (r: Hub)
    requires idx < |h.peers|
    ensures |r.peers| == |h.peers|
  {
    h.(peers := h.peers[idx := h.peers[idx].(buf := buf)])
  }

  /** The scanning loop on slot `idx`. */
  function Process(h: Hub, idx: nat, net: Net): (r: Hub)
    requires idx < |h.peers|
    ensures |r.peers| == |h.peers|
    decreases |h.peers[idx].buf|
  {
    var buf := h.peers[idx].buf;
    match Judge(buf)
    case Wait => h
    case Skip => Process(WithBuf(h, idx, buf[1..]), idx, net)
    case Take(f) =>
      var h' := (TakeIsPrefix(buf, f); WithBuf(Route(h, idx, f, net), idx, buf[|Encode(f)|..]));
      Process(h', idx, net)
  }

  /** What `recv` reports. */
  datatype Recv = Again | Closed | Chunk(bytes: seq<Byte>)

  /** One turn of slot `idx` in a poll round.  A chunk is cut to the room in the buffer. */
  function Serve(h: Hub, idx: nat, r: Recv, net: Net): (h': Hub)
    requires idx < |h.peers|
    ensures |h'.peers| == |h.peers|
  {
    var p := h.peers[idx];
    if p.fd < 0 then h
    else if |p.buf| >= BUF_CAP then h.(peers := h.peers[idx := Dropped(p)])
    else match r
      case Again => h
      case Closed => h.(peers := h.peers[idx := Dropped(p)])
      case Chunk(bytes) =>
        var got := Room(bytes, p.buf);
        if got == [] then h.(peers := h.peers[idx := Dropped(p)])
        else Process(WithBuf(h, idx, p.buf + got), idx, net)
  }

  function Room(bytes: seq<Byte>, buf: seq<Byte>): seq<Byte>
    requires |buf| <= BUF_CAP
  {
    if |bytes| <= BUF_CAP - |buf| then bytes else bytes[..BUF_CAP - |buf|]
  }

  // ----- invariants

  ghost predicate DistinctConns(ps: seq<Peer>) {
    forall i, j :: 0 <= i < j < |ps| && ps[i].fd >= 0 && ps[j].fd >= 0 ==> ps[i].fd != ps[j].fd
  }

  predicate Known(p: Peer) { p.fd >= 0 && p.haveNode }

  ghost predicate DistinctNodes(ps: seq<Peer>) {
    forall i, j :: 0 <= i < j < |ps| && Known(ps[i]) && Known(ps[j]) ==> ps[i].nodeId != ps[j].nodeId
  }

  ghost predicate UnusedBlank(ps: seq<Peer>) {
    forall i :: 0 <= i < |ps| && ps[i].fd < 0 ==> !ps[i].haveNode && ps[i].buf == []
  }

  /** No two live slots hold the same node, none share a connection, unused slots are blank. */
  ghost predicate TableOk(ps: seq<Peer>) {
    |ps| == MAX_PEERS && DistinctConns(ps) && DistinctNodes(ps) && UnusedBlank(ps)
  }

  /** How one slot may change while another slot is being served: not at all, losing its node,
      or being dropped. */
  predicate Bystander(p: Peer, q: Peer) {
    || q == (if p.fd < 0 then p else Peer(-1, false, p.nodeId, []))
    || (q.fd == p.fd && q.buf == p.buf && q.nodeId == p.nodeId && (q.haveNode ==> p.haveNode))
  }

  ghost predicate Others(ps: seq<Peer>, qs: seq<Peer>, idx: nat) {
    |ps| == |qs| && forall j :: 0 <= j < |ps| && j != idx ==> Bystander(ps[j], qs[j])
  }

  lemma OthersTransitive(ps: seq<Peer>, qs: seq<Peer>, rs: seq<Peer>, idx: nat)
    requires Others(ps, qs, idx) && Others(qs, rs, idx)
    ensures Others(ps, rs, idx)
  {
    forall j | 0 <= j < |ps| && j != idx ensures Bystander(ps[j], rs[j]) {
      assert Bystander(ps[j], qs[j]) && Bystander(qs[j], rs[j]);
    }
  }

  /** The connections of the live slots from `j` on except `idx`, in slot order. */
  function LiveOthers(ps: seq<Peer>, idx: nat, j: nat): seq<int>
    requires j <= |ps|
    decreases |ps| - j
  {
    if j == |ps| then []
    else if ps[j].fd < 0 || j == idx then LiveOthers(ps, idx, j + 1)
    else [ps[j].fd] + LiveOthers(ps, idx, j + 1)
  }

  /** A burst of sends of `f`, one per connection listed, ending as `net` says. */
  function Burst(conns: seq<int>, f: Frame, net: Net, at: nat): seq<Act> {
    if conns == [] then [] else [Send(conns[0], f, net(at))] + Burst(conns[1..], f, net, at + 1)
  }

  /** A connection on which a send failed is gone from the table. */
  ghost predicate FailuresDropped(ps: seq<Peer>, log: seq<Act>) {
    forall k, j :: 0 <= k < |log| && 0 <= j < |ps| && log[k].Send? && log[k].outcome.Failed? && ps[j].fd >= 0
      ==> ps[j].fd != log[k].conn
  }

  /** Nothing is sent on a connection after a send on it failed. */
  ghost predicate FailureIsLast(log: seq<Act>) {
    forall k, m :: 0 <= k < m < |log| && log[k].Send? && log[k].outcome.Failed? && log[m].Send? ==> log[k].conn != log[m].conn
  }

  predicate CausedBy(send: Act, cause: Act) {
    cause.Handle? && cause.frame == send.frame && cause.conn != send.conn
  }

  /** Every frame sent was handled before, from another connection. */
  ghost predicate Causal(log: seq<Act>) {
    forall k :: 0 <= k < |log| && log[k].Send? ==> exists m :: 0 <= m < k && CausedBy(log[k], log[m])
  }

  /** The log speaks of known connections and valid frames only, and keeps the three laws. */
  ghost predicate LogOk(h: Hub, known: set<int>) {
    && (forall i :: 0 <= i < |h.peers| && h.peers[i].fd >= 0 ==> h.peers[i].fd in known)
    && (forall k :: 0 <= k < |h.log| ==> h.log[k].conn in known && ValidFrame(h.log[k].frame))
    && FailuresDropped(h.peers, h.log) && FailureIsLast(h.log) && Causal(h.log)
  }

  lemma LearnShape(ps: seq<Peer>, idx: nat, sender: Byte)
    requires TableOk(ps) && idx < |ps| && ps[idx].fd >= 0
    ensures var qs := Learn(ps, idx, sender);
            && Others(ps, qs, idx)
            && qs[idx] == ps[idx].(haveNode := true, nodeId := sender)
            && (forall j :: 0 <= j < |ps| ==> qs[j].fd == ps[j].fd && qs[j].buf == ps[j].buf)
            && (forall j :: 0 <= j < |ps| && j != idx ==> Known(qs[j]) == (Known(ps[j]) && ps[j].nodeId != sender) && qs[j].nodeId == ps[j].nodeId)
  {
    var qs := Learn(ps, idx, sender);
    var prev := FindByNode(ps, sender, 0);
    if !(ps[idx].haveNode && ps[idx].nodeId == sender) {
      forall j | 0 <= j < |ps| && j != idx
        ensures Known(qs[j]) == (Known(ps[j]) && ps[j].nodeId != sender)
      {
        if Known(ps[j]) && ps[j].nodeId == sender {
          assert Holds(ps[j], sender);
          assert prev == j;
        }
      }
    }
  }

  lemma LearnKeepsTable(ps: seq<Peer>, idx: nat, sender: Byte)
    requires TableOk(ps) && idx < |ps| && ps[idx].fd >= 0
    ensures TableOk(Learn(ps, idx, sender))
  {
    LearnShape(ps, idx, sender);
    var qs := Learn(ps, idx, sender);
    forall i, j | 0 <= i < j < |qs| && Known(qs[i]) && Known(qs[j]) ensures qs[i].nodeId != qs[j].nodeId {
      if i != idx && j != idx {
        assert Known(ps[i]) && Known(ps[j]);
      }
    }
  }

  lemma DropKeepsTable(ps: seq<Peer>, j: nat, idx: nat)
    requires TableOk(ps) && j < |ps|
    ensures TableOk(ps[j := Dropped(ps[j])]) && Others(ps, ps[j := Dropped(ps[j])], idx)
  {
    var qs := ps[j := Dropped(ps[j])];
    assert forall i :: 0 <= i < |ps| && Known(qs[i]) ==> Known(ps[i]) && qs[i] == ps[i];
  }

  lemma SendToLaw(h: Hub, idx: nat, j: nat, f: Frame, net: Net)
    requires TableOk(h.peers) && j < |h.peers| && idx < |h.peers| && j != idx && h.peers[j].fd >= 0
    ensures var r := SendTo(h, j, f, net);
            && TableOk(r.peers) && Others(h.peers, r.peers, idx) && r.peers[idx] == h.peers[idx]
            && (forall k :: 0 <= k < |h.peers| && k != j ==> r.peers[k] == h.peers[k])
  {
    DropKeepsTable(h.peers, j, idx);
  }

  /** A broadcast leaves the table in order and its own slot alone. */
  lemma {:induction false} BroadcastKeepsTable(h: Hub, idx: nat, f: Frame, net: Net, j: nat)
    requires TableOk(h.peers) && j <= |h.peers| && idx < |h.peers|
    ensures var r := Broadcast(h, idx, f, net, j);
            && TableOk(r.peers) && Others(h.peers, r.peers, idx)
            && r.peers[idx] == h.peers[idx]
    decreases |h.peers| - j
  {
    if j < |h.peers| {
      if h.peers[j].fd < 0 || j == idx {
        BroadcastKeepsTable(h, idx, f, net, j + 1);
      } else {
        var h1 := SendTo(h, j, f, net);
        SendToLaw(h, idx, j, f, net);
        BroadcastKeepsTable(h1, idx, f, net, j + 1);
        OthersTransitive(h.peers, h1.peers, Broadcast(h, idx, f, net, j).peers, idx);
      }
    }
  }

  /** A broadcast attempts each other live connection exactly once, in slot order. */
  lemma {:induction false} BroadcastLog(h: Hub, idx: nat, f: Frame, net: Net, j: nat)
    requires j <= |h.peers|
    ensures Broadcast(h, idx, f, net, j).log == h.log + Burst(LiveOthers(h.peers, idx, j), f, net, |h.log|)
    decreases |h.peers| - j
  {
    if j == |h.peers| {
      assert h.log + [] == h.log;
    } else if h.peers[j].fd < 0 || j == idx {
      BroadcastLog(h, idx, f, net, j + 1);
    } else {
      var h1 := SendTo(h, j, f, net);
      BroadcastLog(h1, idx, f, net, j + 1);
      LiveOthersUnchanged(h.peers, h1.peers, idx, j + 1);
      var more := LiveOthers(h.peers, idx, j + 1);
      assert ([h.peers[j].fd] + more)[1..] == more;
      Associative(h.log, [Send(h.peers[j].fd, f, net(|h.log|))], Burst(more, f, net, |h1.log|));
    }
  }

  lemma {:induction false} LiveOthersUnchanged(ps: seq<Peer>, qs: seq<Peer>, idx: nat, j: nat)
    requires |ps| == |qs| && j <= |ps|
    requires forall k :: j <= k < |ps| ==> ps[k].fd == qs[k].fd
    ensures LiveOthers(ps, idx, j) == LiveOthers(qs, idx, j)
    decreases |ps| - j
  {
    if j < |ps| { LiveOthersUnchanged(ps, qs, idx, j + 1); }
  }

  lemma SendKeepsLog(h: Hub, j: nat, f: Frame, net: Net, known: set<int>, m: nat)
    requires TableOk(h.peers) && j < |h.peers| && h.peers[j].fd >= 0 && LogOk(h, known)
    requires m < |h.log| && h.log[m].Handle? && h.log[m].frame == f && h.log[m].conn != h.peers[j].fd
    ensures LogOk(SendTo(h, j, f, net), known)
  {
    var r := SendTo(h, j, f, net);
    assert forall i :: 0 <= i < |r.peers| && r.peers[i].fd >= 0 ==> r.peers[i] == h.peers[i];
    assert forall k :: 0 <= k < |h.log| ==> r.log[k] == h.log[k];
    forall k | 0 <= k < |r.log| && r.log[k].Send? ensures exists m :: 0 <= m < k && CausedBy(r.log[k], r.log[m]) {
      if k < |h.log| {
        var m' :| 0 <= m' < k && CausedBy(h.log[k], h.log[m']);
        assert CausedBy(r.log[k], r.log[m']);
      } else {
        assert CausedBy(r.log[k], r.log[m]);
      }
    }
  }

  lemma {:induction false} BroadcastKeepsLog(h: Hub, idx: nat, f: Frame, net: Net, j: nat, known: set<int>, m: nat)
    requires TableOk(h.peers) && j <= |h.peers| && idx < |h.peers| && h.peers[idx].fd >= 0 && LogOk(h, known)
    requires m < |h.log| && h.log[m] == Handle(h.peers[idx].fd, f)
    ensures LogOk(Broadcast(h, idx, f, net, j), known)
    decreases |h.peers| - j
  {
    if j < |h.peers| {
      if h.peers[j].fd < 0 || j == idx {
        BroadcastKeepsLog(h, idx, f, net, j + 1, known, m);
      } else {
        SendToLaw(h, idx, j, f, net);
        SendKeepsLog(h, j, f, net, known, m);
        BroadcastKeepsLog(SendTo(h, j, f, net), idx, f, net, j + 1, known, m);
      }
    }
  }

  lemma HandleKeepsLog(h: Hub, idx: nat, f: Frame, known: set<int>)
    requires TableOk(h.peers) && idx < |h.peers| && h.peers[idx].fd >= 0 && LogOk(h, known) && ValidFrame(f)
    ensures LogOk(Hub(Learn(h.peers, idx, f.sender), h.log + [Handle(h.peers[idx].fd, f)]), known)
  {
    LearnShape(h.peers, idx, f.sender);
    var log := h.log + [Handle(h.peers[idx].fd, f)];
    assert forall k :: 0 <= k < |h.log| ==> log[k] == h.log[k];
    forall k | 0 <= k < |log| && log[k].Send? ensures exists m :: 0 <= m < k && CausedBy(log[k], log[m]) {
      var m :| 0 <= m < k && CausedBy(h.log[k], h.log[m]);
      assert CausedBy(log[k], log[m]);
    }
  }

  // ----- routing one frame

  lemma RouteKeepsTable(h: Hub, idx: nat, f: Frame, net: Net)
    requires TableOk(h.peers) && idx < |h.peers| && h.peers[idx].fd >= 0
    ensures var r := Route(h, idx, f, net);
            && TableOk(r.peers) && Others(h.peers, r.peers, idx)
            && r.peers[idx] == h.peers[idx].(haveNode := true, nodeId := f.sender)
  {
    var h1 := Hub(Learn(h.peers, idx, f.sender), h.log + [Handle(h.peers[idx].fd, f)]);
    LearnShape(h.peers, idx, f.sender);
    LearnKeepsTable(h.peers, idx, f.sender);
    var r := Route(h, idx, f, net);
    if f.target != f.sender {
      if f.target == BROADCAST {
        BroadcastKeepsTable(h1, idx, f, net, 0);
        OthersTransitive(h.peers, h1.peers, r.peers, idx);
      } else {
        var dst := FindByNode(h1.peers, f.target, 0);
        if dst >= 0 {
          SendToLaw(h1, idx, dst, f, net);
          OthersTransitive(h.peers, h1.peers, r.peers, idx);
        }
      }
    }
  }

  lemma RouteKeepsLog(h: Hub, idx: nat, f: Frame, net: Net, known: set<int>)
    requires TableOk(h.peers) && idx < |h.peers| && h.peers[idx].fd >= 0 && LogOk(h, known) && ValidFrame(f)
    ensures LogOk(Route(h, idx, f, net), known)
  {
    var h1 := Hub(Learn(h.peers, idx, f.sender), h.log + [Handle(h.peers[idx].fd, f)]);
    LearnShape(h.peers, idx, f.sender);
    LearnKeepsTable(h.peers, idx, f.sender);
    HandleKeepsLog(h, idx, f, known);
    if f.target != f.sender {
      if f.target == BROADCAST {
        BroadcastKeepsLog(h1, idx, f, net, 0, known, |h.log|);
      } else {
        var dst := FindByNode(h1.peers, f.target, 0);
        if dst >= 0 { SendKeepsLog(h1, dst, f, net, known, |h.log|); }
      }
    }
  }

  /** The connections a frame from slot `idx` goes to, read off the table alone: none for a
      registration, every other live one for a broadcast, the holder of the target otherwise. */
  ghost predicate Recipients(ps: seq<Peer>, idx: nat, f: Frame, conns: seq<int>)
    requires |ps| == MAX_PEERS && idx < |ps|
  {
    if f.target == f.sender then conns == []
    else if f.target == 0xFF then conns == LiveOthers(ps, idx, 0)
    else if exists j :: 0 <= j < |ps| && j != idx && Holds(ps[j], f.target)
    then exists j :: 0 <= j < |ps| && j != idx && Holds(ps[j], f.target) && conns == [ps[j].fd]
    else conns == []
  }

  /** The whole effect of a frame on the log: it is handled, then sent once to each recipient. */
  lemma RoutingLaw(h: Hub, idx: nat, f: Frame, net: Net) returns (conns: seq<int>)
    requires TableOk(h.peers) && idx < |h.peers| && h.peers[idx].fd >= 0
    ensures Recipients(h.peers, idx, f, conns)
    ensures Route(h, idx, f, net).log == h.log + [Handle(h.peers[idx].fd, f)] + Burst(conns, f, net, |h.log| + 1)
    ensures h.peers[idx].fd !in conns
    ensures forall k :: 0 <= k < |conns| ==> conns[k] >= 0
  {
    LearnShape(h.peers, idx, f.sender);
    var h1 := Hub(Learn(h.peers, idx, f.sender), h.log + [Handle(h.peers[idx].fd, f)]);
    if f.target == f.sender {
      conns := [];
    } else if f.target == BROADCAST {
      conns := LiveOthers(h.peers, idx, 0);
      BroadcastLog(h1, idx, f, net, 0);
      LiveOthersUnchanged(h.peers, h1.peers, idx, 0);
      LiveOthersExclude(h.peers, idx, 0);
    } else {
      var dst := FindByNode(h1.peers, f.target, 0);
      if dst >= 0 {
        assert Holds(h.peers[dst], f.target) && dst != idx;
        conns := [h.peers[dst].fd];
        assert conns[1..] == [];
        assert Burst(conns, f, net, |h1.log|) == [Send(conns[0], f, net(|h1.log|))];
      } else {
        conns := [];
        forall j | 0 <= j < |h.peers| && j != idx ensures !Holds(h.peers[j], f.target) {
          assert !Holds(h1.peers[j], f.target);
        }
      }
    }
  }

  lemma {:induction false} LiveOthersExclude(ps: seq<Peer>, idx: nat, j: nat)
    requires DistinctConns(ps) && idx < |ps| && j <= |ps| && ps[idx].fd >= 0
    ensures ps[idx].fd !in LiveOthers(ps, idx, j)
    ensures forall k :: 0 <= k < |LiveOthers(ps, idx, j)| ==> LiveOthers(ps, idx, j)[k] >= 0
    decreases |ps| - j
  {
    if j < |ps| { LiveOthersExclude(ps, idx, j + 1); }
  }

  /** A live connection other than the sender's is attempted exactly once by a broadcast. */
  lemma {:induction false} LiveOthersComplete(ps: seq<Peer>, idx: nat, j: nat, i: nat)
    requires DistinctConns(ps) && idx < |ps| && j <= i < |ps| && i != idx && ps[i].fd >= 0
    ensures multiset(LiveOthers(ps, idx, j))[ps[i].fd] == 1
    decreases |ps| - j
  {
    var rest := LiveOthers(ps, idx, j + 1);
    if j == i {
      LiveOthersSources(ps, idx, j + 1);
      assert ps[i].fd !in rest;
      assert LiveOthers(ps, idx, j) == [ps[i].fd] + rest;
    } else {
      LiveOthersComplete(ps, idx, j + 1, i);
      assert !(ps[j].fd < 0 || j == idx) ==> LiveOthers(ps, idx, j) == [ps[j].fd] + rest;
    }
  }

  lemma {:induction false} LiveOthersSources(ps: seq<Peer>, idx: nat, j: nat)
    requires j <= |ps|
    ensures forall c :: c in LiveOthers(ps, idx, j) ==> exists i :: j <= i < |ps| && i != idx && ps[i].fd == c && c >= 0
    decreases |ps| - j
  {
    if j < |ps| { LiveOthersSources(ps, idx, j + 1); }
  }

  // ----- serving a slot

  /** The frames handled from connection `c`, in order. */
  function HandledFrom(log: seq<Act>, c: int): seq<Frame> {
    if log == [] then []
    else
      var a := log[|log| - 1];
      HandledFrom(log[..|log| - 1], c) + (if a.Handle? && a.conn == c then [a.frame] else [])
  }

  lemma {:induction false} HandledAppend(a: seq<Act>, b: seq<Act>, c: int)
    ensures HandledFrom(a + b, c) == HandledFrom(a, c) + HandledFrom(b, c)
  {
    if b == [] {
      assert a + b == a;
    } else {
      assert (a + b)[..|a + b| - 1] == a + b[..|b| - 1];
      HandledAppend(a, b[..|b| - 1], c);
    }
  }

  lemma {:induction false} BurstHandlesNothing(conns: seq<int>, f: Frame, net: Net, at: nat, c: int)
    ensures HandledFrom(Burst(conns, f, net, at), c) == []
    decreases |conns|
  {
    if conns != [] {
      BurstHandlesNothing(conns[1..], f, net, at + 1, c);
      var one := [Send(conns[0], f, net(at))];
      assert one[..0] == [];
      HandledAppend(one, Burst(conns[1..], f, net, at + 1), c);
    }
  }

  lemma RouteHandles(h: Hub, idx: nat, f: Frame, net: Net, c: int)
    requires TableOk(h.peers) && idx < |h.peers| && h.peers[idx].fd >= 0
    ensures HandledFrom(Route(h, idx, f, net).log, c)
         == HandledFrom(h.log, c) + if c == h.peers[idx].fd then [f] else []
    ensures h.log <= Route(h, idx, f, net).log
  {
    var conns := RoutingLaw(h, idx, f, net);
    var one := [Handle(h.peers[idx].fd, f)];
    assert one[..0] == [];
    HandledAppend(h.log, one, c);
    HandledAppend(h.log + one, Burst(conns, f, net, |h.log| + 1), c);
    BurstHandlesNothing(conns, f, net, |h.log| + 1, c);
  }

  /** Processing never drops the slot being processed, leaves in its buffer the unparsed rest,
      and handles exactly the frames that the declarative parse finds there. */
  lemma {:induction false} ProcessLaw(h: Hub, idx: nat, net: Net, c: int)
    requires TableOk(h.peers) && idx < |h.peers| && h.peers[idx].fd >= 0
    ensures var r, p := Process(h, idx, net), Parse(h.peers[idx].buf);
            && TableOk(r.peers) && Others(h.peers, r.peers, idx)
            && r.peers[idx].fd == h.peers[idx].fd && r.peers[idx].buf == p.rest
            && h.log <= r.log
            && HandledFrom(r.log, c) == HandledFrom(h.log, c) + (if c == h.peers[idx].fd then Frames(p.segs) else [])
    decreases |h.peers[idx].buf|
  {
    var buf, r := h.peers[idx].buf, Process(h, idx, net);
    match Judge(buf)
    case Wait =>
    case Skip =>
      var h1 := WithBuf(h, idx, buf[1..]);
      BufKeepsTable(h, idx, buf[1..]);
      ProcessLaw(h1, idx, net, c);
      OthersTransitive(h.peers, h1.peers, r.peers, idx);
      FramesCons(Junk(buf[0]), Parse(buf[1..]).segs);
    case Take(f) =>
      TakeIsPrefix(buf, f);
      var h1 := Route(h, idx, f, net);
      RouteKeepsTable(h, idx, f, net);
      RouteHandles(h, idx, f, net, c);
      var rest := buf[|Encode(f)|..];
      var h2 := WithBuf(h1, idx, rest);
      BufKeepsTable(h1, idx, rest);
      ProcessLaw(h2, idx, net, c);
      OthersTransitive(h.peers, h1.peers, h2.peers, idx);
      OthersTransitive(h.peers, h2.peers, r.peers, idx);
      FramesCons(Good(f), Parse(rest).segs);
      Associative(HandledFrom(h.log, c), [f], Frames(Parse(rest).segs));
  }

  lemma {:induction false} ProcessKeepsLog(h: Hub, idx: nat, net: Net, known: set<int>)
    requires TableOk(h.peers) && idx < |h.peers| && h.peers[idx].fd >= 0 && LogOk(h, known)
    ensures LogOk(Process(h, idx, net), known)
    decreases |h.peers[idx].buf|
  {
    var buf := h.peers[idx].buf;
    match Judge(buf)
    case Wait =>
    case Skip =>
      BufKeepsTable(h, idx, buf[1..]);
      BufKeepsLog(h, idx, buf[1..], known);
      ProcessKeepsLog(WithBuf(h, idx, buf[1..]), idx, net, known);
    case Take(f) =>
      TakeIsPrefix(buf, f);
      RouteKeepsTable(h, idx, f, net);
      RouteKeepsLog(h, idx, f, net, known);
      var h1, rest := Route(h, idx, f, net), buf[|Encode(f)|..];
      BufKeepsTable(h1, idx, rest);
      BufKeepsLog(h1, idx, rest, known);
      ProcessKeepsLog(WithBuf(h1, idx, rest), idx, net, known);
  }

  lemma BufKeepsLog(h: Hub, idx: nat, buf: seq<Byte>, known: set<int>)
    requires idx < |h.peers| && LogOk(h, known)
    ensures LogOk(WithBuf(h, idx, buf), known)
  {
    var qs := WithBuf(h, idx, buf).peers;
    assert forall i :: 0 <= i < |qs| ==> qs[i].fd == h.peers[i].fd;
  }

  lemma FramesCons(g: Segment, segs: seq<Segment>)
    ensures Frames([g] + segs) == FrameOf(g) + Frames(segs)
    ensures g.Junk? ==> Frames([g] + segs) == Frames(segs)
  {
    assert ([g] + segs)[1..] == segs;
  }

  lemma BufKeepsTable(h: Hub, idx: nat, buf: seq<Byte>)
    requires TableOk(h.peers) && idx < |h.peers| && h.peers[idx].fd >= 0
    ensures TableOk(WithBuf(h, idx, buf).peers)
    ensures Others(h.peers, WithBuf(h, idx, buf).peers, idx)
  {
    var qs := WithBuf(h, idx, buf).peers;
    assert forall i :: 0 <= i < |qs| ==> Known(qs[i]) == Known(h.peers[i]) && qs[i].nodeId == h.peers[i].nodeId && qs[i].fd == h.peers[i].fd;
  }

  // ----- one poll round

  datatype Polled = Polled(slot: nat, fd: int)

  /** The live slots among the first `n`, with the connection each had when polled. */
  function Snapshot(ps: seq<Peer>, n: nat): seq<Polled>
    requires n <= |ps|
  {
    if n == 0 then [] else Snapshot(ps, n - 1) + if ps[n - 1].fd < 0 then [] else [Polled(n - 1, ps[n - 1].fd)]
  }

  predicate InTable(polled: seq<Polled>) {
    forall k :: 0 <= k < |polled| ==> polled[k].slot < MAX_PEERS
  }

  /** One turn: readiness belongs to the polled descriptor, the data to the slot's present one. */
  function PolledTurn(h: Hub, p: Polled, ready: int -> bool, recv: int -> Recv, net: Net): (r: Hub)
    requires p.slot < |h.peers|
    ensures |r.peers| == |h.peers|
  {
    if h.peers[p.slot].fd < 0 || !ready(p.fd) then h else Serve(h, p.slot, recv(h.peers[p.slot].fd), net)
  }

  function Turns(h: Hub, polled: seq<Polled>, ready: int -> bool, recv: int -> Recv, net: Net): (r: Hub)
    requires |h.peers| == MAX_PEERS && InTable(polled)
    ensures |r.peers| == MAX_PEERS
  {
    if polled == [] then h
    else PolledTurn(Turns(h, polled[..|polled| - 1], ready, recv, net), polled[|polled| - 1], ready, recv, net)
  }

  lemma {:induction false} SnapshotLaw(ps: seq<Peer>, n: nat)
    requires n <= |ps|
    ensures forall k :: 0 <= k < |Snapshot(ps, n)| ==>
              var p := Snapshot(ps, n)[k]; p.slot < n && p.fd == ps[p.slot].fd >= 0
  {
    if n > 0 { SnapshotLaw(ps, n - 1); }
  }

  /** A round: poll the live slots, accept a waiting connection, then serve what was polled. */
  function Round(h: Hub, incoming: int, ready: int -> bool, recv: int -> Recv, net: Net): (r: Hub)
    requires |h.peers| == MAX_PEERS
    ensures |r.peers| == MAX_PEERS
  {
    var polled := Snapshot(h.peers, MAX_PEERS);
    SnapshotLaw(h.peers, MAX_PEERS);
    Turns(if incoming >= 0 then h.(peers := Accept(h.peers, incoming)) else h, polled, ready, recv, net)
  }

  /** Serving one slot keeps the table in order and never puts a new connection into a slot. */
  lemma ServeLaw(h: Hub, idx: nat, r: Recv, net: Net)
    requires TableOk(h.peers) && idx < MAX_PEERS
    ensures TableOk(Serve(h, idx, r, net).peers)
    ensures forall j :: 0 <= j < MAX_PEERS ==> Serve(h, idx, r, net).peers[j].fd in {h.peers[j].fd, -1}
  {
    var p := h.peers[idx];
    if p.fd >= 0 {
      DropKeepsTable(h.peers, idx, idx);
      if |p.buf| < BUF_CAP && r.Chunk? && r.bytes != [] {
        var h0 := WithBuf(h, idx, p.buf + Room(r.bytes, p.buf));
        BufKeepsTable(h, idx, p.buf + Room(r.bytes, p.buf));
        ProcessLaw(h0, idx, net, p.fd);
        var h1 := Process(h0, idx, net);
        OthersTransitive(h.peers, h0.peers, h1.peers, idx);
        forall j | 0 <= j < MAX_PEERS ensures h1.peers[j].fd in {h.peers[j].fd, -1} {
          if j != idx { assert Bystander(h.peers[j], h1.peers[j]); }
        }
      }
    }
  }

  /** Within a round a slot that is still live is the connection that was polled. */
  lemma {:induction false} StillPolled(h: Hub, polled: seq<Polled>, ready: int -> bool, recv: int -> Recv, net: Net, n: nat)
    requires TableOk(h.peers) && InTable(polled) && n <= |polled|
    requires forall k :: 0 <= k < |polled| ==> h.peers[polled[k].slot].fd == polled[k].fd
    ensures InTable(polled[..n])
    ensures var r := Turns(h, polled[..n], ready, recv, net);
            && TableOk(r.peers)
            && (forall k :: 0 <= k < |polled| && r.peers[polled[k].slot].fd >= 0 ==> r.peers[polled[k].slot].fd == polled[k].fd)
  {
    if n > 0 {
      StillPolled(h, polled, ready, recv, net, n - 1);
      assert polled[..n][..n - 1] == polled[..n - 1];
      var mid, p := Turns(h, polled[..n - 1], ready, recv, net), polled[n - 1];
      ServeLaw(mid, p.slot, recv(mid.peers[p.slot].fd), net);
    }
  }

  /** The new connection is in the lowest unused slot, with no id and nothing received; without such a slot nothing
      changes. */
  ghost predicate Accepted(ps: seq<Peer>, qs: seq<Peer>, fd: int) {
    || (exists i :: 0 <= i < |ps| && ps[i].fd < 0 && (forall j :: 0 <= j < i ==> ps[j].fd >= 0) && qs == ps[i := Peer(fd, false, 0, [])])
    || ((forall i :: 0 <= i < |ps| ==> ps[i].fd >= 0) && qs == ps)
  }

  lemma {:induction false} FreeSlotIsLowest(ps: seq<Peer>, i: nat)
    requires i <= |ps|
    ensures var r := FreeSlot(ps, i); forall j :: i <= j < (if r >= 0 then r else |ps|) ==> ps[j].fd >= 0
    decreases |ps| - i
  {
    if i < |ps| { FreeSlotIsLowest(ps, i + 1); }
  }

  /** A holder of an id is looked for from the lowest slot on. */
  lemma {:induction false} HolderIsFirst(ps: seq<Peer>, id: Byte, i: nat)
    requires i <= |ps|
    ensures var r := FindByNode(ps, id, i); forall j :: i <= j < (if r >= 0 then r else |ps|) ==> !Holds(ps[j], id)
    decreases |ps| - i
  {
    if i < |ps| { HolderIsFirst(ps, id, i + 1); }
  }

  /** Accepting a connection takes the lowest unused slot, so the polled slots keep theirs. */
  lemma AcceptLaw(ps: Table, fd: int)
    requires TableOk(ps) && fd >= 0 && forall i :: 0 <= i < |ps| ==> ps[i].fd != fd
    ensures TableOk(Accept(ps, fd)) && |Accept(ps, fd)| == 64 && Accepted(ps, Accept(ps, fd), fd)
    ensures forall i :: 0 <= i < |ps| && ps[i].fd >= 0 ==> Accept(ps, fd)[i] == ps[i]
  {
    AcceptKeeps(ps, fd);
    FreeSlotIsLowest(ps, 0);
  }

  lemma AcceptKeeps(ps: Table, fd: int)
    requires TableOk(ps) && fd >= 0 && forall i :: 0 <= i < |ps| ==> ps[i].fd != fd
    ensures TableOk(Accept(ps, fd)) && forall i :: 0 <= i < |ps| && ps[i].fd >= 0 ==> Accept(ps, fd)[i] == ps[i]
  {
    var qs := Accept(ps, fd);
    assert forall j :: 0 <= j < |ps| && Known(qs[j]) ==> qs[j] == ps[j];
  }

  /** The slot is unused and blank afterwards, and nothing else has changed. */
  ghost predicate OnlyDropped(h: Hub, r: Hub, idx: nat) {
    && idx < |h.peers| == |r.peers| && r.log == h.log
    && r.peers[idx] == Peer(-1, false, h.peers[idx].nodeId, [])
    && forall j :: 0 <= j < |h.peers| && j != idx ==> r.peers[j] == h.peers[j]
  }

  /** The bytes of a chunk that fit into a buffer which holds `n` bytes. */
  function Fitting(bytes: seq<Byte>, n: nat): seq<Byte>
    requires n <= 8192
  {
    if |bytes| <= 8192 - n then bytes else bytes[..8192 - n]
  }

  /** The bytes `got` follow what the slot has kept; the complete frames are handled, and the rest is kept. */
  ghost predicate TookIn(h: Hub, r: Hub, idx: nat, got: seq<Byte>, c: int) {
    && idx < |h.peers| == |r.peers|
    && var p := h.peers[idx];
       var parse := Parse(p.buf + got);
       && r.peers[idx].fd == p.fd && r.peers[idx].buf == parse.rest && h.log <= r.log
       && HandledFrom(r.log, c) == HandledFrom(h.log, c) + if c == p.fd then Framing.Frames(parse.segs) else []
  }

  /** What a live slot does with what `recv` reports: it is dropped at the end of the stream, or when it has no room; it
      is left alone when there is nothing to read; otherwise it takes in the bytes that fit. */
  lemma ServeCases(h: Hub, idx: nat, r: Recv, net: Net, c: int)
    requires TableOk(h.peers) && idx < MAX_PEERS && h.peers[idx].fd >= 0 && |h.peers[idx].buf| <= BUF_CAP
    ensures var n, r' := |h.peers[idx].buf|, Serve(h, idx, r, net);
            && (n == 8192 || r == Closed || r == Chunk([]) ==> OnlyDropped(h, r', idx))
            && (n < 8192 && r == Again ==> r' == h)
            && (n < 8192 && r.Chunk? && r.bytes != [] ==> TookIn(h, r', idx, Fitting(r.bytes, n), c))
  {
    if |h.peers[idx].buf| < BUF_CAP && r.Chunk? && r.bytes != [] { ServeTakesIn(h, idx, r.bytes, net, c); }
  }

  lemma ServeTakesIn(h: Hub, idx: nat, bytes: seq<Byte>, net: Net, c: int)
    requires TableOk(h.peers) && idx < MAX_PEERS && h.peers[idx].fd >= 0 && |h.peers[idx].buf| < BUF_CAP && bytes != []
    ensures TookIn(h, Serve(h, idx, Chunk(bytes), net), idx, Fitting(bytes, |h.peers[idx].buf|), c)
  {
    var p := h.peers[idx];
    var got := Room(bytes, p.buf);
    assert got == Fitting(bytes, |p.buf|) && got != [];
    BufKeepsTable(h, idx, p.buf + got);
    ProcessLaw(WithBuf(h, idx, p.buf + got), idx, net, c);
  }

  /** Every live slot is polled, in slot order, with its connection; no other is. */
  ghost predicate PolledAre(ps: seq<Peer>, polled: seq<Polled>, n: nat)
    requires n <= |ps|
  {
    && (forall i :: 0 <= i < n && ps[i].fd >= 0 ==> Polled(i, ps[i].fd) in polled)
    && (forall k :: 0 <= k < |polled| ==> polled[k].slot < n && polled[k].fd == ps[polled[k].slot].fd >= 0)
    && (forall j, k :: 0 <= j < k < |polled| ==> polled[j].slot < polled[k].slot)
  }

  lemma PolledMore(ps: seq<Peer>, polled: seq<Polled>, n: nat)
    requires n < |ps| && PolledAre(ps, polled, n)
    ensures PolledAre(ps, polled + if ps[n].fd < 0 then [] else [Polled(n, ps[n].fd)], n + 1)
  {
    var more := polled + if ps[n].fd < 0 then [] else [Polled(n, ps[n].fd)];
    forall i | 0 <= i < n + 1 && ps[i].fd >= 0 ensures Polled(i, ps[i].fd) in more {
      if i == n { assert more[|polled|] == Polled(n, ps[n].fd); } else { assert Polled(i, ps[i].fd) in polled; }
    }
    assert forall k :: 0 <= k < |polled| ==> more[k] == polled[k];
  }

  lemma {:induction false} SnapshotComplete(ps: seq<Peer>, n: nat)
    requires n <= |ps|
    ensures PolledAre(ps, Snapshot(ps, n), n)
  {
    if n > 0 {
      SnapshotComplete(ps, n - 1);
      PolledMore(ps, Snapshot(ps, n - 1), n - 1);
    }
  }
}

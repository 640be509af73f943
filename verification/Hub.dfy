/** The hub program itself: a table of peer slots with byte buffers, updated in place. */
module Hub {
  import opened Bytes
  import opened Wire
  import opened Framing
  import opened HubModel

  class PeerSlot {
    var fd: int
    var haveNode: bool
    var nodeId: Byte
    var bufLen: nat
    const buf: array<Byte>

    constructor ()
      ensures fd == -1 && !haveNode && bufLen == 0 && nodeId == 0
      ensures fresh(buf) && buf.Length == BUF_CAP
    {
      fd, haveNode, nodeId, bufLen := -1, false, 0, 0;
      buf := new Byte[BUF_CAP];
    }

    ghost predicate Ok()
      reads this
    {
      buf.Length == BUF_CAP && bufLen <= BUF_CAP
    }

    ghost function View(): (p: Peer)
      requires Ok()
      reads this, buf
    {
      Peer(fd, haveNode, nodeId, buf[..bufLen])
    }

    /** `recv` into the free part of the buffer. */
    method Receive(bytes: seq<Byte>)
      requires Ok()
      modifies this`bufLen, buf
      ensures Ok() && View() == old(View()).(buf := old(View()).buf + Room(bytes, old(View()).buf))
    {
      ghost var b := View().buf;
      var start := bufLen;
      var n := if |bytes| <= BUF_CAP - start then |bytes| else BUF_CAP - start;
      for k := 0 to n
        invariant bufLen == start && buf[..start] == b && buf[start..start + k] == bytes[..k]
      {
        buf[start + k] := bytes[k];
      }
      bufLen := start + n;
      assert buf[..bufLen] == b + bytes[..n];
      assert bytes[..n] == Room(bytes, b);
    }

    /** `memmove` of everything behind the first `n` bytes to the front. */
    method Discard(n: nat)
      requires Ok() && n <= bufLen
      modifies this`bufLen, buf
      ensures Ok() && View() == old(View()).(buf := old(View()).buf[n..]) && bufLen == old(bufLen) - n
    {
      var keep := bufLen - n;
      for k := 0 to keep
        invariant forall m :: 0 <= m < k ==> buf[m] == old(buf[m + n])
        invariant forall m :: k <= m < BUF_CAP ==> buf[m] == old(buf[m])
      {
        buf[k] := buf[k + n];
      }
      bufLen := keep;
    }
  }

  class HubServer {
    const slots: seq<PeerSlot>
    const net: Net
    var log: seq<Act>

    ghost predicate Valid()
      reads this, slots
    {
      && |slots| == MAX_PEERS
      && (forall i :: 0 <= i < |slots| ==> slots[i].Ok())
      && (forall i, j :: 0 <= i < j < |slots| ==> slots[i] != slots[j] && slots[i].buf != slots[j].buf)
    }

    ghost function Bufs(): (s: set<object>)
    {
      set i | 0 <= i < |slots| :: slots[i].buf
    }

    ghost function State(): (h: HubModel.Hub)
      requires Valid()
      reads this, slots, Bufs()
      ensures |h.peers| == MAX_PEERS
    {
      HubModel.Hub(seq(MAX_PEERS, i requires 0 <= i < MAX_PEERS && Valid() reads slots, Bufs(), this => slots[i].View()), log)
    }

    /** All slots unused, nothing done yet. */
    constructor (net: Net)
      ensures Valid() && fresh(slots) && this.net == net
      ensures State() == HubModel.Hub(EmptyTable(), []) && TableOk(State().peers)
    {
      var made: seq<PeerSlot> := [];
      for i := 0 to MAX_PEERS
        invariant |made| == i && fresh(made)
        invariant forall j :: 0 <= j < i ==> made[j].Ok() && fresh(made[j].buf) && made[j].View() == Peer(-1, false, 0, [])
        invariant forall j, k :: 0 <= j < k < i ==> made[j] != made[k] && made[j].buf != made[k].buf
      {
        var slot := new PeerSlot();
        made := made + [slot];
      }
      slots, log := made, [];
      this.net := net;
      new;
      assert State().peers == EmptyTable();
    }

    method FindByNode(id: Byte) returns (r: int)
      requires Valid()
      ensures r == HubModel.FindByNode(State().peers, id, 0)
    {
      r := -1;
      for i := 0 to MAX_PEERS
        invariant HubModel.FindByNode(State().peers, id, 0) == HubModel.FindByNode(State().peers, id, i)
      {
        if slots[i].fd >= 0 && slots[i].haveNode && slots[i].nodeId == id { return i; }
      }
    }

    method SlotAlloc(fd: int) returns (r: int)
      requires Valid()
      modifies slots
      ensures Valid() && State() == old(State()).(peers := Accept(old(State()).peers, fd))
      ensures r == FreeSlot(old(State()).peers, 0)
    {
      r := -1;
      for i := 0 to MAX_PEERS
        invariant FreeSlot(State().peers, 0) == FreeSlot(State().peers, i)
        invariant Valid() && State() == old(State())
      {
        if slots[i].fd < 0 {
          slots[i].fd, slots[i].haveNode, slots[i].nodeId, slots[i].bufLen := fd, false, 0, 0;
          return i;
        }
      }
    }

    method Drop(idx: nat)
      requires Valid() && idx < MAX_PEERS
      modifies slots[idx]
      ensures Valid()
      ensures State() == old(State()).(peers := old(State()).peers[idx := Dropped(old(State()).peers[idx])])
    {
      if slots[idx].fd >= 0 {
        slots[idx].fd, slots[idx].haveNode, slots[idx].bufLen := -1, false, 0;
      }
    }

    /** One send of a frame held in `bytes`; a failure drops the slot. */
    method SendTo(j: nat, f: Frame, bytes: seq<Byte>)
      requires Valid() && j < MAX_PEERS && bytes == Encode(f)
      modifies this`log, slots[j]
      ensures Valid() && State() == HubModel.SendTo(old(State()), j, f, net)
    {
      var outcome := net(|log|);
      log := log + [Send(slots[j].fd, f, outcome)];
      if outcome.Failed? { Drop(j); }
    }

    method LearnNode(idx: nat, sender: Byte)
      requires Valid() && idx < MAX_PEERS
      modifies slots
      ensures Valid() && State() == old(State()).(peers := Learn(old(State()).peers, idx, sender))
    {
      if !slots[idx].haveNode || slots[idx].nodeId != sender {
        ghost var h := State();
        var prev := FindByNode(sender);
        assert State() == h;
        if prev >= 0 && prev != idx { Forget(prev); }
        Register(idx, sender);
        assert State().peers == Learn(h.peers, idx, sender);
      }
    }

    /** The peer at `j` no longer holds its id. */
    method Forget(j: nat)
      requires Valid() && j < MAX_PEERS
      modifies slots
      ensures Valid() && var ps := old(State()).peers; State() == old(State()).(peers := ps[j := ps[j].(haveNode := false)])
    {
      ghost var ps := State().peers;
      slots[j].haveNode := false;
      assert State().peers == ps[j := ps[j].(haveNode := false)];
    }

    /** The peer at `j` holds the id. */
    method Register(j: nat, id: Byte)
      requires Valid() && j < MAX_PEERS
      modifies slots
      ensures Valid() && var ps := old(State()).peers; State() == old(State()).(peers := ps[j := ps[j].(haveNode := true, nodeId := id)])
    {
      ghost var ps := State().peers;
      slots[j].haveNode := true;
      slots[j].nodeId := id;
      assert State().peers == ps[j := ps[j].(haveNode := true, nodeId := id)];
    }

    method BroadcastFrame(idx: nat, f: Frame, bytes: seq<Byte>)
      requires Valid() && idx < MAX_PEERS && bytes == Encode(f)
      modifies this`log, slots
      ensures Valid() && State() == Broadcast(old(State()), idx, f, net, 0)
    {
      for j := 0 to MAX_PEERS
        invariant Valid() && Broadcast(State(), idx, f, net, j) == Broadcast(old(State()), idx, f, net, 0)
      {
        if !(slots[j].fd < 0 || j == idx) { SendTo(j, f, bytes); }
      }
    }

    method ForwardFrame(idx: nat, f: Frame, bytes: seq<Byte>)
      requires Valid() && idx < MAX_PEERS && bytes == Encode(f)
      modifies this`log, slots
      ensures Valid() && State() == Forward(old(State()), idx, f, net)
    {
      if f.target == f.sender {
      } else if f.target == BROADCAST {
        BroadcastFrame(idx, f, bytes);
      } else {
        ghost var h := State();
        var dst := FindByNode(f.target);
        assert State() == h;
        if dst >= 0 { SendTo(dst, f, bytes); }
      }
    }

    /** Learns the sender and forwards one frame. */
    method RouteFrame(idx: nat, f: Frame, bytes: seq<Byte>)
      requires Valid() && idx < MAX_PEERS && bytes == Encode(f)
      modifies this`log, slots
      ensures Valid() && State() == Route(old(State()), idx, f, net)
    {
      ghost var h := State();
      log := log + [Handle(slots[idx].fd, f)];
      assert State().peers == h.peers;
      LearnNode(idx, f.sender);
      assert State() == HubModel.Hub(Learn(h.peers, idx, f.sender), h.log + [Handle(h.peers[idx].fd, f)]);
      ForwardFrame(idx, f, bytes);
    }

    /** The offset of the first magic pair, or of the last byte when there is none. */
    method ScanMagic(idx: nat) returns (i: nat)
      requires Valid() && idx < MAX_PEERS
      ensures i == 0 || i < slots[idx].bufLen
      ensures forall m :: 0 <= m < i ==> !MagicAt(slots[idx].buf[..slots[idx].bufLen], m)
      ensures i + 1 < slots[idx].bufLen ==> MagicAt(slots[idx].buf[..slots[idx].bufLen], i)
    {
      var p := slots[idx];
      i := 0;
      while i + 1 < p.bufLen && !(p.buf[i] == MAGIC0 && p.buf[i + 1] == MAGIC1)
        invariant i == 0 || i < p.bufLen
        invariant forall m :: 0 <= m < i ==> !MagicAt(p.buf[..p.bufLen], m)
      {
        i := i + 1;
      }
    }

    /** One turn of the parse loop: a frame is routed, or some bytes are discarded, or the
        buffer is left because nothing can be decided yet. */
    method ProcessOne(idx: nat) returns (done: bool)
      requires Valid() && idx < MAX_PEERS && TableOk(State().peers) && slots[idx].fd >= 0
      modifies this`log, slots, slots[idx].buf
      ensures Valid() && TableOk(State().peers) && slots[idx].fd >= 0
      ensures Process(State(), idx, net) == Process(old(State()), idx, net)
      ensures if done then Process(State(), idx, net) == State() else slots[idx].bufLen < old(slots[idx].bufLen)
    {
      ghost var h := State();
      var i := ScanMagic(idx);
      assert State() == h;
      ScanLaw(h, idx, i, net);
      if i > 0 { Advance(idx, i); }
      done := ProcessFront(idx);
    }

    /** The checks on a buffer with a magic pair in front, if it has two bytes at all. */
    method JudgeFront(idx: nat) returns (v: Verdict)
      requires Valid() && idx < MAX_PEERS
      requires slots[idx].bufLen > 1 ==> MagicAt(slots[idx].buf[..slots[idx].bufLen], 0)
      ensures v == Judge(slots[idx].buf[..slots[idx].bufLen])
    {
      var p := slots[idx];
      ghost var buf := p.buf[..p.bufLen];
      if p.bufLen < HDR_LEN { return Wait; }
      var length := LengthOf(p.buf[4], p.buf[5]);
      if length == 0 || length > MAX_PAYLOAD { return Skip; }
      if p.bufLen < HDR_LEN + length + 1 { return Wait; }
      var chk := ComputeChecksum(p.buf, HDR_LEN + length);
      assert p.buf[..HDR_LEN + length] == buf[..HDR_LEN + length];
      if chk != p.buf[HDR_LEN + length] { return Skip; }
      assert p.buf[HDR_LEN..HDR_LEN + length] == buf[HDR_LEN..HDR_LEN + length];
      return Take(Frame(p.buf[2], p.buf[3], p.buf[HDR_LEN..HDR_LEN + length]));
    }

    /** The part of a turn after the scan. */
    method ProcessFront(idx: nat) returns (done: bool)
      requires Valid() && idx < MAX_PEERS && TableOk(State().peers) && slots[idx].fd >= 0
      requires slots[idx].bufLen > 1 ==> MagicAt(slots[idx].buf[..slots[idx].bufLen], 0)
      modifies this`log, slots, slots[idx].buf
      ensures Valid() && TableOk(State().peers) && slots[idx].fd >= 0
      ensures Process(State(), idx, net) == Process(old(State()), idx, net)
      ensures if done then Process(State(), idx, net) == State() else slots[idx].bufLen < old(slots[idx].bufLen)
    {
      ghost var h := State();
      var v := JudgeFront(idx);
      assert State() == h && h.peers[idx].buf == slots[idx].buf[..slots[idx].bufLen];
      match v {
        case Wait =>
          done := true;
        case Skip =>
          Advance(idx, 1);
          done := false;
        case Take(f) =>
          TakeIsPrefix(h.peers[idx].buf, f);
          var total := HDR_LEN + |f.payload| + 1;
          assert slots[idx].buf[..total] == h.peers[idx].buf[..total];
          Consume(idx, f, total, slots[idx].buf[..total]);
          done := false;
      }
    }

    /** Routes a complete frame at the front of the buffer and removes it. */
    method Consume(idx: nat, f: Frame, total: nat, bytes: seq<Byte>)
      requires Valid() && idx < MAX_PEERS && TableOk(State().peers) && slots[idx].fd >= 0
      requires total <= slots[idx].bufLen && bytes == Encode(f)
      modifies this`log, slots, slots[idx].buf
      ensures Valid() && TableOk(State().peers) && slots[idx].fd >= 0
      ensures State() == WithBuf(Route(old(State()), idx, f, net), idx, old(State()).peers[idx].buf[total..])
      ensures slots[idx].bufLen == old(slots[idx].bufLen) - total
    {
      ghost var h := State();
      RouteKeepsTable(h, idx, f, net);
      RouteFrame(idx, f, bytes);
      assert State().peers[idx] == h.peers[idx].(haveNode := true, nodeId := f.sender);
      assert |h.peers[idx].buf| == old(slots[idx].bufLen) && |State().peers[idx].buf| == slots[idx].bufLen;
      Advance(idx, total);
    }

    /** The parse loop; it ends because every turn but the last shortens the buffer. */
    method ProcessPeer(idx: nat)
      requires Valid() && idx < MAX_PEERS && TableOk(State().peers) && slots[idx].fd >= 0
      modifies this`log, slots, slots[idx].buf
      ensures Valid() && TableOk(State().peers) && State() == Process(old(State()), idx, net)
    {
      var done := false;
      while !done
        invariant Valid() && TableOk(State().peers) && slots[idx].fd >= 0
        invariant Process(State(), idx, net) == Process(old(State()), idx, net)
        invariant done ==> Process(State(), idx, net) == State()
        decreases !done, slots[idx].bufLen
      {
        done := ProcessOne(idx);
      }
    }

    method Advance(idx: nat, n: nat)
      requires Valid() && idx < MAX_PEERS && n <= slots[idx].bufLen
      requires TableOk(State().peers) && slots[idx].fd >= 0
      modifies slots[idx], slots[idx].buf
      ensures Valid() && State() == WithBuf(old(State()), idx, old(State()).peers[idx].buf[n..])
      ensures TableOk(State().peers) && slots[idx].fd == old(slots[idx].fd)
      ensures slots[idx].bufLen == old(slots[idx].bufLen) - n
    {
      BufKeepsTable(State(), idx, State().peers[idx].buf[n..]);
      slots[idx].Discard(n);
    }

    /** One turn of a polled slot: receive into the free part of the buffer, then process.
        The "buffer full" branch is the first one. */
    method ServeSlot(idx: nat, r: Recv)
      requires Valid() && idx < MAX_PEERS && TableOk(State().peers) && slots[idx].fd >= 0
      modifies this`log, slots, slots[idx].buf
      ensures Valid() && State() == Serve(old(State()), idx, r, net)
    {
      var p := slots[idx];
      var avail := BUF_CAP - p.bufLen;
      if avail == 0 {
        Drop(idx);
        return;
      }
      if r.Again? { return; }
      if r.Closed? || r.bytes == [] {
        Drop(idx);
        return;
      }
      Append(idx, r.bytes);
      ProcessPeer(idx);
    }

    method Append(idx: nat, bytes: seq<Byte>)
      requires Valid() && idx < MAX_PEERS && TableOk(State().peers) && slots[idx].fd >= 0
      modifies slots[idx], slots[idx].buf
      ensures Valid() && TableOk(State().peers) && slots[idx].fd >= 0
      ensures var b := old(State()).peers[idx].buf; State() == WithBuf(old(State()), idx, b + Room(bytes, b))
    {
      var p := slots[idx];
      ghost var h, b := State(), State().peers[idx].buf;
      BufKeepsTable(h, idx, b + Room(bytes, b));
      p.Receive(bytes);
      assert State().peers == WithBuf(h, idx, b + Room(bytes, b)).peers;
    }

    method TakeSnapshot() returns (polled: seq<Polled>)
      requires Valid()
      ensures polled == Snapshot(State().peers, MAX_PEERS)
    {
      polled := [];
      for i := 0 to MAX_PEERS
        invariant polled == Snapshot(State().peers, i)
      {
        if slots[i].fd >= 0 { polled := polled + [Polled(i, slots[i].fd)]; }
      }
    }

    /** One iteration of the main loop. */
    method PollRound(incoming: int, ready: int -> bool, recv: int -> Recv)
      requires Valid() && TableOk(State().peers)
      requires forall i :: 0 <= i < MAX_PEERS && incoming >= 0 ==> slots[i].fd != incoming
      modifies this`log, slots, Bufs()
      ensures Valid() && TableOk(State().peers)
      ensures State() == Round(old(State()), incoming, ready, recv, net)
    {
      ghost var h0 := State();
      var polled := TakeSnapshot();
      SnapshotLaw(h0.peers, MAX_PEERS);
      assert State() == h0;
      if incoming >= 0 {
        AcceptKeeps(h0.peers, incoming);
        var slot := SlotAlloc(incoming);
      }
      ServePolled(polled, ready, recv);
    }

    /** Serves the polled slots in order, skipping those dropped meanwhile. */
    method ServePolled(polled: seq<Polled>, ready: int -> bool, recv: int -> Recv)
      requires Valid() && TableOk(State().peers) && InTable(polled)
      requires forall k :: 0 <= k < |polled| ==> State().peers[polled[k].slot].fd == polled[k].fd
      modifies this`log, slots, Bufs()
      ensures Valid() && TableOk(State().peers)
      ensures State() == Turns(old(State()), polled, ready, recv, net)
    {
      ghost var h := State();
      for k := 0 to |polled|
        invariant Valid() && InTable(polled[..k]) && State() == Turns(h, polled[..k], ready, recv, net)
      {
        StillPolled(h, polled, ready, recv, net, k);
        assert polled[..k + 1][..k] == polled[..k];
        ServeOne(polled[k], ready, recv);
      }
      StillPolled(h, polled, ready, recv, net, |polled|);
      assert polled[..|polled|] == polled;
    }

    method ServeOne(p: Polled, ready: int -> bool, recv: int -> Recv)
      requires Valid() && TableOk(State().peers) && p.slot < MAX_PEERS
      requires slots[p.slot].fd >= 0 ==> slots[p.slot].fd == p.fd
      modifies this`log, slots, Bufs()
      ensures Valid() && State() == PolledTurn(old(State()), p, ready, recv, net)
    {
      assert slots[p.slot].buf in Bufs();
      if slots[p.slot].fd >= 0 && ready(p.fd) {
        ServeSlot(p.slot, recv(slots[p.slot].fd));
      }
    }
  }

  predicate MagicAt(s: seq<Byte>, m: nat) {
    m + 1 < |s| && s[m] == MAGIC0 && s[m + 1] == MAGIC1
  }

  /** Skipping the bytes before the first magic pair is what the byte-by-byte parse does. */
  lemma {:induction false} ScanLaw(h: HubModel.Hub, idx: nat, i: nat, net: Net)
    requires idx < |h.peers| && (i == 0 || i < |h.peers[idx].buf|)
    requires forall m :: 0 <= m < i ==> !MagicAt(h.peers[idx].buf, m)
    ensures Process(h, idx, net) == Process(WithBuf(h, idx, h.peers[idx].buf[i..]), idx, net)
    decreases i
  {
    var buf := h.peers[idx].buf;
    if i == 0 {
      assert buf[0..] == buf;
      assert WithBuf(h, idx, buf) == h;
    } else {
      var h1 := WithBuf(h, idx, buf[1..]);
      assert !MagicAt(buf, 0);
      forall m | 0 <= m < i - 1 ensures !MagicAt(buf[1..], m) { assert !MagicAt(buf, m + 1); }
      ScanLaw(h1, idx, i - 1, net);
      assert buf[1..][i - 1..] == buf[i..];
      assert WithBuf(h1, idx, buf[i..]) == WithBuf(h, idx, buf[i..]);
    }
  }
}

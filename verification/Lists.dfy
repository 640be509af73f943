/** The circular doubly linked lists the slab allocator threads through its slabs. */
module Lists {

  /** The record of a slab: how many objects are in use, and the stack of free indices. */
  class Record {
    var free: nat
    const ctl: array<nat>

    constructor (n: nat)
      ensures free == 0 && fresh(ctl) && ctl.Length == n && ctl[..] == seq(n, i => i)
    {
      free := 0;
      ctl := new nat[n](i => i);
    }
  }

  /** A list link; `base` is the address of the slab it belongs to.  List heads use the link only. */
  class Node {
    var next: Node
    var prev: Node
    const base: nat
    const rec: Record

    constructor (base: nat, n: nat)
      ensures next == this && prev == this && this.base == base
      ensures fresh(rec) && rec.free == 0 && fresh(rec.ctl) && rec.ctl.Length == n && rec.ctl[..] == seq(n, i => i)
    {
      next, prev := this, this;
      this.base := base;
      rec := new Record(n);
    }
  }

  /** The nodes of `r`, head first, are linked in a ring in both directions. */
  ghost predicate Ring(r: seq<Node>)
    reads r
  {
    && |r| > 0
    && (forall i, j :: 0 <= i < j < |r| ==> r[i] != r[j])
    && (forall i :: 0 <= i < |r| ==> Linked(r, i))
  }

  ghost predicate Linked(r: seq<Node>, i: nat)
    requires i < |r|
    reads r
  {
    r[i].next == r[Succ(i, |r|)] && r[i].prev == r[Pred(i, |r|)]
  }

  function Succ(i: nat, n: nat): (j: nat)
    requires i < n
    ensures j < n
  {
    if i + 1 < n then i + 1 else 0
  }

  function Pred(i: nat, n: nat): (j: nat)
    requires i < n
    ensures j < n
  {
    if i > 0 then i - 1 else n - 1
  }

  function CutAt<T>(s: seq<T>, k: nat): (r: seq<T>)
    requires k < |s|
    ensures |r| == |s| - 1
  {
    s[..k] + s[k + 1..]
  }

  /** Links `x` in before the head, that is at the end. */
  method Append(x: Node, head: Node, ghost r: seq<Node>)
    requires Ring(r) && r[0] == head && x !in r
    modifies x, r
    ensures Ring(r + [x])
  {
    assert Linked(r, 0);
    assert forall i :: 0 <= i < |r| ==> r[i] in r;
    x.prev := head.prev;
    x.next := head;
    x.prev.next := x;
    x.next.prev := x;
    assert (r + [x])[..|r|] == r;
    Appended(r + [x]);
  }

  ghost predicate Threaded(r: seq<Node>, x: Node)
    requires |r| > 0
    reads r, x
  {
    x.prev == r[|r| - 1] && x.next == r[0] && r[|r| - 1].next == x && r[0].prev == x
  }

  /** Only the links between the last node of `s` but one and the head have changed: they go through the last node. */
  twostate lemma Appended(s: seq<Node>)
    requires |s| > 1 && s[|s| - 1] !in s[..|s| - 1] && old(Ring(s[..|s| - 1])) && Threaded(s[..|s| - 1], s[|s| - 1])
      && forall y :: y in s[..|s| - 1] ==> (y == s[|s| - 2] || y.next == old(y.next)) && (y == s[0] || y.prev == old(y.prev))
    ensures Ring(s)
  {
    var r := s[..|s| - 1];
    forall i | 0 <= i < |s| ensures Linked(s, i) {
      if i < |r| {
        assert old(Linked(r, i)) && r[i] in r;
      }
    }
  }

  /** Unlinks the node at position `k` and leaves it linked to itself. */
  method Remove(x: Node, ghost r: seq<Node>, ghost k: nat)
    requires Ring(r) && 0 < k < |r| && r[k] == x
    modifies r
    ensures Ring(CutAt(r, k)) && x.next == x && x.prev == x
  {
    ghost var p, q := r[k - 1], r[Succ(k, |r|)];
    assert Linked(r, k) && p in r && q in r && x in r;
    assert p != x && q != x;
    x.prev.next := x.next;
    x.next.prev := x.prev;
    x.next := x;
    x.prev := x;
    Unlinked((r, k));
  }

  /** Only the links around a position have changed: they skip it. */
  twostate lemma Unlinked(at: (seq<Node>, nat))
    requires
      var (r, k) := at;
      && old(Ring(r)) && 0 < k < |r| && r[k - 1].next == r[Succ(k, |r|)] && r[Succ(k, |r|)].prev == r[k - 1]
      && forall y :: y in r && y != r[k] ==>
           (y == r[k - 1] || y.next == old(y.next)) && (y == r[Succ(k, |r|)] || y.prev == old(y.prev))
    ensures at.1 < |at.0| && Ring(CutAt(at.0, at.1))
  {
    var (r, k) := at;
    forall j | 0 <= j < |r| && j != k
      ensures r[j].next == if j == k - 1 then r[Succ(k, |r|)] else r[Succ(j, |r|)]
      ensures r[j].prev == if j == Succ(k, |r|) then r[k - 1] else r[Pred(j, |r|)]
    {
      assert old(Linked(r, j)) && r[j] in r;
    }
    RelinkedRing(r, k);
  }

  /** A ring whose links skip position `k` is a ring without it. */
  lemma RelinkedRing(r: seq<Node>, k: nat)
    requires 0 < k < |r| && forall i, j :: 0 <= i < j < |r| ==> r[i] != r[j]
    requires forall j :: 0 <= j < |r| && j != k ==> r[j].next == if j == k - 1 then r[Succ(k, |r|)] else r[Succ(j, |r|)]
    requires forall j :: 0 <= j < |r| && j != k ==> r[j].prev == if j == Succ(k, |r|) then r[k - 1] else r[Pred(j, |r|)]
    ensures Ring(CutAt(r, k))
  {
    var s := CutAt(r, k);
    forall i | 0 <= i < |s| ensures Linked(s, i) {
      var j := CutNeighbours(r, k, i);
    }
  }

  /** The neighbours of a node in a ring from which position `k` was cut. */
  lemma CutNeighbours<T>(r: seq<T>, k: nat, i: nat) returns (j: nat)
    requires 0 < k < |r| && i < |r| - 1
    ensures j < |r| && j != k && CutAt(r, k)[i] == r[j]
    ensures CutAt(r, k)[Succ(i, |r| - 1)] == if j == k - 1 then r[Succ(k, |r|)] else r[Succ(j, |r|)]
    ensures CutAt(r, k)[Pred(i, |r| - 1)] == if j == Succ(k, |r|) then r[k - 1] else r[Pred(j, |r|)]
  {
    j := if i < k then i else i + 1;
  }

  /** A list with its head; `ring` lists its nodes in order, head first. */
  class SlabList {
    const head: Node
    ghost var ring: seq<Node>

    ghost predicate Valid()
      reads this, ring
    {
      Ring(ring) && ring[0] == head
    }

    constructor ()
      ensures Valid() && fresh(head) && ring == [head]
    {
      head := new Node(0, 0);
      new;
      ring := [head];
    }

    /** The first node, or the head of an empty list. */
    method First() returns (x: Node)
      requires Valid()
      ensures if |ring| == 1 then x == head else x == ring[1]
    {
      assert Linked(ring, 0);
      x := head.next;
    }
  }

  ghost predicate Apart(r: seq<Node>, s: seq<Node>) {
    forall x :: x in r ==> x !in s
  }

  /** Moves the node at position `k` of one list to the end of another. */
  method Move(x: Node, from: SlabList, to: SlabList, ghost k: nat)
    requires from.Valid() && to.Valid() && from != to && Apart(from.ring, to.ring)
    requires 0 < k < |from.ring| && from.ring[k] == x
    modifies from`ring, to`ring, from.ring, to.ring
    ensures from.Valid() && to.Valid()
    ensures from.ring == CutAt(old(from.ring), k) && to.ring == old(to.ring) + [x]
  {
    ghost var r, s := from.ring, to.ring;
    ghost var c := CutAt(r, k);
    CutLaw(r, k);
    Remove(x, r, k);
    forall y | y in s ensures y.next == old(y.next) && y.prev == old(y.prev) { assert y !in r; }
    RingFramed(s);
    label Unlinked:
    Append(x, to.head, s);
    forall y | y in c ensures y.next == old@Unlinked(y.next) && y.prev == old@Unlinked(y.prev) { assert y !in s && y != x; }
    RingFramed@Unlinked(c);
    label Appended:
    from.ring, to.ring := c, s + [x];
    RingFramed@Appended(c);
    RingFramed@Appended(s + [x]);
  }

  /** A ring none of whose links changed is still a ring. */
  twostate lemma RingFramed(r: seq<Node>)
    requires old(Ring(r)) && forall y :: y in r ==> y.next == old(y.next) && y.prev == old(y.prev)
    ensures Ring(r)
  {
    forall i | 0 <= i < |r| ensures Linked(r, i) { assert old(Linked(r, i)) && r[i] in r; }
  }

  lemma CutLaw<T>(r: seq<T>, k: nat)
    requires k < |r| && forall i, j :: 0 <= i < j < |r| ==> r[i] != r[j]
    ensures r[k] !in CutAt(r, k) && forall x :: x in CutAt(r, k) <==> x in r && x != r[k]
  {
    forall x | x in r && x != r[k] ensures x in CutAt(r, k) {
      var i :| 0 <= i < |r| && r[i] == x;
      assert CutAt(r, k)[if i < k then i else i - 1] == x;
    }
  }
}

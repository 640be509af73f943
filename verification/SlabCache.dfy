/** One object cache as the program keeps it: slabs linked on three circular lists. */
module SlabCache {
  import opened SlabModel
  import opened Lists
  import opened HeapModel
  import opened PageAlloc

  function Bases(r: seq<Node>): (l: seq<nat>)
    ensures |l| == |r| && forall i :: 0 <= i < |r| ==> l[i] == r[i].base
  {
    seq(|r|, i requires 0 <= i < |r| => r[i].base)
  }

  /** The addresses on a list, without its head. */
  ghost function Listed(l: SlabList): seq<nat>
    requires |l.ring| > 0
    reads l
  {
    Bases(l.ring[1..])
  }

  /** The slabs of a cache by address: where their address says, sharing nothing. */
  ghost predicate Separate(slabs: map<nat, Node>, n: nat) {
    && (forall b :: b in slabs ==> slabs[b].base == b && slabs[b].rec.ctl.Length == n)
    && (forall b, c :: b in slabs && c in slabs && b != c ==> slabs[b].rec != slabs[c].rec && slabs[b].rec.ctl != slabs[c].rec.ctl)
  }

  /** The nodes of a list behind its head are slabs, the head is not. */
  ghost predicate OnList(l: SlabList, slabs: map<nat, Node>)
    reads l
  {
    && |l.ring| > 0 && (forall b :: b in slabs ==> slabs[b] != l.ring[0])
    && (forall k :: 0 < k < |l.ring| ==> l.ring[k].base in slabs && slabs[l.ring[k].base] == l.ring[k])
  }

  ghost predicate ThreeLists(a: SlabList, b: SlabList, c: SlabList)
    reads a, b, c
  {
    && a != b && a != c && b != c
    && Apart(a.ring, b.ring) && Apart(a.ring, c.ring) && Apart(b.ring, c.ring)
    && Apart(b.ring, a.ring) && Apart(c.ring, a.ring) && Apart(c.ring, b.ring)
  }

  ghost function Contents(slabs: map<nat, Node>): map<nat, Slab>
    reads (set b | b in slabs :: slabs[b].rec), (set b | b in slabs :: slabs[b].rec.ctl)
  {
    map b | b in slabs :: Slab(slabs[b].rec.free, slabs[b].rec.ctl[..])
  }

  /** Moves a slab from one list to the end of another; the third list stays as it is. */
  method Reorder(x: Node, from: SlabList, to: SlabList, third: SlabList, ghost slabs: map<nat, Node>, ghost k: nat)
    requires from.Valid() && to.Valid() && third.Valid() && ThreeLists(from, to, third)
    requires OnList(from, slabs) && OnList(to, slabs) && OnList(third, slabs)
    requires 0 < k < |from.ring| && from.ring[k] == x
    modifies from`ring, to`ring, from.ring, to.ring
    ensures from.Valid() && to.Valid() && third.Valid() && ThreeLists(from, to, third)
    ensures OnList(from, slabs) && OnList(to, slabs) && OnList(third, slabs) && third.ring == old(third.ring)
    ensures from.ring == CutAt(old(from.ring), k) && to.ring == old(to.ring) + [x]
  {
    ghost var r := from.ring;
    CutLaw(r, k);
    Move(x, from, to, k);
    forall y | y in third.ring ensures y.next == old(y.next) && y.prev == old(y.prev) {
      assert y !in old(from.ring) && y !in old(to.ring);
    }
    RingFramed(third.ring);
  }

  /** The same, in terms of the addresses on the lists; the contents of all slabs stay as they are. */
  method Relink(x: Node, from: SlabList, to: SlabList, third: SlabList, ghost slabs: map<nat, Node>, ghost k: nat)
    requires from.Valid() && to.Valid() && third.Valid() && ThreeLists(from, to, third)
    requires OnList(from, slabs) && OnList(to, slabs) && OnList(third, slabs)
    requires 0 < k < |from.ring| && from.ring[k] == x && NoDup(Listed(from))
    modifies from`ring, to`ring, from.ring, to.ring
    ensures from.Valid() && to.Valid() && third.Valid() && ThreeLists(from, to, third)
    ensures OnList(from, slabs) && OnList(to, slabs) && OnList(third, slabs) && third.ring == old(third.ring)
    ensures |to.ring| == |old(to.ring)| + 1 && to.ring[|to.ring| - 1] == x && Contents(slabs) == old(Contents(slabs))
    ensures Listed(from) == Without(old(Listed(from)), x.base) && Listed(to) == old(Listed(to)) + [x.base]
  {
    ListedCut(from.ring, k);
    ListedSnoc(to.ring, x);
    Reorder(x, from, to, third, slabs, k);
  }

  /** Links a new slab to the end of a list. */
  method LinkNew(x: Node, to: SlabList, b: SlabList, c: SlabList, ghost slabs: map<nat, Node>)
    requires to.Valid() && b.Valid() && c.Valid() && ThreeLists(to, b, c)
    requires OnList(to, slabs) && OnList(b, slabs) && OnList(c, slabs)
    requires x.base !in slabs && x !in to.ring && x !in b.ring && x !in c.ring
    modifies x, to`ring, to.ring
    ensures to.Valid() && b.Valid() && c.Valid() && ThreeLists(to, b, c)
    ensures OnList(to, slabs[x.base := x]) && OnList(b, slabs[x.base := x]) && OnList(c, slabs[x.base := x])
    ensures to.ring == old(to.ring) + [x] && b.ring == old(b.ring) && c.ring == old(c.ring)
    ensures Contents(slabs[x.base := x]) == old(Contents(slabs[x.base := x]))
  {
    ghost var r := to.ring;
    Append(x, to.head, r);
    forall y | y in b.ring || y in c.ring ensures y.next == old(y.next) && y.prev == old(y.prev) {
      assert y !in r && y != x;
    }
    RingFramed(b.ring);
    RingFramed(c.ring);
    label Linked:
    to.ring := r + [x];
    RingFramed@Linked(to.ring);
  }

  lemma ListedCut(r: seq<Node>, k: nat)
    requires 0 < k < |r| && NoDup(Bases(r[1..]))
    ensures Bases(CutAt(r, k)[1..]) == Without(Bases(r[1..]), r[k].base)
  {
    var l := Bases(r[1..]);
    WithoutAt(l, k - 1);
    assert l[k - 1] == r[k].base;
    assert Bases(CutAt(r, k)[1..]) == l[..k - 1] + l[k..];
  }

  lemma ListedSnoc(r: seq<Node>, x: Node)
    requires |r| > 0
    ensures Bases((r + [x])[1..]) == Bases(r[1..]) + [x.base]
  {
    assert (r + [x])[1..] == r[1..] + [x];
  }

  lemma SnocNoDup(l: seq<nat>, b: nat)
    requires NoDup(l) && b !in l
    ensures NoDup(l + [b])
  {
  }

  lemma SeparateNew(slabs: map<nat, Node>, x: Node, n: nat)
    requires Separate(slabs, n) && x.base !in slabs && x.rec.ctl.Length == n
    requires forall b :: b in slabs ==> slabs[b].rec != x.rec && slabs[b].rec.ctl != x.rec.ctl
    ensures Separate(slabs[x.base := x], n)
  {
  }

  lemma NewContents(slabs: map<nat, Node>, x: Node)
    requires x.base !in slabs && x.rec.free == 0 && x.rec.ctl[..] == seq(x.rec.ctl.Length, i => i)
    ensures Contents(slabs[x.base := x]) == Contents(slabs)[x.base := Slab(0, Iota(x.rec.ctl.Length))]
  {
    assert x.rec.ctl[..] == Iota(x.rec.ctl.Length);
  }

  /** Counts one object of a slab less and puts its index on top of the stack. */
  method PushIndex(x: Node, index: nat, ghost slabs: map<nat, Node>, ghost n: nat)
    requires Separate(slabs, n) && x.base in slabs && slabs[x.base] == x && 0 < x.rec.free <= n
    modifies x.rec`free, x.rec.ctl
    ensures x.rec.free == old(x.rec.free) - 1 && Contents(slabs) == Returned(old(Contents(slabs)), x.base, index)
  {
    ghost var was := Contents(slabs);
    x.rec.free := x.rec.free - 1;
    x.rec.ctl[x.rec.free] := index;
    assert x.rec.ctl[..] == was[x.base].ctl[x.rec.free := index];
    forall b | b in slabs && b != x.base ensures Contents(slabs)[b] == was[b] { assert slabs[b].base == b; }
  }

  /** The records and stacks of the slabs. */
  ghost function RecordsOf(slabs: map<nat, Node>): set<object> {
    (set b | b in slabs :: slabs[b].rec) + (set b | b in slabs :: slabs[b].rec.ctl)
  }

  lemma RecordsGrow(slabs: map<nat, Node>, x: Node)
    ensures RecordsOf(slabs[x.base := x]) <= RecordsOf(slabs) + {x.rec, x.rec.ctl}
  {
  }

  class ObjectCache {
    const full: SlabList
    const partial: SlabList
    const free: SlabList
    const objsize: nat
    const n: nat
    var totalobjs: nat
    var inuse: nat
    /** The slabs by address. */
    ghost var slabs: map<nat, Node>

    ghost function Records(): set<object>
      reads this`slabs
    {
      RecordsOf(slabs)
    }

    ghost predicate Valid()
      reads this`slabs, full, partial, free, full.ring, partial.ring, free.ring
    {
      && Separate(slabs, n) && ThreeLists(full, partial, free)
      && OnList(full, slabs) && OnList(partial, slabs) && OnList(free, slabs)
      && full.Valid() && partial.Valid() && free.Valid()
    }

    ghost function View(): (c: Cache)
      requires |full.ring| > 0 && |partial.ring| > 0 && |free.ring| > 0
      reads this, full, partial, free, Records()
    {
      Cache(Contents(slabs), Listed(full), Listed(partial), Listed(free), totalobjs, inuse, objsize, n)
    }

    /** The view, field by field. */
    ghost predicate Shows(c: Cache)
      requires |full.ring| > 0 && |partial.ring| > 0 && |free.ring| > 0
      reads this, full, partial, free, Records()
    {
      && Contents(slabs) == c.slabs && Listed(full) == c.full && Listed(partial) == c.partial && Listed(free) == c.free
      && totalobjs == c.totalobjs && inuse == c.inuse && objsize == c.objsize && n == c.n
    }

    ghost predicate SameLists(f: seq<Node>, p: seq<Node>, e: seq<Node>)
      reads full, partial, free
    {
      full.ring == f && partial.ring == p && free.ring == e
    }

    constructor (size: nat)
      requires size > 0
      ensures Valid() && View() == NewCache(size) && CacheOk(View())
      ensures fresh(full) && fresh(partial) && fresh(free) && fresh(full.ring) && fresh(partial.ring) && fresh(free.ring)
    {
      NewCacheOk(size);
      full := new SlabList();
      partial := new SlabList();
      free := new SlabList();
      objsize := NewCache(size).objsize;
      n := NewCache(size).n;
      totalobjs, inuse := 0, 0;
      slabs := map[];
    }

    /** A slab gets its first object in use. */
    method FreeToPartial(x: Node, ghost k: nat)
      requires Valid() && 0 < k < |free.ring| && free.ring[k] == x && NoDup(Listed(free))
      modifies free`ring, partial`ring, free.ring, partial.ring
      ensures Valid() && Contents(slabs) == old(Contents(slabs)) && full.ring == old(full.ring)
      ensures Listed(free) == Without(old(Listed(free)), x.base) && Listed(partial) == old(Listed(partial)) + [x.base]
      ensures |partial.ring| == |old(partial.ring)| + 1 && partial.ring[|partial.ring| - 1] == x
      ensures slabs == old(slabs) && x.rec.free == old(x.rec.free) && inuse == old(inuse) && totalobjs == old(totalobjs)
    {
      Relink(x, free, partial, full, slabs, k);
    }

    /** A slab has all its objects in use. */
    method PartialToFull(x: Node, ghost k: nat)
      requires Valid() && 0 < k < |partial.ring| && partial.ring[k] == x && NoDup(Listed(partial))
      modifies partial`ring, full`ring, partial.ring, full.ring
      ensures Valid() && Contents(slabs) == old(Contents(slabs)) && free.ring == old(free.ring)
      ensures Listed(partial) == Without(old(Listed(partial)), x.base) && Listed(full) == old(Listed(full)) + [x.base]
      ensures |full.ring| == |old(full.ring)| + 1 && full.ring[|full.ring| - 1] == x
      ensures slabs == old(slabs) && x.rec.free == old(x.rec.free) && inuse == old(inuse) && totalobjs == old(totalobjs)
    {
      Relink(x, partial, full, free, slabs, k);
    }

    /** A full slab gets an object back. */
    method FullToPartial(x: Node, ghost k: nat)
      requires Valid() && 0 < k < |full.ring| && full.ring[k] == x && NoDup(Listed(full))
      modifies full`ring, partial`ring, full.ring, partial.ring
      ensures Valid() && Contents(slabs) == old(Contents(slabs)) && free.ring == old(free.ring)
      ensures Listed(full) == Without(old(Listed(full)), x.base) && Listed(partial) == old(Listed(partial)) + [x.base]
      ensures |partial.ring| == |old(partial.ring)| + 1 && partial.ring[|partial.ring| - 1] == x
      ensures slabs == old(slabs) && x.rec.free == old(x.rec.free) && inuse == old(inuse) && totalobjs == old(totalobjs)
    {
      Relink(x, full, partial, free, slabs, k);
    }

    /** A slab gets its last object back. */
    method PartialToFree(x: Node, ghost k: nat)
      requires Valid() && 0 < k < |partial.ring| && partial.ring[k] == x && NoDup(Listed(partial))
      modifies partial`ring, free`ring, partial.ring, free.ring
      ensures Valid() && Contents(slabs) == old(Contents(slabs)) && full.ring == old(full.ring)
      ensures Listed(partial) == Without(old(Listed(partial)), x.base) && Listed(free) == old(Listed(free)) + [x.base]
      ensures |free.ring| == |old(free.ring)| + 1 && free.ring[|free.ring| - 1] == x
      ensures slabs == old(slabs) && x.rec.free == old(x.rec.free) && inuse == old(inuse) && totalobjs == old(totalobjs)
    {
      Relink(x, partial, free, full, slabs, k);
    }

    /** Counts one more object of slab `x` as used. */
    method Take(x: Node)
      requires Valid() && x.base in slabs && slabs[x.base] == x && x.rec.free < n
      modifies x.rec`free, this`inuse
      ensures Valid() && x.rec.free == old(x.rec.free) + 1
      ensures SameLists(old(full.ring), old(partial.ring), old(free.ring)) && slabs == old(slabs)
      ensures inuse == old(inuse) + 1 && totalobjs == old(totalobjs)
      ensures Contents(slabs) == Bumped(old(Contents(slabs)), x.base)
    {
      x.rec.free := x.rec.free + 1;
      inuse := inuse + 1;
      forall b | b in slabs && b != x.base ensures slabs[b] != x { assert slabs[b].base == b; }
    }

    /** Counts one object less and puts its index on top of the stack. */
    method GiveBack(x: Node, index: nat)
      requires Valid() && x.base in slabs && slabs[x.base] == x && 0 < x.rec.free <= n && inuse > 0
      modifies x.rec`free, x.rec.ctl, this`inuse
      ensures Valid() && x.rec.free == old(x.rec.free) - 1
      ensures SameLists(old(full.ring), old(partial.ring), old(free.ring)) && slabs == old(slabs)
      ensures inuse == old(inuse) - 1 && totalobjs == old(totalobjs)
      ensures Contents(slabs) == Returned(old(Contents(slabs)), x.base, index)
    {
      PushIndex(x, index, slabs, n);
      inuse := inuse - 1;
    }

    /** Moves a partial slab to the full list if its last object was taken. */
    method SettleUp(x: Node, ghost k: nat)
      requires Valid() && 0 < k < |partial.ring| && partial.ring[k] == x && NoDup(Listed(partial))
      modifies full`ring, partial`ring, full.ring, partial.ring
      ensures Valid() && Contents(slabs) == old(Contents(slabs)) && free.ring == old(free.ring)
      ensures Listed(partial) == if x.rec.free == n then Without(old(Listed(partial)), x.base) else old(Listed(partial))
      ensures Listed(full) == if x.rec.free == n then old(Listed(full)) + [x.base] else old(Listed(full))
      ensures slabs == old(slabs) && x.rec.free == old(x.rec.free) && inuse == old(inuse) && totalobjs == old(totalobjs)
    {
      if x.rec.free == n { PartialToFull(x, k); }
    }

    /** Moves a partial slab to the free list if its last object came back. */
    method SettleDown(x: Node, ghost k: nat)
      requires Valid() && 0 < k < |partial.ring| && partial.ring[k] == x && NoDup(Listed(partial))
      modifies free`ring, partial`ring, free.ring, partial.ring
      ensures Valid() && Contents(slabs) == old(Contents(slabs)) && full.ring == old(full.ring)
      ensures Listed(partial) == if x.rec.free == 0 then Without(old(Listed(partial)), x.base) else old(Listed(partial))
      ensures Listed(free) == if x.rec.free == 0 then old(Listed(free)) + [x.base] else old(Listed(free))
      ensures slabs == old(slabs) && x.rec.free == old(x.rec.free) && inuse == old(inuse) && totalobjs == old(totalobjs)
    {
      if x.rec.free == 0 { PartialToFree(x, k); }
    }

    /** Takes the top object of a partial slab. */
    method AllocFromPartial(x: Node, ghost k: nat)
      requires Valid() && x.base in slabs && slabs[x.base] == x && 0 < x.rec.free < n && NoDup(Listed(partial))
      requires 0 < k < |partial.ring| && partial.ring[k] == x
      modifies this`inuse, x.rec, full`ring, partial`ring, full.ring, partial.ring
      ensures Valid() && slabs == old(slabs) && inuse == old(inuse) + 1 && totalobjs == old(totalobjs)
      ensures Contents(slabs) == Bumped(old(Contents(slabs)), x.base) && Listed(free) == old(Listed(free))
      ensures Listed(partial) == if old(x.rec.free) + 1 == n then Without(old(Listed(partial)), x.base) else old(Listed(partial))
      ensures Listed(full) == if old(x.rec.free) + 1 == n then old(Listed(full)) + [x.base] else old(Listed(full))
    {
      Take(x);
      SettleUp(x, k);
    }

    /** Takes the first object of a free slab, which may also be its last. */
    method AllocFromFree(x: Node, ghost k: nat)
      requires Valid() && x.base in slabs && slabs[x.base] == x && x.rec.free == 0 < n
      requires NoDup(Listed(free)) && NoDup(Listed(partial)) && x.base !in Listed(partial)
      requires 0 < k < |free.ring| && free.ring[k] == x
      modifies this`inuse, x.rec, full`ring, partial`ring, free`ring, full.ring, partial.ring, free.ring
      ensures Valid() && slabs == old(slabs) && inuse == old(inuse) + 1 && totalobjs == old(totalobjs)
      ensures Contents(slabs) == Bumped(old(Contents(slabs)), x.base) && Listed(free) == Without(old(Listed(free)), x.base)
      ensures Listed(partial) == var p := old(Listed(partial)) + [x.base]; if n == 1 then Without(p, x.base) else p
      ensures Listed(full) == if n == 1 then old(Listed(full)) + [x.base] else old(Listed(full))
    {
      SnocNoDup(Listed(partial), x.base);
      Take(x);
      PutToUse(x, k);
    }

    /** Moves a slab that was free to the partial list, and on to the full list if all its objects are in use. */
    method PutToUse(x: Node, ghost k: nat)
      requires Valid() && 0 < k < |free.ring| && free.ring[k] == x && NoDup(Listed(free)) && NoDup(Listed(partial) + [x.base])
      modifies full`ring, partial`ring, free`ring, full.ring, partial.ring, free.ring
      ensures Valid() && slabs == old(slabs) && inuse == old(inuse) && totalobjs == old(totalobjs)
      ensures Contents(slabs) == old(Contents(slabs)) && Listed(free) == Without(old(Listed(free)), x.base)
      ensures Listed(partial) == var p := old(Listed(partial)) + [x.base]; if x.rec.free == n then Without(p, x.base) else p
      ensures Listed(full) == if x.rec.free == n then old(Listed(full)) + [x.base] else old(Listed(full))
    {
      FreeToPartial(x, k);
      SettleUp(x, |partial.ring| - 1);
    }

    /** Takes an object back into a slab at position `k` of the full list. */
    method ReturnToFull(x: Node, index: nat, ghost k: nat)
      requires Valid() && x.base in slabs && slabs[x.base] == x && 0 < x.rec.free == n && inuse > 0
      requires NoDup(Listed(full)) && NoDup(Listed(partial)) && x.base !in Listed(partial)
      requires 0 < k < |full.ring| && full.ring[k] == x
      modifies this`inuse, x.rec, x.rec.ctl, full`ring, partial`ring, free`ring, full.ring, partial.ring, free.ring
      ensures Valid() && slabs == old(slabs) && inuse == old(inuse) - 1 && totalobjs == old(totalobjs)
      ensures Contents(slabs) == Returned(old(Contents(slabs)), x.base, index) && Listed(full) == Without(old(Listed(full)), x.base)
      ensures Listed(partial) == var p := old(Listed(partial)) + [x.base]; if n == 1 then Without(p, x.base) else p
      ensures Listed(free) == if n == 1 then old(Listed(free)) + [x.base] else old(Listed(free))
    {
      SnocNoDup(Listed(partial), x.base);
      GiveBack(x, index);
      Restock(x, k);
    }

    /** Moves a slab that was full to the partial list, and on to the free list if it has no object in use. */
    method Restock(x: Node, ghost k: nat)
      requires Valid() && 0 < k < |full.ring| && full.ring[k] == x && NoDup(Listed(full)) && NoDup(Listed(partial) + [x.base])
      modifies full`ring, partial`ring, free`ring, full.ring, partial.ring, free.ring
      ensures Valid() && slabs == old(slabs) && inuse == old(inuse) && totalobjs == old(totalobjs)
      ensures Contents(slabs) == old(Contents(slabs)) && Listed(full) == Without(old(Listed(full)), x.base)
      ensures Listed(partial) == var p := old(Listed(partial)) + [x.base]; if x.rec.free == 0 then Without(p, x.base) else p
      ensures Listed(free) == if x.rec.free == 0 then old(Listed(free)) + [x.base] else old(Listed(free))
    {
      FullToPartial(x, k);
      SettleDown(x, |partial.ring| - 1);
    }

    /** Takes an object back into a slab at position `k` of the partial list. */
    method ReturnToPartial(x: Node, index: nat, ghost k: nat)
      requires Valid() && x.base in slabs && slabs[x.base] == x && 0 < x.rec.free < n && inuse > 0
      requires NoDup(Listed(partial)) && 0 < k < |partial.ring| && partial.ring[k] == x
      modifies this`inuse, x.rec, x.rec.ctl, partial`ring, free`ring, partial.ring, free.ring
      ensures Valid() && slabs == old(slabs) && inuse == old(inuse) - 1 && totalobjs == old(totalobjs)
      ensures Contents(slabs) == Returned(old(Contents(slabs)), x.base, index) && Listed(full) == old(Listed(full))
      ensures Listed(partial) == if old(x.rec.free) == 1 then Without(old(Listed(partial)), x.base) else old(Listed(partial))
      ensures Listed(free) == if old(x.rec.free) == 1 then old(Listed(free)) + [x.base] else old(Listed(free))
    {
      GiveBack(x, index);
      SettleDown(x, k);
    }

    /** Lists, records and counters after taking an object of slab `b` of `c`. */
    ghost predicate Taken(c: Cache, b: nat)
      requires |full.ring| > 0 && |partial.ring| > 0 && |free.ring| > 0 && b in c.slabs
      reads this, full, partial, free, Records()
    {
      var p := if c.slabs[b].free == 0 then c.partial + [b] else c.partial;
      && Contents(slabs) == Bumped(c.slabs, b) && inuse == c.inuse + 1 && totalobjs == c.totalobjs
      && Listed(free) == (if c.slabs[b].free == 0 then Without(c.free, b) else c.free)
      && Listed(partial) == (if c.slabs[b].free + 1 == n then Without(p, b) else p)
      && Listed(full) == (if c.slabs[b].free + 1 == n then c.full + [b] else c.full)
    }

    /** They are those of the value model. */
    lemma TakenShows(c: Cache, b: nat)
      requires |full.ring| > 0 && |partial.ring| > 0 && |free.ring| > 0
      requires b in c.slabs && c.slabs[b].free < |c.slabs[b].ctl| && c.objsize == objsize && c.n == n && Taken(c, b)
      ensures Shows(TakeFrom(c, b))
    {
    }

    /** Lists, records and counters after giving object `i` back to slab `b` of `c`. */
    ghost predicate GivenBack(c: Cache, b: nat, i: nat)
      requires |full.ring| > 0 && |partial.ring| > 0 && |free.ring| > 0
      requires b in c.slabs && 0 < c.slabs[b].free <= |c.slabs[b].ctl|
      reads this, full, partial, free, Records()
    {
      var p := if c.slabs[b].free == n then c.partial + [b] else c.partial;
      && Contents(slabs) == Returned(c.slabs, b, i) && inuse == c.inuse - 1 && totalobjs == c.totalobjs
      && Listed(full) == (if c.slabs[b].free == n then Without(c.full, b) else c.full)
      && Listed(partial) == (if c.slabs[b].free == 1 then Without(p, b) else p)
      && Listed(free) == (if c.slabs[b].free == 1 then c.free + [b] else c.free)
    }

    lemma GivenBackShows(c: Cache, b: nat, i: nat)
      requires |full.ring| > 0 && |partial.ring| > 0 && |free.ring| > 0
      requires b in c.slabs && 0 < c.slabs[b].free <= |c.slabs[b].ctl| && c.inuse > 0 && c.objsize == objsize && c.n == n
      requires GivenBack(c, b, i)
      ensures Shows(FreeOn(c, b, i))
    {
    }

    /** What the invariant says about the slab at position `k` of a list. */
    lemma AtFull(k: nat, c: OkCache)
      requires Valid() && View() == c && 0 < k < |full.ring|
      ensures var x := full.ring[k]; x.base in slabs && slabs[x.base] == x && x.rec.free == n > 0 && x.base !in Listed(partial)
      ensures NoDup(Listed(full)) && NoDup(Listed(partial)) && inuse > 0
    {
      var x := full.ring[k];
      assert c.full[k - 1] == x.base && x.base in c.full;
      assert c.slabs[x.base].free == x.rec.free;
      assert x.base !in c.partial;
      InUsePositive(c, x.base);
    }

    lemma AtPartial(k: nat, c: OkCache)
      requires Valid() && View() == c && 0 < k < |partial.ring|
      ensures var x := partial.ring[k]; x.base in slabs && slabs[x.base] == x && 0 < x.rec.free < n
      ensures NoDup(Listed(partial)) && inuse > 0
    {
      var x := partial.ring[k];
      assert c.partial[k - 1] == x.base && x.base in c.partial;
      assert c.slabs[x.base].free == x.rec.free;
      InUsePositive(c, x.base);
    }

    lemma AtFree(k: nat, c: OkCache)
      requires Valid() && View() == c && 0 < k < |free.ring|
      ensures var x := free.ring[k]; x.base in slabs && slabs[x.base] == x && x.rec.free == 0 < n && x.base !in Listed(partial)
      ensures NoDup(Listed(free)) && NoDup(Listed(partial))
    {
      var x := free.ring[k];
      assert c.free[k - 1] == x.base && x.base in c.free;
      assert c.slabs[x.base].free == x.rec.free;
      assert x.base !in c.partial;
    }

    /** Object `i` of slab `b` is the one at address `p`. */
    predicate Indexes(b: nat, i: nat, p: nat)
      requires objsize > 0
    {
      MemoryOf(b, n) <= p && i == Quotient(p - MemoryOf(b, n), objsize)
    }

    /** Walks a list and looks for the slab whose objects contain `p`. */
    method FindIn(list: SlabList, p: nat) returns (found: bool, x: Node, i: nat, ghost k: nat)
      requires list.Valid() && objsize > 0
      ensures found ==> 0 < k < |list.ring| && x == list.ring[k] && Indexes(x.base, i, p)
      ensures FindSlab(Listed(list), n, objsize, p) == if found then [x.base] else []
    {
      x := list.First();
      k, i := 1, 0;
      while x != list.head
        invariant 1 <= k <= |list.ring| && x == if k < |list.ring| then list.ring[k] else list.head
        invariant FindSlab(Listed(list), n, objsize, p) == FindSlab(Listed(list)[k - 1..], n, objsize, p)
        decreases |list.ring| - k
      {
        if MemoryOf(x.base, n) <= p < MemoryOf(x.base, n) + Repeated(n, objsize) {
          return true, x, Quotient(p - MemoryOf(x.base, n), objsize), k;
        }
        assert Listed(list)[k - 1..][1..] == Listed(list)[k..];
        assert Linked(list.ring, k);
        x := x.next;
        k := k + 1;
      }
      return false, x, 0, k;
    }

    /** A slab that is on no list and shares nothing, with a stack that lists every object. */
    ghost predicate NewSlab(x: Node)
      reads this, full, partial, free, x.rec, x.rec.ctl
    {
      && x.base !in slabs && x !in full.ring && x !in partial.ring && x !in free.ring
      && x.rec.free == 0 && x.rec.ctl.Length == n && x.rec.ctl[..] == seq(n, i => i)
      && forall b :: b in slabs ==> slabs[b].rec != x.rec && slabs[b].rec.ctl != x.rec.ctl
    }

    /** Counts the objects of a new slab, all of which are free, and links it to the free list. */
    method LinkSlab(x: Node)
      requires Valid() && NewSlab(x)
      modifies this`slabs, this`totalobjs, x, free`ring, free.ring
      ensures Valid() && slabs == old(slabs)[x.base := x] && totalobjs == old(totalobjs) + n && inuse == old(inuse)
      ensures SameLists(old(full.ring), old(partial.ring), old(free.ring) + [x])
      ensures Contents(slabs) == old(Contents(slabs[x.base := x]))
    {
      LinkFree(x);
      totalobjs := totalobjs + n;
    }

    method LinkFree(x: Node)
      requires Valid() && NewSlab(x)
      modifies this`slabs, x, free`ring, free.ring
      ensures Valid() && slabs == old(slabs)[x.base := x]
      ensures SameLists(old(full.ring), old(partial.ring), old(free.ring) + [x])
      ensures Contents(slabs) == old(Contents(slabs[x.base := x]))
    {
      ghost var more := slabs[x.base := x];
      SeparateNew(slabs, x, n);
      LinkNew(x, free, full, partial, slabs);
      slabs := more;
    }

    /** The rings have their heads, and the view is `c`. */
    ghost predicate Viewed(c: Cache)
      reads this, full, partial, free, Records()
    {
      |full.ring| > 0 && |partial.ring| > 0 && |free.ring| > 0 && View() == c
    }

    /** The slab of a listed node, as a value. */
    lemma SlabOf(x: Node, c: Cache)
      requires Valid() && Viewed(c) && x.base in slabs && slabs[x.base] == x
      ensures x.base in c.slabs && c.slabs[x.base] == Slab(x.rec.free, x.rec.ctl[..]) && x.rec.ctl.Length == n
      ensures x.rec in Records() && x.rec.ctl in Records()
    {
      assert slabs[x.base].rec == x.rec;
    }

    lemma TakenIsView(c: Cache, b: nat)
      requires |full.ring| > 0 && |partial.ring| > 0 && |free.ring| > 0
      requires b in c.slabs && c.slabs[b].free < |c.slabs[b].ctl| && c.objsize == objsize && c.n == n && Taken(c, b)
      ensures Viewed(TakeFrom(c, b))
    {
      TakenShows(c, b);
    }

    /** `cache_alloc` from the first partial slab. */
    method AllocPartial(ghost c: OkCache) returns (ptr: nat)
      requires Valid() && Viewed(c) && |partial.ring| > 1
      modifies this`inuse, Records(), full`ring, partial`ring, full.ring, partial.ring
      ensures Valid() && Granted(c, ptr)
    {
      var x := partial.First();
      AtPartial(1, c);
      SlabOf(x, c);
      assert c.partial[0] == x.base;
      ptr := ObjAddr(x.base, n, objsize, x.rec.ctl[x.rec.free]);
      AllocFromPartial(x, 1);
      TakenIsView(c, x.base);
    }

    /** The view is that of the value model after an allocation from `c`, which returned `ptr`. */
    ghost predicate Granted(c: Cache, ptr: nat)
      reads this, full, partial, free, Records()
    {
      && (c.partial != [] || c.free != []) && Pick(c) in c.slabs && c.slabs[Pick(c)].free < |c.slabs[Pick(c)].ctl|
      && Viewed(AllocOn(c, Pick(c)).0) && ptr == AllocOn(c, Pick(c)).1
    }

    /** `cache_alloc` from the first free slab. */
    method AllocFree(ghost c: OkCache) returns (ptr: nat)
      requires Valid() && Viewed(c) && |partial.ring| == 1 && |free.ring| > 1
      modifies this`inuse, Records(), full`ring, partial`ring, free`ring, full.ring, partial.ring, free.ring
      ensures Valid() && Granted(c, ptr)
    {
      var x := free.First();
      AtFree(1, c);
      SlabOf(x, c);
      assert c.partial == [] && c.free[0] == x.base;
      ptr := ObjAddr(x.base, n, objsize, x.rec.ctl[x.rec.free]);
      AllocFromFree(x, 1);
      TakenIsView(c, x.base);
    }

    /** `cache_select` and `cache_alloc` on a cache that need not grow: the first partial slab, else the first free one. */
    method CacheAlloc(ghost c: OkCache) returns (ok: bool, ptr: nat)
      requires Valid() && Viewed(c)
      modifies this`inuse, Records(), full`ring, partial`ring, free`ring, full.ring, partial.ring, free.ring
      ensures Valid() && ok == (c.partial != [] || c.free != [])
      ensures if ok then Granted(c, ptr) else Viewed(c) && SameLists(old(full.ring), old(partial.ring), old(free.ring))
    {
      ptr := 0;
      var x := partial.First();
      if x != partial.head {
        ptr := AllocPartial(c);
        return true, ptr;
      }
      assert |partial.ring| == 1;
      x := free.First();
      assert Viewed(c);
      if x != free.head {
        ptr := AllocFree(c);
        return true, ptr;
      }
      return false, 0;
    }

    /** `cache_grow` with the slab record laid out in new memory: it goes to the free list. */
    method CacheGrow(x: Node, ghost c: OkCache)
      requires Valid() && Viewed(c) && NewSlab(x)
      modifies this`slabs, this`totalobjs, x, free`ring, free.ring
      ensures Valid() && Viewed(GrowAt(c, x.base)) && slabs == old(slabs)[x.base := x]
      ensures SameLists(old(full.ring), old(partial.ring), old(free.ring) + [x])
    {
      ListedSnoc(free.ring, x);
      NewContents(slabs, x);
      LinkSlab(x);
      GrownIsView(c, x.base);
    }

    /** The grown cache has a free slab and no partial one, so that allocation takes an object of the new slab. */
    method AllocGrown(x: Node, ghost c: OkCache) returns (ptr: nat)
      requires Valid() && Viewed(c) && NewSlab(x) && c.partial == [] && c.free == []
      modifies this`inuse, this`slabs, this`totalobjs, x, x.rec, x.rec.ctl, Records(), full`ring, partial`ring, free`ring, full.ring, partial.ring, free.ring
      ensures Valid() && Granted(GrowAt(c, x.base), ptr)
    {
      GrowLaw(c, x.base, 0, 0);
      RecordsGrow(slabs, x);
      CacheGrow(x, c);
      ptr := AllocFree(GrowAt(c, x.base));
    }

    /** `cache_alloc` with `cache_select` and `cache_grow`: if no slab has a free object, one is laid out in the memory
        at `base`, which is what the page allocator returned, and the allocation is tried again. */
    method AllocOrGrow(base: nat, ghost first: nat, ghost pages: Pages, ghost c: OkCache) returns (ok: bool, ptr: nat)
      requires Valid() && Viewed(c) && |pages.used| == |pages.counts|
      requires c.partial == [] && c.free == [] ==> base == KernelMalloc(first, pages, SlabMem(c.n, c.objsize)).1 && base !in c.slabs
      modifies this`inuse, this`slabs, this`totalobjs, Records(), full`ring, partial`ring, free`ring, full.ring, partial.ring, free.ring
      ensures Valid() && Answers(HeapModel.CacheAlloc(first, pages, c), c, ok, ptr)
    {
      ok, ptr := CacheAlloc(c);
      if ok {
        PickAnswers(first, pages, c, ptr);
      } else if base != NULL {
        var x := new Node(base, n);
        ptr := AllocGrown(x, c);
        GrowAnswers(first, pages, c, base, ptr);
        ok := true;
      }
    }

    lemma PickAnswers(first: nat, pages: Pages, c: OkCache, ptr: nat)
      requires |pages.used| == |pages.counts| && Granted(c, ptr)
      ensures Answers(HeapModel.CacheAlloc(first, pages, c), c, true, ptr)
    {
      PickLaw(c);
    }

    lemma GrowAnswers(first: nat, pages: Pages, c: OkCache, base: nat, ptr: nat)
      requires |pages.used| == |pages.counts| && c.partial == [] && c.free == [] && base !in c.slabs
      requires NULL != base == KernelMalloc(first, pages, SlabMem(c.n, c.objsize)).1 && Granted(GrowAt(c, base), ptr)
      ensures Answers(HeapModel.CacheAlloc(first, pages, c), c, true, ptr)
    {
    }

    /** The outcome and the view are those of the value model's grant. */
    ghost predicate Answers(g: Grant, c: Cache, ok: bool, ptr: nat)
      reads this, full, partial, free, Records()
    {
      ok == g.Object? && if ok then ptr == g.ptr && Viewed(g.cache) else Viewed(c)
    }

    lemma GrownIsView(c: Cache, b: nat)
      requires |full.ring| > 0 && |partial.ring| > 0 && |free.ring| > 0 && c.objsize == objsize && c.n == n
      requires Contents(slabs) == c.slabs[b := Slab(0, Iota(n))] && Listed(free) == c.free + [b]
      requires Listed(full) == c.full && Listed(partial) == c.partial && totalobjs == c.totalobjs + n && inuse == c.inuse
      ensures Viewed(GrowAt(c, b))
    {
    }

    lemma GivenBackIsView(c: Cache, b: nat, i: nat)
      requires |full.ring| > 0 && |partial.ring| > 0 && |free.ring| > 0
      requires b in c.slabs && 0 < c.slabs[b].free <= |c.slabs[b].ctl| && c.inuse > 0 && c.objsize == objsize && c.n == n
      requires GivenBack(c, b, i)
      ensures Viewed(FreeOn(c, b, i))
    {
      GivenBackShows(c, b, i);
    }

    /** `cache_dealloc_within` for a slab of the full list. */
    method DeallocFull(x: Node, i: nat, ghost k: nat, ghost c: OkCache)
      requires Valid() && Viewed(c) && 0 < k < |full.ring| && full.ring[k] == x
      modifies this`inuse, Records(), full`ring, partial`ring, free`ring, full.ring, partial.ring, free.ring
      ensures Valid() && TakenBack(c, x.base, i)
    {
      AtFull(k, c);
      SlabOf(x, c);
      ReturnToFull(x, i, k);
      GivenBackIsView(c, x.base, i);
    }

    /** `cache_dealloc_within` for a slab of the partial list. */
    method DeallocPartial(x: Node, i: nat, ghost k: nat, ghost c: OkCache)
      requires Valid() && Viewed(c) && 0 < k < |partial.ring| && partial.ring[k] == x
      modifies this`inuse, Records(), partial`ring, free`ring, partial.ring, free.ring
      ensures Valid() && TakenBack(c, x.base, i)
    {
      AtPartial(k, c);
      SlabOf(x, c);
      ReturnToPartial(x, i, k);
      GivenBackIsView(c, x.base, i);
    }

    /** The view is that of the value model after object `i` of slab `b` was given back. */
    ghost predicate TakenBack(c: Cache, b: nat, i: nat)
      reads this, full, partial, free, Records()
    {
      b in c.slabs && 0 < c.slabs[b].free <= |c.slabs[b].ctl| && c.inuse > 0 && Viewed(FreeOn(c, b, i))
    }

    /** Gives the object at `p` back if it is in a slab of the full list. */
    method DeallocInFull(p: nat, ghost c: OkCache) returns (done: bool)
      requires Valid() && Viewed(c) && objsize > 0
      modifies this`inuse, Records(), full`ring, partial`ring, free`ring, full.ring, partial.ring, free.ring
      ensures Valid() && (!done ==> SameLists(old(full.ring), old(partial.ring), old(free.ring)))
      ensures if done then Viewed(CacheFree(c, p)) else Viewed(c) && FindSlab(c.full, c.n, c.objsize, p) == []
    {
      var found, x, i, k := FindIn(full, p);
      if found {
        DeallocFull(x, i, k, c);
        DeallocIs(c, p, x.base, i);
      }
      return found;
    }

    /** Gives the object at `p` back if it is in a slab of the partial list. */
    method DeallocInPartial(p: nat, ghost c: OkCache)
      requires Valid() && Viewed(c) && objsize > 0 && FindSlab(c.full, c.n, c.objsize, p) == []
      modifies this`inuse, Records(), partial`ring, free`ring, partial.ring, free.ring
      ensures Valid() && Viewed(CacheFree(c, p))
    {
      var found, x, i, k := FindIn(partial, p);
      if found {
        DeallocPartial(x, i, k, c);
        DeallocIs(c, p, x.base, i);
      }
    }

    /** `cache_dealloc`: the full list is searched first, then the partial list. */
    method CacheDealloc(p: nat, ghost c: OkCache)
      requires Valid() && Viewed(c) && objsize > 0
      modifies this`inuse, Records(), full`ring, partial`ring, free`ring, full.ring, partial.ring, free.ring
      ensures Valid() && Viewed(CacheFree(c, p))
    {
      var done := DeallocInFull(p, c);
      if !done { DeallocInPartial(p, c); }
    }

    lemma DeallocIs(c: Cache, p: nat, b: nat, i: nat)
      requires TakenBack(c, b, i) && Holder(c, p) == [b] && objsize == c.objsize > 0 && n == c.n && Indexes(b, i, p)
      ensures Viewed(CacheFree(c, p))
    {
    }
  }
}

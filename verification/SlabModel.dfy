/** Object caches as values.  A slab is known by its address; its stack of free indices occupies
    `ctl[free..]`, so `free` counts the objects in use.  A cache keeps each slab on one of three
    lists. */
module SlabModel {

  const SLAB_HDR := 40
  const CTL_BYTES := 4
  const ALIGNMENT := 16

  datatype Slab = Slab(free: nat, ctl: seq<nat>)

  datatype Cache = Cache(slabs: map<nat, Slab>, full: seq<nat>, partial: seq<nat>, free: seq<nat>,
                         totalobjs: nat, inuse: nat, objsize: nat, n: nat)

  // ----- layout

  /** `k` times `n`, as repeated addition. */
  function Repeated(k: nat, n: nat): nat {
    if k == 0 then 0 else n + Repeated(k - 1, n)
  }

  lemma {:induction false} RepeatedIsProduct(k: nat, n: nat)
    ensures Repeated(k, n) == n * k
  {
    if k > 0 { RepeatedIsProduct(k - 1, n); }
  }

  lemma {:induction false} Spread(n: nat, i: nat, j: nat)
    requires i < j
    ensures Repeated(i, n) + n <= Repeated(j, n)
    decreases j
  {
    if i + 1 < j { Spread(n, i, j - 1); }
  }

  lemma {:induction false} RepeatedAligned(i: nat, n: nat)
    requires n % ALIGNMENT == 0
    ensures Repeated(i, n) % ALIGNMENT == 0
  {
    if i > 0 { RepeatedAligned(i - 1, n); }
  }

  function AlignUp(x: nat): (r: nat)
    ensures x <= r < x + ALIGNMENT && r % ALIGNMENT == 0
  {
    (x + ALIGNMENT - 1) / ALIGNMENT * ALIGNMENT
  }

  lemma AlignedStays(x: nat)
    requires x % ALIGNMENT == 0
    ensures AlignUp(x) == x
  {
  }

  /** The bytes requested for one slab: header, index stack, slack for alignment, objects. */
  function SlabMem(n: nat, objsize: nat): nat {
    SLAB_HDR + n * CTL_BYTES + (ALIGNMENT - 1) + Repeated(n, objsize)
  }

  /** Where the objects of the slab at `base` start, behind its header and index stack. */
  function MemoryOf(base: nat, n: nat): nat { AlignUp(base + SLAB_HDR + n * CTL_BYTES) }

  function ObjAddr(base: nat, n: nat, objsize: nat, i: nat): nat { MemoryOf(base, n) + Repeated(i, objsize) }

  /** Objects lie inside the slab, behind header and stack, and are aligned. */
  lemma ObjBounds(base: nat, n: nat, objsize: nat, i: nat)
    requires objsize % ALIGNMENT == 0 && i < n
    ensures base + SLAB_HDR + n * CTL_BYTES <= MemoryOf(base, n) <= ObjAddr(base, n, objsize, i)
    ensures ObjAddr(base, n, objsize, i) + objsize <= MemoryOf(base, n) + Repeated(n, objsize) <= base + SlabMem(n, objsize)
    ensures ObjAddr(base, n, objsize, i) % ALIGNMENT == 0
  {
    Spread(objsize, i, n);
    RepeatedAligned(i, objsize);
  }

  /** Different objects of a slab do not overlap. */
  lemma ObjApart(base: nat, n: nat, objsize: nat, i: nat, j: nat)
    requires i < j
    ensures ObjAddr(base, n, objsize, i) + objsize <= ObjAddr(base, n, objsize, j)
  {
    Spread(objsize, i, j);
  }

  /** Integer division, as repeated subtraction. */
  function Quotient(x: nat, n: nat): nat
    requires n > 0
  {
    if x < n then 0 else 1 + Quotient(x - n, n)
  }

  /** The address determines the index. */
  lemma {:induction false} IndexOf(base: nat, n: nat, objsize: nat, i: nat)
    requires objsize > 0
    ensures Quotient(ObjAddr(base, n, objsize, i) - MemoryOf(base, n), objsize) == i
  {
    if i > 0 { IndexOf(base, n, objsize, i - 1); }
  }

  lemma {:induction false} QuotientIsDivision(x: nat, n: nat)
    requires n > 0
    ensures n * Quotient(x, n) <= x < n * Quotient(x, n) + n
  {
    if x >= n { QuotientIsDivision(x - n, n); }
  }

  // ----- lists without duplicates

  ghost predicate NoDup(l: seq<nat>) {
    forall i, j :: 0 <= i < j < |l| ==> l[i] != l[j]
  }

  /** The list with `b` unlinked. */
  function Without(l: seq<nat>, b: nat): seq<nat> {
    if l == [] then [] else if l[0] == b then l[1..] else [l[0]] + Without(l[1..], b)
  }

  lemma {:induction false} WithoutAt(l: seq<nat>, k: nat)
    requires NoDup(l) && k < |l|
    ensures Without(l, l[k]) == l[..k] + l[k + 1..]
  {
    if k > 0 {
      WithoutAt(l[1..], k - 1);
      assert l[1..][..k - 1] == l[1..k] && l[1..][k..] == l[k + 1..];
      assert l[..k] == [l[0]] + l[1..k];
    }
  }

  lemma {:induction false} WithoutLaw(l: seq<nat>, b: nat)
    requires NoDup(l) && b in l
    ensures NoDup(Without(l, b)) && |Without(l, b)| == |l| - 1
    ensures forall x :: x in Without(l, b) <==> x in l && x != b
  {
    assert l == [l[0]] + l[1..];
    assert l[0] !in l[1..];
    if l[0] != b { WithoutLaw(l[1..], b); }
  }

  // ----- the two operations

  /** The slab the next object comes from: the first partial one, else the first free one. */
  function Pick(c: Cache): (b: nat)
    requires c.partial != [] || c.free != []
  {
    if c.partial != [] then c.partial[0] else c.free[0]
  }

  /** One more object of slab `b` in use. */
  function Bumped(m: map<nat, Slab>, b: nat): map<nat, Slab>
    requires b in m
  {
    m[b := m[b].(free := m[b].free + 1)]
  }

  /** Object `i` of slab `b` no longer in use. */
  function Returned(m: map<nat, Slab>, b: nat, i: nat): map<nat, Slab>
    requires b in m && 0 < m[b].free <= |m[b].ctl|
  {
    m[b := Slab(m[b].free - 1, m[b].ctl[m[b].free - 1 := i])]
  }

  /** Takes the object on top of the stack of slab `b`: the cache afterwards. */
  function TakeFrom(c: Cache, b: nat): Cache
    requires b in c.slabs && c.slabs[b].free < |c.slabs[b].ctl|
  {
    var s := c.slabs[b];
    var c1 := if s.free == 0 then c.(free := Without(c.free, b), partial := c.partial + [b]) else c;
    var c2 := if s.free + 1 == c.n then c1.(partial := Without(c1.partial, b), full := c1.full + [b]) else c1;
    c2.(slabs := Bumped(c.slabs, b), inuse := c.inuse + 1)
  }

  /** The cache after taking an object of slab `b`, and the object's address. */
  function AllocOn(c: Cache, b: nat): (r: (Cache, nat))
    requires b in c.slabs && c.slabs[b].free < |c.slabs[b].ctl|
  {
    (TakeFrom(c, b), ObjAddr(b, c.n, c.objsize, c.slabs[b].ctl[c.slabs[b].free]))
  }

  /** Gives object `i` back to slab `b`. */
  function FreeOn(c: Cache, b: nat, i: nat): Cache
    requires b in c.slabs && 0 < c.slabs[b].free <= |c.slabs[b].ctl| && c.inuse > 0
  {
    var s := c.slabs[b];
    var c1 := if s.free == c.n then c.(full := Without(c.full, b), partial := c.partial + [b]) else c;
    var c2 := if s.free == 1 then c1.(partial := Without(c1.partial, b), free := c1.free + [b]) else c1;
    c2.(slabs := Returned(c.slabs, b, i), inuse := c.inuse - 1)
  }

  function Iota(n: nat): seq<nat> { seq(n, i => i) }

  /** A cache with one more slab, at `base`. */
  function GrowAt(c: Cache, base: nat): Cache {
    c.(slabs := c.slabs[base := Slab(0, Iota(c.n))], free := c.free + [base], totalobjs := c.totalobjs + c.n)
  }

  // ----- the invariant

  ghost predicate SlabOk(s: Slab, n: nat) {
    && |s.ctl| == n && s.free <= n
    && (forall j :: s.free <= j < n ==> s.ctl[j] < n)
    && (forall j, k :: s.free <= j < k < n ==> s.ctl[j] != s.ctl[k])
  }

  function SumInUse(slabs: map<nat, Slab>, l: seq<nat>): nat
    requires forall b :: b in l ==> b in slabs
  {
    if l == [] then 0 else slabs[l[0]].free + SumInUse(slabs, l[1..])
  }

  /** The list holds, once each, the slabs with between `lo` and `hi` objects in use. */
  ghost predicate ListIs(l: seq<nat>, slabs: map<nat, Slab>, lo: nat, hi: int) {
    NoDup(l) && forall b {:trigger b in l} :: b in l <==> b in slabs && lo <= slabs[b].free <= hi
  }

  /** Every slab is on exactly the list its counter dictates. */
  ghost predicate ListsOk(c: Cache) {
    && ListIs(c.full, c.slabs, c.n, c.n)
    && ListIs(c.partial, c.slabs, 1, c.n - 1)
    && ListIs(c.free, c.slabs, 0, 0)
  }

  ghost predicate CountsOk(c: Cache)
    requires ListsOk(c)
  {
    && c.inuse == SumInUse(c.slabs, c.full) + SumInUse(c.slabs, c.partial) + SumInUse(c.slabs, c.free)
    && c.totalobjs == Repeated(|c.full| + |c.partial| + |c.free|, c.n)
  }

  ghost predicate CacheOk(c: Cache) {
    && c.n > 0 && c.objsize > 0 && c.objsize % ALIGNMENT == 0
    && (forall b :: b in c.slabs ==> SlabOk(c.slabs[b], c.n))
    && ListsOk(c) && CountsOk(c)
  }

  /** An object in use: its index is not on the stack of free indices. */
  predicate Taken(s: Slab, i: nat) {
    i < |s.ctl| && s.free <= |s.ctl| && i !in s.ctl[s.free..]
  }

  ghost predicate IsLive(c: Cache, b: nat, i: nat) {
    b in c.slabs && Taken(c.slabs[b], i)
  }

  // ----- sums

  lemma {:induction false} SumSame(s: map<nat, Slab>, t: map<nat, Slab>, l: seq<nat>)
    requires forall b :: b in l ==> b in s && b in t && s[b].free == t[b].free
    ensures SumInUse(s, l) == SumInUse(t, l)
  {
    if l != [] { SumSame(s, t, l[1..]); }
  }

  lemma {:induction false} SumSnoc(s: map<nat, Slab>, l: seq<nat>, b: nat)
    requires b in s && forall x :: x in l ==> x in s
    ensures SumInUse(s, l + [b]) == SumInUse(s, l) + s[b].free
  {
    if l == [] {
      assert l + [b] == [b];
    } else {
      assert (l + [b])[0] == l[0] && (l + [b])[1..] == l[1..] + [b];
      SumSnoc(s, l[1..], b);
    }
  }

  lemma {:induction false} SumWithout(s: map<nat, Slab>, l: seq<nat>, b: nat)
    requires b in l && forall x :: x in l ==> x in s
    ensures forall x :: x in Without(l, b) ==> x in s
    ensures SumInUse(s, l) == s[b].free + SumInUse(s, Without(l, b))
  {
    if l[0] != b {
      SumWithout(s, l[1..], b);
      var w := Without(l[1..], b);
      assert ([l[0]] + w)[0] == l[0] && ([l[0]] + w)[1..] == w;
      assert forall x :: x in [l[0]] + w ==> x in s;
    }
  }

  /** Changing one slab of a list changes the sum by the difference. */
  lemma {:induction false} SumUpdate(s: map<nat, Slab>, l: seq<nat>, b: nat, v: Slab)
    requires NoDup(l) && b in l && forall x :: x in l ==> x in s
    ensures SumInUse(s[b := v], l) == SumInUse(s, l) - s[b].free + v.free
  {
    if l[0] == b {
      SumSame(s, s[b := v], l[1..]);
    } else {
      SumUpdate(s, l[1..], b, v);
    }
  }

  // ----- allocation

  /** The object handed out was free and is the only one whose status changes. */
  lemma AllocTakes(s: Slab, n: nat, i: nat)
    requires SlabOk(s, n) && s.free < n
    ensures var s' := s.(free := s.free + 1);
            && SlabOk(s', n) && !Taken(s, s.ctl[s.free])
            && (Taken(s', i) <==> Taken(s, i) || i == s.ctl[s.free])
  {
    assert s.ctl[s.free..] == [s.ctl[s.free]] + s.ctl[s.free + 1..];
  }

  // What one change of a slab's counter does to a list, and to the sum over it.

  lemma ListKeep(l: seq<nat>, slabs: map<nat, Slab>, lo: nat, hi: int, b: nat, v: Slab)
    requires ListIs(l, slabs, lo, hi) && b in slabs && (lo <= slabs[b].free <= hi <==> lo <= v.free <= hi)
    ensures ListIs(l, slabs[b := v], lo, hi)
    ensures SumInUse(slabs[b := v], l) == SumInUse(slabs, l) + if lo <= v.free <= hi then v.free - slabs[b].free else 0
  {
    if lo <= v.free <= hi { SumUpdate(slabs, l, b, v); } else { SumSame(slabs, slabs[b := v], l); }
  }

  lemma ListAdd(l: seq<nat>, slabs: map<nat, Slab>, lo: nat, hi: int, b: nat, v: Slab)
    requires ListIs(l, slabs, lo, hi) && b !in l && lo <= v.free <= hi
    ensures ListIs(l + [b], slabs[b := v], lo, hi)
    ensures SumInUse(slabs[b := v], l + [b]) == SumInUse(slabs, l) + v.free
  {
    SumSame(slabs, slabs[b := v], l);
    SumSnoc(slabs[b := v], l, b);
  }

  lemma ListDrop(l: seq<nat>, slabs: map<nat, Slab>, lo: nat, hi: int, b: nat, v: Slab)
    requires ListIs(l, slabs, lo, hi) && b in l && !(lo <= v.free <= hi)
    ensures ListIs(Without(l, b), slabs[b := v], lo, hi) && |Without(l, b)| == |l| - 1
    ensures SumInUse(slabs[b := v], Without(l, b)) == SumInUse(slabs, l) - slabs[b].free
  {
    WithoutLaw(l, b);
    SumWithout(slabs, l, b);
    SumSame(slabs, slabs[b := v], Without(l, b));
  }

  lemma {:induction false} WithoutSnoc(l: seq<nat>, b: nat)
    requires b !in l
    ensures Without(l + [b], b) == l
  {
    if l == [] {
      assert l + [b] == [b];
    } else {
      assert (l + [b])[0] == l[0] && (l + [b])[1..] == l[1..] + [b];
      WithoutSnoc(l[1..], b);
    }
  }

  /** The three lists after the counter of `b` went from `s.free` up or down by one. */
  ghost predicate Relisted(c: Cache, r: Cache, b: nat, v: Slab)
    requires b in c.slabs
  {
    && r.slabs == c.slabs[b := v] && r.n == c.n
    && RelistedOne(c.full, r.full, c.slabs, c.n, c.n, b, v)
    && RelistedOne(c.partial, r.partial, c.slabs, 1, c.n - 1, b, v)
    && RelistedOne(c.free, r.free, c.slabs, 0, 0, b, v)
  }

  predicate RelistedOne(l: seq<nat>, m: seq<nat>, slabs: map<nat, Slab>, lo: nat, hi: int, b: nat, v: Slab)
    requires b in slabs
  {
    var was, now := lo <= slabs[b].free <= hi, lo <= v.free <= hi;
    m == if was == now then l else if now then l + [b] else Without(l, b)
  }

  lemma RelistedOneLaw(l: seq<nat>, m: seq<nat>, slabs: map<nat, Slab>, lo: nat, hi: int, b: nat, v: Slab)
    requires b in slabs && ListIs(l, slabs, lo, hi) && RelistedOne(l, m, slabs, lo, hi, b, v)
    ensures ListIs(m, slabs[b := v], lo, hi)
    ensures SumInUse(slabs[b := v], m) == SumInUse(slabs, l) - (if lo <= slabs[b].free <= hi then slabs[b].free else 0)
                                                             + (if lo <= v.free <= hi then v.free else 0)
    ensures |m| == |l| - (if lo <= slabs[b].free <= hi then 1 else 0) + (if lo <= v.free <= hi then 1 else 0)
  {
    var was, now := lo <= slabs[b].free <= hi, lo <= v.free <= hi;
    if was == now { ListKeep(l, slabs, lo, hi, b, v); }
    else if now { ListAdd(l, slabs, lo, hi, b, v); }
    else { ListDrop(l, slabs, lo, hi, b, v); }
  }

  /** Relisting keeps every slab on its list and the counters right. */
  lemma RelistedLaw(c: Cache, r: Cache, b: nat, v: Slab)
    requires ListsOk(c) && CountsOk(c) && c.n > 0 && b in c.slabs && c.slabs[b].free <= c.n && v.free <= c.n
    requires Relisted(c, r, b, v)
    requires r.totalobjs == c.totalobjs && r.inuse == c.inuse - c.slabs[b].free + v.free
    ensures ListsOk(r) && CountsOk(r)
  {
    RelistedOneLaw(c.full, r.full, c.slabs, c.n, c.n, b, v);
    RelistedOneLaw(c.partial, r.partial, c.slabs, 1, c.n - 1, b, v);
    RelistedOneLaw(c.free, r.free, c.slabs, 0, 0, b, v);
  }

  lemma AllocRelists(c: Cache, b: nat)
    requires ListsOk(c) && c.n > 0 && b in c.slabs && c.slabs[b].free < c.n && c.slabs[b].free < |c.slabs[b].ctl|
    ensures Relisted(c, TakeFrom(c, b), b, c.slabs[b].(free := c.slabs[b].free + 1))
  {
    if c.slabs[b].free == 0 { WithoutSnoc(c.partial, b); }
  }

  lemma FreeRelists(c: Cache, b: nat, i: nat)
    requires ListsOk(c) && c.n > 0 && b in c.slabs && 0 < c.slabs[b].free <= |c.slabs[b].ctl| && c.slabs[b].free <= c.n && c.inuse > 0
    ensures var s := c.slabs[b]; Relisted(c, FreeOn(c, b, i), b, Slab(s.free - 1, s.ctl[s.free - 1 := i]))
  {
    if c.slabs[b].free == c.n { WithoutSnoc(c.partial, b); }
  }

  /** Allocation keeps the invariant, hands out an object that was not in use, and changes the
      status of no other object. */
  lemma AllocLaw(c: Cache, b: nat, d: nat, j: nat)
    requires CacheOk(c) && b in c.slabs && c.slabs[b].free < c.n
    ensures var i := c.slabs[b].ctl[c.slabs[b].free]; var (r, ptr) := AllocOn(c, b);
            && CacheOk(r) && r.slabs.Keys == c.slabs.Keys && r.n == c.n && r.objsize == c.objsize
            && i < c.n && ptr == ObjAddr(b, c.n, c.objsize, i) && !IsLive(c, b, i)
            && (IsLive(r, d, j) <==> IsLive(c, d, j) || (d == b && j == i))
  {
    assert SlabOk(c.slabs[b], c.n);
    AllocKeepsOk(c, b);
    AllocTakes(c.slabs[b], c.n, j);
  }

  lemma AllocKeepsOk(c: Cache, b: nat)
    requires CacheOk(c) && b in c.slabs && c.slabs[b].free < c.n
    ensures var r := AllocOn(c, b).0;
            && CacheOk(r) && r.n == c.n && r.objsize == c.objsize
            && r.slabs == c.slabs[b := c.slabs[b].(free := c.slabs[b].free + 1)]
  {
    assert SlabOk(c.slabs[b], c.n);
    AllocRelists(c, b);
    RelistedLaw(c, TakeFrom(c, b), b, c.slabs[b].(free := c.slabs[b].free + 1));
    AllocTakes(c.slabs[b], c.n, 0);
  }

  // ----- release

  lemma FreeGivesBack(s: Slab, n: nat, i: nat, j: nat)
    requires SlabOk(s, n) && Taken(s, i)
    ensures s.free > 0
    ensures var s' := Slab(s.free - 1, s.ctl[s.free - 1 := i]);
            SlabOk(s', n) && (Taken(s', j) <==> Taken(s, j) && j != i)
  {
    if s.free == 0 {
      Pigeonhole(s.ctl, n, i);
      assert false;
    }
    var ctl := s.ctl[s.free - 1 := i];
    assert ctl[s.free - 1..] == [i] + s.ctl[s.free..];
  }

  /** A stack holding as many distinct indices as there are objects holds every index. */
  lemma {:induction false} Pigeonhole(ctl: seq<nat>, n: nat, i: nat)
    requires |ctl| == n && i < n && NoDup(ctl) && forall j :: 0 <= j < n ==> ctl[j] < n
    ensures i in ctl
  {
    var got := set j | 0 <= j < |ctl| :: ctl[j];
    SeqSize(ctl);
    assert got <= Below(n);
    if got != Below(n) { SubsetSmaller(got, Below(n)); }
    assert i in Below(n);
  }

  /** The first `n` numbers. */
  function Below(n: nat): (r: set<nat>)
    ensures |r| == n && forall k: nat :: k in r <==> k < n
  {
    if n == 0 then {} else Below(n - 1) + {n - 1}
  }

  lemma {:induction false} SeqSize(l: seq<nat>)
    requires NoDup(l)
    ensures |set j | 0 <= j < |l| :: l[j]| == |l|
  {
    if l != [] {
      var m := l[..|l| - 1];
      SeqSize(m);
      var a, b := set j | 0 <= j < |l| :: l[j], set j | 0 <= j < |m| :: m[j];
      forall x | x in a ensures x in b + {l[|l| - 1]} {
        var j :| 0 <= j < |l| && l[j] == x;
        if j < |m| { assert m[j] == x; }
      }
      forall x | x in b ensures x in a { var j :| 0 <= j < |m| && m[j] == x; assert l[j] == x; }
      assert a == b + {l[|l| - 1]};
    }
  }

  lemma SubsetSmaller(a: set<nat>, b: set<nat>)
    requires a < b
    ensures |a| < |b|
  {
    assert |b| == |a| + |b - a| by { assert b == a + (b - a); }
    var x :| x in b && x !in a;
    assert b - a != {} by { assert x in b - a; }
  }

  lemma {:induction false} SumAtLeast(s: map<nat, Slab>, l: seq<nat>, b: nat)
    requires b in l && forall x :: x in l ==> x in s
    ensures SumInUse(s, l) >= s[b].free
  {
    if l[0] != b { SumAtLeast(s, l[1..], b); }
  }

  lemma InUsePositive(c: Cache, b: nat)
    requires CacheOk(c) && b in c.slabs && c.slabs[b].free > 0
    ensures c.inuse > 0
  {
    if c.slabs[b].free == c.n { SumAtLeast(c.slabs, c.full, b); } else { SumAtLeast(c.slabs, c.partial, b); }
  }

  /** Releasing an object in use keeps the invariant and ends the use of that object only. */
  lemma FreeLaw(c: Cache, b: nat, i: nat, d: nat, j: nat)
    requires CacheOk(c) && IsLive(c, b, i)
    ensures c.inuse > 0 && c.slabs[b].free > 0
    ensures var r := FreeOn(c, b, i);
            && CacheOk(r) && r.slabs.Keys == c.slabs.Keys && r.n == c.n && r.objsize == c.objsize
            && (IsLive(r, d, j) <==> IsLive(c, d, j) && !(d == b && j == i))
  {
    FreeGivesBack(c.slabs[b], c.n, i, j);
    InUsePositive(c, b);
    var s := c.slabs[b];
    FreeRelists(c, b, i);
    RelistedLaw(c, FreeOn(c, b, i), b, Slab(s.free - 1, s.ctl[s.free - 1 := i]));
  }

  lemma LiveInUse(c: Cache, b: nat, i: nat)
    requires CacheOk(c) && IsLive(c, b, i)
    ensures c.inuse > 0 && 0 < c.slabs[b].free <= |c.slabs[b].ctl| && i < c.n
  {
    FreeLaw(c, b, i, b, i);
  }

  // ----- growth

  lemma GrowLists(c: Cache, base: nat)
    requires ListsOk(c) && CountsOk(c) && c.n > 0 && base !in c.slabs
    ensures ListsOk(GrowAt(c, base)) && CountsOk(GrowAt(c, base))
  {
    var v := Slab(0, Iota(c.n));
    assert base !in c.full && base !in c.partial && base !in c.free;
    ListAbsent(c.full, c.slabs, c.n, c.n, base, v);
    ListAbsent(c.partial, c.slabs, 1, c.n - 1, base, v);
    ListAdd(c.free, c.slabs, 0, 0, base, v);
  }

  /** A new slab is entirely free and changes nothing else. */
  lemma GrowLaw(c: Cache, base: nat, d: nat, j: nat)
    requires CacheOk(c) && base !in c.slabs
    ensures var r := GrowAt(c, base);
            && CacheOk(r) && r.slabs.Keys == c.slabs.Keys + {base} && (IsLive(r, d, j) <==> IsLive(c, d, j))
  {
    GrowLists(c, base);
    var v := Slab(0, Iota(c.n));
    assert SlabOk(v, c.n);
    if d == base && j < c.n { assert v.ctl[0..][j] == j; }
  }

  lemma ListAbsent(l: seq<nat>, slabs: map<nat, Slab>, lo: nat, hi: int, b: nat, v: Slab)
    requires ListIs(l, slabs, lo, hi) && b !in l && !(lo <= v.free <= hi)
    ensures ListIs(l, slabs[b := v], lo, hi) && SumInUse(slabs[b := v], l) == SumInUse(slabs, l)
  {
    SumSame(slabs, slabs[b := v], l);
  }

  /** A fresh cache. */
  function NewCache(objsize: nat): (c: Cache) {
    var size := AlignUp(objsize);
    var k := Quotient(4096 - SLAB_HDR, size + CTL_BYTES);
    Cache(map[], [], [], [], 0, 0, size, if k == 0 then 1 else k)
  }

  /** Caches whose books are in order. */
  type OkCache = c: Cache | CacheOk(c) ghost witness (NewCacheOk(16); NewCache(16))

  lemma NewCacheOk(objsize: nat)
    requires objsize > 0
    ensures CacheOk(NewCache(objsize)) && NewCache(objsize).objsize >= objsize
  {
  }

  /** What start-up makes of a size: objects are rounded up to 16 bytes, and a slab has as many as fit into a page with
      their 4-byte indices behind its header of 40 bytes, but at least one; there are no slabs yet. */
  lemma NewCacheLaw(objsize: nat)
    requires objsize > 0
    ensures var c := NewCache(objsize);
            && objsize <= c.objsize < objsize + 16 && c.objsize % 16 == 0
            && c.n >= 1 && (c.n > 1 ==> 40 + (c.objsize + 4) * c.n <= 4096) && 40 + (c.objsize + 4) * c.n + (c.objsize + 4) > 4096
            && c.slabs == map[] && c.full == [] && c.partial == [] && c.free == [] && c.totalobjs == 0 && c.inuse == 0
  {
    QuotientIsDivision(4096 - SLAB_HDR, AlignUp(objsize) + CTL_BYTES);
  }

  /** Where an object is: behind the header of 40 bytes and the 4-byte indices, rounded up to 16, and the objects before. */
  lemma ObjAddrLaw(base: nat, n: nat, objsize: nat, i: nat)
    ensures var start := ObjAddr(base, n, objsize, 0);
            && base + 40 + 4 * n <= start < base + 40 + 4 * n + 16 && start % 16 == 0
            && ObjAddr(base, n, objsize, i) == start + objsize * i
  {
    RepeatedIsProduct(i, objsize);
    RepeatedIsProduct(0, objsize);
  }

  /** The bytes for a slab: header, indices, slack for alignment, objects. */
  lemma SlabMemLaw(n: nat, objsize: nat)
    ensures SlabMem(n, objsize) == 40 + 4 * n + 15 + objsize * n
  {
    RepeatedIsProduct(n, objsize);
  }

  /** Of a slab, the object given back last is the one handed out next. */
  lemma LastInFirstOut(c: Cache, b: nat, i: nat)
    requires CacheOk(c) && IsLive(c, b, i)
    ensures c.inuse > 0 && 0 < c.slabs[b].free <= |c.slabs[b].ctl|
    ensures var c' := FreeOn(c, b, i);
            b in c'.slabs && c'.slabs[b].free < |c'.slabs[b].ctl| && AllocOn(c', b).1 == ObjAddr(b, c.n, c.objsize, i)
  {
    LiveInUse(c, b, i);
  }
}

/** The kernel heap as a value: object caches for small requests, whole pages for large ones,
    and a header in front of every block handed out. */
module HeapModel {
  import opened PageAlloc
  import opened SlabModel

  const HDR_SIZE := 32
  const SIZE_CACHES := 8
  /** The cache that the cache records themselves come from, and the size of such a record. */
  const CACHE_CACHE := 8
  const CACHE_BYTES := 80

  datatype Hdr = InCache(k: nat) | Raw(base: nat, bytes: nat)

  /** Where a live allocation sits: object `i` of slab `b` of cache `k`, or pages of its own. */
  datatype Alloc = Cell(k: nat, b: nat, i: nat, size: nat) | Big(size: nat)

  /** `hdrs` are the headers in memory, by address; `live` records the allocations not yet
      released, by user pointer; `root` is the block holding the record of the cache cache. */
  datatype Heap = Heap(first: nat, pages: Pages, caches: seq<Cache>, root: nat,
                       hdrs: map<nat, Hdr>, live: map<nat, Alloc>)

  function ClassSize(i: nat): nat
    requires i < SIZE_CACHES
  {
    [32, 64, 128, 256, 512, 1024, 2048, 4096][i]
  }

  /** The smallest size class that holds `total` bytes, or -1. */
  function PickCache(total: nat, i: nat): (k: int)
    requires i <= SIZE_CACHES
    ensures -1 <= k < SIZE_CACHES && (k >= 0 ==> i <= k && total <= ClassSize(k))
    decreases SIZE_CACHES - i
  {
    if i == SIZE_CACHES then -1 else if total <= ClassSize(i) then i else PickCache(total, i + 1)
  }

  /** Class `k` is the one for `total` bytes: they fit its objects, which are 32 bytes for class 0 and twice as large in
      each further one, and they do not fit those of the class before. */
  ghost predicate ForClass(total: nat, k: nat) {
    k < 8 && total <= 32 * Doubled(k) && (k > 0 ==> 32 * Doubled(k - 1) < total)
  }

  function Doubled(k: nat): nat { if k == 0 then 1 else 2 * Doubled(k - 1) }

  lemma ClassSizes(k: nat)
    requires k < SIZE_CACHES
    ensures ClassSize(k) == 32 * Doubled(k)
  {
    assert Doubled(1) == 2 && Doubled(2) == 4 && Doubled(3) == 8 && Doubled(4) == 16;
    assert Doubled(5) == 2 * Doubled(4) && Doubled(6) == 2 * Doubled(5) && Doubled(7) == 2 * Doubled(6);
  }

  lemma {:induction false} PickedIsFirst(total: nat, i: nat)
    requires i <= SIZE_CACHES && forall j :: 0 <= j < i ==> ClassSize(j) < total
    ensures var k := PickCache(total, i);
            forall j :: 0 <= j < (if k >= 0 then k else SIZE_CACHES) ==> ClassSize(j) < total
    decreases SIZE_CACHES - i
  {
    if i < SIZE_CACHES && total > ClassSize(i) { PickedIsFirst(total, i + 1); }
  }

  /** The class picked is the one for so many bytes, and none is exactly if they are more than 4096. */
  lemma PickLawful(total: nat, k: nat)
    ensures PickCache(total, 0) == k <==> ForClass(total, k)
    ensures PickCache(total, 0) == -1 <==> total > 4096
  {
    PickedIsFirst(total, 0);
    var p := PickCache(total, 0);
    forall j | 0 <= j < SIZE_CACHES ensures ClassSize(j) == 32 * Doubled(j) { ClassSizes(j); }
    assert ClassSize(7) == 4096;
    if k < SIZE_CACHES && p >= 0 { ClassesGrow(k, p); }
  }

  /** The larger class has the larger objects. */
  lemma ClassesGrow(j: nat, k: nat)
    requires j < SIZE_CACHES && k < SIZE_CACHES
    ensures j < k ==> ClassSize(j) <= ClassSize(k - 1)
    ensures k < j ==> ClassSize(k) <= ClassSize(j - 1)
  {
  }

  /** Requests are rounded up to whole pages. */
  function KernelPages(bytes: nat): nat { (bytes + PAGE_SIZE - 1) / PAGE_SIZE }

  function AddrOf(first: nat, p: int): nat { if p < 0 then NULL else p * PAGE_SIZE + first }

  function KernelMalloc(first: nat, pages: Pages, bytes: nat): (r: (Pages, nat))
    requires |pages.used| == |pages.counts|
    ensures |r.0.used| == |r.0.counts| == |pages.counts|
  {
    var (pages', p) := Kalloc(pages, KernelPages(bytes) * PAGE_SIZE);
    (pages', AddrOf(first, p))
  }

  datatype Grant = NoRoom(pages: Pages) | Object(pages: Pages, cache: Cache, b: nat, i: nat, ptr: nat)

  /** The object on top of the stack of slab `b`. */
  function ObjectFrom(pages: Pages, c: Cache, b: nat): Grant
    requires b in c.slabs && c.slabs[b].free < |c.slabs[b].ctl|
  {
    Object(pages, AllocOn(c, b).0, b, c.slabs[b].ctl[c.slabs[b].free], AllocOn(c, b).1)
  }

  /** One object from a cache, with a new slab if there is no free object. */
  function CacheAlloc(first: nat, pages: Pages, c: Cache): (r: Grant)
    requires |pages.used| == |pages.counts| && CacheOk(c)
    ensures |r.pages.used| == |r.pages.counts| == |pages.counts|
  {
    if c.partial != [] || c.free != [] then PickLaw(c); ObjectFrom(pages, c, Pick(c))
    else
      var (pages', base) := KernelMalloc(first, pages, SlabMem(c.n, c.objsize));
      if base == NULL || base in c.slabs then NoRoom(pages') else ObjectFrom(pages', GrowAt(c, base), base)
  }

  predicate Within(b: nat, n: nat, objsize: nat, p: nat) {
    MemoryOf(b, n) <= p < MemoryOf(b, n) + Repeated(n, objsize)
  }

  /** The first slab of the list whose objects contain `p`. */
  function FindSlab(l: seq<nat>, n: nat, objsize: nat, p: nat): (r: seq<nat>)
    ensures |r| <= 1 && forall b :: b in r ==> b in l && Within(b, n, objsize, p)
  {
    if l == [] then [] else if Within(l[0], n, objsize, p) then [l[0]] else FindSlab(l[1..], n, objsize, p)
  }

  /** The slab an address is released to: searched on the full, then on the partial list. */
  function Holder(c: Cache, p: nat): (r: seq<nat>)
    ensures |r| <= 1 && forall b :: b in r ==> Within(b, c.n, c.objsize, p)
  {
    var f := FindSlab(c.full, c.n, c.objsize, p);
    if f != [] then f else FindSlab(c.partial, c.n, c.objsize, p)
  }

  /** Gives the object at `p` back to slab `b`, unless that has no object in use. */
  function FreeInto(c: Cache, b: nat, p: nat): Cache
    requires MemoryOf(b, c.n) <= p
  {
    if b !in c.slabs || c.slabs[b].free == 0 || c.slabs[b].free > |c.slabs[b].ctl| || c.inuse == 0 || c.objsize == 0 then c
    else FreeOn(c, b, Quotient(p - MemoryOf(b, c.n), c.objsize))
  }

  /** Gives the object at `p` back to its slab; an address in no slab changes nothing. */
  function CacheFree(c: Cache, p: nat): Cache {
    var r := Holder(c, p);
    if r == [] then c else assert r[0] in r; FreeInto(c, r[0], p)
  }

  // ----- the two entry points

  /** The heap after an object of cache `k` was granted for `size` bytes. */
  function AfterGrant(h: Heap, k: nat, g: Grant, size: nat): Heap
    requires k < |h.caches| && g.Object?
  {
    h.(pages := g.pages, caches := h.caches[k := g.cache], hdrs := h.hdrs[g.ptr := InCache(k)],
       live := h.live[g.ptr + HDR_SIZE := Cell(k, g.b, g.i, size)])
  }

  /** A small request: an object of size class `k`, with a header in front. */
  function MallocSmall(h: Heap, k: nat, size: nat): (r: (Heap, nat))
    requires HeapShape(h) && k < SIZE_CACHES
    ensures r.0.first == h.first
  {
    var g := CacheAlloc(h.first, h.pages, h.caches[k]);
    if g.NoRoom? then (h.(pages := g.pages), NULL) else (AfterGrant(h, k, g, size), g.ptr + HDR_SIZE)
  }

  /** A large request: pages of its own. */
  function MallocBig(h: Heap, size: nat): (r: (Heap, nat))
    requires |h.pages.used| == |h.pages.counts|
    ensures r.0.first == h.first
  {
    var bytes := BigBytes(size);
    var (pages, raw) := KernelMalloc(h.first, h.pages, bytes);
    if raw == NULL then (h.(pages := pages), NULL)
    else
      var user := AlignUp(raw + HDR_SIZE);
      (h.(pages := pages, hdrs := h.hdrs[user - HDR_SIZE := Raw(raw, bytes)], live := h.live[user := Big(size)]), user)
  }

  function Malloc(h: Heap, size: nat): (r: (Heap, nat))
    requires HeapShape(h)
    ensures r.0.first == h.first
  {
    var k := PickCache(HDR_SIZE + size, 0);
    if size == 0 then (h, NULL) else if k >= 0 then MallocSmall(h, k, size) else MallocBig(h, size)
  }

  /** Releases a live pointer, as its header directs. */
  function Release(h: Heap, ptr: nat): (r: Heap)
    requires |h.pages.counts| == PAGES && ptr in h.live && ptr >= HDR_SIZE && ptr - HDR_SIZE in h.hdrs
    ensures r.first == h.first
  {
    var h1 := h.(live := h.live - {ptr});
    match h.hdrs[ptr - HDR_SIZE]
    case InCache(k) =>
      if k < |h.caches| then h1.(caches := h.caches[k := CacheFree(h.caches[k], ptr - HDR_SIZE)]) else h1
    case Raw(base, _) =>
      if h.first <= base < h.first + PAGES * PAGE_SIZE then h1.(pages := Free(h.pages, (base - h.first) / PAGE_SIZE)) else h1
  }

  // ----- invariant

  /** The fixed geometry: page-aligned pool, nine caches, the eight size classes. */
  ghost predicate Geometry(h: Heap) {
    && h.first > 0 && h.first % PAGE_SIZE == 0 && |h.caches| == SIZE_CACHES + 1
    && (forall k :: 0 <= k <= SIZE_CACHES ==>
          h.caches[k].n > 0 && h.caches[k].objsize > 0 && h.caches[k].objsize % ALIGNMENT == 0)
    && (forall k :: 0 <= k < SIZE_CACHES ==> h.caches[k].objsize == ClassSize(k))
  }

  /** The books of the page allocator and of every cache are in order. */
  ghost predicate Books(h: Heap)
    requires Geometry(h)
  {
    PagesOk(h.pages) && forall k :: 0 <= k <= SIZE_CACHES ==> CacheOk(h.caches[k])
  }

  ghost predicate HeapShape(h: Heap) {
    Geometry(h) && Books(h)
  }

  /** A run of pages of the right length starts at `base`. */
  predicate Owned(first: nat, pages: Pages, base: nat, bytes: nat) {
    && |pages.counts| == PAGES
    && first <= base < first + PAGES * PAGE_SIZE && (base - first) % PAGE_SIZE == 0
    && bytes > 0 && pages.counts[(base - first) / PAGE_SIZE] == PagesFor(bytes)
  }

  function SlabBytes(c: Cache): nat { SlabMem(c.n, c.objsize) }

  /** Every slab, and the record of the cache cache, is a block of its own. */
  ghost predicate SlabsOwned(h: Heap)
    requires Geometry(h)
  {
    && (forall k, b :: 0 <= k <= SIZE_CACHES && b in h.caches[k].slabs ==>
          Owned(h.first, h.pages, b, SlabBytes(h.caches[k])) && b != h.root)
    && (forall j, k, b :: 0 <= j < k <= SIZE_CACHES && b in h.caches[j].slabs ==> b !in h.caches[k].slabs)
    && Owned(h.first, h.pages, h.root, CACHE_BYTES)
  }

  ghost predicate NoSlab(h: Heap, base: nat)
    requires Geometry(h)
  {
    forall k :: 0 <= k <= SIZE_CACHES ==> base !in h.caches[k].slabs
  }

  ghost predicate AllocOk(h: Heap, ptr: nat)
    requires Geometry(h) && ptr in h.live
  {
    && ptr >= HDR_SIZE && ptr - HDR_SIZE in h.hdrs
    && match h.live[ptr]
       case Cell(k, b, i, size) =>
         && k < SIZE_CACHES && h.hdrs[ptr - HDR_SIZE] == InCache(k)
         && IsLive(h.caches[k], b, i) && i < h.caches[k].n && size > 0 && HDR_SIZE + size <= h.caches[k].objsize
         && ptr - HDR_SIZE == ObjAddr(b, h.caches[k].n, h.caches[k].objsize, i)
       case Big(size) =>
         && size > 0 && h.hdrs[ptr - HDR_SIZE] == Raw(ptr - HDR_SIZE, BigBytes(size))
         && Owned(h.first, h.pages, ptr - HDR_SIZE, BigBytes(size))
         && ptr - HDR_SIZE != h.root && NoSlab(h, ptr - HDR_SIZE)
  }

  function BigBytes(size: nat): nat { HDR_SIZE + size + ALIGNMENT - 1 }

  /** Where everything is. */
  ghost predicate LayoutOk(h: Heap) {
    Geometry(h) && SlabsOwned(h) && forall ptr :: ptr in h.live ==> AllocOk(h, ptr)
  }

  ghost predicate HeapOk(h: Heap) {
    LayoutOk(h) && Books(h)
  }

  // ----- blocks of pages

  /** Different owned blocks occupy different pages. */
  lemma OwnedApart(first: nat, pages: Pages, a: nat, m: nat, b: nat, n: nat)
    requires PagesOk(pages) && Owned(first, pages, a, m) && Owned(first, pages, b, n) && a < b
    ensures a + m <= b
  {
    var p, q := (a - first) / PAGE_SIZE, (b - first) / PAGE_SIZE;
    assert p < q;
    if q < p + pages.counts[p] {
      assert InRun(pages.counts, p, q);
    }
  }

  /** Every byte of an owned block lies in a page marked used. */
  lemma OwnedUsed(first: nat, pages: Pages, a: nat, m: nat, x: nat)
    requires PagesOk(pages) && Owned(first, pages, a, m) && a <= x < a + m
    ensures first <= x < first + PAGES * PAGE_SIZE && pages.used[(x - first) / PAGE_SIZE]
  {
    var p, q := (a - first) / PAGE_SIZE, (x - first) / PAGE_SIZE;
    assert p <= q < p + pages.counts[p] <= PAGES;
    assert InRun(pages.counts, p, q);
  }

  lemma KernelPagesIsPagesFor(bytes: nat)
    requires bytes > 0
    ensures PagesFor(KernelPages(bytes) * PAGE_SIZE) == PagesFor(bytes)
  {
  }

  /** A new block is owned, was not owned before, and leaves the others owned. */
  lemma KernelMallocLaw(first: nat, pages: Pages, bytes: nat, a: nat, m: nat)
    requires PagesOk(pages) && first > 0 && first % PAGE_SIZE == 0 && bytes > 0
    ensures var (pages', base) := KernelMalloc(first, pages, bytes);
            && PagesOk(pages')
            && (base == NULL ==> pages' == pages)
            && (base != NULL ==> Owned(first, pages', base, bytes) && base % PAGE_SIZE == 0)
            && (Owned(first, pages, a, m) ==> Owned(first, pages', a, m) && (base != NULL ==> a != base))
  {
    KernelPagesIsPagesFor(bytes);
    var size := KernelPages(bytes) * PAGE_SIZE;
    KallocLaw(pages, size);
    var p := Kalloc(pages, size).1;
    if p >= 0 {
      assert !pages.used[p];
      assert !InRun(pages.counts, p, p);
    }
  }

  // ----- one cache

  /** A grant of an object that was not in use and whose status alone changes. */
  ghost predicate GrantOk(c: Cache, g: Grant, d: nat, j: nat)
    requires g.Object?
  {
    && CacheOk(g.cache) && g.cache.n == c.n && g.cache.objsize == c.objsize && g.i < c.n
    && g.cache.slabs.Keys == c.slabs.Keys + {g.b}
    && g.ptr == ObjAddr(g.b, c.n, c.objsize, g.i) && !IsLive(c, g.b, g.i)
    && (IsLive(g.cache, d, j) <==> IsLive(c, d, j) || (d == g.b && j == g.i))
  }

  lemma GrantFromSlab(pages: Pages, c: Cache, b: nat, d: nat, j: nat)
    requires CacheOk(c) && b in c.slabs && c.slabs[b].free < c.n
    ensures GrantOk(c, ObjectFrom(pages, c, b), d, j)
  {
    AllocLaw(c, b, d, j);
  }

  lemma GrantFromNewSlab(pages: Pages, c: Cache, base: nat, d: nat, j: nat)
    requires CacheOk(c) && base !in c.slabs
    ensures base in GrowAt(c, base).slabs && GrowAt(c, base).slabs[base] == Slab(0, Iota(c.n))
    ensures GrantOk(c, ObjectFrom(pages, GrowAt(c, base), base), d, j)
  {
    var grown := GrowAt(c, base);
    GrowLaw(c, base, d, j);
    GrowLaw(c, base, base, grown.slabs[base].ctl[0]);
    GrantFromSlab(pages, grown, base, d, j);
  }

  lemma PickLaw(c: Cache)
    requires CacheOk(c) && (c.partial != [] || c.free != [])
    ensures Pick(c) in c.slabs && c.slabs[Pick(c)].free < c.n
  {
    if c.partial != [] { assert c.partial[0] in c.partial; } else { assert c.free[0] in c.free; }
  }

  lemma CacheAllocGrant(first: nat, pages: Pages, c: Cache, d: nat, j: nat)
    requires |pages.used| == |pages.counts| && CacheOk(c)
    ensures var g := CacheAlloc(first, pages, c); g.Object? ==> GrantOk(c, g, d, j)
  {
    if c.partial != [] || c.free != [] {
      PickLaw(c);
      GrantFromSlab(pages, c, Pick(c), d, j);
    } else {
      var (pages', base) := KernelMalloc(first, pages, SlabMem(c.n, c.objsize));
      if base != NULL && base !in c.slabs { GrantFromNewSlab(pages', c, base, d, j); }
    }
  }

  /** A cache takes pages only for a new slab, which is then a block that nobody owned. */
  lemma CacheAllocPages(first: nat, pages: Pages, c: Cache, bytes: nat, a: nat, m: nat)
    requires PagesOk(pages) && first > 0 && first % PAGE_SIZE == 0 && CacheOk(c) && bytes == SlabMem(c.n, c.objsize)
    requires forall b :: b in c.slabs ==> Owned(first, pages, b, bytes)
    ensures var g := CacheAlloc(first, pages, c);
            && PagesOk(g.pages) && (Owned(first, pages, a, m) ==> Owned(first, g.pages, a, m))
            && (g.NoRoom? ==> g.pages == pages)
            && (g.Object? ==> Owned(first, g.pages, g.b, bytes)
                              && (g.b !in c.slabs && Owned(first, pages, a, m) ==> a != g.b))
  {
    if c.partial != [] || c.free != [] {
      PickLaw(c);
    } else {
      KernelMallocLaw(first, pages, bytes, a, m);
      var base := KernelMalloc(first, pages, bytes).1;
      if base != NULL && base in c.slabs { KernelMallocLaw(first, pages, bytes, base, bytes); }
    }
  }

  /** The search finds the slab that really holds the object: slabs do not overlap. */
  lemma {:induction false} FindSlabLaw(l: seq<nat>, n: nat, objsize: nat, p: nat, b: nat)
    requires b in l && Within(b, n, objsize, p)
    requires forall d :: d in l && Within(d, n, objsize, p) ==> d == b
    ensures FindSlab(l, n, objsize, p) == [b]
  {
    if l[0] != b {
      assert l[0] in l;
      FindSlabLaw(l[1..], n, objsize, p, b);
    }
  }

  /** Two slabs of a cache never contain the same address. */
  lemma SlabsApart(first: nat, pages: Pages, n: nat, objsize: nat, b: nat, d: nat, p: nat)
    requires PagesOk(pages) && n > 0 && objsize > 0 && objsize % ALIGNMENT == 0
    requires Owned(first, pages, b, SlabMem(n, objsize)) && Owned(first, pages, d, SlabMem(n, objsize))
    requires Within(b, n, objsize, p) && Within(d, n, objsize, p)
    ensures b == d
  {
    ObjBounds(b, n, objsize, 0);
    ObjBounds(d, n, objsize, 0);
    if b < d { OwnedApart(first, pages, b, SlabMem(n, objsize), d, SlabMem(n, objsize)); }
    if d < b { OwnedApart(first, pages, d, SlabMem(n, objsize), b, SlabMem(n, objsize)); }
  }

  lemma HolderLaw(first: nat, pages: Pages, c: Cache, b: nat, p: nat)
    requires PagesOk(pages) && CacheOk(c) && b in c.slabs && c.slabs[b].free > 0 && Within(b, c.n, c.objsize, p)
    requires forall d :: d in c.slabs ==> Owned(first, pages, d, SlabMem(c.n, c.objsize))
    ensures Holder(c, p) == [b]
  {
    forall d | d in c.slabs && Within(d, c.n, c.objsize, p) ensures d == b {
      SlabsApart(first, pages, c.n, c.objsize, b, d, p);
    }
    assert SlabOk(c.slabs[b], c.n);
    if c.slabs[b].free == c.n {
      FindSlabLaw(c.full, c.n, c.objsize, p, b);
    } else {
      NotFound(c.full, c.n, c.objsize, p);
      FindSlabLaw(c.partial, c.n, c.objsize, p, b);
    }
  }

  lemma CellWithin(c: Cache, b: nat, i: nat)
    requires CacheOk(c) && i < c.n
    ensures Within(b, c.n, c.objsize, ObjAddr(b, c.n, c.objsize, i))
    ensures Quotient(ObjAddr(b, c.n, c.objsize, i) - MemoryOf(b, c.n), c.objsize) == i
  {
    ObjBounds(b, c.n, c.objsize, i);
    IndexOf(b, c.n, c.objsize, i);
  }

  /** Releasing a live object reaches its own slab; the guard against a slab with no object in
      use is never hit. */
  lemma CacheFreeLaw(first: nat, pages: Pages, c: Cache, b: nat, i: nat)
    requires PagesOk(pages) && CacheOk(c) && IsLive(c, b, i)
    requires forall d :: d in c.slabs ==> Owned(first, pages, d, SlabMem(c.n, c.objsize))
    ensures c.inuse > 0 && c.slabs[b].free > 0
    ensures CacheFree(c, ObjAddr(b, c.n, c.objsize, i)) == FreeOn(c, b, i)
  {
    LiveInUse(c, b, i);
    CellWithin(c, b, i);
    HolderLaw(first, pages, c, b, ObjAddr(b, c.n, c.objsize, i));
  }

  lemma {:induction false} NotFound(l: seq<nat>, n: nat, objsize: nat, p: nat)
    requires forall d :: d in l ==> !Within(d, n, objsize, p)
    ensures FindSlab(l, n, objsize, p) == []
  {
    if l != [] {
      assert l[0] in l;
      NotFound(l[1..], n, objsize, p);
    }
  }

  // ----- the heap invariant is kept

  /** An object with its header fits its slab, behind the slab's own records. */
  lemma CellFits(c: Cache, b: nat, i: nat, size: nat)
    requires c.objsize % ALIGNMENT == 0 && i < c.n && HDR_SIZE + size <= c.objsize
    ensures var obj := ObjAddr(b, c.n, c.objsize, i);
            && b + SLAB_HDR + c.n * CTL_BYTES <= obj && obj % ALIGNMENT == 0
            && obj + HDR_SIZE + size <= b + SlabBytes(c)
  {
    ObjBounds(b, c.n, c.objsize, i);
  }

  /** Two owned blocks that share an address are the same block. */
  lemma OverlapSame(first: nat, pages: Pages, a: nat, m: nat, b: nat, n: nat, x: nat)
    requires PagesOk(pages) && Owned(first, pages, a, m) && Owned(first, pages, b, n)
    requires a <= x < a + m && b <= x < b + n
    ensures a == b
  {
    if a < b { OwnedApart(first, pages, a, m, b, n); }
    if b < a { OwnedApart(first, pages, b, n, a, m); }
  }

  /** The block of pages a live allocation lies in. */
  function Block(h: Heap, ptr: nat): (nat, nat)
    requires LayoutOk(h) && ptr in h.live
  {
    assert AllocOk(h, ptr);
    match h.live[ptr]
    case Cell(k, b, i, size) => (b, SlabBytes(h.caches[k]))
    case Big(size) => (ptr - HDR_SIZE, BigBytes(size))
  }

  lemma BlockOf(h: Heap, ptr: nat)
    requires LayoutOk(h) && ptr in h.live
    ensures var (base, bytes) := Block(h, ptr);
            && Owned(h.first, h.pages, base, bytes)
            && base <= ptr - HDR_SIZE && ptr + h.live[ptr].size <= base + bytes && h.live[ptr].size > 0
            && ptr % ALIGNMENT == 0
  {
    assert AllocOk(h, ptr);
    var a := h.live[ptr];
    if a.Cell? {
      CellFits(h.caches[a.k], a.b, a.i, a.size);
      Behind(ptr - HDR_SIZE);
    } else {
      PageAligned(h.first, ptr - HDR_SIZE);
      Behind(ptr - HDR_SIZE);
    }
  }

  lemma Behind(x: nat)
    requires x % ALIGNMENT == 0
    ensures (x + HDR_SIZE) % ALIGNMENT == 0
  {
  }

  lemma PageAligned(first: nat, base: nat)
    requires first % PAGE_SIZE == 0 && first <= base && (base - first) % PAGE_SIZE == 0
    ensures base % PAGE_SIZE == 0 && base % ALIGNMENT == 0
  {
    var q := first / PAGE_SIZE + (base - first) / PAGE_SIZE;
    PageMultiple(q, base);
    AlignMultiple(256 * q, base);
  }

  lemma PageMultiple(q: nat, base: nat)
    requires base == PAGE_SIZE * q
    ensures base % PAGE_SIZE == 0
  {
  }

  lemma AlignMultiple(q: nat, base: nat)
    requires base == ALIGNMENT * q
    ensures base % ALIGNMENT == 0
  {
  }

  /** What lies in a block that is a slab of cache `k` is an object of that cache. */
  lemma SlabHasOneUse(h: Heap, k: nat, b: nat, ptr: nat)
    requires LayoutOk(h) && k <= SIZE_CACHES && b in h.caches[k].slabs && ptr in h.live && Block(h, ptr).0 == b
    ensures h.live[ptr].Cell? && h.live[ptr].k == k && h.live[ptr].b == b && IsLive(h.caches[k], b, h.live[ptr].i)
    ensures ptr - HDR_SIZE == ObjAddr(b, h.caches[k].n, h.caches[k].objsize, h.live[ptr].i)
  {
    assert AllocOk(h, ptr);
    if h.live[ptr].Cell? {
      var j := h.live[ptr].k;
      assert b in h.caches[j].slabs;
    }
  }

  /** The facts about an object just granted that the layout depends on: it was free, objects in
      use stay in use, blocks stay owned, and a new slab is a block nobody owned. */
  ghost predicate Granted(h: Heap, k: nat, g: Grant)
    requires Geometry(h) && k <= SIZE_CACHES && g.Object?
  {
    var c := h.caches[k];
    && g.cache.n == c.n && g.cache.objsize == c.objsize && g.cache.slabs.Keys == c.slabs.Keys + {g.b}
    && g.i < c.n && g.ptr == ObjAddr(g.b, c.n, c.objsize, g.i)
    && !IsLive(c, g.b, g.i) && IsLive(g.cache, g.b, g.i)
    && (forall d, j :: IsLive(c, d, j) ==> IsLive(g.cache, d, j))
    && Owned(h.first, g.pages, g.b, SlabBytes(c))
    && (forall a, m :: Owned(h.first, h.pages, a, m) ==> Owned(h.first, g.pages, a, m) && (g.b !in c.slabs ==> a != g.b))
  }

  lemma GrantFacts(h: Heap, k: nat, g: Grant)
    requires HeapShape(h) && k <= SIZE_CACHES && g == CacheAlloc(h.first, h.pages, h.caches[k]) && g.Object?
    requires forall b :: b in h.caches[k].slabs ==> Owned(h.first, h.pages, b, SlabBytes(h.caches[k]))
    ensures Granted(h, k, g) && PagesOk(g.pages) && CacheOk(g.cache)
  {
    var c := h.caches[k];
    CacheAllocGrant(h.first, h.pages, c, g.b, g.i);
    CacheAllocPages(h.first, h.pages, c, SlabBytes(c), 0, 0);
    forall d, j | IsLive(c, d, j) ensures IsLive(g.cache, d, j) {
      CacheAllocGrant(h.first, h.pages, c, d, j);
    }
    forall a, m | Owned(h.first, h.pages, a, m)
      ensures Owned(h.first, g.pages, a, m) && (g.b !in c.slabs ==> a != g.b)
    {
      CacheAllocPages(h.first, h.pages, c, SlabBytes(c), a, m);
    }
  }

  /** A new object is not the object in front of any live pointer. */
  lemma NewObjectIsNew(h: Heap, k: nat, g: Grant, ptr: nat)
    requires LayoutOk(h) && k < SIZE_CACHES && g.Object? && ptr in h.live && Granted(h, k, g) && PagesOk(g.pages)
    ensures ptr - HDR_SIZE != g.ptr
  {
    var (base, m) := Block(h, ptr);
    var c := h.caches[k];
    BlockOf(h, ptr);
    CellFits(c, g.b, g.i, 0);
    if ptr - HDR_SIZE == g.ptr {
      OverlapSame(h.first, g.pages, base, m, g.b, SlabBytes(c), g.ptr);
      SlabHasOneUse(h, k, g.b, ptr);
      var a := h.live[ptr];
      if a.i < g.i { ObjApart(g.b, c.n, c.objsize, a.i, g.i); }
      if g.i < a.i { ObjApart(g.b, c.n, c.objsize, g.i, a.i); }
    }
  }

  /** A granted slab is old, or else a block that none of the others is. */
  lemma GrantedSlabs(h: Heap, k: nat, g: Grant, size: nat)
    requires LayoutOk(h) && k < SIZE_CACHES && g.Object? && Granted(h, k, g)
    ensures var r := AfterGrant(h, k, g, size); Geometry(r) && SlabsOwned(r)
  {
    var r := AfterGrant(h, k, g, size);
    assert Geometry(r);
    forall j, b | 0 <= j <= SIZE_CACHES && b in r.caches[j].slabs
      ensures Owned(r.first, r.pages, b, SlabBytes(r.caches[j])) && b != r.root
    {
      assert b in h.caches[j].slabs || (j == k && b == g.b);
    }
    forall i, j, b | 0 <= i < j <= SIZE_CACHES && b in r.caches[i].slabs ensures b !in r.caches[j].slabs {
      var o := if i == k then j else i;
      assert g.b in h.caches[o].slabs ==> Owned(h.first, h.pages, g.b, SlabBytes(h.caches[o]));
    }
  }

  /** An allocation whose cell or pages a step leaves alone is still in order after it. */
  lemma AllocKept(h: Heap, r: Heap, ptr: nat)
    requires Geometry(h) && Geometry(r) && ptr in h.live && AllocOk(h, ptr)
    requires ptr in r.live && r.live[ptr] == h.live[ptr] && r.first == h.first && r.root == h.root
    requires ptr - HDR_SIZE in r.hdrs && r.hdrs[ptr - HDR_SIZE] == h.hdrs[ptr - HDR_SIZE]
    requires var a := h.live[ptr]; a.Cell? ==>
               r.caches[a.k].n == h.caches[a.k].n && r.caches[a.k].objsize == h.caches[a.k].objsize && IsLive(r.caches[a.k], a.b, a.i)
    requires h.live[ptr].Big? ==> NoSlab(r, ptr - HDR_SIZE)
    requires h.live[ptr].Big? ==> Owned(r.first, r.pages, ptr - HDR_SIZE, BigBytes(h.live[ptr].size))
    ensures AllocOk(r, ptr)
  {
  }

  lemma GrantedOthers(h: Heap, k: nat, g: Grant, size: nat, ptr: nat)
    requires LayoutOk(h) && k < SIZE_CACHES && g.Object? && Granted(h, k, g) && PagesOk(g.pages) && ptr in h.live
    requires Geometry(AfterGrant(h, k, g, size))
    ensures ptr != g.ptr + HDR_SIZE && AllocOk(AfterGrant(h, k, g, size), ptr)
  {
    assert AllocOk(h, ptr);
    NewObjectIsNew(h, k, g, ptr);
    AllocKept(h, AfterGrant(h, k, g, size), ptr);
  }

  lemma GrantedLayout(h: Heap, k: nat, g: Grant, size: nat)
    requires LayoutOk(h) && k < SIZE_CACHES && g.Object? && Granted(h, k, g) && PagesOk(g.pages)
    requires size > 0 && HDR_SIZE + size <= ClassSize(k)
    ensures LayoutOk(AfterGrant(h, k, g, size)) && g.ptr + HDR_SIZE !in h.live
  {
    var r := AfterGrant(h, k, g, size);
    GrantedSlabs(h, k, g, size);
    forall ptr | ptr in h.live ensures ptr != g.ptr + HDR_SIZE && AllocOk(r, ptr) {
      GrantedOthers(h, k, g, size, ptr);
    }
    assert AllocOk(r, g.ptr + HDR_SIZE);
  }

  /** What a successful or failed allocation means for the record of live allocations. */
  ghost predicate OneMore(h: Heap, r: Heap, ptr: nat, size: nat) {
    if ptr == NULL then r == h
    else ptr !in h.live && ptr in r.live && r.live[ptr].size == size && r.live == h.live[ptr := r.live[ptr]]
  }

  lemma MallocSmallOk(h: Heap, k: nat, size: nat)
    requires HeapOk(h) && k < SIZE_CACHES && size > 0 && HDR_SIZE + size <= ClassSize(k)
    ensures var (r, ptr) := MallocSmall(h, k, size); HeapOk(r) && OneMore(h, r, ptr, size)
  {
    var g := CacheAlloc(h.first, h.pages, h.caches[k]);
    if g.NoRoom? {
      CacheAllocPages(h.first, h.pages, h.caches[k], SlabBytes(h.caches[k]), h.root, CACHE_BYTES);
    } else {
      GrantFacts(h, k, g);
      GrantedLayout(h, k, g, size);
      assert Books(AfterGrant(h, k, g, size));
    }
  }

  /** Pages just taken for a large request: other blocks stay owned and differ from it. */
  ghost predicate Taken(h: Heap, pages: Pages, raw: nat, bytes: nat) {
    && raw > 0 && raw % PAGE_SIZE == 0 && Owned(h.first, pages, raw, bytes)
    && (forall a, m :: Owned(h.first, h.pages, a, m) ==> Owned(h.first, pages, a, m) && a != raw)
  }

  lemma TakenFacts(h: Heap, bytes: nat)
    requires HeapShape(h) && bytes > 0 && KernelMalloc(h.first, h.pages, bytes).1 != NULL
    ensures var (pages, raw) := KernelMalloc(h.first, h.pages, bytes); Taken(h, pages, raw, bytes) && PagesOk(pages)
  {
    var (pages, raw) := KernelMalloc(h.first, h.pages, bytes);
    KernelMallocLaw(h.first, h.pages, bytes, 0, 0);
    forall a, m | Owned(h.first, h.pages, a, m) ensures Owned(h.first, pages, a, m) && a != raw {
      KernelMallocLaw(h.first, h.pages, bytes, a, m);
    }
  }

  function AfterTake(h: Heap, pages: Pages, raw: nat, size: nat): Heap {
    h.(pages := pages, hdrs := h.hdrs[raw := Raw(raw, BigBytes(size))], live := h.live[raw + HDR_SIZE := Big(size)])
  }

  lemma TakenOthers(h: Heap, pages: Pages, raw: nat, size: nat, ptr: nat)
    requires LayoutOk(h) && size > 0 && Taken(h, pages, raw, BigBytes(size)) && PagesOk(pages) && ptr in h.live
    ensures ptr != raw + HDR_SIZE && AllocOk(AfterTake(h, pages, raw, size), ptr)
  {
    var r := AfterTake(h, pages, raw, size);
    var (base, m) := Block(h, ptr);
    BlockOf(h, ptr);
    if ptr - HDR_SIZE == raw { OverlapSame(h.first, pages, base, m, raw, BigBytes(size), raw); }
    assert AllocOk(h, ptr);
    assert forall b :: NoSlab(r, b) == NoSlab(h, b);
    AllocKept(h, r, ptr);
  }

  lemma TakenLayout(h: Heap, pages: Pages, raw: nat, size: nat)
    requires LayoutOk(h) && size > 0 && Taken(h, pages, raw, BigBytes(size)) && PagesOk(pages)
    ensures LayoutOk(AfterTake(h, pages, raw, size)) && raw + HDR_SIZE !in h.live
  {
    var r := AfterTake(h, pages, raw, size);
    forall ptr | ptr in h.live ensures ptr != raw + HDR_SIZE && AllocOk(r, ptr) { TakenOthers(h, pages, raw, size, ptr); }
    assert NoSlab(r, raw);
    assert AllocOk(r, raw + HDR_SIZE);
  }

  lemma MallocBigIs(h: Heap, size: nat)
    requires |h.pages.used| == |h.pages.counts|
    requires var raw := KernelMalloc(h.first, h.pages, BigBytes(size)).1; raw != NULL && raw % PAGE_SIZE == 0
    ensures var (pages, raw) := KernelMalloc(h.first, h.pages, BigBytes(size));
            MallocBig(h, size) == (AfterTake(h, pages, raw, size), raw + HDR_SIZE)
  {
    AlignedUser(KernelMalloc(h.first, h.pages, BigBytes(size)).1);
  }

  lemma TakenBooks(h: Heap, pages: Pages, raw: nat, size: nat)
    requires HeapShape(h) && PagesOk(pages) && Geometry(AfterTake(h, pages, raw, size))
    ensures Books(AfterTake(h, pages, raw, size))
  {
  }

  lemma MallocBigFails(h: Heap, size: nat)
    requires HeapShape(h) && KernelMalloc(h.first, h.pages, BigBytes(size)).1 == NULL
    ensures MallocBig(h, size) == (h, NULL)
  {
    KernelMallocLaw(h.first, h.pages, BigBytes(size), 0, 0);
  }

  lemma TakenOk(h: Heap, pages: Pages, raw: nat, size: nat)
    requires HeapOk(h) && size > 0 && Taken(h, pages, raw, BigBytes(size)) && PagesOk(pages)
    ensures HeapOk(AfterTake(h, pages, raw, size)) && OneMore(h, AfterTake(h, pages, raw, size), raw + HDR_SIZE, size)
  {
    TakenLayout(h, pages, raw, size);
    TakenBooks(h, pages, raw, size);
  }

  lemma MallocBigOk(h: Heap, size: nat)
    requires HeapOk(h) && size > 0
    ensures var (r, ptr) := MallocBig(h, size); HeapOk(r) && OneMore(h, r, ptr, size)
  {
    var (pages, raw) := KernelMalloc(h.first, h.pages, BigBytes(size));
    if raw == NULL {
      MallocBigFails(h, size);
    } else {
      TakenFacts(h, BigBytes(size));
      MallocBigIs(h, size);
      TakenOk(h, pages, raw, size);
    }
  }

  lemma AlignedUser(raw: nat)
    requires raw % PAGE_SIZE == 0
    ensures AlignUp(raw + HDR_SIZE) == raw + HDR_SIZE
  {
    PageAligned(0, raw);
    Behind(raw);
  }

  /** Allocation keeps the invariant; a pointer handed out was not live, and nothing else is
      gained or lost. */
  lemma MallocOk(h: Heap, size: nat)
    requires HeapOk(h)
    ensures var (r, ptr) := Malloc(h, size); HeapOk(r) && OneMore(h, r, ptr, size)
  {
    if size > 0 {
      var k := PickCache(HDR_SIZE + size, 0);
      if k >= 0 { MallocSmallOk(h, k, size); } else { MallocBigOk(h, size); }
    }
  }

  /** No run of free pages is long enough for so many bytes. */
  ghost predicate NoPagesFor(pages: Pages, bytes: nat) {
    forall p, n :: 0 <= p && bytes <= n * 4096 ==> !FreeRun(pages.used, p, n)
  }

  /** Why a request for `size` bytes is refused: it is for nothing; or its size class has no slab with a free object and
      there are no pages for another one; or with its header it is larger than 4096 bytes and there are no pages for it. */
  ghost predicate Refused(h: Heap, size: nat)
    requires |h.caches| == SIZE_CACHES + 1
  {
    || size == 0
    || (exists k :: 0 <= k < SIZE_CACHES && ForClass(size + 32, k) && Exhausted(h.pages, h.caches[k]))
    || (size + 32 > 4096 && NoPagesFor(h.pages, size + 32 + 15))
  }

  /** No slab has a free object, and there are no pages for another one: a header of 40 bytes, an index of 4 bytes and the
      object for each object, and 15 bytes for alignment. */
  ghost predicate Exhausted(pages: Pages, c: Cache) {
    c.partial == [] && c.free == [] && NoPagesFor(pages, 40 + 4 * c.n + 15 + c.objsize * c.n)
  }

  lemma KernelMallocNull(first: nat, pages: Pages, bytes: nat)
    requires first > 0 && PagesOk(pages) && bytes > 0
    ensures KernelMalloc(first, pages, bytes).1 == NULL <==> NoPagesFor(pages, bytes)
  {
    KernelPagesIsPagesFor(bytes);
    KallocLaw(pages, KernelPages(bytes) * PAGE_SIZE);
    var m := PagesFor(bytes);
    if forall p :: 0 <= p ==> !FreeRun(pages.used, p, m) {
      forall p, n | 0 <= p && bytes <= n * 4096 ensures !FreeRun(pages.used, p, n) {
        if FreeRun(pages.used, p, n) { assert m <= n && FreeRun(pages.used, p, m); }
      }
    } else {
      var p :| 0 <= p && FreeRun(pages.used, p, m);
      assert bytes <= m * 4096;
    }
  }

  lemma CacheNull(first: nat, pages: Pages, c: Cache)
    requires PagesOk(pages) && first > 0 && first % PAGE_SIZE == 0 && CacheOk(c)
    requires forall b :: b in c.slabs ==> Owned(first, pages, b, SlabBytes(c))
    ensures CacheAlloc(first, pages, c).NoRoom? <==> Exhausted(pages, c)
  {
    RepeatedIsProduct(c.n, c.objsize);
    if c.partial == [] && c.free == [] {
      KernelMallocNull(first, pages, SlabBytes(c));
      var base := KernelMalloc(first, pages, SlabBytes(c)).1;
      KernelMallocLaw(first, pages, SlabBytes(c), base, SlabBytes(c));
    }
  }

  /** Allocation fails exactly then. */
  lemma MallocNull(h: Heap, size: nat)
    requires HeapOk(h)
    ensures Malloc(h, size).1 == NULL <==> Refused(h, size)
  {
    var total := size + 32;
    var k := PickCache(total, 0);
    if k >= 0 {
      PickLawful(total, k);
      forall j | 0 <= j < SIZE_CACHES && ForClass(total, j) ensures j == k { PickLawful(total, j); }
      assert forall b :: b in h.caches[k].slabs ==> Owned(h.first, h.pages, b, SlabBytes(h.caches[k]));
      CacheNull(h.first, h.pages, h.caches[k]);
    } else {
      PickLawful(total, 0);
      forall j | 0 <= j < SIZE_CACHES ensures !ForClass(total, j) { PickLawful(total, j); }
      KernelMallocNull(h.first, h.pages, BigBytes(size));
    }
  }

  /** What is granted sits in the size class for it, behind its header, or in pages of its own if it is too large. */
  lemma MallocPlace(h: Heap, size: nat)
    requires HeapOk(h) && Malloc(h, size).1 != NULL
    ensures var (r, ptr) := Malloc(h, size);
            && ptr in r.live
            && match r.live[ptr]
               case Cell(k, b, i, s) => s == size && ForClass(size + 32, k)
               case Big(s) => s == size && size + 32 > 4096
  {
    var k := PickCache(HDR_SIZE + size, 0);
    if k >= 0 {
      PickLawful(HDR_SIZE + size, k);
      SmallPlace(h, k, size);
    } else {
      PickLawful(HDR_SIZE + size, 0);
      BigPlace(h, size);
    }
  }

  lemma SmallPlace(h: Heap, k: nat, size: nat)
    requires HeapShape(h) && k < SIZE_CACHES
    ensures var (r, ptr) := MallocSmall(h, k, size);
            ptr != NULL ==> ptr in r.live && r.live[ptr].Cell? && r.live[ptr].k == k && r.live[ptr].size == size
  {
  }

  lemma BigPlace(h: Heap, size: nat)
    requires |h.pages.used| == |h.pages.counts|
    ensures var (r, ptr) := MallocBig(h, size); ptr != NULL ==> ptr in r.live && r.live[ptr] == Big(size)
  {
  }

  /** Where the next object comes from: the first partial slab, without taking pages; else the first free one; else a
      slab that was not there before. In its slab it is the one on top of the stack. */
  lemma SelectionLaw(first: nat, pages: Pages, c: Cache)
    requires |pages.used| == |pages.counts| && CacheOk(c)
    ensures var g := CacheAlloc(first, pages, c);
            && (c.partial != [] || c.free != [] ==>
                  && g.Object? && g.pages == pages
                  && g.b == (if c.partial != [] then c.partial[0] else c.free[0]) && g.b in c.slabs
                  && c.slabs[g.b].free < |c.slabs[g.b].ctl| && g.i == c.slabs[g.b].ctl[c.slabs[g.b].free]
                  && g.ptr == ObjAddr(g.b, c.n, c.objsize, g.i))
            && (c.partial == [] && c.free == [] && g.Object? ==> g.b !in c.slabs && g.i == 0 && g.ptr == ObjAddr(g.b, c.n, c.objsize, 0))
  {
    if c.partial != [] || c.free != [] { PickLaw(c); }
  }

  // ----- release

  /** A cell given back: the books of its cache stay right and the other cells stay in use. */
  ghost predicate GivenBack(c: Cache, c': Cache, b: nat, i: nat) {
    && c'.n == c.n && c'.objsize == c.objsize && c'.slabs.Keys == c.slabs.Keys
    && (forall d, j :: IsLive(c, d, j) && !(d == b && j == i) ==> IsLive(c', d, j))
  }

  lemma GivenBackCache(first: nat, pages: Pages, c: Cache, b: nat, i: nat, p: nat) returns (c': OkCache)
    requires PagesOk(pages) && CacheOk(c) && IsLive(c, b, i) && p == ObjAddr(b, c.n, c.objsize, i)
    requires forall d :: d in c.slabs ==> Owned(first, pages, d, SlabMem(c.n, c.objsize))
    ensures c' == CacheFree(c, p) && GivenBack(c, c', b, i)
  {
    CacheFreeLaw(first, pages, c, b, i);
    FreeLaw(c, b, i, b, i);
    c' := FreeOn(c, b, i);
    forall d, j | IsLive(c, d, j) && !(d == b && j == i) ensures IsLive(c', d, j) {
      FreeLaw(c, b, i, d, j);
    }
  }

  function AfterGiveBack(h: Heap, k: nat, c': Cache, ptr: nat): Heap
    requires k < |h.caches|
  {
    h.(live := h.live - {ptr}, caches := h.caches[k := c'])
  }

  lemma GivenBackSlabs(h: Heap, k: nat, c': Cache, ptr: nat)
    requires LayoutOk(h) && k < SIZE_CACHES
    requires c'.n == h.caches[k].n && c'.objsize == h.caches[k].objsize && c'.slabs.Keys == h.caches[k].slabs.Keys
    ensures var r := AfterGiveBack(h, k, c', ptr); Geometry(r) && SlabsOwned(r)
    ensures forall base :: NoSlab(AfterGiveBack(h, k, c', ptr), base) == NoSlab(h, base)
  {
    var r := AfterGiveBack(h, k, c', ptr);
    assert Geometry(r);
    forall j ensures 0 <= j <= SIZE_CACHES ==> r.caches[j].slabs.Keys == h.caches[j].slabs.Keys && SlabBytes(r.caches[j]) == SlabBytes(h.caches[j]) {
    }
  }

  lemma GivenBackOther(h: Heap, ptr: nat, c': Cache, q: nat)
    requires LayoutOk(h) && ptr in h.live && h.live[ptr].Cell? && h.live[ptr].k < SIZE_CACHES
    requires var a := h.live[ptr]; GivenBack(h.caches[a.k], c', a.b, a.i)
    requires Geometry(AfterGiveBack(h, h.live[ptr].k, c', ptr)) && q in h.live && q != ptr
    requires forall base :: NoSlab(AfterGiveBack(h, h.live[ptr].k, c', ptr), base) == NoSlab(h, base)
    ensures AllocOk(AfterGiveBack(h, h.live[ptr].k, c', ptr), q)
  {
    assert AllocOk(h, ptr) && AllocOk(h, q);
    AllocKept(h, AfterGiveBack(h, h.live[ptr].k, c', ptr), q);
  }

  lemma GivenBackLayout(h: Heap, ptr: nat, c': Cache)
    requires LayoutOk(h) && ptr in h.live && h.live[ptr].Cell? && h.live[ptr].k < SIZE_CACHES
    requires var a := h.live[ptr]; GivenBack(h.caches[a.k], c', a.b, a.i)
    ensures LayoutOk(AfterGiveBack(h, h.live[ptr].k, c', ptr))
  {
    var r := AfterGiveBack(h, h.live[ptr].k, c', ptr);
    GivenBackSlabs(h, h.live[ptr].k, c', ptr);
    forall q | q in r.live ensures AllocOk(r, q) { GivenBackOther(h, ptr, c', q); }
  }

  lemma ReleasedCell(h: Heap, ptr: nat) returns (c': OkCache)
    requires Geometry(h) && PagesOk(h.pages) && ptr in h.live && h.live[ptr].Cell? && AllocOk(h, ptr)
    requires CacheOk(h.caches[h.live[ptr].k])
    requires var c := h.caches[h.live[ptr].k]; forall d :: d in c.slabs ==> Owned(h.first, h.pages, d, SlabMem(c.n, c.objsize))
    ensures var a := h.live[ptr]; GivenBack(h.caches[a.k], c', a.b, a.i)
    ensures Release(h, ptr) == AfterGiveBack(h, h.live[ptr].k, c', ptr)
  {
    var a := h.live[ptr];
    c' := GivenBackCache(h.first, h.pages, h.caches[a.k], a.b, a.i, ptr - HDR_SIZE);
  }

  lemma GivenBackOk(h: Heap, ptr: nat, c': OkCache)
    requires HeapOk(h) && ptr in h.live && h.live[ptr].Cell? && h.live[ptr].k < SIZE_CACHES
    requires var a := h.live[ptr]; GivenBack(h.caches[a.k], c', a.b, a.i)
    ensures HeapOk(AfterGiveBack(h, h.live[ptr].k, c', ptr))
  {
    GivenBackLayout(h, ptr, c');
    CacheBooks(h, h.live[ptr].k, c', ptr);
  }

  lemma ReleaseCellOk(h: Heap, ptr: nat)
    requires HeapOk(h) && ptr in h.live && h.live[ptr].Cell? && AllocOk(h, ptr)
    ensures HeapOk(Release(h, ptr)) && Release(h, ptr).live == h.live - {ptr}
  {
    var c := h.caches[h.live[ptr].k];
    assert forall d :: d in c.slabs ==> Owned(h.first, h.pages, d, SlabBytes(c));
    var c' := ReleasedCell(h, ptr);
    GivenBackOk(h, ptr, c');
  }

  lemma CacheBooks(h: Heap, k: nat, c': OkCache, ptr: nat)
    requires HeapShape(h) && k < SIZE_CACHES && Geometry(AfterGiveBack(h, k, c', ptr))
    ensures Books(AfterGiveBack(h, k, c', ptr))
  {
  }

  /** Pages given back: every other block stays owned. */
  ghost predicate PagesReturned(h: Heap, pages: Pages, base: nat) {
    forall a, m :: Owned(h.first, h.pages, a, m) && a != base ==> Owned(h.first, pages, a, m)
  }

  lemma FreeReturnsPages(h: Heap, base: nat, bytes: nat)
    requires PagesOk(h.pages) && Owned(h.first, h.pages, base, bytes)
    ensures var pages := Free(h.pages, (base - h.first) / PAGE_SIZE); PagesReturned(h, pages, base) && PagesOk(pages)
  {
    ShrinkKeepsOk(h.pages, (base - h.first) / PAGE_SIZE, 0);
  }

  lemma PagesReturnedLayout(h: Heap, ptr: nat, pages: Pages)
    requires LayoutOk(h) && ptr in h.live && h.live[ptr].Big? && PagesReturned(h, pages, ptr - HDR_SIZE)
    ensures LayoutOk(h.(live := h.live - {ptr}, pages := pages))
  {
    BigBlock(h, ptr);
    PagesReturnedSlabs(h, h.(live := h.live - {ptr}, pages := pages), ptr - HDR_SIZE);
    PagesReturnedLive(h, ptr, pages);
  }

  lemma PagesReturnedLive(h: Heap, ptr: nat, pages: Pages)
    requires LayoutOk(h) && ptr in h.live && PagesReturned(h, pages, ptr - HDR_SIZE)
    ensures var r := h.(live := h.live - {ptr}, pages := pages); forall q :: q in r.live ==> AllocOk(r, q)
  {
    forall q | q in h.live && q != ptr ensures AllocOk(h.(live := h.live - {ptr}, pages := pages), q) {
      PagesReturnedOther(h, ptr, pages, q);
    }
  }

  lemma BigBlock(h: Heap, ptr: nat)
    requires LayoutOk(h) && ptr in h.live && h.live[ptr].Big?
    ensures ptr >= HDR_SIZE && ptr - HDR_SIZE != h.root && NoSlab(h, ptr - HDR_SIZE)
  {
    assert AllocOk(h, ptr);
  }

  lemma PagesReturnedSlabs(h: Heap, r: Heap, base: nat)
    requires Geometry(h) && SlabsOwned(h) && PagesReturned(h, r.pages, base) && base != h.root && NoSlab(h, base)
    requires r.first == h.first && r.caches == h.caches && r.root == h.root
    ensures Geometry(r) && SlabsOwned(r)
  {
  }

  lemma PagesReturnedOther(h: Heap, ptr: nat, pages: Pages, q: nat)
    requires LayoutOk(h) && ptr in h.live && PagesReturned(h, pages, ptr - HDR_SIZE) && q in h.live && q != ptr
    ensures AllocOk(h.(live := h.live - {ptr}, pages := pages), q)
  {
    var r := h.(live := h.live - {ptr}, pages := pages);
    assert AllocOk(h, q);
    assert NoSlab(r, q - HDR_SIZE) == NoSlab(h, q - HDR_SIZE);
    AllocKept(h, r, q);
  }

  lemma ReleaseBigIs(h: Heap, ptr: nat)
    requires HeapShape(h) && ptr in h.live && h.live[ptr].Big? && AllocOk(h, ptr)
    ensures Release(h, ptr) == h.(live := h.live - {ptr}, pages := Free(h.pages, (ptr - HDR_SIZE - h.first) / PAGE_SIZE))
  {
  }

  lemma PagesReturnedOk(h: Heap, ptr: nat, pages: Pages)
    requires HeapOk(h) && ptr in h.live && h.live[ptr].Big? && PagesReturned(h, pages, ptr - HDR_SIZE) && PagesOk(pages)
    ensures HeapOk(h.(live := h.live - {ptr}, pages := pages))
  {
    PagesReturnedLayout(h, ptr, pages);
  }

  lemma ReleaseBigOk(h: Heap, ptr: nat)
    requires HeapOk(h) && ptr in h.live && h.live[ptr].Big? && AllocOk(h, ptr)
    ensures HeapOk(Release(h, ptr)) && Release(h, ptr).live == h.live - {ptr}
  {
    ReleaseBigIs(h, ptr);
    FreeReturnsPages(h, ptr - HDR_SIZE, BigBytes(h.live[ptr].size));
    PagesReturnedOk(h, ptr, Free(h.pages, (ptr - HDR_SIZE - h.first) / PAGE_SIZE));
  }

  /** Releasing a live pointer keeps the invariant and ends that allocation only. */
  lemma ReleaseOk(h: Heap, ptr: nat)
    requires HeapOk(h) && ptr in h.live
    ensures ptr >= HDR_SIZE && ptr - HDR_SIZE in h.hdrs
    ensures HeapOk(Release(h, ptr)) && Release(h, ptr).live == h.live - {ptr}
  {
    assert AllocOk(h, ptr);
    if h.live[ptr].Cell? { ReleaseCellOk(h, ptr); } else { ReleaseBigOk(h, ptr); }
  }

  // ----- what the invariant means

  /** The bytes of a live allocation, header included, and those of another never overlap. */
  lemma LiveApart(h: Heap, p: nat, q: nat)
    requires LayoutOk(h) && PagesOk(h.pages) && p in h.live && q in h.live && p != q
    ensures p + h.live[p].size <= q - HDR_SIZE || q + h.live[q].size <= p - HDR_SIZE
  {
    BlockOf(h, p);
    BlockOf(h, q);
    var (a, m) := Block(h, p);
    var (b, n) := Block(h, q);
    if a < b {
      OwnedApart(h.first, h.pages, a, m, b, n);
    } else if b < a {
      OwnedApart(h.first, h.pages, b, n, a, m);
    } else {
      SameBlockApart(h, p, q);
    }
  }

  lemma SameBlockApart(h: Heap, p: nat, q: nat)
    requires LayoutOk(h) && p in h.live && q in h.live && p != q && Block(h, p).0 == Block(h, q).0
    ensures p + h.live[p].size <= q - HDR_SIZE || q + h.live[q].size <= p - HDR_SIZE
  {
    assert AllocOk(h, p) && AllocOk(h, q);
    var x := if h.live[p].Cell? then p else q;
    var y := if h.live[p].Cell? then q else p;
    var k, b := h.live[x].k, h.live[x].b;
    SlabHasOneUse(h, k, b, y);
    var c, i, j := h.caches[k], h.live[x].i, h.live[y].i;
    if i < j { ObjApart(b, c.n, c.objsize, i, j); } else { ObjApart(b, c.n, c.objsize, j, i); }
  }

  /** A live allocation, header included, lies clear of the header and index stack of every slab,
      and entirely clear of every slab of any other cache, such as the one holding the cache
      records. */
  lemma ClearOfSlab(h: Heap, p: nat, k: nat, b: nat)
    requires LayoutOk(h) && PagesOk(h.pages) && p in h.live && k <= SIZE_CACHES && b in h.caches[k].slabs
    ensures p + h.live[p].size <= b || b + SLAB_HDR + h.caches[k].n * CTL_BYTES <= p - HDR_SIZE
    ensures !(h.live[p].Cell? && h.live[p].k == k) ==> p + h.live[p].size <= b || b + SlabBytes(h.caches[k]) <= p - HDR_SIZE
  {
    BlockOf(h, p);
    var (a, m) := Block(h, p);
    var c := h.caches[k];
    assert SLAB_HDR + c.n * CTL_BYTES <= SlabBytes(c);
    if a < b {
      OwnedApart(h.first, h.pages, a, m, b, SlabBytes(c));
    } else if b < a {
      OwnedApart(h.first, h.pages, b, SlabBytes(c), a, m);
    } else {
      SlabHasOneUse(h, k, b, p);
      assert AllocOk(h, p);
      CellFits(c, b, h.live[p].i, h.live[p].size);
    }
  }

  lemma ClearOfRoot(h: Heap, p: nat)
    requires LayoutOk(h) && PagesOk(h.pages) && p in h.live
    ensures p + h.live[p].size <= h.root || h.root + CACHE_BYTES <= p - HDR_SIZE
  {
    BlockOf(h, p);
    var (a, m) := Block(h, p);
    assert AllocOk(h, p);
    assert a != h.root;
    if a < h.root {
      OwnedApart(h.first, h.pages, a, m, h.root, CACHE_BYTES);
    } else {
      OwnedApart(h.first, h.pages, h.root, CACHE_BYTES, a, m);
    }
  }

  /** Everything about one live user pointer: aligned, all its bytes in used pages. */
  lemma LiveInPages(h: Heap, p: nat, x: nat)
    requires LayoutOk(h) && PagesOk(h.pages) && p in h.live && p - HDR_SIZE <= x < p + h.live[p].size
    ensures p % ALIGNMENT == 0
    ensures h.first <= x < h.first + PAGES * PAGE_SIZE && h.pages.used[(x - h.first) / PAGE_SIZE]
  {
    BlockOf(h, p);
    var (a, m) := Block(h, p);
    OwnedUsed(h.first, h.pages, a, m, x);
  }

  // ----- start-up

  /** The heap right after start-up: a page for the record of the cache cache, one slab of that
      cache with eight records in use, and eight empty size classes. */
  function Boot(first: nat): Heap {
    var (p1, root) := KernelMalloc(first, Fresh(), CACHE_BYTES);
    var c := NewCache(CACHE_BYTES);
    var (p2, base) := KernelMalloc(first, p1, SlabMem(c.n, c.objsize));
    Heap(first, p2, seq(SIZE_CACHES, k requires 0 <= k < SIZE_CACHES => NewCache(ClassSize(k))) + [Records(GrowAt(c, base), base, SIZE_CACHES)],
         root, map[], map[])
  }

  /** The cache cache after `n` records were taken from its first slab. */
  function Records(c: Cache, base: nat, n: nat): Cache {
    if n == 0 then c
    else
      var d := Records(c, base, n - 1);
      if base in d.slabs && d.slabs[base].free < |d.slabs[base].ctl| then AllocOn(d, base).0 else d
  }

  /** A cache with one slab, of whose objects `n` are in use. */
  ghost predicate Recorded(c: Cache, d: Cache, base: nat, n: nat) {
    && CacheOk(d) && d.n == c.n && d.objsize == c.objsize
    && d.slabs.Keys == {base} && d.slabs[base].free == n && d.inuse == c.inuse + n
  }

  lemma {:induction false} RecordsOk(c: Cache, base: nat, n: nat)
    requires CacheOk(c) && c.slabs.Keys == {base} && c.slabs[base].free == 0 && n <= c.n
    ensures Recorded(c, Records(c, base, n), base, n)
  {
    if n > 0 {
      RecordsOk(c, base, n - 1);
      OneRecord(c, Records(c, base, n - 1), base, n - 1);
    }
  }

  lemma OneRecord(c: Cache, d: Cache, base: nat, n: nat)
    requires Recorded(c, d, base, n) && n < c.n
    ensures d.slabs[base].free < |d.slabs[base].ctl| && Recorded(c, AllocOn(d, base).0, base, n + 1)
  {
    assert SlabOk(d.slabs[base], d.n);
    AllocLaw(d, base, base, 0);
  }

  /** First fit on a pool whose first `n` pages are used. */
  lemma NextPage(pages: Pages, n: nat)
    requires |pages.used| == |pages.counts| == PAGES && n < PAGES
    requires forall p :: 0 <= p < PAGES ==> pages.used[p] == (p < n)
    ensures FirstFit(pages.used, 1, 0) == n
  {
    forall k | 0 <= k < n ensures !FreeRun(pages.used, k, 1) { assert pages.used[k]; }
    FirstFitUnique(pages.used, 1, n);
  }

  lemma BootPages(first: nat)
    requires first > 0 && first % PAGE_SIZE == 0
    ensures var (p1, root) := KernelMalloc(first, Fresh(), CACHE_BYTES);
            var (p2, base) := KernelMalloc(first, p1, SlabMem(NewCache(CACHE_BYTES).n, NewCache(CACHE_BYTES).objsize));
            && PagesOk(p2) && root != base
            && Owned(first, p2, root, CACHE_BYTES) && Owned(first, p2, base, SlabBytes(NewCache(CACHE_BYTES)))
  {
    FreshOk();
    var c := NewCache(CACHE_BYTES);
    RepeatedIsProduct(c.n, c.objsize);
    RecordGeometry();
    assert SlabBytes(c) == 4087;
    NextPage(Fresh(), 1);
    KernelMallocLaw(first, Fresh(), CACHE_BYTES, 0, 0);
    var (p1, root) := KernelMalloc(first, Fresh(), CACHE_BYTES);
    NextPage(p1, 2);
    KernelMallocLaw(first, p1, SlabBytes(c), root, CACHE_BYTES);
  }

  lemma SizeClassOk(k: nat)
    requires k < SIZE_CACHES
    ensures CacheOk(NewCache(ClassSize(k))) && NewCache(ClassSize(k)).objsize == ClassSize(k)
  {
    ClassAligned(k);
    AlignedStays(ClassSize(k));
    NewCacheOk(ClassSize(k));
  }

  lemma ClassAligned(k: nat)
    requires k < SIZE_CACHES
    ensures ClassSize(k) % ALIGNMENT == 0 && ClassSize(k) > 0
  {
  }

  lemma RecordGeometry()
    ensures NewCache(CACHE_BYTES).n == 48 && NewCache(CACHE_BYTES).objsize == CACHE_BYTES
  {
    AlignedStays(CACHE_BYTES);
    QuotientIsDivision(4096 - SLAB_HDR, CACHE_BYTES + CTL_BYTES);
  }

  lemma RecordCacheOk(c: OkCache, base: nat)
    requires c.slabs == map[] && c.n >= SIZE_CACHES
    ensures var d := Records(GrowAt(c, base), base, SIZE_CACHES);
            CacheOk(d) && d.slabs.Keys == {base} && d.n == c.n && d.objsize == c.objsize
  {
    GrowLaw(c, base, 0, 0);
    RecordsOk(GrowAt(c, base), base, SIZE_CACHES);
  }

  lemma BootCaches(first: nat)
    ensures var h, c := Boot(first), NewCache(CACHE_BYTES);
            var base := KernelMalloc(first, KernelMalloc(first, Fresh(), CACHE_BYTES).0, SlabMem(c.n, c.objsize)).1;
            && |h.caches| == SIZE_CACHES + 1
            && (forall k :: 0 <= k < SIZE_CACHES ==> h.caches[k] == NewCache(ClassSize(k)))
            && h.caches[CACHE_CACHE] == Records(GrowAt(c, base), base, SIZE_CACHES)
  {
  }

  /** A heap without allocations, with one slab of cache records, is in order. */
  lemma EmptyHeapOk(h: Heap, base: nat)
    requires h.first > 0 && h.first % PAGE_SIZE == 0 && PagesOk(h.pages) && |h.caches| == SIZE_CACHES + 1
    requires forall k :: 0 <= k <= SIZE_CACHES ==> CacheOk(h.caches[k])
    requires forall k :: 0 <= k < SIZE_CACHES ==> h.caches[k].slabs == map[] && h.caches[k].objsize == ClassSize(k)
    requires h.caches[CACHE_CACHE].slabs.Keys == {base} && h.root != base && h.live == map[]
    requires Owned(h.first, h.pages, h.root, CACHE_BYTES)
    requires Owned(h.first, h.pages, base, SlabBytes(h.caches[CACHE_CACHE]))
    ensures HeapOk(h)
  {
    assert Geometry(h);
    assert SlabsOwned(h);
  }

  lemma BootOk(first: nat)
    requires first > 0 && first % PAGE_SIZE == 0
    ensures HeapOk(Boot(first)) && Boot(first).live == map[] && Boot(first).first == first
  {
    var h, c := Boot(first), NewCache(CACHE_BYTES);
    var base := KernelMalloc(first, KernelMalloc(first, Fresh(), CACHE_BYTES).0, SlabMem(c.n, c.objsize)).1;
    BootPages(first);
    BootCaches(first);
    BootRecords(base);
    forall k | 0 <= k < SIZE_CACHES
      ensures CacheOk(h.caches[k]) && h.caches[k].objsize == ClassSize(k) && h.caches[k].slabs == map[]
    {
      SizeClassOk(k);
    }
    EmptyHeapOk(h, base);
  }

  lemma BootRecords(base: nat)
    ensures var c := NewCache(CACHE_BYTES); var d := Records(GrowAt(c, base), base, SIZE_CACHES);
            CacheOk(d) && d.slabs.Keys == {base} && SlabBytes(d) == SlabBytes(c)
  {
    RecordGeometry();
    NewCacheOk(CACHE_BYTES);
    RecordCacheOk(NewCache(CACHE_BYTES), base);
  }

  // ----- every run

  datatype Call = Kmalloc(size: nat) | Kfree(ptr: nat)

  type OkHeap = h: Heap | HeapOk(h) ghost witness (BootOk(PAGE_SIZE); Boot(PAGE_SIZE))

  /** One call; releasing a null pointer, or one that is not live, is not a call of the program. */
  function Serve(h: OkHeap, call: Call): (r: OkHeap)
    ensures r.first == h.first
  {
    match call
    case Kmalloc(size) => MallocOk(h, size); Malloc(h, size).0
    case Kfree(ptr) => if ptr in h.live then ReleaseOk(h, ptr); Release(h, ptr) else h
  }

  /** The heap after any run of calls from start-up; it is always in order. */
  function After(first: nat, calls: seq<Call>): (h: OkHeap)
    requires first > 0 && first % PAGE_SIZE == 0
    ensures h.first == first
  {
    if calls == [] then BootOk(first); Boot(first)
    else Serve(After(first, calls[..|calls| - 1]), calls[|calls| - 1])
  }

  /** A release ends the life of its pointer, and an allocation adds one range, unless it is refused. */
  ghost predicate Effective(h: OkHeap, r: OkHeap, call: Call) {
    match call
    case Kfree(ptr) => r.live == h.live - {ptr}
    case Kmalloc(size) => if Refused(h, size) then r == h else exists p :: p != NULL && OneMore(h, r, p, size)
  }

  /** In every run every call takes effect. */
  lemma EveryCallEffective(first: nat, calls: seq<Call>, call: Call)
    requires first > 0 && first % PAGE_SIZE == 0
    ensures Effective(After(first, calls), After(first, calls + [call]), call)
  {
    assert (calls + [call])[..|calls|] == calls;
    match call {
      case Kfree(ptr) => FreeEffective(After(first, calls), ptr);
      case Kmalloc(size) => MallocEffective(After(first, calls), size);
    }
  }

  lemma FreeEffective(h: OkHeap, ptr: nat)
    ensures Serve(h, Kfree(ptr)).live == h.live - {ptr}
  {
    if ptr in h.live {
      ReleaseOk(h, ptr);
    } else {
      assert h.live - {ptr} == h.live;
    }
  }

  lemma MallocEffective(h: OkHeap, size: nat)
    ensures Effective(h, Serve(h, Kmalloc(size)), Kmalloc(size))
  {
    MallocOk(h, size);
    MallocNull(h, size);
    var (r, p) := Malloc(h, size);
    GrantEffective(h, r, p, size);
  }

  lemma GrantEffective(h: OkHeap, r: OkHeap, p: nat, size: nat)
    requires OneMore(h, r, p, size) && (p == NULL <==> Refused(h, size))
    ensures Effective(h, r, Kmalloc(size))
  {
  }

  /** Byte `x` of live allocation `p` against everything else: it lies in a used page, in no
      other allocation or header, in no slab record, and in no cache record. */
  ghost predicate SafeByte(h: OkHeap, p: nat, x: nat)
    requires p in h.live
  {
    && h.first <= x < h.first + PAGES * PAGE_SIZE && h.pages.used[(x - h.first) / PAGE_SIZE]
    && !(p - HDR_SIZE <= x < p)
    && (forall q :: q in h.live && q != p ==> !(q - HDR_SIZE <= x < q + h.live[q].size))
    && (forall k, b :: 0 <= k <= SIZE_CACHES && b in h.caches[k].slabs ==> !(b <= x < b + SLAB_HDR + h.caches[k].n * CTL_BYTES))
    && (forall b :: b in h.caches[CACHE_CACHE].slabs ==> !(b <= x < b + SlabBytes(h.caches[CACHE_CACHE])))
    && !(h.root <= x < h.root + CACHE_BYTES)
  }

  lemma HeapSafe(h: OkHeap, p: nat, x: nat)
    requires p in h.live && p <= x < p + h.live[p].size
    ensures p % ALIGNMENT == 0 && SafeByte(h, p, x)
  {
    LiveInPages(h, p, x);
    forall q | q in h.live && q != p ensures !(q - HDR_SIZE <= x < q + h.live[q].size) { LiveApart(h, p, q); }
    forall k, b | 0 <= k <= SIZE_CACHES && b in h.caches[k].slabs
      ensures !(b <= x < b + SLAB_HDR + h.caches[k].n * CTL_BYTES)
    {
      ClearOfSlab(h, p, k, b);
    }
    forall b | b in h.caches[CACHE_CACHE].slabs ensures !(b <= x < b + SlabBytes(h.caches[CACHE_CACHE])) {
      assert AllocOk(h, p);
      ClearOfSlab(h, p, CACHE_CACHE, b);
    }
    ClearOfRoot(h, p);
  }

  /** After every run of allocations and releases, live user ranges are aligned and every byte of
      them is safe. */
  lemma EveryRunSafe(first: nat, calls: seq<Call>, p: nat, x: nat)
    requires first > 0 && first % PAGE_SIZE == 0
    requires p in After(first, calls).live && p <= x < p + After(first, calls).live[p].size
    ensures p % ALIGNMENT == 0 && SafeByte(After(first, calls), p, x)
  {
    HeapSafe(After(first, calls), p, x);
  }
}

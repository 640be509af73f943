/** Nothing leaks: what the heap counts as used is exactly what is live. */
module HeapExact {
  import opened PageAlloc
  import opened SlabModel
  import opened HeapModel

  /** The live pointers to objects of cache `k`. */
  ghost function Cells(live: map<nat, Alloc>, k: nat): set<nat> {
    set p | p in live && live[p].Cell? && live[p].k == k
  }

  lemma CellsAdd(live: map<nat, Alloc>, p: nat, a: Alloc, k: nat)
    requires p !in live
    ensures |Cells(live[p := a], k)| == |Cells(live, k)| + if a.Cell? && a.k == k then 1 else 0
  {
    assert Cells(live[p := a], k) == Cells(live, k) + if a.Cell? && a.k == k then {p} else {};
  }

  lemma CellsDrop(live: map<nat, Alloc>, p: nat, k: nat)
    requires p in live
    ensures |Cells(live - {p}, k)| == |Cells(live, k)| - if live[p].Cell? && live[p].k == k then 1 else 0
  {
    assert live == (live - {p})[p := live[p]];
    CellsAdd(live - {p}, p, live[p], k);
  }

  /** Object `i` of slab `b` of cache `k` is a live allocation, under the pointer behind its header. */
  ghost predicate CellAt(h: Heap, k: nat, b: nat, i: nat)
    requires k < |h.caches|
  {
    var p := ObjAddr(b, h.caches[k].n, h.caches[k].objsize, i) + HDR_SIZE;
    p in h.live && h.live[p].Cell? && h.live[p].k == k && h.live[p].b == b && h.live[p].i == i
  }

  /** Every object off the stack of free indices is a live allocation. */
  ghost predicate CellsLive(h: Heap)
    requires |h.caches| == SIZE_CACHES + 1
  {
    forall k, b, i :: 0 <= k < SIZE_CACHES && IsLive(h.caches[k], b, i) ==> CellAt(h, k, b, i)
  }

  /** Every cache counts its live objects. */
  ghost predicate CountsLive(h: Heap)
    requires |h.caches| == SIZE_CACHES + 1
  {
    forall k :: 0 <= k < SIZE_CACHES ==> h.caches[k].inuse == |Cells(h.live, k)|
  }

  /** The block at `a` is the root record, a slab, or a live allocation of its own pages. */
  ghost predicate BlockKnown(h: Heap, a: nat) {
    || a == h.root
    || (exists k :: 0 <= k < |h.caches| && a in h.caches[k].slabs)
    || (a + HDR_SIZE in h.live && h.live[a + HDR_SIZE].Big?)
  }

  function PageAddr(h: Heap, q: nat): nat { q * PAGE_SIZE + h.first }

  /** Every recorded run of pages is such a block. */
  ghost predicate RunsKnown(h: Heap) {
    forall q :: 0 <= q < |h.pages.counts| && h.pages.counts[q] > 0 ==> BlockKnown(h, PageAddr(h, q))
  }

  /** Nothing is counted, marked or recorded that is not live. The cache cache is as start-up left it. */
  ghost predicate Exact(h: Heap) {
    && |h.caches| == SIZE_CACHES + 1
    && CellsLive(h) && CountsLive(h) && RunsKnown(h)
    && h.caches[CACHE_CACHE] == Boot(h.first).caches[CACHE_CACHE]
  }

  // ----- a small request

  /** An object granted to cache `k`: the grant's pages record at most the new slab in addition. */
  lemma GrantCounts(first: nat, pages: Pages, c: Cache)
    requires PagesOk(pages) && CacheOk(c)
    ensures var g := CacheAlloc(first, pages, c);
            && |g.pages.counts| == |pages.counts|
            && (g.Object? ==> g.cache.inuse == c.inuse + 1)
            && forall q :: 0 <= q < PAGES && g.pages.counts[q] > 0 && pages.counts[q] == 0 ==> g.Object? ==> q * PAGE_SIZE + first == g.b
  {
    if c.partial != [] || c.free != [] { PickLaw(c); }
  }

  lemma GrantedCells(h: Heap, k: nat, g: Grant, size: nat)
    requires |h.caches| == SIZE_CACHES + 1 && CellsLive(h) && k < SIZE_CACHES && g.Object?
    requires g.cache.n == h.caches[k].n && g.cache.objsize == h.caches[k].objsize && g.ptr + HDR_SIZE !in h.live
    requires g.ptr == ObjAddr(g.b, g.cache.n, g.cache.objsize, g.i)
    requires forall d, j :: IsLive(g.cache, d, j) ==> IsLive(h.caches[k], d, j) || (d == g.b && j == g.i)
    ensures CellsLive(AfterGrant(h, k, g, size))
  {
    var r := AfterGrant(h, k, g, size);
    forall l, d, j | 0 <= l < SIZE_CACHES && IsLive(r.caches[l], d, j) ensures CellAt(r, l, d, j) {
      if IsLive(h.caches[l], d, j) { assert CellAt(h, l, d, j); }
    }
  }

  lemma GrantedCounts(h: Heap, k: nat, g: Grant, size: nat)
    requires |h.caches| == SIZE_CACHES + 1 && CountsLive(h) && k < SIZE_CACHES && g.Object?
    requires g.cache.inuse == h.caches[k].inuse + 1 && g.ptr + HDR_SIZE !in h.live
    ensures CountsLive(AfterGrant(h, k, g, size))
  {
    var r := AfterGrant(h, k, g, size);
    forall l | 0 <= l < SIZE_CACHES ensures r.caches[l].inuse == |Cells(r.live, l)| {
      CellsAdd(h.live, g.ptr + HDR_SIZE, Cell(k, g.b, g.i, size), l);
    }
  }

  lemma GrantedRuns(h: Heap, k: nat, g: Grant, size: nat)
    requires |h.caches| == SIZE_CACHES + 1 && RunsKnown(h) && k < SIZE_CACHES && g.Object?
    requires g.ptr + HDR_SIZE !in h.live && g.cache.slabs.Keys == h.caches[k].slabs.Keys + {g.b}
    requires |h.pages.counts| == |g.pages.counts|
    requires forall q :: 0 <= q < |h.pages.counts| && g.pages.counts[q] > 0 && h.pages.counts[q] == 0 ==> PageAddr(h, q) == g.b
    ensures RunsKnown(AfterGrant(h, k, g, size))
  {
    var r := AfterGrant(h, k, g, size);
    assert g.b in r.caches[k].slabs;
    forall q | 0 <= q < |r.pages.counts| && r.pages.counts[q] > 0 ensures BlockKnown(r, PageAddr(r, q)) {
      var a := PageAddr(h, q);
      if h.pages.counts[q] > 0 && exists l :: 0 <= l < |h.caches| && a in h.caches[l].slabs {
        var l :| 0 <= l < |h.caches| && a in h.caches[l].slabs;
        assert a in r.caches[l].slabs;
      }
    }
  }

  lemma SmallExact(h: OkHeap, k: nat, size: nat)
    requires Exact(h) && k < SIZE_CACHES && size > 0 && HDR_SIZE + size <= ClassSize(k)
    ensures Exact(MallocSmall(h, k, size).0)
  {
    var c := h.caches[k];
    var g := CacheAlloc(h.first, h.pages, c);
    GrantCounts(h.first, h.pages, c);
    if g.NoRoom? {
      CacheAllocPages(h.first, h.pages, c, SlabBytes(c), 0, 0);
    } else {
      GrantFacts(h, k, g);
      GrantedLayout(h, k, g, size);
      forall d, j | IsLive(g.cache, d, j) ensures IsLive(c, d, j) || (d == g.b && j == g.i) {
        CacheAllocGrant(h.first, h.pages, c, d, j);
      }
      GrantedCells(h, k, g, size);
      GrantedCounts(h, k, g, size);
      GrantedRuns(h, k, g, size);
    }
  }

  // ----- a large request

  lemma BigExact(h: OkHeap, size: nat)
    requires Exact(h) && size > 0
    ensures Exact(MallocBig(h, size).0)
  {
    var (pages, raw) := KernelMalloc(h.first, h.pages, BigBytes(size));
    if raw == NULL {
      MallocBigFails(h, size);
    } else {
      TakenFacts(h, BigBytes(size));
      MallocBigIs(h, size);
      TakenOk(h, pages, raw, size);
      TakenExact(h, pages, raw, size);
    }
  }

  lemma TakenExact(h: Heap, pages: Pages, raw: nat, size: nat)
    requires Exact(h) && raw + HDR_SIZE !in h.live && |pages.counts| == |h.pages.counts|
    requires forall q :: 0 <= q < |pages.counts| && pages.counts[q] > 0 && h.pages.counts[q] == 0 ==> PageAddr(h, q) == raw
    ensures Exact(AfterTake(h, pages, raw, size))
  {
    TakenCells(h, pages, raw, size);
    TakenCounts(h, pages, raw, size);
    TakenRuns(h, pages, raw, size);
  }

  lemma TakenCells(h: Heap, pages: Pages, raw: nat, size: nat)
    requires |h.caches| == SIZE_CACHES + 1 && CellsLive(h) && raw + HDR_SIZE !in h.live
    ensures CellsLive(AfterTake(h, pages, raw, size))
  {
    var r := AfterTake(h, pages, raw, size);
    forall l, d, j | 0 <= l < SIZE_CACHES && IsLive(r.caches[l], d, j) ensures CellAt(r, l, d, j) {
      assert CellAt(h, l, d, j);
    }
  }

  lemma TakenCounts(h: Heap, pages: Pages, raw: nat, size: nat)
    requires |h.caches| == SIZE_CACHES + 1 && CountsLive(h) && raw + HDR_SIZE !in h.live
    ensures CountsLive(AfterTake(h, pages, raw, size))
  {
    var r := AfterTake(h, pages, raw, size);
    forall l | 0 <= l < SIZE_CACHES ensures r.caches[l].inuse == |Cells(r.live, l)| {
      CellsAdd(h.live, raw + HDR_SIZE, Big(size), l);
    }
  }

  lemma TakenRuns(h: Heap, pages: Pages, raw: nat, size: nat)
    requires |h.caches| == SIZE_CACHES + 1 && RunsKnown(h) && raw + HDR_SIZE !in h.live && |pages.counts| == |h.pages.counts|
    requires forall q :: 0 <= q < |pages.counts| && pages.counts[q] > 0 && h.pages.counts[q] == 0 ==> PageAddr(h, q) == raw
    ensures RunsKnown(AfterTake(h, pages, raw, size))
  {
    var r := AfterTake(h, pages, raw, size);
    forall q | 0 <= q < |r.pages.counts| && r.pages.counts[q] > 0 ensures BlockKnown(r, PageAddr(r, q)) {
      assert h.pages.counts[q] > 0 ==> BlockKnown(h, PageAddr(h, q));
    }
  }

  // ----- a release

  /** What giving object `i` of slab `b` back does to a cache. */
  ghost predicate LessOne(c: Cache, c': Cache, b: nat, i: nat) {
    && c'.n == c.n && c'.objsize == c.objsize && c'.slabs.Keys == c.slabs.Keys && c'.inuse == c.inuse - 1
    && forall d, j :: IsLive(c', d, j) ==> IsLive(c, d, j) && !(d == b && j == i)
  }

  lemma FreedOne(c: Cache, b: nat, i: nat)
    requires CacheOk(c) && IsLive(c, b, i)
    ensures c.inuse > 0 && 0 < c.slabs[b].free <= |c.slabs[b].ctl| && LessOne(c, FreeOn(c, b, i), b, i)
  {
    LiveInUse(c, b, i);
    FreeLaw(c, b, i, 0, 0);
    forall d, j | IsLive(FreeOn(c, b, i), d, j) ensures IsLive(c, d, j) && !(d == b && j == i) { FreeLaw(c, b, i, d, j); }
  }

  /** The release of an object, as a change of its cache. */
  lemma ReleaseIs(h: OkHeap, ptr: nat) returns (c': Cache)
    requires ptr in h.live && h.live[ptr].Cell?
    ensures var a := h.live[ptr];
            && ptr >= HDR_SIZE && ptr - HDR_SIZE in h.hdrs && a.k < SIZE_CACHES && LessOne(h.caches[a.k], c', a.b, a.i)
            && ptr == ObjAddr(a.b, h.caches[a.k].n, h.caches[a.k].objsize, a.i) + HDR_SIZE
            && HeapModel.Release(h, ptr) == AfterGiveBack(h, a.k, c', ptr)
  {
    assert AllocOk(h, ptr);
    LiveCellKnown(h, ptr);
    c' := ReleaseOf(h, ptr, h.live[ptr].k, h.live[ptr].b, h.live[ptr].i);
  }

  /** What is known of a live object. */
  ghost predicate CellKnown(h: Heap, ptr: nat, k: nat, b: nat, i: nat) {
    && ptr in h.live && ptr >= HDR_SIZE && ptr - HDR_SIZE in h.hdrs && k < |h.caches| && h.hdrs[ptr - HDR_SIZE] == InCache(k)
    && IsLive(h.caches[k], b, i) && ptr - HDR_SIZE == ObjAddr(b, h.caches[k].n, h.caches[k].objsize, i)
    && forall d :: d in h.caches[k].slabs ==> Owned(h.first, h.pages, d, SlabMem(h.caches[k].n, h.caches[k].objsize))
  }

  lemma LiveCellKnown(h: Heap, ptr: nat)
    requires Geometry(h) && SlabsOwned(h) && ptr in h.live && h.live[ptr].Cell? && AllocOk(h, ptr)
    ensures var a := h.live[ptr]; a.k < SIZE_CACHES && CellKnown(h, ptr, a.k, a.b, a.i)
  {
    var a := h.live[ptr];
    var c := h.caches[a.k];
    assert forall d :: d in c.slabs ==> Owned(h.first, h.pages, d, SlabBytes(c));
  }

  lemma ReleaseOf(h: Heap, ptr: nat, k: nat, b: nat, i: nat) returns (c': Cache)
    requires PagesOk(h.pages) && CellKnown(h, ptr, k, b, i) && CacheOk(h.caches[k])
    ensures LessOne(h.caches[k], c', b, i) && HeapModel.Release(h, ptr) == AfterGiveBack(h, k, c', ptr)
  {
    c' := CellGivenBack(h.first, h.pages, h.caches[k], b, i);
    CacheRelease(h, ptr, k, c');
  }

  lemma CacheRelease(h: Heap, ptr: nat, k: nat, c': Cache)
    requires |h.pages.counts| == PAGES && ptr in h.live && ptr >= HDR_SIZE && ptr - HDR_SIZE in h.hdrs
    requires h.hdrs[ptr - HDR_SIZE] == InCache(k) && k < |h.caches| && c' == CacheFree(h.caches[k], ptr - HDR_SIZE)
    ensures HeapModel.Release(h, ptr) == AfterGiveBack(h, k, c', ptr)
  {
  }

  lemma CellGivenBack(first: nat, pages: Pages, c: Cache, b: nat, i: nat) returns (c': Cache)
    requires PagesOk(pages) && CacheOk(c) && IsLive(c, b, i)
    requires forall d :: d in c.slabs ==> Owned(first, pages, d, SlabMem(c.n, c.objsize))
    ensures c' == CacheFree(c, ObjAddr(b, c.n, c.objsize, i)) && LessOne(c, c', b, i)
  {
    CacheFreeLaw(first, pages, c, b, i);
    FreedOne(c, b, i);
    c' := FreeOn(c, b, i);
  }

  lemma CellReleased(h: OkHeap, ptr: nat)
    requires Exact(h) && ptr in h.live && h.live[ptr].Cell?
    ensures ptr >= HDR_SIZE && ptr - HDR_SIZE in h.hdrs && Exact(HeapModel.Release(h, ptr))
  {
    var c' := ReleaseIs(h, ptr);
    GivenBackCells(h, ptr, c');
    GivenBackRuns(h, ptr, c');
  }

  lemma GivenBackCells(h: Heap, ptr: nat, c': Cache)
    requires |h.caches| == SIZE_CACHES + 1 && CellsLive(h) && CountsLive(h)
    requires ptr in h.live && h.live[ptr].Cell? && h.live[ptr].k < SIZE_CACHES
    requires var a := h.live[ptr];
             && LessOne(h.caches[a.k], c', a.b, a.i)
             && ptr == ObjAddr(a.b, h.caches[a.k].n, h.caches[a.k].objsize, a.i) + HDR_SIZE
    ensures var r := AfterGiveBack(h, h.live[ptr].k, c', ptr); CellsLive(r) && CountsLive(r)
  {
    var a := h.live[ptr];
    var r := AfterGiveBack(h, a.k, c', ptr);
    forall l, d, j | 0 <= l < SIZE_CACHES && IsLive(r.caches[l], d, j) ensures CellAt(r, l, d, j) {
      assert IsLive(h.caches[l], d, j);
      assert CellAt(h, l, d, j);
    }
    forall l | 0 <= l < SIZE_CACHES ensures r.caches[l].inuse == |Cells(r.live, l)| { CellsDrop(h.live, ptr, l); }
  }

  lemma GivenBackRuns(h: Heap, ptr: nat, c': Cache)
    requires |h.caches| == SIZE_CACHES + 1 && RunsKnown(h) && ptr in h.live && h.live[ptr].Cell? && h.live[ptr].k < SIZE_CACHES
    requires c'.slabs.Keys == h.caches[h.live[ptr].k].slabs.Keys
    ensures RunsKnown(AfterGiveBack(h, h.live[ptr].k, c', ptr))
  {
    var r := AfterGiveBack(h, h.live[ptr].k, c', ptr);
    forall q | 0 <= q < |r.pages.counts| && r.pages.counts[q] > 0 ensures BlockKnown(r, PageAddr(r, q)) {
      var x := PageAddr(h, q);
      assert BlockKnown(h, x);
      if exists l :: 0 <= l < |h.caches| && x in h.caches[l].slabs {
        var l :| 0 <= l < |h.caches| && x in h.caches[l].slabs;
        assert x in r.caches[l].slabs;
      }
    }
  }

  lemma OwnedPage(first: nat, pages: Pages, base: nat, bytes: nat)
    requires Owned(first, pages, base, bytes)
    ensures (base - first) / PAGE_SIZE < PAGES && (base - first) / PAGE_SIZE * PAGE_SIZE + first == base
  {
  }

  lemma BigReleased(h: OkHeap, ptr: nat)
    requires Exact(h) && ptr in h.live && h.live[ptr].Big?
    ensures ptr >= HDR_SIZE && ptr - HDR_SIZE in h.hdrs && Exact(HeapModel.Release(h, ptr))
  {
    assert AllocOk(h, ptr);
    var p := BigAt(h, ptr);
    PagesExact(h, ptr, p);
  }

  /** The release of pages of their own, as a change of the page allocator. */
  lemma BigAt(h: Heap, ptr: nat) returns (p: nat)
    requires Geometry(h) && ptr in h.live && h.live[ptr].Big? && AllocOk(h, ptr)
    ensures |h.pages.counts| == PAGES && p < PAGES && PageAddr(h, p) + HDR_SIZE == ptr
    ensures HeapModel.Release(h, ptr) == h.(live := h.live - {ptr}, pages := Free(h.pages, p))
  {
    p := (ptr - HDR_SIZE - h.first) / PAGE_SIZE;
    OwnedPage(h.first, h.pages, ptr - HDR_SIZE, BigBytes(h.live[ptr].size));
  }

  lemma PagesExact(h: Heap, ptr: nat, p: nat)
    requires Exact(h) && ptr in h.live && h.live[ptr].Big? && p < |h.pages.counts| && PageAddr(h, p) + HDR_SIZE == ptr
    ensures Exact(h.(live := h.live - {ptr}, pages := Free(h.pages, p)))
  {
    var r := h.(live := h.live - {ptr}, pages := Free(h.pages, p));
    forall l, d, j | 0 <= l < SIZE_CACHES && IsLive(r.caches[l], d, j) ensures CellAt(r, l, d, j) {
      assert CellAt(h, l, d, j);
    }
    forall l | 0 <= l < SIZE_CACHES ensures r.caches[l].inuse == |Cells(r.live, l)| { CellsDrop(h.live, ptr, l); }
    forall q | 0 <= q < |r.pages.counts| && r.pages.counts[q] > 0 ensures BlockKnown(r, PageAddr(r, q)) {
      assert q != p && h.pages.counts[q] > 0;
      assert BlockKnown(h, PageAddr(h, q));
    }
  }

  // ----- start-up and every run

  /** The cache cache holds exactly the eight cache records, in one slab. */
  lemma BootRecordsExact(first: nat)
    requires first > 0 && first % PAGE_SIZE == 0
    ensures var c := Boot(first).caches[CACHE_CACHE];
            c.inuse == SIZE_CACHES && |c.slabs| == 1 && forall b :: b in c.slabs ==> c.slabs[b].free == SIZE_CACHES
  {
    var c := NewCache(CACHE_BYTES);
    BootCaches(first);
    RecordGeometry();
    NewCacheOk(CACHE_BYTES);
    RecordsExact(c, KernelMalloc(first, KernelMalloc(first, Fresh(), CACHE_BYTES).0, SlabMem(c.n, c.objsize)).1);
  }

  lemma RecordsExact(c: OkCache, base: nat)
    requires c.slabs == map[] && c.inuse == 0 && c.n >= SIZE_CACHES
    ensures var d := Records(GrowAt(c, base), base, SIZE_CACHES);
            d.inuse == SIZE_CACHES && |d.slabs| == 1 && forall b :: b in d.slabs ==> d.slabs[b].free == SIZE_CACHES
  {
    GrowLaw(c, base, 0, 0);
    RecordsOk(GrowAt(c, base), base, SIZE_CACHES);
    OneKey(Records(GrowAt(c, base), base, SIZE_CACHES).slabs, base);
  }

  lemma OneKey(m: map<nat, Slab>, base: nat)
    requires m.Keys == {base}
    ensures |m| == 1
  {
    assert |m| == |m.Keys|;
  }

  lemma BootRuns(first: nat)
    requires first > 0 && first % PAGE_SIZE == 0
    ensures RunsKnown(Boot(first))
  {
    var h, c := Boot(first), NewCache(CACHE_BYTES);
    var base := KernelMalloc(first, KernelMalloc(first, Fresh(), CACHE_BYTES).0, SlabMem(c.n, c.objsize)).1;
    BootCaches(first);
    BootRecords(base);
    BootCounts(first, SlabMem(c.n, c.objsize));
    TwoRuns(h, base);
  }

  lemma TwoRuns(h: Heap, base: nat)
    requires |h.caches| == SIZE_CACHES + 1 && base in h.caches[CACHE_CACHE].slabs
    requires forall q :: 0 <= q < |h.pages.counts| && h.pages.counts[q] > 0 ==> PageAddr(h, q) == h.root || PageAddr(h, q) == base
    ensures RunsKnown(h)
  {
  }

  /** Start-up takes two runs of pages. */
  lemma BootCounts(first: nat, bytes: nat)
    ensures var (p1, root) := KernelMalloc(first, Fresh(), CACHE_BYTES);
            var (p2, base) := KernelMalloc(first, p1, bytes);
            |p2.counts| == PAGES && forall q :: 0 <= q < PAGES && p2.counts[q] > 0 ==> q * PAGE_SIZE + first == root || q * PAGE_SIZE + first == base
  {
    var (p1, root) := KernelMalloc(first, Fresh(), CACHE_BYTES);
    var (p2, base) := KernelMalloc(first, p1, bytes);
    forall q | 0 <= q < PAGES && p2.counts[q] > 0 ensures q * PAGE_SIZE + first == root || q * PAGE_SIZE + first == base {
      MallocCounts(first, Fresh(), CACHE_BYTES, q);
      MallocCounts(first, p1, bytes, q);
    }
  }

  lemma MallocCounts(first: nat, pages: Pages, bytes: nat, q: nat)
    requires |pages.used| == |pages.counts| && q < |pages.counts|
    ensures var (pages', base) := KernelMalloc(first, pages, bytes);
            pages'.counts[q] > 0 ==> pages.counts[q] > 0 || q * PAGE_SIZE + first == base
  {
  }

  lemma BootExact(first: nat)
    requires first > 0 && first % PAGE_SIZE == 0
    ensures Exact(Boot(first))
  {
    var h := Boot(first);
    BootOk(first);
    BootRuns(first);
    BootCaches(first);
    forall k | 0 <= k < SIZE_CACHES ensures h.caches[k].inuse == |Cells(h.live, k)| && h.caches[k].slabs == map[] {
      assert Cells(h.live, k) == {};
    }
  }

  lemma ServeExact(h: OkHeap, call: Call)
    requires Exact(h)
    ensures Exact(Serve(h, call))
  {
    match call
    case Kmalloc(size) =>
      if size > 0 {
        var k := PickCache(HDR_SIZE + size, 0);
        if k >= 0 { SmallExact(h, k, size); } else { BigExact(h, size); }
      }
    case Kfree(ptr) =>
      if ptr in h.live {
        if h.live[ptr].Cell? { CellReleased(h, ptr); } else { BigReleased(h, ptr); }
      }
  }

  /** After every run nothing has leaked. */
  lemma {:induction false} EveryRunExact(first: nat, calls: seq<Call>)
    requires first > 0 && first % PAGE_SIZE == 0
    ensures Exact(HeapModel.After(first, calls))
  {
    if calls == [] {
      BootExact(first);
    } else {
      EveryRunExact(first, calls[..|calls| - 1]);
      ServeExact(HeapModel.After(first, calls[..|calls| - 1]), calls[|calls| - 1]);
    }
  }

  // ----- what that means

  /** The stack of free indices of a slab is exactly the complement of its live objects. */
  lemma StackIsComplement(h: OkHeap, k: nat, b: nat, i: nat)
    requires Exact(h) && k < SIZE_CACHES && b in h.caches[k].slabs && i < h.caches[k].n
    ensures var s := h.caches[k].slabs[b];
            s.free <= |s.ctl| && (i in s.ctl[s.free..] <==> !CellAt(h, k, b, i))
  {
    assert SlabOk(h.caches[k].slabs[b], h.caches[k].n);
    var p := ObjAddr(b, h.caches[k].n, h.caches[k].objsize, i) + HDR_SIZE;
    if p in h.live {
      assert AllocOk(h, p);
      CellIsLive(h, p);
    }
  }

  lemma CellIsLive(h: Heap, p: nat)
    requires Geometry(h) && p in h.live && AllocOk(h, p)
    ensures var a := h.live[p]; a.Cell? ==> a.k < SIZE_CACHES && IsLive(h.caches[a.k], a.b, a.i)
  {
  }

  /** Every page marked used is the reserved one, or lies in the root block, a slab or a live allocation. */
  lemma UsedPageKnown(h: Heap, q: nat) returns (a: nat)
    requires PagesOk(h.pages) && RunsKnown(h) && 0 < q < PAGES && h.pages.used[q]
    ensures BlockKnown(h, a) && a <= PageAddr(h, q) && (a - h.first) % PAGE_SIZE == 0 && h.first <= a
    ensures PageAddr(h, q) < a + h.pages.counts[(a - h.first) / PAGE_SIZE] * PAGE_SIZE
  {
    var r :| 0 <= r < PAGES && InRun(h.pages.counts, r, q);
    a := PageAddr(h, r);
    RunAddrs(h.first, r, q, h.pages.counts[r]);
  }

  lemma RunAddrs(first: nat, r: nat, q: nat, n: nat)
    requires r <= q < r + n
    ensures var a := r * PAGE_SIZE + first;
            a <= q * PAGE_SIZE + first < a + n * PAGE_SIZE && (a - first) % PAGE_SIZE == 0 && (a - first) / PAGE_SIZE == r
  {
    PageStart(r, r * PAGE_SIZE);
  }

  lemma PageStart(r: nat, x: nat)
    requires x == r * PAGE_SIZE
    ensures x % PAGE_SIZE == 0 && x / PAGE_SIZE == r
  {
  }
}

/** The page allocator: a bitmap of used pages and, for the first page of every run, the length
    of the run. */
module PageAlloc {
  import opened Bytes
  import opened Bits

  const PAGE_SIZE := 4096
  const BITMAP_SIZE := 960
  const PAGES := 8 * BITMAP_SIZE
  const NULL := 0

  /** Sizes whose page count fits the program's `int`. */
  const MAX_SIZE := 0x7FFF_FFFF * PAGE_SIZE

  datatype Pages = Pages(used: seq<bool>, counts: seq<nat>)

  function PagesFor(size: nat): (n: nat)
    ensures n >= 1 && (size > 0 ==> (n - 1) * 4096 < size <= n * 4096)
  {
    if size < PAGE_SIZE then 1 else (size + PAGE_SIZE - 1) / PAGE_SIZE
  }

  // ----- first fit

  predicate FreeRun(used: seq<bool>, i: nat, n: nat) {
    i + n <= |used| && forall j :: i <= j < i + n ==> !used[j]
  }

  /** The lowest start from `i` on of `n` consecutive free pages, or -1. */
  function FirstFit(used: seq<bool>, n: nat, i: nat): (r: int)
    requires i <= |used|
    ensures r >= 0 ==> i <= r <= |used| && FreeRun(used, r, n) && forall k :: i <= k < r ==> !FreeRun(used, k, n)
    ensures r < 0 ==> r == -1 && forall k :: i <= k <= |used| ==> !FreeRun(used, k, n)
    decreases |used| - i
  {
    if FreeRun(used, i, n) then i else if i == |used| then -1 else FirstFit(used, n, i + 1)
  }

  /** A run of free pages that ends before page `p` and is too short cannot be extended to the left. */
  lemma FirstFitUnique(used: seq<bool>, n: nat, r: nat)
    requires FreeRun(used, r, n) && forall k :: 0 <= k < r ==> !FreeRun(used, k, n)
    ensures FirstFit(used, n, 0) == r
  {
  }

  /** After `p` pages no run of `n` was found, and the last `len` of them are free. */
  ghost predicate Scanned(used: seq<bool>, n: nat, p: nat, len: nat) {
    && len <= p <= |used| && (forall j :: p - len <= j < p ==> !used[j]) && (len < p ==> used[p - len - 1])
    && (forall k :: 0 <= k <= p - n ==> !FreeRun(used, k, n))
  }

  lemma ScanStep(used: seq<bool>, n: nat, p: nat, len: nat)
    requires Scanned(used, n, p, len) && p < |used| && len < n
    ensures used[p] ==> Scanned(used, n, p + 1, 0)
    ensures !used[p] && len + 1 < n ==> Scanned(used, n, p + 1, len + 1)
    ensures !used[p] && len + 1 == n ==> FirstFit(used, n, 0) == p - len
  {
    if used[p] {
      RunTooShort(used, p + 1, 0, n);
    } else if len + 1 < n {
      RunTooShort(used, p + 1, len + 1, n);
    } else {
      FirstFitUnique(used, n, p - len);
    }
  }

  lemma ScanEnds(used: seq<bool>, n: nat, len: nat)
    requires Scanned(used, n, |used|, len) && n > 0
    ensures FirstFit(used, n, 0) == -1
  {
    assert forall k :: 0 <= k <= |used| ==> !FreeRun(used, k, n);
  }

  lemma RunTooShort(used: seq<bool>, p: nat, len: nat, n: nat)
    requires 0 < p <= |used| && len <= p && len < n && (len < p ==> used[p - len - 1])
    requires forall k :: 0 <= k <= p - 1 - n ==> !FreeRun(used, k, n)
    ensures forall k :: 0 <= k <= p - n ==> !FreeRun(used, k, n)
  {
    forall k | 0 <= k <= p - n ensures !FreeRun(used, k, n) {
      if k == p - n { assert k <= p - len - 1 < k + n; }
    }
  }

  // ----- the operations on values

  function Mark(used: seq<bool>, lo: nat, hi: nat, v: bool): (r: seq<bool>)
    ensures |r| == |used|
  {
    seq(|used|, i requires 0 <= i < |used| => if lo <= i < hi then v else used[i])
  }

  function Take(st: Pages, r: nat, n: nat): Pages
    requires r < |st.counts|
  {
    Pages(Mark(st.used, r, r + n, true), st.counts[r := n])
  }

  /** Keeps the first `n` pages of the run at `p`; `n == 0` frees the whole run. */
  function Shrink(st: Pages, p: nat, n: nat): Pages
    requires p < |st.counts|
  {
    Pages(Mark(st.used, p + n, p + st.counts[p], false), st.counts[p := n])
  }

  // ----- the invariant

  predicate InRun(counts: seq<nat>, r: nat, p: nat)
    requires r < |counts|
  {
    r <= p < r + counts[r]
  }

  ghost predicate Covered(counts: seq<nat>, p: nat) {
    exists r :: 0 <= r < |counts| && InRun(counts, r, p)
  }

  ghost predicate RunsDisjoint(counts: seq<nat>) {
    && |counts| == PAGES && counts[0] == 0
    && (forall r :: 0 <= r < PAGES ==> r + counts[r] <= PAGES)
    && (forall r, q :: 0 <= r < q < PAGES && InRun(counts, r, q) ==> counts[q] == 0)
  }

  /** The set bits are the reserved page 0 and the disjoint union of the recorded runs. */
  ghost predicate PagesOk(st: Pages) {
    && |st.used| == PAGES && RunsDisjoint(st.counts)
    && (forall p :: 0 <= p < PAGES ==> (st.used[p] <==> p == 0 || Covered(st.counts, p)))
  }

  lemma TakeKeepsOk(st: Pages, r: nat, n: nat)
    requires PagesOk(st) && n > 0 && FreeRun(st.used, r, n)
    ensures r > 0 && r < PAGES && PagesOk(Take(st, r, n))
  {
    var counts := st.counts[r := n];
    assert !st.used[r];
    assert !InRun(st.counts, r, r);
    forall a, q | 0 <= a < q < PAGES && InRun(counts, a, q) ensures counts[q] == 0 {
      if a == r {
        assert !st.used[q];
        assert !InRun(st.counts, q, q);
      } else {
        assert InRun(st.counts, a, q) && Covered(st.counts, q);
        assert st.used[q];
      }
    }
    forall p | 0 <= p < PAGES ensures Take(st, r, n).used[p] <==> p == 0 || Covered(counts, p) {
      if r <= p < r + n {
        assert InRun(counts, r, p);
      } else {
        SameCover(st.counts, r, n, p);
      }
    }
  }

  /** A run that starts at a page not recorded before covers only its own pages anew. */
  lemma SameCover(counts: seq<nat>, r: nat, n: nat, p: nat)
    requires r < |counts| && !InRun(counts, r, p) && !(r <= p < r + n)
    ensures Covered(counts[r := n], p) <==> Covered(counts, p)
  {
    if Covered(counts, p) {
      var a :| 0 <= a < |counts| && InRun(counts, a, p);
      assert InRun(counts[r := n], a, p);
    }
    if Covered(counts[r := n], p) {
      var a :| 0 <= a < |counts| && InRun(counts[r := n], a, p);
      assert InRun(counts, a, p);
    }
  }

  lemma ShrinkKeepsOk(st: Pages, p: nat, n: nat)
    requires PagesOk(st) && p < PAGES && n <= st.counts[p]
    ensures PagesOk(Shrink(st, p, n))
  {
    var counts := st.counts[p := n];
    forall a, q | 0 <= a < q < PAGES && InRun(counts, a, q) ensures counts[q] == 0 {
      assert InRun(st.counts, a, q);
    }
    forall q | 0 <= q < PAGES ensures Shrink(st, p, n).used[q] <==> q == 0 || Covered(counts, q) {
      if p <= q < p + n {
        assert InRun(counts, p, q) && InRun(st.counts, p, q);
      } else if p + n <= q < p + st.counts[p] {
        if Covered(counts, q) {
          var a :| 0 <= a < |counts| && InRun(counts, a, q);
          OneRun(st.counts, a, p, q);
          assert false;
        }
      } else {
        SameCover(st.counts, p, n, q);
      }
    }
  }

  /** A page lies in at most one run. */
  lemma OneRun(counts: seq<nat>, a: nat, b: nat, q: nat)
    requires RunsDisjoint(counts) && a < PAGES && b < PAGES && InRun(counts, a, q) && InRun(counts, b, q)
    ensures a == b
  {
    if a < b { assert InRun(counts, a, b); }
    if b < a { assert InRun(counts, b, a); }
  }

  // ----- conservation

  function SumFrom(counts: seq<nat>, i: nat): nat
    requires i <= |counts|
    decreases |counts| - i
  {
    if i == |counts| then 0 else counts[i] + SumFrom(counts, i + 1)
  }

  /** No run reaches from before `p` beyond it. */
  ghost predicate Boundary(counts: seq<nat>, p: nat) {
    forall r :: 0 <= r < |counts| && r < p ==> r + counts[r] <= p
  }

  lemma {:induction false} TailConservation(st: Pages, p: nat)
    requires PagesOk(st) && 1 <= p <= PAGES && Boundary(st.counts, p)
    ensures ClearFrom(st.used, p) + SumFrom(st.counts, p) == PAGES - p
    decreases PAGES - p
  {
    if p < PAGES {
      var c := st.counts[p];
      if c == 0 {
        assert !Covered(st.counts, p);
        TailConservation(st, p + 1);
      } else {
        forall q | p <= q < p + c ensures st.used[q] && (q > p ==> st.counts[q] == 0) {
          assert InRun(st.counts, p, q);
        }
        SkipRun(st, p, p + c);
        TailConservation(st, p + c);
      }
    }
  }

  lemma {:induction false} SkipRun(st: Pages, p: nat, e: nat)
    requires |st.used| == |st.counts| && p < e <= |st.used|
    requires forall q :: p <= q < e ==> st.used[q] && (q > p ==> st.counts[q] == 0)
    ensures ClearFrom(st.used, p) == ClearFrom(st.used, e)
    ensures SumFrom(st.counts, p) == st.counts[p] + SumFrom(st.counts, e)
    decreases e - p
  {
    if p + 1 < e { SkipRun(st, p + 1, e); }
  }

  /** Free pages, the lengths of all runs and the reserved page add up to all pages. */
  lemma Conservation(st: Pages)
    requires PagesOk(st)
    ensures ClearFrom(st.used, 0) + SumFrom(st.counts, 0) + 1 == 7680
  {
    TailConservation(st, 1);
  }

  // ----- whole calls on values; the result is a page number, or -1 for a null pointer

  function Kalloc(st: Pages, size: nat): (r: (Pages, int))
    requires |st.used| == |st.counts|
    ensures |r.0.used| == |r.0.counts| == |st.counts|
  {
    var n := PagesFor(size);
    var p := FirstFit(st.used, n, 0);
    if size == 0 || p < 0 || p >= |st.counts| then (st, -1) else (Take(st, p, n), p)
  }

  function Free(st: Pages, p: nat): Pages
    requires p < |st.counts|
  {
    Shrink(st, p, 0)
  }

  /** The page count of a resized block is kept in 16 bits. */
  function Pages16(size: nat): nat { PagesFor(size) % 0x1_0000 }

  function Krealloc(st: Pages, p: nat, size: nat): (r: (Pages, int))
    requires |st.used| == |st.counts| && p < |st.counts|
    ensures |r.0.used| == |r.0.counts| == |st.counts|
  {
    if size == 0 then (Free(st, p), -1)
    else if Pages16(size) <= st.counts[p] then (Shrink(st, p, Pages16(size)), p)
    else
      var (st', q) := Kalloc(st, size);
      if q < 0 then (st', -1) else (Free(st', p), q)
  }

  /** Pages `p` to `p + n` are marked and recorded as one run; every other bit and count is as before. */
  ghost predicate RunTaken(st: Pages, st': Pages, p: nat, n: nat) {
    && |st'.used| == |st.used| && |st'.counts| == |st.counts|
    && (forall i :: 0 <= i < |st.used| ==> st'.used[i] == (st.used[i] || p <= i < p + n))
    && (forall i :: 0 <= i < |st.counts| ==> st'.counts[i] == if i == p then n else st.counts[i])
  }

  /** The run at `p` is cut to its first `n` pages, none of them being the end of the run; every other bit and count is
      as before. */
  ghost predicate RunCut(st: Pages, st': Pages, p: nat, n: nat) {
    && |st'.used| == |st.used| && |st'.counts| == |st.counts| && p < |st.counts|
    && (forall i :: 0 <= i < |st.used| ==> st'.used[i] == (st.used[i] && !(p + n <= i < p + st.counts[p])))
    && (forall i :: 0 <= i < |st.counts| ==> st'.counts[i] == if i == p then n else st.counts[i])
  }

  /** What an allocation comes to, for the page `p` that it returns. */
  ghost predicate Granted(st: Pages, st': Pages, p: int, size: nat) {
    var n := PagesFor(size);
    && (size == 0 ==> p < 0)
    && (p >= 0 ==> FreeRun(st.used, p, n) && (forall k :: 0 <= k < p ==> !FreeRun(st.used, k, n)) && RunTaken(st, st', p, n))
    && (p < 0 ==> p == -1 && st' == st)
    && (p < 0 && size > 0 ==> forall k :: 0 <= k ==> !FreeRun(st.used, k, n))
  }

  /** First fit, complete: the lowest run of enough free pages is taken and nothing else is
      touched; there is no result only when no such run exists anywhere, or nothing is asked for. */
  lemma KallocLaw(st: Pages, size: nat)
    requires PagesOk(st)
    ensures var (st', p) := Kalloc(st, size); PagesOk(st') && Granted(st, st', p, size)
  {
    var n := PagesFor(size);
    var p := FirstFit(st.used, n, 0);
    if p >= 0 { TakeKeepsOk(st, p, n); }
  }

  /** Releasing a page gives back exactly the run that starts there, if there is one. */
  lemma ReleaseLaw(st: Pages, p: nat)
    requires PagesOk(st) && p < PAGES
    ensures PagesOk(Free(st, p)) && RunCut(st, Free(st, p), p, 0)
  {
    ShrinkKeepsOk(st, p, 0);
  }

  /** A move: the new run is recorded, the old one is gone, and its pages are free again; every other bit and count is as
      before. When first fit picks the page itself, which was free, no run is left. */
  ghost predicate RunMoved(st: Pages, st': Pages, p: nat, q: nat, n: nat) {
    && |st'.used| == |st.used| && |st'.counts| == |st.counts| && p < |st.counts| && q < |st.counts|
    && (forall i :: 0 <= i < |st.used| ==>
          st'.used[i] == ((p != q && q <= i < q + n) || (st.used[i] && !(p <= i < p + st.counts[p]))))
    && (forall i :: 0 <= i < |st.counts| ==> st'.counts[i] == if i == p then 0 else if i == q then n else st.counts[i])
  }

  /** What a resize of page `p` comes to, for the page `q` that it returns. */
  ghost predicate Resized(st: Pages, st': Pages, p: nat, size: nat, q: int)
    requires p < |st.counts|
  {
    var n := PagesFor(size);
    && (size == 0 ==> q == -1 && RunCut(st, st', p, 0))
    && (size > 0 && n % 0x1_0000 <= st.counts[p] ==> q == p && RunCut(st, st', p, n % 0x1_0000))
    && (size > 0 && n % 0x1_0000 > st.counts[p] ==>
          if forall k :: 0 <= k ==> !FreeRun(st.used, k, n) then q == -1 && st' == st
          else 0 <= q < PAGES && FreeRun(st.used, q, n) && (forall k :: 0 <= k < q ==> !FreeRun(st.used, k, n))
               && RunMoved(st, st', p, q, n))
  }

  /** Resizing, the whole state: size 0 gives back exactly the run; a run that is long enough is cut; otherwise the block
      moves to the lowest run of enough free pages, and where there is none nothing changes. */
  lemma KreallocLaw(st: Pages, p: nat, size: nat)
    requires PagesOk(st) && p < PAGES
    ensures var (st', q) := Krealloc(st, p, size); Resized(st, st', p, size, q)
  {
    if size > 0 && Pages16(size) > st.counts[p] {
      KallocLaw(st, size);
      var (st', q) := Kalloc(st, size);
      if q >= 0 { MoveLaw(st, st', p, q, PagesFor(size)); }
    }
  }

  lemma MoveLaw(st: Pages, st1: Pages, p: nat, q: nat, n: nat)
    requires PagesOk(st) && p < PAGES && n > 0 && FreeRun(st.used, q, n) && RunTaken(st, st1, q, n)
    ensures RunMoved(st, Free(st1, p), p, q, n)
  {
    if p == q {
      assert !st.used[p];
      assert !InRun(st.counts, p, p);
    } else {
      var st' := Free(st1, p);
      forall i | 0 <= i < |st.used| && p <= i < p + st.counts[p] ensures st.used[i] {
        assert InRun(st.counts, p, i) && Covered(st.counts, i);
      }
      forall i | 0 <= i < |st.used|
        ensures st'.used[i] == ((q <= i < q + n) || (st.used[i] && !(p <= i < p + st.counts[p])))
      {
        if q <= i < q + n { assert !st.used[i]; }
      }
    }
  }

  lemma KreallocKeepsOk(st: Pages, p: nat, size: nat)
    requires PagesOk(st) && p < PAGES
    ensures PagesOk(Krealloc(st, p, size).0)
  {
    if size == 0 {
      ShrinkKeepsOk(st, p, 0);
    } else if Pages16(size) <= st.counts[p] {
      ShrinkKeepsOk(st, p, Pages16(size));
    } else {
      KallocLaw(st, size);
      ShrinkKeepsOk(Kalloc(st, size).0, p, 0);
    }
  }

  /** For instance, a block of one page resized to 65537 pages stays one page long. */
  lemma KreallocWraps(st: Pages, p: nat)
    requires PagesOk(st) && p < PAGES && st.counts[p] == 1
    ensures var size := 0x1_0001 * PAGE_SIZE;
            PagesFor(size) == 0x1_0001 && Krealloc(st, p, size).1 == p && Krealloc(st, p, size).0.counts[p] == 1
  {
    assert Pages16(0x1_0001 * PAGE_SIZE) == 1;
  }

  /** And resizing the lowest page of a pool that was never used to one byte returns that page, which is free again. */
  lemma KreallocReleasesItself()
    ensures var (st, q) := Krealloc(Fresh(), 1, 1); PagesFor(1) == 1 && q == 1 && st.counts[1] == 0 && !st.used[1]
  {
    FreshOk();
    KallocLaw(Fresh(), 1);
    assert !FreeRun(Fresh().used, 0, 1) && FreeRun(Fresh().used, 1, 1);
    FirstFitUnique(Fresh().used, 1, 1);
  }

  /** A resized block really has the pages asked for, with two exceptions.  When the page count
      does not fit in 16 bits and its remainder is no larger than the old count, the block is cut
      to that remainder although far more was asked for.  And when the address was already free
      and first fit picks that very page, the new block is released at once. */
  lemma KreallocSize(st: Pages, p: nat, size: nat)
    requires PagesOk(st) && p < PAGES && size > 0 && Krealloc(st, p, size).1 >= 0
    ensures var (st', q) := Krealloc(st, p, size);
            q < PAGES && (st'.counts[q] == PagesFor(size)
              <==> !(PagesFor(size) >= 0x1_0000 && Pages16(size) <= st.counts[p])
                   && !(st.counts[p] == 0 && FirstFit(st.used, PagesFor(size), 0) == p))
  {
    KallocLaw(st, size);
    if Pages16(size) > st.counts[p] {
      var q := Kalloc(st, size).1;
      if q == p {
        assert !st.used[p];
        assert !InRun(st.counts, p, p);
      }
    } else if st.counts[p] > 0 {
      assert InRun(st.counts, p, p) && st.used[p];
    }
  }

  datatype Op = Alloc(size: nat) | Resize(page: nat, size: nat) | Release(page: nat)

  /** Any call on any page of the pool: first page of a run, interior page, or free page. */
  function Apply(st: Pages, op: Op): (r: Pages)
    requires |st.used| == |st.counts|
    ensures |r.used| == |r.counts| == |st.counts|
  {
    match op
    case Alloc(size) => Kalloc(st, size).0
    case Resize(p, size) => if p < |st.counts| then Krealloc(st, p, size).0 else st
    case Release(p) => if p < |st.counts| then Free(st, p) else st
  }

  function Fresh(): (st: Pages)
    ensures |st.used| == |st.counts| == PAGES
  {
    Pages(seq(PAGES, i => i == 0), seq(PAGES, i => 0))
  }

  lemma FreshOk()
    ensures PagesOk(Fresh())
  {
    assert forall p :: 0 <= p < PAGES ==> !Covered(Fresh().counts, p);
  }

  /** Whatever is called in whatever order, the bitmap stays the disjoint union of the runs and
      no page is lost. */
  lemma {:induction false} EveryRunOk(ops: seq<Op>)
    ensures var st := After(ops); PagesOk(st) && ClearFrom(st.used, 0) + SumFrom(st.counts, 0) + 1 == PAGES
  {
    if ops == [] {
      FreshOk();
    } else {
      EveryRunOk(ops[..|ops| - 1]);
      var pre := After(ops[..|ops| - 1]);
      match ops[|ops| - 1] {
        case Alloc(size) => if size > 0 { KallocLaw(pre, size); }
        case Resize(p, size) => if p < PAGES { KreallocKeepsOk(pre, p, size); }
        case Release(p) => if p < PAGES { ShrinkKeepsOk(pre, p, 0); }
      }
    }
    Conservation(After(ops));
  }

  function After(ops: seq<Op>): (st: Pages)
    ensures |st.used| == |st.counts| == PAGES
  {
    if ops == [] then Fresh() else Apply(After(ops[..|ops| - 1]), ops[|ops| - 1])
  }

  /** In every run every call takes effect: an allocation takes the lowest run of enough free pages, if there is one, a
      release gives back the run of its page, and a resize does one or the other or both. */
  ghost predicate Effective(st: Pages, st': Pages, op: Op) {
    match op
    case Alloc(size) => exists q :: Granted(st, st', q, size)
    case Resize(p, size) => p < |st.counts| ==> exists q :: Resized(st, st', p, size, q)
    case Release(p) => p < |st.counts| ==> RunCut(st, st', p, 0)
  }

  lemma EveryCallEffective(ops: seq<Op>, op: Op)
    ensures Effective(After(ops), After(ops + [op]), op)
  {
    EveryRunOk(ops);
    var st := After(ops);
    assert (ops + [op])[..|ops|] == ops;
    match op {
      case Alloc(size) => KallocLaw(st, size); assert Granted(st, Kalloc(st, size).0, Kalloc(st, size).1, size);
      case Resize(p, size) =>
        if p < PAGES { KreallocLaw(st, p, size); assert Resized(st, Krealloc(st, p, size).0, p, size, Krealloc(st, p, size).1); }
      case Release(p) => if p < PAGES { ReleaseLaw(st, p); }
    }
  }

  // ----- the program

  class PageAllocator {
    const first: nat
    const bitmap: array<bv8>
    const counts: array<nat>
    /** The pool, byte by byte, and the page behind it, which an unaligned copy may reach. */
    const mem: array<Byte>

    ghost predicate Valid()
      reads this, bitmap, counts
    {
      && first > 0 && first % PAGE_SIZE == 0
      && bitmap.Length == BITMAP_SIZE && counts.Length == PAGES && mem.Length == (PAGES + 1) * PAGE_SIZE
    }

    ghost function State(): (st: Pages)
      requires Valid()
      reads this, bitmap, counts
      ensures |st.used| == |st.counts| == PAGES
    {
      Pages(BitsOf(bitmap[..], false), counts[..])
    }

    predicate InPool(addr: nat) {
      first <= addr < first + PAGES * PAGE_SIZE
    }

    function PageOf(addr: nat): (p: nat)
      requires InPool(addr)
      ensures p < PAGES
    {
      (addr - first) / PAGE_SIZE
    }

    function AddrOf(p: int): (addr: nat) {
      if p < 0 then NULL else p * PAGE_SIZE + first
    }

    /** Pages and their addresses: the pages lie side by side from the first address of the pool on. */
    lemma PageAddresses(p: nat, off: nat)
      requires p < PAGES && off < PAGE_SIZE
      ensures AddrOf(0) == first && (p + 1 < PAGES ==> AddrOf(p + 1) == AddrOf(p) + 4096)
      ensures InPool(AddrOf(p) + off) && PageOf(AddrOf(p) + off) == p
    {
      var x := p * PAGE_SIZE + off;
      assert AddrOf(p) + off - first == x;
      assert x / PAGE_SIZE == p;
    }

    constructor (endKernel: nat)
      requires endKernel > 0
      ensures Valid() && fresh(bitmap) && fresh(counts) && fresh(mem)
      ensures endKernel <= first < endKernel + PAGE_SIZE
      ensures State() == Fresh() && PagesOk(State())
    {
      first := (endKernel + PAGE_SIZE - 1) / PAGE_SIZE * PAGE_SIZE;
      bitmap := new bv8[BITMAP_SIZE];
      counts := new nat[PAGES];
      mem := new Byte[(PAGES + 1) * PAGE_SIZE];
      new;
      for i := 0 to BITMAP_SIZE
        invariant forall k :: 0 <= k < i ==> bitmap[k] == 0
      {
        bitmap[i] := 0;
      }
      for i := 0 to PAGES
        invariant forall k :: 0 <= k < i ==> counts[k] == 0
        invariant forall k :: 0 <= k < BITMAP_SIZE ==> bitmap[k] == 0
      {
        counts[i] := 0;
      }
      ghost var zero := bitmap[..];
      ZeroBits(zero);
      SetUpdates(zero, false, 0);
      bitmap[0] := SetBit(bitmap[0], 0);
      assert bitmap[..] == zero[0 := SetBit(zero[0], Place(false, 0))];
      assert State().used == Fresh().used;
      assert State().counts == Fresh().counts;
      FreshOk();
    }

    method IsFree(p: nat) returns (b: bool)
      requires Valid() && p < PAGES
      ensures b == !State().used[p]
    {
      b := !Bit(bitmap[p / 8], p % 8);
    }

    /** Sets or clears the bits of the pages from `lo` to `hi`. */
    method MarkRange(lo: nat, hi: nat, v: bool)
      requires Valid() && lo <= hi <= PAGES
      modifies bitmap
      ensures Valid() && State() == old(State()).(used := Mark(old(State()).used, lo, hi, v))
    {
      ghost var was := State().used;
      for i := lo to hi
        invariant State().used == Mark(was, lo, i, v) && State().counts == old(State()).counts
      {
        ghost var s := bitmap[..];
        if v {
          SetUpdates(s, false, i);
          bitmap[i / 8] := SetBit(bitmap[i / 8], i % 8);
          assert bitmap[..] == s[i / 8 := SetBit(s[i / 8], Place(false, i))];
        } else {
          ClearUpdates(s, false, i);
          bitmap[i / 8] := ClearBit(bitmap[i / 8], i % 8);
          assert bitmap[..] == s[i / 8 := ClearBit(s[i / 8], Place(false, i))];
        }
        assert Mark(was, lo, i + 1, v) == Mark(was, lo, i, v)[i := v];
      }
    }

    /** The scan that keeps the start and length of the current run of free pages. */
    method FindRun(n: nat) returns (r: int)
      requires Valid() && n > 0
      ensures r == FirstFit(State().used, n, 0)
    {
      ghost var used := State().used;
      var runStart, runLen := 0, 0;
      for p := 0 to PAGES
        invariant Scanned(used, n, p, runLen) && runLen < n
        invariant runLen > 0 ==> runStart == p - runLen
      {
        var free := IsFree(p);
        ScanStep(used, n, p, runLen);
        if free {
          if runLen == 0 { runStart := p; }
          runLen := runLen + 1;
          if runLen == n {
            return runStart;
          }
        } else {
          runLen := 0;
        }
      }
      ScanEnds(used, n, runLen);
      return -1;
    }

    method Alloc(size: nat) returns (addr: nat)
      requires Valid() && PagesOk(State()) && size <= MAX_SIZE
      modifies bitmap, counts
      ensures Valid() && PagesOk(State())
      ensures State() == Kalloc(old(State()), size).0 && addr == AddrOf(Kalloc(old(State()), size).1)
    {
      if size == 0 { return NULL; }
      KallocLaw(State(), size);
      var n := if size < PAGE_SIZE then 1 else (size + PAGE_SIZE - 1) / PAGE_SIZE;
      var r := FindRun(n);
      if r < 0 { return NULL; }
      MarkRange(r, r + n, true);
      counts[r] := n;
      return r * PAGE_SIZE + first;
    }

    /** Accepts any address; outside the pool nothing happens. */
    method PageFree(addr: nat)
      requires Valid() && PagesOk(State())
      modifies bitmap, counts
      ensures Valid() && PagesOk(State())
      ensures State() == if InPool(addr) then Free(old(State()), PageOf(addr)) else old(State())
    {
      if first <= addr && addr < first + PAGES * PAGE_SIZE {
        var p := (addr - first) / PAGE_SIZE;
        ShrinkKeepsOk(State(), p, 0);
        var count := counts[p];
        MarkRange(p, p + count, false);
        counts[p] := 0;
      }
    }

    /** The forward byte copy: every source byte that lies before the destination, or behind it, is copied as it was. */
    method Copy(dst: nat, src: nat, n: nat)
      requires Valid() && dst + n <= mem.Length && src + n <= mem.Length
      modifies mem
      ensures SameOutside(mem[..], old(mem[..]), dst, n)
      ensures Copied(old(mem[..]), mem[..], dst, src, n)
    {
      ghost var was := mem[..];
      for k := 0 to n
        invariant SameOutside(mem[..], was, dst, k)
        invariant Copied(was, mem[..], dst, src, k)
      {
        assert src + k < dst || dst <= src ==> mem[..][src + k] == was[src + k];
        mem[dst + k] := mem[src + k];
      }
    }

    /** Copies `n` pages from any address of the pool to the page `q`, which lies outside the `n` pages at that address. */
    method CopyPages(ghost q: nat, dst: nat, src: nat, n: nat)
      requires Valid() && dst == AddrOf(q) && InPool(src) && q + n <= PAGES && PageOf(src) + n <= PAGES
      requires n == 0 || q + n <= PageOf(src) || PageOf(src) + n <= q
      modifies mem
      ensures Carried(old(mem[..]), mem[..], q, src - first, (PageOf(src) + n) * PAGE_SIZE, n)
    {
      ghost var was, p, off := mem[..], PageOf(src), (src - first) % PAGE_SIZE;
      assert src - first == p * PAGE_SIZE + off && dst - first == q * PAGE_SIZE;
      Copy(dst - first, src - first, n * PAGE_SIZE);
      CarriedBytes(was, mem[..], q, p, off, n);
    }

    /** Resizes the block at an address of the pool: shrinking stays in place, growing moves.
        Without room the old block is kept. */
    method Resize(addr: nat, size: nat) returns (r: nat)
      requires Valid() && PagesOk(State()) && InPool(addr) && size <= MAX_SIZE
      modifies bitmap, counts, mem
      ensures Valid() && PagesOk(State())
      ensures State() == Krealloc(old(State()), PageOf(addr), size).0
      ensures r == if size > 0 && Pages16(size) <= old(State()).counts[PageOf(addr)] then addr
                   else AddrOf(Krealloc(old(State()), PageOf(addr), size).1)
      ensures Moved(old(State()), old(mem[..]), mem[..], PageOf(addr), addr - first, size)
    {
      if size == 0 {
        PageFree(addr);
        return NULL;
      }
      var p := (addr - first) / PAGE_SIZE;
      var newPages := Pages16(size);
      if newPages <= counts[p] {
        ShrinkTo(p, newPages);
        return addr;
      }
      r := Grow(addr, size);
    }

    method ShrinkTo(p: nat, n: nat)
      requires Valid() && PagesOk(State()) && p < PAGES && n <= State().counts[p]
      modifies bitmap, counts
      ensures Valid() && PagesOk(State()) && State() == Shrink(old(State()), p, n)
    {
      ShrinkKeepsOk(State(), p, n);
      MarkRange(p + n, p + counts[p], false);
      counts[p] := n;
    }

    /** Allocates a new block, copies the old pages and frees the old block. */
    method Grow(addr: nat, size: nat) returns (r: nat)
      requires Valid() && PagesOk(State()) && InPool(addr) && 0 < size <= MAX_SIZE
      requires Pages16(size) > State().counts[PageOf(addr)]
      modifies bitmap, counts, mem
      ensures Valid() && PagesOk(State())
      ensures r == AddrOf(Kalloc(old(State()), size).1)
      ensures State() == if r == NULL then old(State()) else Free(Kalloc(old(State()), size).0, PageOf(addr))
      ensures Moved(old(State()), old(mem[..]), mem[..], PageOf(addr), addr - first, size)
    {
      ghost var st, p := State(), PageOf(addr);
      var oldPages := counts[(addr - first) / PAGE_SIZE];
      KallocLaw(st, size);
      r := Alloc(size);
      if r == NULL { return NULL; }
      RunApart(st, p, Kalloc(st, size).1, PagesFor(size));
      CopyPages(Kalloc(st, size).1, r, addr, oldPages);
      PageFree(addr);
    }
  }

  predicate SameOutside(now: seq<Byte>, was: seq<Byte>, lo: nat, n: nat) {
    |now| == |was| && forall i :: 0 <= i < |now| && !(lo <= i < lo + n) ==> now[i] == was[i]
  }

  /** The bytes at `dst` are the old ones from `src` on, as far as those lie before `dst`, or all if they lie behind it. */
  ghost predicate Copied(was: seq<Byte>, now: seq<Byte>, dst: nat, src: nat, n: nat) {
    && dst + n <= |now| && src + n <= |was|
    && forall i :: dst <= i < dst + n && (i - dst + src < dst || dst <= src) ==> now[i] == was[i - dst + src]
  }

  /** Only the `n` pages from page `q` on have changed, and they start with the old bytes from `src` up to `end`. */
  ghost predicate Carried(was: seq<Byte>, now: seq<Byte>, q: nat, src: nat, end: nat, n: nat) {
    && SameOutside(now, was, q * PAGE_SIZE, n * PAGE_SIZE)
    && (n > 0 ==> src <= end <= |was| && q * PAGE_SIZE + (end - src) <= |now|
                  && now[q * PAGE_SIZE..q * PAGE_SIZE + (end - src)] == was[src..end])
  }

  /** The source address may lie anywhere in its first page; the pages copied to may follow the source at once. */
  lemma CarriedBytes(was: seq<Byte>, now: seq<Byte>, q: nat, p: nat, off: nat, n: nat)
    requires |was| == (PAGES + 1) * PAGE_SIZE && off < PAGE_SIZE && q + n <= PAGES && p + n <= PAGES
    requires n == 0 || q + n <= p || p + n <= q
    requires SameOutside(now, was, q * PAGE_SIZE, n * PAGE_SIZE)
    requires Copied(was, now, q * PAGE_SIZE, p * PAGE_SIZE + off, n * PAGE_SIZE)
    ensures Carried(was, now, q, p * PAGE_SIZE + off, (p + n) * PAGE_SIZE, n)
  {
    var src, dst, end := p * PAGE_SIZE + off, q * PAGE_SIZE, (p + n) * PAGE_SIZE;
    if n > 0 {
      forall k | 0 <= k < end - src ensures now[dst..dst + (end - src)][k] == was[src..end][k] {
        var i := dst + k;
        assert now[i] == was[i - dst + src];
      }
    }
  }

  /** What resizing the run at page `p`, from the address at offset `src` of the pool, does to memory: nothing, unless
      the block moves; then only the new block changes, and it starts with the old bytes from that address to the end
      of the run. */
  ghost predicate Moved(st: Pages, was: seq<Byte>, now: seq<Byte>, p: nat, src: nat, size: nat)
    requires PagesOk(st) && p < PAGES
  {
    var q, n := Kalloc(st, size).1, st.counts[p];
    if size == 0 || Pages16(size) <= n || q < 0 then now == was
    else q + n <= PAGES && Carried(was, now, q, src, (p + n) * PAGE_SIZE, n)
  }

  /** Free pages lie before or behind every recorded run. */
  lemma RunApart(st: Pages, p: nat, q: nat, n: nat)
    requires PagesOk(st) && p < PAGES && n > 0 && FreeRun(st.used, q, n)
    ensures q + n <= p || p + st.counts[p] <= q || st.counts[p] == 0
  {
    if st.counts[p] > 0 && q < p + st.counts[p] && p < q + n {
      var x := if p < q then q else p;
      assert InRun(st.counts, p, x) ==> Covered(st.counts, x);
    }
  }

  lemma ZeroBits(s: seq<bv8>)
    requires forall k :: 0 <= k < |s| ==> s[k] == 0
    ensures forall n :: 0 <= n < 8 * |s| ==> !BitsOf(s, false)[n]
  {
    forall n | 0 <= n < 8 * |s| ensures !BitsOf(s, false)[n] {
      ZeroHasNoBits(n % 8);
    }
  }

  lemma ZeroHasNoBits(i: nat)
    requires i < 8
    ensures !Bit(0, i)
  {
  }
}

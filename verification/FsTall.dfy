/** A run that makes a directory of thirteen blocks, empties it and removes it, and so leaves blocks marked that nobody owns. */
module FsTall {
  import opened Bytes
  import opened Bits
  import opened Names
  import opened FsModel
  import opened FsWrite
  import opened FsDir
  import opened FsTree
  import opened FsOps
  import opened FsRemove
  import opened FsRun
  import opened FsStale
  import opened FsReach

  // ----- names of two characters

  const NAMES: nat := 1296

  function Name2(k: nat): (s: seq<Byte>)
    requires k < NAMES
    ensures |s| == 2 && Plain1(s[0]) && Plain1(s[1])
  {
    [NameChar(k / 36), NameChar(k % 36)]
  }

  function Key2(k: nat): Key
    requires k < NAMES
  {
    Name2(k) + Spaces(9)
  }

  lemma PairName(s: seq<Byte>)
    requires |s| == 2 && Plain1(s[0]) && Plain1(s[1])
    ensures Text(s) && Regular(s) && Searchable(s) && !Dotted(s)
    ensures Stored(s) == s + Spaces(9) && Searched(s) == s + Spaces(9) && Searched(Stored(s)) == Stored(s)
  {
    DotAtIs(s, 2);
    assert Upper(s) == s;
    StoredIs(s);
    LookupLaw(s);
    assert Base(s) == s && Extension(s) == [];
    assert Canonical(s) == s + Spaces(9);
    AgainKey(s);
  }

  lemma Keys2Differ(j: nat, k: nat)
    requires j < NAMES && k < NAMES && j != k
    ensures Key2(j) != Key2(k) && Key2(k)[0] != DOT
  {
    assert Key2(j)[0] == NameChar(j / 36) && Key2(k)[0] == NameChar(k / 36);
    assert Key2(j)[1] == NameChar(j % 36) && Key2(k)[1] == NameChar(k % 36);
  }

  // ----- a directory of files

  /** The directory binds its dot entries and at most the first `n` names. */
  ghost predicate Named(d: Disk, dir: nat, n: nat)
    requires Number(dir) && n <= NAMES
  {
    forall p :: p in Bindings(d, dir) ==> p.0[0] == DOT || exists k :: 0 <= k < n && p.0 == Key2(k)
  }

  /** Name `k` leads to a file. */
  ghost predicate FileNamed(d: Disk, dir: nat, k: nat)
    requires Number(dir) && k < NAMES
  {
    exists i :: (Key2(k), i) in Bindings(d, dir) && Filed(d, i) && i != INODES
  }

  /** The directory holds the first `n` files and nothing else. */
  ghost predicate Holds(d: Disk, dir: nat, n: nat) {
    Directory(d, dir) && n <= NAMES && Named(d, dir, n) && forall k :: 0 <= k < n ==> FileNamed(d, dir, k)
  }

  lemma Unbound2(d: Disk, dir: nat, n: nat)
    requires Holds(d, dir, n) && n < NAMES
    ensures Unbound(d, dir, Key2(n))
  {
    forall p | p in Bindings(d, dir) ensures p.0 != Key2(n) {
      Keys2Differ((n + 1) % NAMES, n);
      if p.0[0] != DOT {
        var k :| 0 <= k < n && p.0 == Key2(k);
        Keys2Differ(k, n);
      }
    }
  }

  lemma NamedMore(d: Disk, e: Disk, dir: nat, n: nat, i: nat)
    requires Number(dir) && n < NAMES && Named(d, dir, n) && Bindings(e, dir) == Bindings(d, dir) + {(Key2(n), i)}
    ensures Named(e, dir, n + 1)
  {
    forall p | p in Bindings(e, dir) ensures p.0[0] == DOT || exists k :: 0 <= k < n + 1 && p.0 == Key2(k) {
      if p !in Bindings(d, dir) { assert p.0 == Key2(n); }
    }
  }

  /** A file that is still bound, and untouched. */
  lemma FileStays(d: Disk, e: Disk, dir: nat, k: nat, i: nat)
    requires Directory(d, dir) && k < NAMES && FileNamed(d, dir, k) && RestKept(d, e, dir, i)
    requires forall j :: (Key2(k), j) in Bindings(d, dir) && Filed(d, j) ==> j != i && (Key2(k), j) in Bindings(e, dir)
    ensures FileNamed(e, dir, k)
  {
    var j :| (Key2(k), j) in Bindings(d, dir) && Filed(d, j) && j != INODES;
    assert Same(d, e, j);
    assert (Key2(k), j) in Bindings(e, dir) && Filed(e, j);
  }

  lemma HoldsMore(d: Disk, e: Disk, dir: nat, n: nat, i: nat)
    requires Holds(d, dir, n) && n < NAMES && Directory(e, dir) && Bindings(e, dir) == Bindings(d, dir) + {(Key2(n), i)}
    requires RestKept(d, e, dir, i) && Filed(e, i) && i != INODES && !Filed(d, i)
    ensures Holds(e, dir, n + 1)
  {
    NamedMore(d, e, dir, n, i);
    forall k | 0 <= k < n + 1 ensures FileNamed(e, dir, k) {
      if k < n { FileStays(d, e, dir, k, i); } else { assert (Key2(n), i) in Bindings(e, dir); }
    }
  }

  // ----- filling the directory

  /** One more entry moves the terminator on, into a new block if need be. */
  lemma PackedGrows(s: seq<Entry>, t: nat, e: Entry)
    requires Packed(s, t) && t < |s| && Mark(e) != FREE && Mark(e) != NO_MORE
    ensures var s' := FsDir.Place(s, e, true).0; Packed(s', t + 1) && t + 1 < |s'|
  {
    var s' := FsDir.Place(s, e, true).0;
    PackedFind(s, t);
    LastSlot(|s|, t);
    forall j: nat | j < t ensures s'[j] == s[j] { }
    Extend(s, s', e);
  }

  /** The slots of the directory are live up to a terminator at `t`. */
  ghost predicate EndsAt(d: Disk, dir: nat, t: nat) {
    Open(d, dir) && Packed(Slots(d, Node(d, dir)), t) && t < |Slots(d, Node(d, dir))|
  }

  lemma TallInsert(f: Disk, dir: nat, x: Entry, t: nat)
    requires Books(f) && EndsAt(f, dir, t) && ClearFrom(f.used, 0) > 0 && Mark(x) != FREE && Mark(x) != NO_MORE
    requires t + 1 < PER_BLOCK * (N_BLOCKS - 2)
    ensures var g := Insert(f, dir, x).0; EndsAt(g, dir, t + 1) && ClearFrom(g.used, 0) + 1 >= ClearFrom(f.used, 0)
  {
    InsertLaw(f, dir, x);
    PackedGrows(Slots(f, Node(f, dir)), t, x);
    FreeAfterBind(f, dir, x);
  }

  lemma TallEstablish(d: OkDisk, dir: nat, key: Key, t: nat)
    requires EndsAt(d, dir, t) && t + 1 < PER_BLOCK * (N_BLOCKS - 2) && key[0] != FREE && key[0] != NO_MORE
    requires ClearFrom(d.used, 0) > 1 && ClearFrom(d.inodeUsed, 0) > 0
    ensures var e := Establish(d, dir, key).0; EndsAt(e, dir, t + 1) && ClearFrom(e.used, 0) + 2 >= ClearFrom(d.used, 0)
  {
    SomeClear(d.used);
    SomeClear(d.inodeUsed);
    ReserveLaw(d);
    ReserveOk(d);
    var (e, i, b) := Reserve(d);
    var f := SetNode(e, i, NewFile(b));
    InstallOk(e, i, NewFile(b), b);
    NewIsOther(d, dir);
    SameSlots(d, f, Node(d, dir));
    MakeLaw(i, key, NameLength(key));
    ClearFromUpdate(d.used, 0, b, true);
    TallInsert(f, dir, MakeEntry(i, key, NameLength(key)), t);
  }

  const FILES: nat := 382

  /** The directory with its first `n` files, reached from the root, on a disk with room for the others. */
  ghost predicate TallDir(d: Disk, dir: nat, n: nat) {
    && dir != ROOT && EndsAt(d, dir, n + 2) && Holds(d, dir, n) && (Key1(NameChar(0)), dir) in Bindings(d, ROOT)
    && ClearFrom(d.used, 0) + 2 * n >= 7673 && ClearFrom(d.inodeUsed, 0) + n >= 4085
  }

  /** What the creation of file `n` with inode `i` leaves. */
  ghost predicate OneMoreFile(d: Disk, e: Disk, dir: nat, n: nat, i: nat) {
    && n < NAMES && Number(dir) && Number(i) && i == FirstClear(d.inodeUsed, 0) + 1 && !d.inodeUsed[i - 1]
    && Bindings(e, dir) == Bindings(d, dir) + {(Key2(n), i)} && RestKept(d, e, dir, i)
    && e.inodeUsed == d.inodeUsed[i - 1 := true] && Filed(e, i)
    && EndsAt(e, dir, n + 3) && ClearFrom(e.used, 0) + 2 >= ClearFrom(d.used, 0)
  }

  /** The assembly of that from what the laws say of a creation. */
  lemma CreatedIsMore(d: Disk, e: Disk, dir: nat, n: nat, i: nat)
    requires n < NAMES && Open(d, dir) && Number(i) && i == FirstClear(d.inodeUsed, 0) + 1
    requires Created(d, e, dir, i, Key2(n), true) && HasSlot(Slots(d, Node(d, dir)))
    requires EndsAt(e, dir, n + 3) && ClearFrom(e.used, 0) + 2 >= ClearFrom(d.used, 0)
    ensures OneMoreFile(d, e, dir, n, i)
  {
    FileIsFile(Node(e, i).block[0]);
  }

  lemma TallEstablished(d: OkDisk, dir: nat, n: nat)
    requires TallDir(d, dir, n) && n < FILES && SpareInode(d) && Unbound(d, dir, Key2(n))
    ensures OneMoreFile(d, Establish(d, dir, Key2(n)).0, dir, n, FirstClear(d.inodeUsed, 0) + 1)
  {
    PackedFind(Slots(d, Node(d, dir)), n + 2);
    EstablishLaw(d, dir, Key2(n));
    TallEstablish(d, dir, Key2(n), n + 2);
    CreatedIsMore(d, Establish(d, dir, Key2(n)).0, dir, n, FirstClear(d.inodeUsed, 0) + 1);
  }

  lemma TallAllowed(d: Disk, dir: nat, n: nat)
    requires TallDir(d, dir, n) && n < FILES
    ensures Allowed(d, CreateOp(dir, Name2(n))) && SpareInode(d) && Unbound(d, dir, Key2(n))
    ensures Text(Name2(n)) && Accepted(Name2(n)) && Stored(Name2(n)) == Key2(n) && Searched(Key2(n)) == Key2(n)
  {
    PairName(Name2(n));
    Unbound2(d, dir, n);
    SomeClear(d.inodeUsed);
  }

  lemma TallStep(d: OkDisk, cached: nat, dir: nat, n: nat) returns (e: OkDisk)
    requires TallDir(d, dir, n) && n < FILES && cached > 0
    ensures Reaches(d, cached, e) && OneMoreFile(d, e, dir, n, FirstClear(d.inodeUsed, 0) + 1)
  {
    TallAllowed(d, dir, n);
    CreateIs(d, cached, dir, Name2(n));
    TallEstablished(d, dir, n);
    e := ReachStep(d, cached, CreateOp(dir, Name2(n)));
  }

  lemma NotTheLast(s: seq<bool>, i: nat)
    requires i <= |s| && ClearFrom(s, i) > 1
    ensures FirstClear(s, i) + 1 < |s|
    decreases |s| - i
  {
  }

  lemma TallCreate(d: OkDisk, cached: nat, dir: nat, n: nat) returns (e: OkDisk)
    requires TallDir(d, dir, n) && n < FILES && cached > 0
    ensures Reaches(d, cached, e) && TallDir(e, dir, n + 1)
  {
    var i := FirstClear(d.inodeUsed, 0) + 1;
    e := TallStep(d, cached, dir, n);
    NewIsNoFile(d, i);
    StillTall(d, e, dir, n, i);
  }

  ghost predicate NoFileYet(d: Disk, i: nat) { !Filed(d, i) && i != ROOT }

  lemma NewIsNoFile(d: OkDisk, i: nat)
    requires i == FirstClear(d.inodeUsed, 0) + 1
    ensures NoFileYet(d, i)
  {
    RootStays(d);
    if Filed(d, i) { FiledIsUsed(d, i); }
  }

  lemma StillTall(d: Disk, e: Disk, dir: nat, n: nat, i: nat)
    requires TallDir(d, dir, n) && n < FILES && OneMoreFile(d, e, dir, n, i) && NoFileYet(d, i)
    ensures TallDir(e, dir, n + 1)
  {
    NotTheLast(d.inodeUsed, 0);
    HoldsMore(d, e, dir, n, i);
    ClearFromUpdate(d.inodeUsed, 0, i - 1, true);
    RootKept(d, e, dir, i);
  }

  lemma RootKept(d: Disk, e: Disk, dir: nat, i: nat)
    requires RestKept(d, e, dir, i) && dir != ROOT && i != ROOT
    ensures Bindings(e, ROOT) == Bindings(d, ROOT)
  {
    assert Same(d, e, ROOT);
    SameSlots(d, e, Node(d, ROOT));
  }

  lemma {:induction false} TallFill(d: OkDisk, cached: nat, dir: nat, n: nat) returns (e: OkDisk)
    requires TallDir(d, dir, n) && n <= FILES && cached > 0
    ensures Reaches(d, cached, e) && TallDir(e, dir, FILES)
    decreases FILES - n
  {
    if n == FILES {
      ReachSelf(d, cached);
      e := d;
    } else {
      var d1 := TallCreate(d, cached, dir, n);
      e := TallFill(d1, cached, dir, n + 1);
      ReachThen(d, cached, d1, e);
    }
  }

  // ----- emptying it

  /** The directory keeps its thirteen blocks while its files go. */
  ghost predicate Emptying(d: Disk, dir: nat, n: nat) {
    dir != ROOT && Holds(d, dir, n) && Node(d, dir).blocks > DIRECT && (Key1(NameChar(0)), dir) in Bindings(d, ROOT)
  }

  /** A name other than a dot entry leads to its own inode. */
  lemma OneName(d: OkDisk, dir: nat, p: (Key, nat), q: (Key, nat))
    requires Directory(d, dir) && p in Bindings(d, dir) && q in Bindings(d, dir) && p.0[0] != DOT && q.0[0] != DOT
    ensures p.1 == q.1 <==> p == q
    ensures p.0 == q.0 <==> p == q
  {
    var s := Slots(d, Node(d, dir));
    assert GoodDir(d, dir);
    var j: nat :| j < |s| && Live(s, j) && Pair(s[j]) == p;
    var k: nat :| k < |s| && Live(s, k) && Pair(s[k]) == q;
  }

  /** What the removal of file `n` with inode `i` leaves. */
  ghost predicate OneLessFile(d: Disk, e: Disk, dir: nat, n: nat, i: nat) {
    && n < NAMES && Number(dir) && Filed(d, i) && (Key2(n), i) in Bindings(d, dir)
    && Bindings(e, dir) == Bindings(d, dir) - {(Key2(n), i)} && RestKept(d, e, dir, i) && Node(e, dir) == Node(d, dir)
  }

  /** The slot that a search for a bound name finds. */
  lemma FoundPair(s: seq<Entry>, key: Key, i: nat)
    requires DirOk(s) && key[0] != FREE && key[0] != NO_MORE && (key, i) in Pairs(s)
    ensures var k := Find(s, key, 0); k < |s| && Pair(s[k]) == (key, i)
  {
    FindLaw(s, key);
  }

  /** The entry that a lookup of a bound name finds. */
  ghost predicate LeadsTo(d: Disk, dir: nat, name: seq<Byte>, i: nat)
    requires Number(dir)
  {
    var s, k := Slots(d, Node(d, dir)), Found(d, dir, name);
    k < |s| && Pair(s[k]) == (Searched(name), i)
  }

  lemma NameLeads(d: OkDisk, dir: nat, name: seq<Byte>, i: nat)
    requires Directory(d, dir) && (Searched(name), i) in Bindings(d, dir) && Searched(name)[0] != FREE && Searched(name)[0] != NO_MORE
    ensures LeadsTo(d, dir, name, i)
  {
    assert GoodDir(d, dir);
    FoundPair(Slots(d, Node(d, dir)), Searched(name), i);
  }

  lemma FileTarget(d: OkDisk, dir: nat, n: nat) returns (i: nat)
    requires Holds(d, dir, n + 1)
    ensures (Key2(n), i) in Bindings(d, dir) && Filed(d, i) && i != INODES && Searched(Name2(n)) == Key2(n)
    ensures LeadsTo(d, dir, Name2(n), i)
  {
    assert FileNamed(d, dir, n);
    i :| (Key2(n), i) in Bindings(d, dir) && Filed(d, i) && i != INODES;
    PairName(Name2(n));
    NameLeads(d, dir, Name2(n), i);
  }

  lemma TallRemoved(d: OkDisk, cached: nat, dir: nat, n: nat) returns (i: nat)
    requires Holds(d, dir, n + 1)
    ensures Allowed(d, RemoveOp(dir, Name2(n)))
    ensures OneLessFile(d, Apply(d, cached, RemoveOp(dir, Name2(n))).0, dir, n, i)
  {
    i := FileTarget(d, dir, n);
    PairName(Name2(n));
    RemoveNamed(d, cached, dir, Name2(n));
    RemovedIsLess(d, Apply(d, cached, RemoveOp(dir, Name2(n))).0, dir, n, i);
  }

  lemma RemovedIsLess(d: Disk, e: Disk, dir: nat, n: nat, i: nat)
    requires Directory(d, dir) && n < NAMES && (Key2(n), i) in Bindings(d, dir) && Filed(d, i)
    requires LeadsTo(d, dir, Name2(n), i) && Searched(Name2(n)) == Key2(n)
    requires Removed(d, e, dir, Slots(d, Node(d, dir))[Found(d, dir, Name2(n))])
    ensures OneLessFile(d, e, dir, n, i)
  {
  }

  lemma NamedLess(d: Disk, e: Disk, dir: nat, n: nat, i: nat)
    requires Number(dir) && n < NAMES && Named(d, dir, n + 1) && OneLessFile(d, e, dir, n, i)
    requires forall p :: p in Bindings(d, dir) && p.0 == Key2(n) ==> p.1 == i
    ensures Named(e, dir, n)
  {
    forall p | p in Bindings(e, dir) && p.0[0] != DOT ensures exists k :: 0 <= k < n && p.0 == Key2(k) {
      var k :| 0 <= k < n + 1 && p.0 == Key2(k);
    }
  }

  lemma HoldsLess(d: OkDisk, e: Disk, dir: nat, n: nat, i: nat)
    requires Holds(d, dir, n + 1) && OneLessFile(d, e, dir, n, i)
    ensures Holds(e, dir, n)
  {
    Keys2Differ((n + 1) % NAMES, n);
    forall p | p in Bindings(d, dir) && p.0 == Key2(n) ensures p.1 == i { OneName(d, dir, p, (Key2(n), i)); }
    NamedLess(d, e, dir, n, i);
    forall k | 0 <= k < n ensures FileNamed(e, dir, k) {
      assert FileNamed(d, dir, k);
      OtherFile(d, dir, n, i, k);
      FileStays(d, e, dir, k, i);
    }
  }

  lemma OtherFile(d: OkDisk, dir: nat, n: nat, i: nat, k: nat)
    requires Directory(d, dir) && k < n < NAMES && (Key2(n), i) in Bindings(d, dir)
    ensures Key2(k) != Key2(n) && forall j :: (Key2(k), j) in Bindings(d, dir) ==> j != i
  {
    Keys2Differ(n, k);
    Keys2Differ(k, n);
    forall j | (Key2(k), j) in Bindings(d, dir) ensures j != i { OneName(d, dir, (Key2(k), j), (Key2(n), i)); }
  }

  lemma TallRemove(d: OkDisk, cached: nat, dir: nat, n: nat) returns (e: OkDisk)
    requires Emptying(d, dir, n + 1)
    ensures Reaches(d, cached, e) && Emptying(e, dir, n)
  {
    var i := TallRemoved(d, cached, dir, n);
    e := ReachStep(d, cached, RemoveOp(dir, Name2(n)));
    StillEmptying(d, e, dir, n, i);
  }

  lemma StillEmptying(d: OkDisk, e: Disk, dir: nat, n: nat, i: nat)
    requires Emptying(d, dir, n + 1) && OneLessFile(d, e, dir, n, i)
    ensures Emptying(e, dir, n)
  {
    HoldsLess(d, e, dir, n, i);
    RootStays(d);
    RootKept(d, e, dir, i);
  }

  lemma {:induction false} TallEmpty(d: OkDisk, cached: nat, dir: nat, n: nat) returns (e: OkDisk)
    requires Emptying(d, dir, n)
    ensures Reaches(d, cached, e) && Emptying(e, dir, 0)
    decreases n
  {
    if n == 0 {
      ReachSelf(d, cached);
      e := d;
    } else {
      var d1 := TallRemove(d, cached, dir, n - 1);
      e := TallEmpty(d1, cached, dir, n - 1);
      ReachThen(d, cached, d1, e);
    }
  }

  // ----- removing it

  /** A block of `n` that is marked, although no inode of `e` lists it. */
  ghost predicate Leaked(e: Disk, n: Inode) {
    exists b :: b in Blocks(n) && b < BLOCKS && e.used[b] && Unowned(e.table, b)
  }

  /** The removal succeeds and leaves a block of the directory marked that nobody owns. */
  ghost predicate Leaks(d: Disk, r: (Disk, bool), dir: nat)
    requires Number(dir)
  {
    r.1 && Node(r.0, dir) == NoInode() && Leaked(r.0, Node(d, dir))
  }

  /** No inode lists a block of the inode that was cleared. */
  lemma ClearedUnowned(d: Disk, e: Disk, dir: nat, i: nat, b: BlockNo)
    requires Books(d) && Number(dir) && Number(i) && b in Blocks(Node(d, i)) && b < BLOCKS
    requires Node(e, dir) == Node(d, dir) && Node(e, i) == NoInode() && RestKept(d, e, dir, i) && dir != i
    ensures Unowned(e.table, b)
  {
    forall k | 0 <= k < |e.table| ensures b !in Blocks(e.table[k]) {
      if k != i - 1 {
        assert Node(e, k + 1) == Node(d, k + 1) by { if k + 1 != dir { assert Same(d, e, k + 1); } }
        assert Apart(d.table[i - 1], d.table[k]);
      }
    }
  }

  lemma NotAllFreed(d: Disk, e: Disk, dir: nat, x: Entry)
    requires Books(d) && Directory(d, dir) && Number(InodeOf(x)) && InodeOf(x) != dir && Removed(d, e, dir, x)
    requires !AllFreed(e, Node(d, InodeOf(x)))
    ensures Leaked(e, Node(d, InodeOf(x)))
  {
    var i := InodeOf(x);
    assert NodeOk(d.used, d.table[i - 1]);
    var b :| b in Blocks(Node(d, i)) && !(b < BLOCKS && !e.used[b]);
    ClearedUnowned(d, e, dir, i, b);
  }

  lemma RmdirLeaks(d: OkDisk, cached: nat, dir: nat)
    requires Emptying(d, dir, 0) && dir != INODES
    ensures Allowed(d, RmdirOp(ROOT, [NameChar(0)])) && Target(d, ROOT, [NameChar(0)]) == dir
    ensures Leaks(d, Apply(d, cached, RmdirOp(ROOT, [NameChar(0)])), dir)
  {
    var name := [NameChar(0)];
    SingleName(NameChar(0));
    RootStays(d);
    NameLeads(d, ROOT, name, dir);
    TargetLaw(d, ROOT, name);
    var k := Found(d, ROOT, name);
    SlotLeaks(d, ROOT, k, dir);
  }

  lemma SlotLeaks(d: OkDisk, parent: nat, k: nat, dir: nat)
    requires Directory(d, parent) && parent != dir && Emptying(d, dir, 0) && dir != INODES
    requires var s := Slots(d, Node(d, parent)); k < |s| && Live(s, k) && Mark(s[k]) != DOT && InodeOf(s[k]) == dir
    ensures Current(d, SlotHandle(d, Node(d, parent), k)) && Leaks(d, Rmdir(d, SlotHandle(d, Node(d, parent), k)), dir)
  {
    RmdirLaw(d, parent, k);
    NotAllFreed(d, Rmdir(d, SlotHandle(d, Node(d, parent), k)).0, parent, Slots(d, Node(d, parent))[k]);
  }

  /** A run reaches a disk with an empty directory of thirteen blocks; removing that succeeds and leaks a block. */
  lemma TallRmdirReached(cached: nat) returns (d: OkDisk, dir: nat)
    requires cached > 0
    ensures Reaches(FsRun.Formatted(), cached, d) && Allowed(d, RmdirOp(ROOT, [NameChar(0)]))
    ensures Target(d, ROOT, [NameChar(0)]) == dir && Number(dir)
    ensures Leaks(d, Apply(d, cached, RmdirOp(ROOT, [NameChar(0)])), dir)
  {
    var d1, d2;
    d1, dir := FirstDir(cached);
    d2 := TallFill(d1, cached, dir, 0);
    d := TallEmpty(d2, cached, dir, FILES);
    ReachThen(FsRun.Formatted(), cached, d1, d2);
    ReachThen(FsRun.Formatted(), cached, d2, d);
    RmdirLeaks(d, cached, dir);
  }
}

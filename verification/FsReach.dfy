/** Disks that runs from a formatted one do reach, on which the code falls short of its purpose. */
module FsReach {
  import opened Bytes
  import opened Bits
  import opened Names
  import opened FsModel
  import opened FsWrite
  import opened FsDir
  import opened FsTree
  import opened FsOps
  import opened FsRemove
  import opened FsRun
  import opened FsStale
  import opened FsInodes
  import opened FsBooks

  // ----- reachability

  /** Some run of allowed operations leads from one disk to the other. */
  ghost predicate Reaches(d: OkDisk, cached: nat, e: OkDisk) {
    exists ops :: Permitted(d, cached, ops) && After(d, cached, ops) == e
  }

  lemma ReachSelf(d: OkDisk, cached: nat)
    ensures Reaches(d, cached, d)
  {
    assert Permitted(d, cached, []) && After(d, cached, []) == d;
  }

  lemma RunCons(d: OkDisk, cached: nat, op: Op, e: OkDisk, ops: seq<Op>)
    requires Allowed(d, op) && e == Apply(d, cached, op).0 && Permitted(e, cached, ops)
    ensures Permitted(d, cached, [op] + ops) && After(d, cached, [op] + ops) == After(e, cached, ops)
  {
    var all := [op] + ops;
    assert all[0] == op && all[1..] == ops;
  }

  lemma RunUncons(d: OkDisk, cached: nat, ops: seq<Op>) returns (e: OkDisk)
    requires ops != [] && Permitted(d, cached, ops)
    ensures Allowed(d, ops[0]) && e == Apply(d, cached, ops[0]).0 && Permitted(e, cached, ops[1..])
    ensures After(d, cached, ops) == After(e, cached, ops[1..])
  {
    ApplyOk(d, cached, ops[0]);
    e := Apply(d, cached, ops[0]).0;
  }

  lemma Regroup<T>(a: seq<T>, b: seq<T>)
    requires a != []
    ensures a + b == [a[0]] + (a[1..] + b)
  {
  }

  lemma {:induction false} RunsAppend(d: OkDisk, cached: nat, a: seq<Op>, b: seq<Op>)
    requires Permitted(d, cached, a) && Permitted(After(d, cached, a), cached, b)
    ensures Permitted(d, cached, a + b) && After(d, cached, a + b) == After(After(d, cached, a), cached, b)
    decreases |a|
  {
    if a == [] {
      assert a + b == b;
    } else {
      var e := RunUncons(d, cached, a);
      RunsAppend(e, cached, a[1..], b);
      RunCons(d, cached, a[0], e, a[1..] + b);
      Regroup(a, b);
    }
  }

  lemma ReachThen(d: OkDisk, cached: nat, e: OkDisk, f: OkDisk)
    requires Reaches(d, cached, e) && Reaches(e, cached, f)
    ensures Reaches(d, cached, f)
  {
    var a :| Permitted(d, cached, a) && After(d, cached, a) == e;
    var b :| Permitted(e, cached, b) && After(e, cached, b) == f;
    RunsAppend(d, cached, a, b);
  }

  lemma ReachStep(d: OkDisk, cached: nat, op: Op) returns (e: OkDisk)
    requires Allowed(d, op)
    ensures e == Apply(d, cached, op).0 && Reaches(d, cached, e)
  {
    ApplyOk(d, cached, op);
    e := Apply(d, cached, op).0;
    assert [op][1..] == [];
    assert Permitted(e, cached, []);
    assert Permitted(d, cached, [op]) && After(d, cached, [op]) == e;
  }

  // ----- names of one character

  predicate Plain1(c: Byte) { Digit(c) || 0x41 <= c <= 0x5A }

  function Key1(c: Byte): Key { [c] + Spaces(10) }

  lemma SingleName(c: Byte)
    requires Plain1(c)
    ensures Text([c]) && Regular([c]) && Searchable([c]) && !Dotted([c])
    ensures Stored([c]) == Key1(c) && Searched([c]) == Key1(c) && Searched(Key1(c)) == Key1(c)
  {
    DotAtIs([c], 1);
    assert Upper([c]) == [c];
    StoredIs([c]);
    LookupLaw([c]);
    assert Base([c]) == [c] && Extension([c]) == [];
    assert Canonical([c]) == Key1(c);
    AgainKey([c]);
  }

  // ----- directories without freed slots

  /** The slots before the terminator at `t` are all live. */
  ghost predicate Packed(s: seq<Entry>, t: nat) {
    DirShape(s) && End(s, 0) == t && forall k :: 0 <= k < t ==> Mark(s[k]) != FREE
  }

  lemma PackedFind(s: seq<Entry>, t: nat)
    requires Packed(s, t)
    ensures Find(s, FreeKey(), 0) == |s| && Find(s, EndKey(), 0) == t && (MustGrow(s) <==> t + 1 == |s|)
    ensures HasSlot(s) <==> t < |s|
  {
    FindFree(s, 0);
    FindEnd(s, 0);
    HasSlotIs(s);
  }

  /** One more entry moves the terminator on, or does away with it if there is no room to grow. */
  lemma PackedPlace(s: seq<Entry>, t: nat, e: Entry, room: bool)
    requires Packed(s, t) && t < |s| && Mark(e) != FREE && Mark(e) != NO_MORE && (t + 1 < |s| || !room)
    ensures Packed(FsDir.Place(s, e, room).0, t + 1) && |FsDir.Place(s, e, room).0| == |s|
  {
    var s' := FsDir.Place(s, e, room).0;
    PackedFind(s, t);
    LastSlot(|s|, t);
    forall j: nat | j < t ensures s'[j] == s[j] { }
    Extend(s, s', e);
  }

  /** A directory of one block whose slots are packed. */
  ghost predicate Tidy(d: Disk, dir: nat, t: nat) {
    Directory(d, dir) && Node(d, dir).blocks == 1 && Packed(Slots(d, Node(d, dir)), t)
  }

  lemma SameTidy(d: Disk, e: Disk, dir: nat, t: nat)
    requires Tidy(d, dir, t) && Same(d, e, dir)
    ensures Tidy(e, dir, t) && Bindings(e, dir) == Bindings(d, dir)
  {
    SameSlots(d, e, Node(d, dir));
  }

  /** An insertion before the last slot changes data only, and places the entry. */
  lemma InsertQuiet(d: Disk, dir: nat, x: Entry, t: nat)
    requires Books(d) && Tidy(d, dir, t) && t + 1 < PER_BLOCK && Mark(x) != FREE && Mark(x) != NO_MORE
    ensures var e := Insert(d, dir, x).0;
            e == d.(data := e.data) && Tidy(e, dir, t + 1) && Insert(d, dir, x).1
  {
    var s := Slots(d, Node(d, dir));
    PackedFind(s, t);
    InsertLaw(d, dir, x);
    PackedPlace(s, t, x, ClearFrom(d.used, 0) > 0);
    PlaceShape(s, x, ClearFrom(d.used, 0) > 0);
  }

  /** The bitmaps after one inode and one block were taken. */
  ghost predicate TookOne(d: Disk, e: Disk) {
    && FirstClear(d.used, 0) < BLOCKS && FirstClear(d.inodeUsed, 0) < INODES
    && e.used == d.used[FirstClear(d.used, 0) := true] && e.inodeUsed == d.inodeUsed[FirstClear(d.inodeUsed, 0) := true]
  }

  lemma TookCounts(d: Disk, e: Disk)
    requires TookOne(d, e)
    ensures ClearFrom(e.used, 0) == ClearFrom(d.used, 0) - 1 && ClearFrom(e.inodeUsed, 0) == ClearFrom(d.inodeUsed, 0) - 1
  {
    ClearFromUpdate(d.used, 0, FirstClear(d.used, 0), true);
    ClearFromUpdate(d.inodeUsed, 0, FirstClear(d.inodeUsed, 0), true);
  }

  lemma SomeClear(s: seq<bool>)
    ensures ClearFrom(s, 0) > 0 <==> FirstClear(s, 0) < |s|
  {
    ClearFromZero(s, 0);
  }

  // ----- creating in such a directory

  ghost predicate Ready(d: Disk, dir: nat, c: Byte, t: nat) {
    && Tidy(d, dir, t) && t + 1 < PER_BLOCK && Plain1(c) && Unbound(d, dir, Key1(c))
    && ClearFrom(d.used, 0) > 0 && ClearFrom(d.inodeUsed, 0) > 0 && ZeroFree(d)
  }

  lemma EstablishQuiet(d: OkDisk, dir: nat, c: Byte, t: nat)
    requires Ready(d, dir, c, t)
    ensures var e := Establish(d, dir, Key1(c)).0; TookOne(d, e) && Tidy(e, dir, t + 1)
  {
    SomeClear(d.used);
    SomeClear(d.inodeUsed);
    ReserveLaw(d);
    ReserveOk(d);
    var (e, i, b) := Reserve(d);
    var f := SetNode(e, i, NewFile(b));
    InstallOk(e, i, NewFile(b), b);
    assert i != dir;
    SameSlots(d, f, Node(d, dir));
    MakeLaw(i, Key1(c), NameLength(Key1(c)));
    InsertQuiet(f, dir, MakeEntry(i, Key1(c), NameLength(Key1(c))), t);
  }

  /** The disk after a file `i` of one block was created under `c`. */
  ghost predicate WithFile(d: Disk, e: Disk, dir: nat, c: Byte, t: nat, i: nat) {
    && TookOne(d, e) && Tidy(e, dir, t + 1) && ZeroFree(e) && i == FirstClear(d.inodeUsed, 0) + 1
    && Number(i) && i != dir && Node(e, i) == NewFile(Node(e, i).block[0]) && RestKept(d, e, dir, i)
    && Bindings(e, dir) == Bindings(d, dir) + {(Key1(c), i)}
  }

  lemma CreateQuiet(d: OkDisk, cached: nat, dir: nat, c: Byte, t: nat)
    requires Ready(d, dir, c, t) && cached > 0
    ensures Allowed(d, CreateOp(dir, [c]))
    ensures WithFile(d, Create(d, cached, dir, [c]).0, dir, c, t, FirstClear(d.inodeUsed, 0) + 1)
  {
    SingleName(c);
    SomeClear(d.inodeUsed);
    PackedFind(Slots(d, Node(d, dir)), t);
    CreateLaw(d, cached, dir, [c]);
    AllocateZeroes(d, cached, CreateOp(dir, [c]));
    CreateIsEstablish(d, cached, dir, c);
    EstablishQuiet(d, dir, c, t);
  }

  /** A file of one block in a directory with room. */
  lemma CreateHere(d: OkDisk, cached: nat, dir: nat, c: Byte, t: nat) returns (e: OkDisk, i: nat)
    requires Ready(d, dir, c, t) && cached > 0
    ensures Reaches(d, cached, e) && WithFile(d, e, dir, c, t, i)
  {
    CreateQuiet(d, cached, dir, c, t);
    e := ReachStep(d, cached, CreateOp(dir, [c]));
    i := FirstClear(d.inodeUsed, 0) + 1;
  }

  /** The creation of a new name goes through. */
  lemma CreateIs(d: OkDisk, cached: nat, dir: nat, name: seq<Byte>)
    requires Open(d, dir) && Text(name) && Accepted(name) && Unbound(d, dir, Searched(Stored(name))) && cached > 0
    ensures Create(d, cached, dir, name) == Establish(d, dir, Stored(name))
  {
    AgainKey(name);
    assert DirOk(Slots(d, Node(d, dir))) by { assert GoodDir(d, dir); }
    FindLaw(Slots(d, Node(d, dir)), Searched(Stored(name)));
  }

  lemma CreateIsEstablish(d: OkDisk, cached: nat, dir: nat, c: Byte)
    requires Open(d, dir) && Plain1(c) && Unbound(d, dir, Key1(c)) && cached > 0
    ensures Create(d, cached, dir, [c]) == Establish(d, dir, Key1(c))
  {
    SingleName(c);
    CreateIs(d, cached, dir, [c]);
  }

  // ----- a new directory

  /** A new directory has both dot entries and its terminator in the third slot. */
  lemma PopulateQuiet(h: Disk, i: nat, dir: nat)
    requires Books(h) && Number(i) && Number(dir) && Tidy(h, i, 0)
    ensures var e := Populate(h, i, dir); e == h.(data := e.data) && Tidy(e, i, 2)
  {
    MakeLaw(i, DotName(), 0);
    MakeLaw(dir, DotDotName(), 0);
    InsertQuiet(h, i, MakeEntry(i, DotName(), 0), 0);
    var g := Insert(h, i, MakeEntry(i, DotName(), 0)).0;
    InsertLaw(h, i, MakeEntry(i, DotName(), 0));
    InsertQuiet(g, i, MakeEntry(dir, DotDotName(), 0), 1);
  }

  /** The second half of making a directory, on a block of zeros. */
  lemma FillQuiet(f: Disk, i: nat, b: BlockNo, dir: nat, t: nat)
    requires Books(f) && Number(i) && i != dir && Tidy(f, dir, t) && f.data[b] == Zeros(BLOCK_SIZE)
    requires Unowned(f.table, b) && DATA_BASE <= b < BLOCKS && f.used[b]
    ensures var g := Populate(SetNode(f, i, NewDir(b)), i, dir);
            g.used == f.used && g.inodeUsed == f.inodeUsed && Tidy(g, dir, t) && Tidy(g, i, 2)
  {
    var h := SetNode(f, i, NewDir(b));
    InstallBooks(f, i, 0x41FF, b);
    ZeroSlots(h, NewDir(b));
    EndIs(EmptySlots(), 0, 0);
    FileIsFile(b);
    SameTidy(f, h, dir, t);
    PopulateQuiet(h, i, dir);
    TwoInserts(h, i, dir);
    SameTidy(h, Populate(h, i, dir), dir, t);
  }

  /** One inode and one block went to a new directory `i`; its slots and those of its parent are packed. */
  ghost predicate TidyPair(d: Disk, e: Disk, dir: nat, t: nat, i: nat) {
    TookOne(d, e) && Tidy(e, dir, t + 1) && Tidy(e, i, 2)
  }

  /** The bindings of a new directory `i` and of its parent. */
  ghost predicate BoundPair(d: Disk, e: Disk, dir: nat, c: Byte, i: nat) {
    && Number(dir) && Number(i) && RestKept(d, e, dir, i)
    && Bindings(e, dir) == Bindings(d, dir) + {(Key1(c), i)} && Bindings(e, i) == DotPairs(i, dir)
  }

  lemma FurnishQuiet(d: OkDisk, dir: nat, c: Byte, t: nat)
    requires Ready(d, dir, c, t)
    ensures var i := FirstClear(d.inodeUsed, 0) + 1;
            TidyPair(d, Mkdir(d, dir, [c]).0, dir, t, i) == true
  {
    SingleName(c);
    SomeClear(d.used);
    SomeClear(d.inodeUsed);
    ReserveLaw(d);
    ReserveOk(d);
    var (e, i, b) := Reserve(d);
    var x := MakeEntry(i, Key1(c), NAME_LEN);
    MakeLaw(i, Key1(c), NAME_LEN);
    assert Slots(d, Node(d, dir)) == Slots(e, Node(e, dir));
    InsertQuiet(e, dir, x, t);
    MkdirBind(d, e, i, b, dir, Key1(c));
    FillQuiet(Insert(e, dir, x).0, i, b, dir, t + 1);
  }

  /** The disk after a directory `i` was made under `c`. */
  ghost predicate WithDir(d: Disk, e: Disk, dir: nat, c: Byte, t: nat, i: nat) {
    TidyPair(d, e, dir, t, i) && ZeroFree(e) && i == FirstClear(d.inodeUsed, 0) + 1 && BoundPair(d, e, dir, c, i)
  }

  lemma MkdirAllowed(d: OkDisk, dir: nat, c: Byte, t: nat)
    requires Ready(d, dir, c, t)
    ensures Allowed(d, MkdirOp(dir, [c])) && SpareInode(d)
  {
    SingleName(c);
    SomeClear(d.inodeUsed);
  }

  lemma TidyBinds(d: Disk, dir: nat, c: Byte, t: nat)
    requires Tidy(d, dir, t) && t + 1 < PER_BLOCK && Plain1(c) && ClearFrom(d.used, 0) > 0
    ensures Binds(d, dir, [c]) && !MustGrow(Slots(d, Node(d, dir))) && FirstClear(d.used, 0) < BLOCKS && Stored([c]) == Key1(c)
  {
    SingleName(c);
    SomeClear(d.used);
    PackedFind(Slots(d, Node(d, dir)), t);
  }

  lemma MkdirFrom(d: OkDisk, dir: nat, c: Byte)
    requires Open(d, dir) && SpareInode(d) && Plain1(c) && Unbound(d, dir, Key1(c))
    ensures var r := Mkdir(d, dir, [c]); MadeFrom(d, r.0, dir, FirstClear(d.inodeUsed, 0) + 1, [c], r.1) == true
  {
    SingleName(c);
    MkdirExact(d, dir, [c]);
  }

  /** A new entry of `dir` finds its slot, and the block that goes with it is zero. */
  ghost predicate CleanFor(d: Disk, dir: nat, c: Byte)
    requires Number(dir)
  {
    && Stored([c]) == Key1(c) && Binds(d, dir, [c]) && !MustGrow(Slots(d, Node(d, dir)))
    && FirstClear(d.used, 0) < BLOCKS && d.data[FirstClear(d.used, 0)] == Zeros(BLOCK_SIZE)
  }

  lemma ReadyIsClean(d: Disk, dir: nat, c: Byte, t: nat)
    requires Books(d) && Ready(d, dir, c, t)
    ensures CleanFor(d, dir, c) == true
  {
    TidyBinds(d, dir, c, t);
    NextIsZero(d);
  }

  /** What `MadeFrom` says of a block of zeros. */
  lemma MadeClean(d: Disk, e: Disk, dir: nat, i: nat, c: Byte, ok: bool)
    requires Number(dir) && Number(i) && MadeFrom(d, e, dir, i, [c], ok) == true && CleanFor(d, dir, c) == true
    ensures BoundPair(d, e, dir, c, i)
  {
    var b := AllocBlock(d).1;
    ZeroSlots(d, NewDir(b));
    UnspoiltWhen(RawSlots(d, b), RoomLeft(d, dir), i, dir);
  }

  lemma NextIsZero(d: Disk)
    requires Books(d) && ZeroFree(d) && FirstClear(d.used, 0) < BLOCKS
    ensures d.data[FirstClear(d.used, 0)] == Zeros(BLOCK_SIZE)
  {
    assert FirstClear(d.used, 0) >= DATA_BASE;
  }

  /** The step itself. */
  lemma MkdirStep(d: OkDisk, cached: nat, dir: nat, c: Byte, t: nat) returns (e: OkDisk, ok: bool)
    requires Ready(d, dir, c, t) && SpareInode(d) && Allowed(d, MkdirOp(dir, [c]))
    ensures Reaches(d, cached, e) && MadeFrom(d, e, dir, FirstClear(d.inodeUsed, 0) + 1, [c], ok) == true
    ensures TidyPair(d, e, dir, t, FirstClear(d.inodeUsed, 0) + 1) == true && ZeroFree(e)
  {
    MkdirFrom(d, dir, c);
    FurnishQuiet(d, dir, c, t);
    AllocateZeroes(d, cached, MkdirOp(dir, [c]));
    e := ReachStep(d, cached, MkdirOp(dir, [c]));
    ok := Mkdir(d, dir, [c]).1;
  }

  /** A directory in a directory with room. */
  lemma MkdirHere(d: OkDisk, cached: nat, dir: nat, c: Byte, t: nat) returns (e: OkDisk, i: nat)
    requires Ready(d, dir, c, t)
    ensures Reaches(d, cached, e) && WithDir(d, e, dir, c, t, i)
  {
    var ok;
    MkdirAllowed(d, dir, c, t);
    ReadyIsClean(d, dir, c, t);
    e, ok := MkdirStep(d, cached, dir, c, t);
    i := FirstClear(d.inodeUsed, 0) + 1;
    MadeClean(d, e, dir, i, c, ok);
  }

  // ----- writing

  /** A write moves exactly as many blocks between the file and the free ones as it needs. */
  lemma WriteCount(d: Disk, i: nat, offset: nat, buf: seq<Byte>)
    requires Books(d) && CanWrite(d, i, offset + |buf|)
    ensures ClearFrom(Write(d, i, offset, buf).0.used, 0) + BlockCount(offset + |buf|) == ClearFrom(d.used, 0) + Node(d, i).blocks
  {
    var node, n := Node(d, i), BlockCount(offset + |buf|);
    assert NodeOk(d.used, d.table[i - 1]);
    WriteRollsBack(d, i, offset, buf);
    WriteLaw(d, i, offset, buf);
    GrowLaw(d, node.block, node.blocks, n);
    GrowUpto(d, node.block, node.blocks, n);
  }

  /** The file that a name leads to. */
  ghost predicate FileAt(d: Disk, dir: nat, c: Byte, i: nat) {
    && Directory(d, dir) && Plain1(c) && (Key1(c), i) in Bindings(d, dir)
    && Filed(d, i)
  }

  lemma FileFound(d: OkDisk, dir: nat, c: Byte, i: nat)
    requires FileAt(d, dir, c, i)
    ensures Target(d, dir, [c]) == i && i != dir && Known(d, i)
  {
    SingleName(c);
    assert GoodDir(d, dir);
    FindLaw(Slots(d, Node(d, dir)), Key1(c));
    TargetLaw(d, dir, [c]);
  }

  /** What a write from offset 0 leaves: the name and every other file stay, and blocks move as many as needed. */
  ghost predicate Rewritten(d: Disk, e: Disk, dir: nat, i: nat, size: nat) {
    && Number(i) && OthersKept(d, e, i) && e.inodeUsed == d.inodeUsed && Node(e, i).blocks == BlockCount(size)
    && ClearFrom(e.used, 0) + BlockCount(size) == ClearFrom(d.used, 0) + Node(d, i).blocks
    && Number(dir) && Same(d, e, dir) && Filed(e, i)
  }

  lemma RewrittenBy(d: OkDisk, dir: nat, i: nat, buf: seq<Byte>)
    requires Number(dir) && dir != i && Filed(d, i) && Known(d, i) && CanWrite(d, i, |buf|)
    ensures Rewritten(d, Write(d, i, 0, buf).0, dir, i, |buf|) == true
  {
    WriteLaw(d, i, 0, buf);
    WriteCount(d, i, 0, buf);
    WriteOk(d, i, 0, buf);
  }

  /** Writing to a file reached by its name. */
  lemma WriteHere(d: OkDisk, cached: nat, dir: nat, c: Byte, i: nat, buf: seq<Byte>) returns (e: OkDisk)
    requires FileAt(d, dir, c, i) && CanWrite(d, i, |buf|)
    ensures Reaches(d, cached, e) && e == Write(d, i, 0, buf).0 && Rewritten(d, e, dir, i, |buf|)
    ensures FileAt(e, dir, c, i) && Bindings(e, dir) == Bindings(d, dir)
  {
    FileFound(d, dir, c, i);
    SingleName(c);
    e := ReachStep(d, cached, WriteOp(dir, [c], 0, buf));
    RewrittenBy(d, dir, i, buf);
    SameSlots(d, e, Node(d, dir));
  }

  // ----- filling the disk by a chain of directories

  const CHAIN: Byte := 0x44
  const FILE: Byte := 0x46

  /** A new directory below the root, on a disk whose free blocks are zero. */
  ghost predicate Hollow(d: Disk, dir: nat) {
    dir != ROOT && Tidy(d, dir, 2) && ZeroFree(d) && forall p :: p in Bindings(d, dir) ==> p.0[0] == DOT
  }

  /** A file of more than one block, to be cut later. */
  ghost predicate BigFile(d: Disk, dir: nat, i: nat) {
    dir != ROOT && FileAt(d, dir, FILE, i) && Node(d, i).blocks == DIRECT
  }

  lemma RootStays(d: OkDisk)
    ensures Directory(d, ROOT) && d.inodeUsed[ROOT - 1] && FirstClear(d.inodeUsed, 0) + 1 != ROOT
  {
    assert GoodDir(d, ROOT);
  }

  lemma NewIsHollow(d: Disk, e: Disk, dir: nat, c: Byte, t: nat, n: nat)
    requires WithDir(d, e, dir, c, t, n) && n != ROOT
    ensures Hollow(e, n) && Tidy(e, dir, t + 1) && (Key1(c), n) in Bindings(e, dir)
    ensures ClearFrom(e.used, 0) == ClearFrom(d.used, 0) - 1 && ClearFrom(e.inodeUsed, 0) == ClearFrom(d.inodeUsed, 0) - 1
  {
    TookCounts(d, e);
  }

  lemma ReadyAgain(d: Disk, e: Disk, dir: nat, n: nat)
    requires WithDir(d, e, dir, CHAIN, 2, n) && Hollow(d, dir) && ClearFrom(e.used, 0) > 0 && ClearFrom(e.inodeUsed, 0) > 0
    ensures Ready(e, dir, FILE, 3)
  {
    assert Unbound(e, dir, Key1(FILE)) by { assert Key1(FILE)[0] != Key1(CHAIN)[0]; }
  }

  /** A subdirectory. */
  lemma ChainDir(d: OkDisk, cached: nat, dir: nat) returns (e: OkDisk, n: nat)
    requires Hollow(d, dir) && ClearFrom(d.used, 0) >= 2 && ClearFrom(d.inodeUsed, 0) >= 2
    ensures Reaches(d, cached, e) && Hollow(e, n) && Same(d, e, ROOT) && n != dir
    ensures Ready(e, dir, FILE, 3)
    ensures ClearFrom(e.used, 0) == ClearFrom(d.used, 0) - 1 && ClearFrom(e.inodeUsed, 0) == ClearFrom(d.inodeUsed, 0) - 1
  {
    RootStays(d);
    e, n := MkdirHere(d, cached, dir, CHAIN, 2);
    NewIsHollow(d, e, dir, CHAIN, 2, n);
    ReadyAgain(d, e, dir, n);
    assert Same(d, e, ROOT);
    NewIsOther(d, dir);
  }

  /** A new inode is not one that is a directory already. */
  lemma NewIsOther(d: OkDisk, dir: nat)
    requires Directory(d, dir) && SpareInode(d)
    ensures FirstClear(d.inodeUsed, 0) + 1 != dir
  {
    assert GoodDir(d, dir) && Fits(d, dir);
  }

  /** A file of one block beside it. */
  lemma ChainFile(d: OkDisk, cached: nat, dir: nat, n: nat) returns (e: OkDisk, f: nat)
    requires Ready(d, dir, FILE, 3) && Hollow(d, n) && n != dir && dir != ROOT && cached > 0
    ensures Reaches(d, cached, e) && Hollow(e, n) && Same(d, e, ROOT) && n != f && f != ROOT
    ensures ClearFrom(e.used, 0) == ClearFrom(d.used, 0) - 1 && ClearFrom(e.inodeUsed, 0) == ClearFrom(d.inodeUsed, 0) - 1
    ensures FileAt(e, dir, FILE, f) && Node(e, f).blocks == 1
  {
    RootStays(d);
    e, f := CreateHere(d, cached, dir, FILE, 3);
    TookCounts(d, e);
    NewIsOther(d, n);
    assert Same(d, e, n) && Same(d, e, ROOT);
    SameTidy(d, e, n, 2);
    FileIsFile(Node(e, f).block[0]);
  }

  lemma FillFile(d: OkDisk, cached: nat, dir: nat, n: nat, f: nat) returns (e: OkDisk)
    requires FileAt(d, dir, FILE, f) && Node(d, f).blocks == 1 && Hollow(d, n) && n != f && f != ROOT && dir != ROOT
    requires ClearFrom(d.used, 0) >= DIRECT - 1
    ensures Reaches(d, cached, e) && Hollow(e, n) && Same(d, e, ROOT) && BigFile(e, dir, f) && e.inodeUsed == d.inodeUsed
    ensures ClearFrom(e.used, 0) == ClearFrom(d.used, 0) - (DIRECT - 1)
  {
    RootStays(d);
    var buf := Zeros(DIRECT * BLOCK_SIZE);
    assert BlockCount(|buf|) == DIRECT;
    e := WriteHere(d, cached, dir, FILE, f, buf);
    WriteZeroes(d, f, 0, buf);
    SameTidy(d, e, n, 2);
    assert Same(d, e, ROOT);
  }

  /** One level of the chain takes thirteen blocks and two inodes. */
  lemma Descend(d: OkDisk, cached: nat, dir: nat) returns (e: OkDisk, n: nat, f: nat)
    requires Hollow(d, dir) && ClearFrom(d.used, 0) >= 13 && ClearFrom(d.inodeUsed, 0) >= 2 && cached > 0
    ensures Reaches(d, cached, e) && Hollow(e, n) && Same(d, e, ROOT) && BigFile(e, dir, f)
    ensures ClearFrom(e.used, 0) == ClearFrom(d.used, 0) - 13 && ClearFrom(e.inodeUsed, 0) == ClearFrom(d.inodeUsed, 0) - 2
  {
    var d1, d2;
    d1, n := ChainDir(d, cached, dir);
    d2, f := ChainFile(d1, cached, dir, n);
    e := FillFile(d2, cached, dir, n, f);
    ReachThen(d, cached, d1, d2);
    ReachThen(d, cached, d2, e);
    assert Same(d, d1, ROOT) && Same(d1, d2, ROOT) && Same(d2, e, ROOT);
  }

  /** The chain goes on until one block is left. */
  lemma {:induction false} DescendAll(d: OkDisk, cached: nat, dir: nat, levels: nat) returns (e: OkDisk, x: nat, f: nat)
    requires levels > 0 && Hollow(d, dir) && cached > 0
    requires ClearFrom(d.used, 0) == 13 * levels + 1 && ClearFrom(d.inodeUsed, 0) >= 2 * levels + 2
    ensures Reaches(d, cached, e) && Same(d, e, ROOT) && BigFile(e, x, f) && ZeroFree(e)
    ensures ClearFrom(e.used, 0) == 1 && ClearFrom(e.inodeUsed, 0) >= 2
    decreases levels
  {
    var d1, n, g := Descend(d, cached, dir);
    if levels == 1 {
      e, x, f := d1, dir, g;
    } else {
      e, x, f := DescendAll(d1, cached, n, levels - 1);
      ReachThen(d, cached, d1, e);
      assert Same(d, d1, ROOT) && Same(d1, e, ROOT);
    }
  }

  // ----- a root directory with one slot left

  /** Thirty-six names of one character. */
  function NameChar(k: nat): (c: Byte)
    requires k < 36
    ensures Plain1(c)
  {
    if k < 10 then 0x30 + k else 0x41 + (k - 10)
  }

  lemma KeysDiffer(j: nat, k: nat)
    requires j < 36 && k < 36 && j != k
    ensures Key1(NameChar(j)) != Key1(NameChar(k)) && Key1(NameChar(k))[0] != DOT
  {
    assert Key1(NameChar(j))[0] != Key1(NameChar(k))[0];
  }

  /** The root binds its dot entries and at most the first `k` names. */
  ghost predicate RootNames(d: Disk, k: nat)
    requires k <= 36
  {
    forall p :: p in Bindings(d, ROOT) ==> p.0[0] == DOT || exists j :: 0 <= j < k && p.0 == Key1(NameChar(j))
  }

  lemma RootUnbound(d: Disk, k: nat, l: nat)
    requires k <= l < 36 && RootNames(d, k)
    ensures Unbound(d, ROOT, Key1(NameChar(l)))
  {
    forall p | p in Bindings(d, ROOT) ensures p.0 != Key1(NameChar(l)) {
      KeysDiffer((l + 1) % 36, l);
      if p.0[0] != DOT {
        var j :| 0 <= j < k && p.0 == Key1(NameChar(j));
        KeysDiffer(j, l);
      }
    }
  }

  lemma Start()
    ensures var d := FsRun.Formatted();
            && Tidy(d, ROOT, 2) && ZeroFree(d) && RootNames(d, 0)
            && ClearFrom(d.used, 0) == 7674 && ClearFrom(d.inodeUsed, 0) == 4086
  {
    FormatOk();
    RootSlots(NewDisk());
    FormatNodes(NewDisk());
    UsedBitsCount(BLOCKS, DATA_BASE + 1, 0);
    UsedBitsCount(INODES, 10, 0);
  }

  /** The chain starts at a directory of the root. */
  lemma FirstDir(cached: nat) returns (e: OkDisk, dir: nat)
    ensures Reaches(FsRun.Formatted(), cached, e) && Hollow(e, dir) && Tidy(e, ROOT, 3) && RootNames(e, 1)
    ensures ClearFrom(e.used, 0) == 7673 && ClearFrom(e.inodeUsed, 0) == 4085
    ensures dir == 11 && (Key1(NameChar(0)), dir) in Bindings(e, ROOT)
  {
    var d := FsRun.Formatted();
    Start();
    SecondTableBlock(d);
    RootStays(d);
    RootUnbound(d, 0, 0);
    e, dir := MkdirHere(d, cached, ROOT, NameChar(0), 2);
    NewIsHollow(d, e, ROOT, NameChar(0), 2, dir);
    NamesGrow(d, e, 0, dir);
  }

  lemma OneMoreName(d: OkDisk, cached: nat, dir: nat, k: nat) returns (e: OkDisk)
    requires 0 < k < 29 && cached > 0 && Hollow(d, dir) && Tidy(d, ROOT, 2 + k) && RootNames(d, k)
    requires ClearFrom(d.used, 0) > 0 && ClearFrom(d.inodeUsed, 0) > 0
    ensures Reaches(d, cached, e) && Hollow(e, dir) && Tidy(e, ROOT, 3 + k) && RootNames(e, k + 1)
    ensures ClearFrom(e.used, 0) == ClearFrom(d.used, 0) - 1 && ClearFrom(e.inodeUsed, 0) == ClearFrom(d.inodeUsed, 0) - 1
  {
    RootUnbound(d, k, k);
    var i;
    e, i := CreateHere(d, cached, ROOT, NameChar(k), 2 + k);
    TookCounts(d, e);
    SomeClear(d.inodeUsed);
    NewIsOther(d, dir);
    assert Same(d, e, dir);
    SameTidy(d, e, dir, 2);
    NamesGrow(d, e, k, i);
  }

  lemma {:induction false} FillRoot(d: OkDisk, cached: nat, dir: nat, k: nat) returns (e: OkDisk)
    requires 0 < k <= 29 && cached > 0 && Hollow(d, dir) && Tidy(d, ROOT, 2 + k) && RootNames(d, k)
    requires ClearFrom(d.used, 0) == 7674 - k && ClearFrom(d.inodeUsed, 0) == 4086 - k
    ensures Reaches(d, cached, e) && Hollow(e, dir) && Tidy(e, ROOT, 31) && RootNames(e, 29)
    ensures ClearFrom(e.used, 0) == 7645 && ClearFrom(e.inodeUsed, 0) == 4057
    decreases 29 - k
  {
    if k == 29 {
      ReachSelf(d, cached);
      e := d;
    } else {
      var d1 := OneMoreName(d, cached, dir, k);
      e := FillRoot(d1, cached, dir, k + 1);
      ReachThen(d, cached, d1, e);
    }
  }

  /** One free block, one slot left in the root, and a large file elsewhere. */
  ghost predicate Brim(d: Disk, x: nat, f: nat) {
    && Tidy(d, ROOT, 31) && RootNames(d, 29) && BigFile(d, x, f) && ZeroFree(d)
    && ClearFrom(d.used, 0) == 1 && ClearFrom(d.inodeUsed, 0) >= 2
  }

  lemma ReachBrim(cached: nat) returns (e: OkDisk, x: nat, f: nat)
    requires cached > 0
    ensures Reaches(FsRun.Formatted(), cached, e) && Brim(e, x, f)
  {
    var d1, dir := FirstDir(cached);
    var d2 := FillRoot(d1, cached, dir, 1);
    e, x, f := DescendAll(d2, cached, dir, 588);
    ReachThen(FsRun.Formatted(), cached, d1, d2);
    ReachThen(FsRun.Formatted(), cached, d2, e);
    SameTidy(d2, e, ROOT, 31);
  }

  // ----- taking the last slot with the last block

  lemma InsertSeals(d: Disk, dir: nat, x: Entry)
    requires Books(d) && Tidy(d, dir, 31) && ClearFrom(d.used, 0) == 0 && Mark(x) != FREE && Mark(x) != NO_MORE
    ensures var e := Insert(d, dir, x).0; e == d.(data := e.data) && Tidy(e, dir, PER_BLOCK)
  {
    var s := Slots(d, Node(d, dir));
    PackedFind(s, 31);
    InsertLaw(d, dir, x);
    PackedPlace(s, 31, x, false);
    TakeLaw(PutSlot(d, Node(d, dir), 31, x));
  }

  lemma EstablishSeals(d: OkDisk, dir: nat, c: Byte)
    requires Tidy(d, dir, 31) && Plain1(c) && ClearFrom(d.used, 0) == 1 && ClearFrom(d.inodeUsed, 0) > 0
    ensures var e := Establish(d, dir, Key1(c)).0; TookOne(d, e) && Tidy(e, dir, PER_BLOCK)
  {
    SomeClear(d.used);
    SomeClear(d.inodeUsed);
    ReserveLaw(d);
    ReserveOk(d);
    var (e, i, b) := Reserve(d);
    var f := SetNode(e, i, NewFile(b));
    InstallOk(e, i, NewFile(b), b);
    NewIsOther(d, dir);
    SameSlots(d, f, Node(d, dir));
    MakeLaw(i, Key1(c), NameLength(Key1(c)));
    ClearFromUpdate(d.used, 0, FirstClear(d.used, 0), true);
    InsertSeals(f, dir, MakeEntry(i, Key1(c), NameLength(Key1(c))));
  }

  /** No slot left in the root, no free block, and a large file elsewhere. */
  ghost predicate Sealed(d: Disk, x: nat, f: nat) {
    Tidy(d, ROOT, PER_BLOCK) && RootNames(d, 30) && BigFile(d, x, f) && ClearFrom(d.used, 0) == 0
  }

  lemma SameFile(d: OkDisk, e: OkDisk, x: nat, c: Byte, f: nat)
    requires FileAt(d, x, c, f) && Same(d, e, x) && Same(d, e, f)
    ensures FileAt(e, x, c, f) && Node(e, f) == Node(d, f)
  {
    SameSlots(d, e, Node(d, x));
  }

  /** The disk after a file `i` was created in the last slot of the root. */
  ghost predicate WithLast(d: Disk, e: Disk, c: Byte, i: nat) {
    && TookOne(d, e) && Tidy(e, ROOT, PER_BLOCK) && i == FirstClear(d.inodeUsed, 0) + 1 && RestKept(d, e, ROOT, i)
    && Bindings(e, ROOT) == Bindings(d, ROOT) + {(Key1(c), i)}
  }

  lemma SealQuiet(d: OkDisk, cached: nat, c: Byte)
    requires Tidy(d, ROOT, 31) && Plain1(c) && Unbound(d, ROOT, Key1(c)) && cached > 0
    requires ClearFrom(d.used, 0) == 1 && ClearFrom(d.inodeUsed, 0) > 0
    ensures Allowed(d, CreateOp(ROOT, [c]))
    ensures WithLast(d, Create(d, cached, ROOT, [c]).0, c, FirstClear(d.inodeUsed, 0) + 1)
  {
    SingleName(c);
    SomeClear(d.inodeUsed);
    PackedFind(Slots(d, Node(d, ROOT)), 31);
    CreateLaw(d, cached, ROOT, [c]);
    CreateIsEstablish(d, cached, ROOT, c);
    EstablishSeals(d, ROOT, c);
  }

  lemma SealStep(d: OkDisk, cached: nat, x: nat, f: nat) returns (e: OkDisk, i: nat)
    requires Brim(d, x, f) && cached > 0
    ensures Reaches(d, cached, e) && WithLast(d, e, NameChar(29), i)
  {
    RootUnbound(d, 29, 29);
    SealQuiet(d, cached, NameChar(29));
    e := ReachStep(d, cached, CreateOp(ROOT, [NameChar(29)]));
    i := FirstClear(d.inodeUsed, 0) + 1;
  }

  lemma NamesGrow(d: Disk, e: Disk, k: nat, i: nat)
    requires k < 36 && RootNames(d, k) && Bindings(e, ROOT) == Bindings(d, ROOT) + {(Key1(NameChar(k)), i)}
    ensures RootNames(e, k + 1)
  {
    forall p | p in Bindings(e, ROOT) ensures p.0[0] == DOT || exists j :: 0 <= j < k + 1 && p.0 == Key1(NameChar(j)) {
      if p !in Bindings(d, ROOT) { assert p.0 == Key1(NameChar(k)); }
    }
  }

  /** Creating one more file takes the last block, so that the root cannot grow and loses its terminator. */
  lemma SealRoot(d: OkDisk, cached: nat, x: nat, f: nat) returns (e: OkDisk)
    requires Brim(d, x, f) && cached > 0
    ensures Reaches(d, cached, e) && Sealed(e, x, f) && ClearFrom(e.inodeUsed, 0) > 0
  {
    var i;
    e, i := SealStep(d, cached, x, f);
    TookCounts(d, e);
    NamesGrow(d, e, 29, i);
    FileOther(d, x, f);
    assert Same(d, e, x) && Same(d, e, f);
    SameFile(d, e, x, FILE, f);
  }

  /** Neither the file nor its directory is the root or the next new inode. */
  lemma FileOther(d: OkDisk, x: nat, f: nat)
    requires BigFile(d, x, f) && ClearFrom(d.inodeUsed, 0) > 0
    ensures f != ROOT && x != ROOT && f != FirstClear(d.inodeUsed, 0) + 1 && x != FirstClear(d.inodeUsed, 0) + 1
  {
    FileFound(d, x, FILE, f);
    SomeClear(d.inodeUsed);
    NewIsOther(d, x);
    RootStays(d);
  }

  /** Cutting the large file frees blocks again. */
  lemma CutFile(d: OkDisk, cached: nat, x: nat, f: nat) returns (e: OkDisk)
    requires Sealed(d, x, f)
    ensures Reaches(d, cached, e) && Tidy(e, ROOT, PER_BLOCK) && RootNames(e, 30)
    ensures ClearFrom(e.used, 0) == DIRECT - 1 && e.inodeUsed == d.inodeUsed
  {
    RootStays(d);
    FileFound(d, x, FILE, f);
    assert BlockCount(1) == 1;
    e := WriteHere(d, cached, x, FILE, f, [0]);
    assert Same(d, e, ROOT);
    SameTidy(d, e, ROOT, PER_BLOCK);
  }

  /** A run reaches a disk with free blocks and inodes on which a creation in the root succeeds and binds nothing. */
  lemma LostEntryReached(cached: nat) returns (d: OkDisk, name: seq<Byte>)
    requires cached > 0
    ensures Reaches(FsRun.Formatted(), cached, d) && Allowed(d, CreateOp(ROOT, name))
    ensures Create(d, cached, ROOT, name).1 && Bindings(Create(d, cached, ROOT, name).0, ROOT) == Bindings(d, ROOT)
  {
    var d1, x, f := ReachBrim(cached);
    var d2 := SealRoot(d1, cached, x, f);
    d := CutFile(d2, cached, x, f);
    ReachThen(FsRun.Formatted(), cached, d1, d2);
    ReachThen(FsRun.Formatted(), cached, d2, d);
    name := [NameChar(30)];
    SingleName(NameChar(30));
    RootUnbound(d, 30, 30);
    SomeClear(d.inodeUsed);
    CreateLaw(d, cached, ROOT, name);
    PackedFind(Slots(d, Node(d, ROOT)), PER_BLOCK);
    LostEntry(d, cached, ROOT, name);
  }

  // ----- using up the inodes

  /** A creation without a free block fails and leaves an inode marked. */
  lemma LeakInode(d: OkDisk, cached: nat, x: nat, f: nat) returns (e: OkDisk)
    requires Sealed(d, x, f) && cached > 0 && ClearFrom(d.inodeUsed, 0) > 0
    ensures Reaches(d, cached, e) && Sealed(e, x, f) && ClearFrom(e.inodeUsed, 0) == ClearFrom(d.inodeUsed, 0) - 1
  {
    var c := NameChar(30);
    SingleName(c);
    RootUnbound(d, 30, 30);
    SomeClear(d.inodeUsed);
    e := ReachStep(d, cached, CreateOp(ROOT, [c]));
    CreateIsEstablish(d, cached, ROOT, c);
    ReserveLaw(d);
    ClearFromUpdate(d.inodeUsed, 0, FirstClear(d.inodeUsed, 0), true);
    SealedStays(d, e, x, f);
  }

  lemma SealedStays(d: OkDisk, e: OkDisk, x: nat, f: nat)
    requires Sealed(d, x, f) && e == d.(inodeUsed := e.inodeUsed)
    ensures Sealed(e, x, f)
  {
    assert Slots(e, Node(e, ROOT)) == Slots(d, Node(d, ROOT));
    assert Slots(e, Node(e, x)) == Slots(d, Node(d, x));
  }

  lemma {:induction false} LeakAll(d: OkDisk, cached: nat, x: nat, f: nat) returns (e: OkDisk)
    requires Sealed(d, x, f) && cached > 0
    ensures Reaches(d, cached, e) && Sealed(e, x, f) && ClearFrom(e.inodeUsed, 0) == 0
    decreases ClearFrom(d.inodeUsed, 0)
  {
    if ClearFrom(d.inodeUsed, 0) == 0 {
      ReachSelf(d, cached);
      e := d;
    } else {
      var d1 := LeakInode(d, cached, x, f);
      e := LeakAll(d1, cached, x, f);
      ReachThen(d, cached, d1, e);
    }
  }

  /** A run reaches a disk with free blocks and no inode. */
  lemma ReachNoInode(cached: nat) returns (d: OkDisk)
    requires cached > 0
    ensures Reaches(FsRun.Formatted(), cached, d) && Tidy(d, ROOT, PER_BLOCK) && RootNames(d, 30)
    ensures ClearFrom(d.inodeUsed, 0) == 0 && ClearFrom(d.used, 0) > 0
  {
    var d1, x, f := ReachBrim(cached);
    var d2 := SealRoot(d1, cached, x, f);
    var d3 := LeakAll(d2, cached, x, f);
    d := CutFile(d3, cached, x, f);
    ReachThen(FsRun.Formatted(), cached, d1, d2);
    ReachThen(FsRun.Formatted(), cached, d2, d3);
    ReachThen(FsRun.Formatted(), cached, d3, d);
  }

  /** On that disk creating a file or a directory spoils the free-block counts. */
  lemma CreateBooksReached(cached: nat) returns (d: OkDisk, name: seq<Byte>)
    requires cached > 0
    ensures Reaches(FsRun.Formatted(), cached, d) && Open(d, ROOT) && Text(name) && Accepted(name)
    ensures !SpareInode(d) && ClearFrom(d.used, 0) > 0 && !Books(Create(d, cached, ROOT, name).0) && !Books(Mkdir(d, ROOT, name).0)
  {
    d := ReachNoInode(cached);
    name := [NameChar(30)];
    SingleName(NameChar(30));
    RootUnbound(d, 30, 30);
    SomeClear(d.inodeUsed);
    SomeClear(d.used);
    CreateIsEstablish(d, cached, ROOT, NameChar(30));
    EstablishSpoils(d, ROOT, Key1(NameChar(30)));
    MkdirSpoils(d, ROOT, name);
  }

  lemma MkdirSpoils(d: Disk, dir: nat, name: seq<Byte>)
    requires Books(d) && !Chargeable(d) && Number(dir) && CanExtend(d, dir) && Accepted(name)
    ensures !Books(Mkdir(d, dir, name).0)
  {
    MkdirBooks(d, dir, name);
  }

  lemma EstablishSpoils(d: Disk, dir: nat, key: Key)
    requires Books(d) && !Chargeable(d) && Number(dir) && CanExtend(d, dir)
    ensures !Books(Establish(d, dir, key).0)
  {
    UnchargedBooks(d, Reserve(d).0);
  }

  /** A run reaches a disk whose free-inode counts are wrong: on a disk without a free block a creation takes an inode. */
  lemma InodeCountsReached(cached: nat) returns (d: OkDisk)
    requires cached > 0
    ensures Reaches(FsRun.Formatted(), cached, d) && !InodeBooks(d)
  {
    var d1, x, f := ReachBrim(cached);
    var d2 := SealRoot(d1, cached, x, f);
    ReachThen(FsRun.Formatted(), cached, d1, d2);
    d := d2;
    if InodeBooks(d2) {
      d := Uncharged(d2, cached, x, f);
      ReachThen(FsRun.Formatted(), cached, d2, d);
    }
  }

  lemma Uncharged(d: OkDisk, cached: nat, x: nat, f: nat) returns (e: OkDisk)
    requires Sealed(d, x, f) && cached > 0 && ClearFrom(d.inodeUsed, 0) > 0 && InodeBooks(d)
    ensures Reaches(d, cached, e) && !InodeBooks(e)
  {
    var c := NameChar(30);
    SingleName(c);
    RootUnbound(d, 30, 30);
    SomeClear(d.inodeUsed);
    e := ReachStep(d, cached, CreateOp(ROOT, [c]));
    CreateIsEstablish(d, cached, ROOT, c);
    EstablishInodes(d, ROOT, Key1(c));
    ReserveInodes(d);
  }

  /** A run reaches a disk on which formatting again gives wrong books: a file whose inode lies behind the first block of
      the table keeps its block, which is marked free. */
  lemma ReformatReached(cached: nat) returns (d: OkDisk)
    requires cached > 0
    ensures Reaches(FsRun.Formatted(), cached, d) && !Books(FormatOver(d))
  {
    var d0, i := FsRun.Formatted(), 0;
    Start();
    RootStays(d0);
    RootUnbound(d0, 0, 0);
    d, i := CreateHere(d0, cached, ROOT, NameChar(0), 2);
    SecondTableBlock(d0);
    FormatOverBooks(d);
    assert d.table[i - 1].blocks == 1;
  }

  lemma SecondTableBlock(d: Disk)
    requires d.inodeUsed == UsedBits(INODES, 10)
    ensures FirstClear(d.inodeUsed, 0) == 10
  {
    FirstClearIs(d.inodeUsed, 0, 10);
  }

  // ----- a directory in a block that holds something else

  const LETTER: Byte := 0x41

  /** Two blocks of letters. */
  function Letters(): (buf: seq<Byte>)
    ensures |buf| == 2 * BLOCK_SIZE && forall k :: 0 <= k < |buf| ==> buf[k] == LETTER
  {
    seq(2 * BLOCK_SIZE, i => LETTER)
  }

  /** Writing two blocks over one takes the lowest free block and fills it with letters. */
  lemma SecondBlock(d: Disk, i: nat)
    requires Books(d) && Number(i) && Node(d, i).blocks == 1 && ClearFrom(d.used, 0) > 0
    ensures var e, x := Write(d, i, 0, Letters()).0, FirstClear(d.used, 0);
            && CanWrite(d, i, |Letters()|) && x < BLOCKS && DATA_BASE <= x
            && Node(e, i).blocks == 2 && Node(e, i).block[1] == x && e.data[x] == Chunk(1, 0, Letters())
            && forall k :: 0 <= k < x ==> e.used[k]
  {
    var node, x := Node(d, i), FirstClear(d.used, 0);
    var e := Write(d, i, 0, Letters()).0;
    assert BlockCount(|Letters()|) == 2;
    assert NodeOk(d.used, d.table[i - 1]);
    WriteRollsBack(d, i, 0, Letters());
    WriteLaw(d, i, 0, Letters());
    TakeLaw(d);
    var d1 := Charge(AllocBlock(d).0);
    assert Grow(d, node.block, 1, 2) == Grow(d1, node.block[1 := x], 2, 2);
    var m := NewNode(d, node, 2, |Letters()|);
    assert e.data == Fill(d.data, Blocks(m), 0, Letters()) && Node(e, i) == m;
    assert NodeOk(e.used, e.table[i - 1]);
    FillLaw(d.data, Blocks(m), 0, Letters());
    assert Blocks(m)[1] == x;
  }

  /** Writing one byte over two blocks gives the second one back as it is. */
  lemma DropsSecond(d: Disk, i: nat)
    requires Books(d) && Number(i) && Node(d, i).blocks == 2
    requires forall k :: 0 <= k < Node(d, i).block[1] ==> d.used[k]
    ensures var e, x := Write(d, i, 0, [0]).0, Node(d, i).block[1];
            CanWrite(d, i, 1) && x < BLOCKS && FirstClear(e.used, 0) == x && e.data[x] == d.data[x]
            && Surplus(Node(d, i), BlockCount(1)) == [x]
  {
    var node := Node(d, i);
    var e, x := Write(d, i, 0, [0]).0, node.block[1];
    assert NodeOk(d.used, d.table[i - 1]);
    assert BlockCount(1) == 1 && Blocks(node)[1] in Blocks(node) && Blocks(node)[0] != Blocks(node)[1];
    WriteRollsBack(d, i, 0, [0]);
    WriteLaw(d, i, 0, [0]);
    assert Surplus(node, 1) == [x];
    var m := NewNode(d, node, 1, 1);
    assert Blocks(m) == [node.block[0]];
    FillLaw(d.data, Blocks(m), 0, [0]);
    assert e.used == Cleared(d.used, [x]);
    FirstClearIs(e.used, 0, x);
  }

  /** Slots of letters bind a name that no new directory should bind. */
  lemma LetterSlots(d: Disk, b: BlockNo, room: bool, i: nat, dir: nat)
    requires d.data[b] == Chunk(1, 0, Letters())
    ensures !Unspoilt(RawSlots(d, b), room, i, dir) && d.data[b] != Zeros(BLOCK_SIZE)
  {
    var s := RawSlots(d, b);
    assert d.data[b][4] == ByteAt(0, Letters(), BLOCK_SIZE * 1 + 4) == LETTER;
    assert s[0] == EntryAt(d.data[b], 0) && Mark(s[0]) == LETTER && NameOf(s[0])[0] == LETTER;
    assert Live(s, 0);
    assert Pair(s[0]) in Pairs(s);
    assert Pair(s[0]).0[0] != DOT;
  }

  /** The run: create a file, write two blocks of letters, write one byte. */
  lemma StaleRun(cached: nat) returns (d: OkDisk, x: BlockNo)
    requires cached > 0
    ensures Reaches(FsRun.Formatted(), cached, d) && Tidy(d, ROOT, 3) && RootNames(d, 11)
    ensures FirstClear(d.used, 0) == x < BLOCKS && d.data[x] == Chunk(1, 0, Letters()) && ClearFrom(d.inodeUsed, 0) > 0 && !ZeroFree(d)
  {
    var d0, c := FsRun.Formatted(), NameChar(10);
    Start();
    RootStays(d0);
    RootUnbound(d0, 0, 10);
    var d1, i := CreateHere(d0, cached, ROOT, c, 2);
    TookCounts(d0, d1);
    FileIsFile(Node(d1, i).block[0]);
    assert RootNames(d0, 10);
    NamesGrow(d0, d1, 10, i);
    d, x := StaleWrites(d1, cached, c, i);
    ReachThen(d0, cached, d1, d);
  }

  lemma StaleWrites(d1: OkDisk, cached: nat, c: Byte, i: nat) returns (d: OkDisk, x: BlockNo)
    requires FileAt(d1, ROOT, c, i) && Node(d1, i).blocks == 1 && ClearFrom(d1.used, 0) > 0 && ZeroFree(d1)
    requires Tidy(d1, ROOT, 3) && RootNames(d1, 11)
    ensures Reaches(d1, cached, d) && Tidy(d, ROOT, 3) && RootNames(d, 11) && d.inodeUsed == d1.inodeUsed
    ensures FirstClear(d.used, 0) == x < BLOCKS && d.data[x] == Chunk(1, 0, Letters()) && !ZeroFree(d)
  {
    FileFound(d1, ROOT, c, i);
    SecondBlock(d1, i);
    var d2 := WriteHere(d1, cached, ROOT, c, i, Letters());
    WriteZeroes(d1, i, 0, Letters());
    assert Same(d1, d2, ROOT);
    SameTidy(d1, d2, ROOT, 3);
    x := Node(d2, i).block[1];
    DropsSecond(d2, i);
    d := WriteHere(d2, cached, ROOT, c, i, [0]);
    assert Same(d2, d, ROOT);
    SameTidy(d2, d, ROOT, 3);
    ReachThen(d1, cached, d2, d);
    LetterSlots(d2, x, true, ROOT, ROOT);
    WriteZeroes(d2, i, 0, [0]);
  }

  /** A call that succeeds, and whose new directory `i` binds something else than its dot entries. */
  ghost predicate Spoilt(r: (Disk, bool), i: nat, dir: nat)
    requires Number(i)
  {
    r.1 && Bindings(r.0, i) != DotPairs(i, dir)
  }

  /** A run reaches a disk whose lowest free block is not zero, and on which a new directory binds more than its dot entries. */
  lemma StaleMkdirReached(cached: nat) returns (d: OkDisk, name: seq<Byte>)
    requires cached > 0
    ensures Reaches(FsRun.Formatted(), cached, d) && !ZeroFree(d) && Open(d, ROOT) && SpareInode(d)
    ensures Spoilt(Mkdir(d, ROOT, name), FirstClear(d.inodeUsed, 0) + 1, ROOT)
  {
    var x;
    d, x := StaleRun(cached);
    name := [NameChar(11)];
    SomeClear(d.inodeUsed);
    SomeClear(d.used);
    RootUnbound(d, 11, 11);
    TidyBinds(d, ROOT, NameChar(11), 3);
    MkdirFrom(d, ROOT, NameChar(11));
    MadeSpoilt(d, Mkdir(d, ROOT, name), ROOT, FirstClear(d.inodeUsed, 0) + 1, name);
  }

  /** A new entry of `dir` finds its slot, and the block that goes with it holds letters. */
  ghost predicate StaleFor(d: Disk, dir: nat, name: seq<Byte>) {
    && Number(dir) && Binds(d, dir, name) && !MustGrow(Slots(d, Node(d, dir)))
    && FirstClear(d.used, 0) < BLOCKS && d.data[FirstClear(d.used, 0)] == Chunk(1, 0, Letters())
  }

  lemma MadeSpoilt(d: Disk, r: (Disk, bool), dir: nat, i: nat, name: seq<Byte>)
    requires Number(dir) && Number(i) && MadeFrom(d, r.0, dir, i, name, r.1) == true && StaleFor(d, dir, name)
    ensures Spoilt(r, i, dir)
  {
    LetterSlots(d, AllocBlock(d).1, RoomLeft(d, dir), i, dir);
  }
}

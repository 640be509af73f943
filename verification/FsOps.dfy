/** Files and directories as a tree: the invariant of the whole disk and the operations that keep it. */
module FsOps {
  import opened Bytes
  import opened Bits
  import opened Names
  import opened FsModel
  import opened FsWrite
  import opened FsDir
  import opened FsTree

  predicate IsDir(n: Inode) { n.mode / 0x4000 % 2 == 1 }

  /** A directory is told by bit 14 of its mode. */
  lemma DirIsBit(n: Inode)
    ensures IsDir(n) <==> BitAt(n.mode, 14)
  {
    HighBits(n.mode);
  }

  // ----- the invariant

  /** The inodes that the entries of directory `i` name, its dot entries aside. */
  ghost function Children(d: Disk, i: nat): set<nat>
    requires Number(i)
  {
    Refs(Slots(d, Node(d, i)))
  }

  /** An inode in use, other than the root. */
  predicate Known(d: Disk, c: nat) { Number(c) && c != ROOT && d.inodeUsed[c - 1] }

  ghost predicate GoodDir(d: Disk, i: nat)
    requires Number(i)
  {
    var n := Node(d, i);
    && n.blocks >= 1 && DirOk(Slots(d, n)) && RefsOk(Slots(d, n))
    && i !in Children(d, i) && forall c :: c in Children(d, i) ==> Known(d, c)
  }

  predicate Directory(d: Disk, i: nat) { Number(i) && IsDir(Node(d, i)) }

  /** Every directory is well formed, and every inode is named by at most one entry of at most one directory. */
  ghost predicate Tree(d: Disk) {
    && Directory(d, ROOT) && d.inodeUsed[ROOT - 1]
    && (forall i {:trigger GoodDir(d, i)} :: Directory(d, i) ==> GoodDir(d, i))
    && (forall i, j {:trigger Children(d, i), Children(d, j)} ::
          Directory(d, i) && Directory(d, j) && i != j ==> Children(d, i) !! Children(d, j))
  }

  predicate Fits(d: Disk, i: nat)
    requires Number(i)
  {
    var n := Node(d, i);
    && (!d.inodeUsed[i - 1] ==> n == NoInode())
    && Sized(n) && (!IsDir(n) ==> n.blocks <= DIRECT)
  }

  /** Free inodes are cleared, sizes fit the blocks, and files use direct blocks only. */
  ghost predicate Nodes(d: Disk) {
    forall i {:trigger Fits(d, i)} :: Number(i) ==> Fits(d, i)
  }

  ghost predicate FsOk(d: Disk) {
    Books(d) && Tree(d) && Nodes(d)
  }

  /** No entry of any directory names the inode. */
  ghost predicate Unreferenced(d: Disk, c: nat) {
    forall i :: Directory(d, i) ==> c !in Children(d, i)
  }

  /** Every inode but `i`, with its blocks, is the same on both disks. */
  ghost predicate OthersKept(d: Disk, e: Disk, i: nat) {
    forall j {:trigger Same(d, e, j)} :: Number(j) && j != i ==> Same(d, e, j)
  }

  /** Every inode but `i` and `k` is the same on both disks. */
  ghost predicate RestKept(d: Disk, e: Disk, i: nat, k: nat) {
    forall j {:trigger Same(d, e, j)} :: Number(j) && j != i && j != k ==> Same(d, e, j)
  }

  lemma RestChain(d: Disk, f: Disk, g: Disk, i: nat, k: nat)
    requires OthersKept(d, f, i) && OthersKept(f, g, k)
    ensures RestKept(d, g, i, k)
  {
    forall j | Number(j) && j != i && j != k ensures Same(d, g, j) { assert Same(d, f, j) && Same(f, g, j); }
  }

  lemma OthersChain(d: Disk, f: Disk, g: Disk, i: nat)
    requires OthersKept(d, f, i) && OthersKept(f, g, i)
    ensures OthersKept(d, g, i)
  {
    forall j | Number(j) && j != i ensures Same(d, g, j) { assert Same(d, f, j) && Same(f, g, j); }
  }

  /** A change of one inode is a change of two at most. */
  lemma OneOfTwo(d: Disk, e: Disk, i: nat, k: nat)
    requires OthersKept(d, e, i)
    ensures RestKept(d, e, i, k) && RestKept(d, e, k, i)
  {
  }

  lemma SameChildren(d: Disk, e: Disk, j: nat)
    requires Number(j) && Same(d, e, j)
    ensures Slots(d, Node(d, j)) == Slots(e, Node(e, j)) && Children(d, j) == Children(e, j)
    ensures Directory(d, j) == Directory(e, j)
  {
    SameSlots(d, e, Node(d, j));
  }

  /** The tree survives a change of one inode, if what it then names is in use and named by no other directory. */
  lemma TreeStep(d: Disk, e: Disk, i: nat)
    requires Tree(d) && Number(i) && OthersKept(d, e, i)
    requires forall j, c :: Directory(d, j) && j != i && c in Children(d, j) ==> Known(e, c)
    requires Directory(e, i) ==> GoodDir(e, i)
    requires Directory(e, i) ==> forall j :: Directory(d, j) && j != i ==> Children(e, i) !! Children(d, j)
    requires e.inodeUsed[ROOT - 1] && (i == ROOT ==> Directory(e, i))
    ensures Tree(e)
  {
    forall j | Number(j) && j != i
      ensures Directory(d, j) == Directory(e, j) && Children(e, j) == Children(d, j) && (Directory(d, j) ==> GoodDir(e, j))
    {
      SameChildren(d, e, j);
      assert Directory(d, j) ==> GoodDir(d, j);
    }
    assert Directory(d, ROOT);
  }

  lemma NodesStep(d: Disk, e: Disk, i: nat)
    requires Nodes(d) && Number(i) && OthersKept(d, e, i) && Fits(e, i)
    requires forall j :: 0 <= j < INODES && j != i - 1 ==> e.inodeUsed[j] == d.inodeUsed[j]
    ensures Nodes(e)
  {
    forall j | Number(j) ensures Fits(e, j) {
      assert j != i ==> Fits(d, j) && Same(d, e, j);
    }
  }

  /** Blocks that are free afterwards were free before, with the same contents. */
  ghost predicate KeepsFree(d: Disk, e: Disk) {
    forall b :: 0 <= b < BLOCKS && !e.used[b] ==> !d.used[b] && e.data[b] == d.data[b]
  }

  lemma OwnersKept(d: Disk, e: Disk, i: nat)
    requires Number(i) && OwnOk(d.used, d.table) && OnlyFile(d, e, i)
    ensures OthersKept(d, e, i)
  {
    assert forall j :: Number(j) && j != i ==> NodeOk(d.used, Node(d, j));
  }

  // ----- inserting an entry

  ghost function Bindings(d: Disk, i: nat): set<(Key, nat)>
    requires Number(i)
  {
    Pairs(Slots(d, Node(d, i)))
  }

  ghost predicate Unbound(d: Disk, dir: nat, key: Key)
    requires Number(dir)
  {
    forall p :: p in Bindings(d, dir) ==> p.0 != key
  }

  /** A directory that takes one more entry without a sixteenth block. */
  predicate Open(d: Disk, dir: nat) { Directory(d, dir) && CanExtend(d, dir) }

  /** The entry is a dot entry, or names an inode in use that no entry names yet. */
  ghost predicate Nameable(d: Disk, dir: nat, e: Entry) {
    && Mark(e) != FREE && Mark(e) != NO_MORE
    && (Mark(e) != DOT ==> Known(d, InodeOf(e)) && InodeOf(e) != dir && Unreferenced(d, InodeOf(e)))
  }

  /** The directory itself after an insertion. */
  lemma PlacedDir(d: Disk, f: Disk, dir: nat, e: Entry, ok: bool, room: bool)
    requires Number(dir) && GoodDir(d, dir) && Unbound(d, dir, NameOf(e)) && f.inodeUsed == d.inodeUsed
    requires Mark(e) != FREE && Mark(e) != NO_MORE
    requires Mark(e) != DOT ==> Known(d, InodeOf(e)) && InodeOf(e) != dir && InodeOf(e) !in Children(d, dir)
    requires (Slots(f, Node(f, dir)), ok) == FsDir.Place(Slots(d, Node(d, dir)), e, room)
    ensures GoodDir(f, dir)
    ensures Bindings(f, dir) == Bindings(d, dir) + if HasSlot(Slots(d, Node(d, dir))) then {Pair(e)} else {}
    ensures Children(f, dir) <= Children(d, dir) + if Mark(e) == DOT then {} else {InodeOf(e)}
  {
    var s, s' := Slots(d, Node(d, dir)), Slots(f, Node(f, dir));
    PlaceLaw(s, e, room);
    assert |s'| >= |s| > 0 by { PlaceShape(s, e, room); }
    assert Children(d, dir) == Refs(s) && Children(f, dir) == Refs(s');
    forall c | c in Refs(s') ensures Known(f, c) && c != dir { assert c in Refs(s) || c == InodeOf(e); }
  }

  lemma InsertKeepsTree(d: Disk, f: Disk, dir: nat, e: Entry)
    requires Tree(d) && Open(d, dir) && Nameable(d, dir, e) && f.inodeUsed == d.inodeUsed
    requires GoodDir(f, dir) && Directory(f, dir) && OthersKept(d, f, dir)
    requires Children(f, dir) <= Children(d, dir) + if Mark(e) == DOT then {} else {InodeOf(e)}
    ensures Tree(f)
  {
    forall j, c | Directory(d, j) && j != dir && c in Children(d, j) ensures Known(f, c) {
      assert GoodDir(d, j);
    }
    TreeStep(d, f, dir);
  }

  /** Two live slots have the name. */
  ghost predicate TwiceIn(s: seq<Entry>, key: Key) {
    exists a: nat, b: nat :: a < b < |s| && Live(s, a) && Live(s, b) && NameOf(s[a]) == key && NameOf(s[b]) == key
  }

  /** The directory binds the name twice. */
  ghost predicate BoundTwice(d: Disk, dir: nat, key: Key)
    requires Number(dir)
  {
    TwiceIn(Slots(d, Node(d, dir)), key)
  }

  lemma TwiceIsBad(d: Disk, dir: nat, key: Key)
    requires Directory(d, dir) && BoundTwice(d, dir, key)
    ensures !FsOk(d)
  {
    assert !DirOk(Slots(d, Node(d, dir)));
    assert !GoodDir(d, dir);
  }

  lemma PlacedTwice(s: seq<Entry>, e: Entry, room: bool, p: (Key, nat))
    requires DirShape(s) && Mark(e) != FREE && Mark(e) != NO_MORE && HasSlot(s) && p in Pairs(s) && p.0 == NameOf(e)
    ensures TwiceIn(FsDir.Place(s, e, room).0, NameOf(e))
  {
    var s' := FsDir.Place(s, e, room).0;
    PlaceShape(s, e, room);
    var k: nat :| Placed(s, s', k, e);
    var j: nat :| j < |s| && Live(s, j) && Pair(s[j]) == p;
    assert Live(s', j) && s'[j] == s[j] && Live(s', k);
    var a, b := if j < k then j else k, if j < k then k else j;
    assert Live(s', a) && Live(s', b) && NameOf(s'[a]) == NameOf(s'[b]) == NameOf(e);
  }

  /** An entry that finds a slot can be read there. */
  lemma EntryThere(s: seq<Entry>, s': seq<Entry>, room: bool, ok: bool, i: nat, key: Key, nameLen: nat)
    requires DirShape(s) && HasSlot(s) && key[0] != FREE && key[0] != NO_MORE && Number(i) && nameLen <= NAME_LEN
    requires (s', ok) == FsDir.Place(s, MakeEntry(i, key, nameLen), room)
    ensures Entered(s', key, i, nameLen)
  {
    var e := MakeEntry(i, key, nameLen);
    MakeLaw(i, key, nameLen);
    EntryLayout(i, key, nameLen);
    PlaceShape(s, e, room);
    var k: nat :| Placed(s, s', k, e);
  }

  /** What inserting any entry comes to: one pair is added if there is a slot for it, and no other file changes. */
  ghost predicate AnyInserted(d: Disk, f: Disk, dir: nat, e: Entry, ok: bool)
    requires Number(dir) && Books(d)
  {
    && Inserted(d, f, dir, e, ok) && Directory(f, dir) && OthersKept(d, f, dir) && KeepsFree(d, f)
    && Bindings(f, dir) == Bindings(d, dir) + (if HasSlot(Slots(d, Node(d, dir))) then {Pair(e)} else {})
    && (HasSlot(Slots(d, Node(d, dir))) && !Unbound(d, dir, NameOf(e)) ==> BoundTwice(f, dir, NameOf(e)))
  }

  lemma InsertAny(d: Disk, dir: nat, e: Entry)
    requires Books(d) && Open(d, dir) && DirShape(Slots(d, Node(d, dir))) && Mark(e) != FREE && Mark(e) != NO_MORE
    ensures var (f, ok) := Insert(d, dir, e); AnyInserted(d, f, dir, e, ok)
  {
    var (f, ok) := Insert(d, dir, e);
    InsertLaw(d, dir, e);
    AnyFrom(d, f, dir, e, ok);
  }

  lemma AnyFrom(d: Disk, f: Disk, dir: nat, e: Entry, ok: bool)
    requires Books(d) && Directory(d, dir) && DirShape(Slots(d, Node(d, dir))) && Mark(e) != FREE && Mark(e) != NO_MORE
    requires Inserted(d, f, dir, e, ok)
    ensures AnyInserted(d, f, dir, e, ok)
  {
    OwnersKept(d, f, dir);
    InsertedKeepsFree(d, f, dir, e, ok);
    PlacePairs(Slots(d, Node(d, dir)), e, ClearFrom(d.used, 0) > 0);
    InsertedTwice(d, f, dir, e, ok);
  }

  lemma InsertedTwice(d: Disk, f: Disk, dir: nat, e: Entry, ok: bool)
    requires Number(dir) && DirShape(Slots(d, Node(d, dir))) && Mark(e) != FREE && Mark(e) != NO_MORE
    requires (Slots(f, Node(f, dir)), ok) == FsDir.Place(Slots(d, Node(d, dir)), e, ClearFrom(d.used, 0) > 0)
    ensures HasSlot(Slots(d, Node(d, dir))) && !Unbound(d, dir, NameOf(e)) ==> BoundTwice(f, dir, NameOf(e))
  {
    if HasSlot(Slots(d, Node(d, dir))) && !Unbound(d, dir, NameOf(e)) {
      var p :| p in Bindings(d, dir) && p.0 == NameOf(e);
      PlacedTwice(Slots(d, Node(d, dir)), e, ClearFrom(d.used, 0) > 0, p);
    }
  }

  lemma InsertedKeepsFree(d: Disk, f: Disk, dir: nat, e: Entry, ok: bool)
    requires Books(d) && Number(dir) && Inserted(d, f, dir, e, ok)
    ensures KeepsFree(d, f)
  {
    assert NodeOk(f.used, f.table[dir - 1]);
  }

  /** The new entry can be read in its slot, with the length recorded for its name. */
  lemma InsertEntered(d: Disk, i: nat, dir: nat, key: Key, nameLen: nat)
    requires Books(d) && Open(d, dir) && DirShape(Slots(d, Node(d, dir))) && Number(i) && key[0] != FREE && key[0] != NO_MORE
    requires nameLen <= NAME_LEN
    ensures var f := Insert(d, dir, MakeEntry(i, key, nameLen)).0;
            HasSlot(Slots(d, Node(d, dir))) ==> Entered(Slots(f, Node(f, dir)), key, i, nameLen)
  {
    var x := MakeEntry(i, key, nameLen);
    MakeLaw(i, key, nameLen);
    InsertLaw(d, dir, x);
    if HasSlot(Slots(d, Node(d, dir))) {
      var (f, ok) := Insert(d, dir, x);
      EntryThere(Slots(d, Node(d, dir)), Slots(f, Node(f, dir)), ClearFrom(d.used, 0) > 0, ok, i, key, nameLen);
    }
  }

  /** Inserting a new entry keeps the invariant and adds one binding, if there is a slot for it. */
  lemma InsertOk(d: Disk, dir: nat, e: Entry)
    requires FsOk(d) && Open(d, dir) && Nameable(d, dir, e) && Unbound(d, dir, NameOf(e))
    ensures var (f, ok) := Insert(d, dir, e);
            && Inserted(d, f, dir, e, ok) && FsOk(f) && Directory(f, dir) && OthersKept(d, f, dir) && KeepsFree(d, f)
            && Bindings(f, dir) == Bindings(d, dir) + (if HasSlot(Slots(d, Node(d, dir))) then {Pair(e)} else {})
            && Children(f, dir) <= Children(d, dir) + if Mark(e) == DOT then {} else {InodeOf(e)}
  {
    var (f, ok) := Insert(d, dir, e);
    assert GoodDir(d, dir);
    InsertAny(d, dir, e);
    PlacedDir(d, f, dir, e, ok, ClearFrom(d.used, 0) > 0);
    InsertKeepsTree(d, f, dir, e);
    assert Fits(d, dir);
    PlaceShape(Slots(d, Node(d, dir)), e, ClearFrom(d.used, 0) > 0);
    NodesStep(d, f, dir);
  }

  // ----- reserving an inode and a block

  /** An inode and a block, both charged; number 0 if either is missing, and then nothing is given back. */
  function Reserve(d: Disk): (r: (Disk, nat, BlockNo))
    ensures r.1 <= INODES
  {
    var (d1, i) := AllocInode(d);
    var (d2, b) := AllocBlock(d1);
    if i == 0 || b == 0 then (d2, 0, 0) else (ChargeInode(Charge(d2)), i, b)
  }

  predicate SpareInode(d: Disk) { FirstClear(d.inodeUsed, 0) < INODES }

  /** A reservation takes the lowest free inode and block; without a free block the inode's bit stays set. */
  lemma ReserveLaw(d: Disk)
    requires FsOk(d) && SpareInode(d)
    ensures var (e, i, b) := Reserve(d);
            var k := FirstClear(d.inodeUsed, 0);
            && e == d.(used := e.used, sbFree := e.sbFree, gdFree := e.gdFree, inodeUsed := d.inodeUsed[k := true],
                       sbInodes := e.sbInodes, gdInodes := e.gdInodes)
            && (i == 0 <==> ClearFrom(d.used, 0) == 0)
            && (i == 0 ==> e == d.(inodeUsed := d.inodeUsed[k := true]))
            && (i != 0 ==> i == k + 1 && DATA_BASE <= b < BLOCKS && !d.used[b] && e.used == d.used[b := true])
            && Counted(e)
  {
    var (d1, i) := AllocInode(d);
    assert Counted(d1);
    TakeLaw(d1);
  }

  /** Setting bits of the bitmaps disturbs neither ownership nor the tree. */
  lemma MoreBits(d: Disk, e: Disk)
    requires OwnOk(d.used, d.table) && Tree(d) && e.table == d.table && e.data == d.data
    requires forall k :: 0 <= k < BLOCKS && d.used[k] ==> e.used[k]
    requires forall k :: 0 <= k < INODES && d.inodeUsed[k] ==> e.inodeUsed[k]
    ensures OwnOk(e.used, e.table) && Tree(e) && forall c :: Unreferenced(d, c) ==> Unreferenced(e, c)
  {
    forall i | 0 <= i < INODES ensures NodeOk(e.used, e.table[i]) { assert NodeOk(d.used, d.table[i]); }
    forall j | Number(j) ensures Children(e, j) == Children(d, j) && (Directory(d, j) ==> GoodDir(e, j)) {
      assert Slots(e, Node(e, j)) == Slots(d, Node(d, j));
      assert Directory(d, j) ==> GoodDir(d, j);
    }
  }

  /** What a reservation leaves behind: the invariant, an empty inode that nothing names and a block that nothing owns. */
  lemma ReserveOk(d: Disk)
    requires FsOk(d) && SpareInode(d)
    ensures var (e, i, b) := Reserve(d);
            && (i != 0 ==> b == FirstClear(d.used, 0))
            && FsOk(e) && e.table == d.table && e.data == d.data && KeepsFree(d, e)
            && (i != 0 ==> Number(i) && !d.inodeUsed[i - 1] && Known(e, i) && Unreferenced(e, i) && Node(e, i) == NoInode()
                           && DATA_BASE <= b < BLOCKS && !d.used[b] && e.used[b] && Unowned(e.table, b))
  {
    var (e, i, b) := Reserve(d);
    ReserveLaw(d);
    MoreBits(d, e);
    forall j | Number(j) ensures Fits(e, j) { assert Fits(d, j); }
    if i != 0 {
      ClearIsUnowned(d.used, d.table, b);
      assert Fits(d, i);
      assert Unreferenced(d, i) by {
        forall j | Directory(d, j) ensures i !in Children(d, j) { assert GoodDir(d, j); }
      }
    }
  }

  // ----- a new file or directory

  function OneBlock(mode: nat, b: BlockNo): Inode {
    Inode(mode, 0, 1, 0, NoInode().block[0 := b])
  }

  function NewFile(b: BlockNo): Inode { OneBlock(0x21FF, b) }

  function NewDir(b: BlockNo): Inode { OneBlock(0x41FF, b) }

  /** A new inode: its mode, no bytes, no flags, and one block, which was the lowest free one. */
  ghost predicate Starts(d: Disk, n: Inode, mode: nat) {
    && n.mode == mode && n.size == 0 && n.flags == 0 && n.blocks == 1
    && DATA_BASE <= n.block[0] && !d.used[n.block[0]] && (forall b :: 0 <= b < n.block[0] ==> d.used[b])
    && (forall k :: 1 <= k < N_BLOCKS ==> n.block[k] == 0)
  }

  lemma ZeroSlots(d: Disk, n: Inode)
    requires n.blocks == 1 && d.data[n.block[0]] == Zeros(BLOCK_SIZE)
    ensures Slots(d, n) == EmptySlots() && DirOk(Slots(d, n)) && RefsOk(Slots(d, n))
    ensures Pairs(Slots(d, n)) == {} && Refs(Slots(d, n)) == {}
    ensures HasSlot(Slots(d, n)) && Find(Slots(d, n), FreeKey(), 0) == |Slots(d, n)|
  {
    forall k | 0 <= k < PER_BLOCK ensures Slots(d, n)[k] == EmptySlots()[k] { }
    EndIs(Slots(d, n), 0, 0);
    FindFree(Slots(d, n), 0);
  }

  /** A used but empty inode becomes a file or an (empty) directory of one block that nobody owned. */
  lemma InstallOk(d: Disk, i: nat, n: Inode, b: BlockNo)
    requires FsOk(d) && Known(d, i) && Node(d, i) == NoInode() && Unowned(d.table, b)
    requires DATA_BASE <= b < BLOCKS && d.used[b] && (n == NewFile(b) || (n == NewDir(b) && d.data[b] == Zeros(BLOCK_SIZE)))
    ensures var e := SetNode(d, i, n);
            && FsOk(e) && OthersKept(d, e, i)
            && forall c :: Unreferenced(d, c) ==> Unreferenced(e, c)
  {
    var e := SetNode(d, i, n);
    assert Blocks(n) == [b];
    Adopt(d.used, d.table, e.used, i - 1, n);
    forall j, c | Directory(d, j) && j != i && c in Children(d, j) ensures Known(e, c) { assert GoodDir(d, j); }
    if IsDir(n) { ZeroSlots(e, n); }
    TreeStep(d, e, i);
    NodesStep(d, e, i);
    forall c, j | Unreferenced(d, c) && Directory(e, j) ensures c !in Children(e, j) {
      if j != i { SameChildren(d, e, j); }
    }
  }

  /** The length that `my_strnlen` gives: up to the first zero or space. */
  function NameLength(key: seq<Byte>): (n: nat)
    ensures n <= |key|
  {
    if key == [] || key[0] == 0 || key[0] == SPACE then 0 else 1 + NameLength(key[1..])
  }

  lemma {:induction false} NameLengthLaw(key: seq<Byte>)
    ensures var n := NameLength(key);
            && (forall k :: 0 <= k < n ==> key[k] != 0 && key[k] != SPACE)
            && (n < |key| ==> key[n] == 0 || key[n] == SPACE)
  {
    if key != [] && key[0] != 0 && key[0] != SPACE { NameLengthLaw(key[1..]); }
  }

  /** `fsCreate`; `cached` is the free-inode count read when the file system was mounted. */
  function Create(d: Disk, cached: nat, dir: nat, name: seq<Byte>): (r: (Disk, bool))
    requires Number(dir) && CanExtend(d, dir)
  {
    if cached == 0 || !Accepted(name) then (d, false)
    else
      var key := Stored(name);
      var s := Slots(d, Node(d, dir));
      if Find(s, Searched(key), 0) < |s| then (d, false) else Establish(d, dir, key)
  }

  /** The part of creation that changes the disk. Whether the entry found a slot is not looked at. */
  function Establish(d: Disk, dir: nat, key: Key): (r: (Disk, bool))
    requires Number(dir) && CanExtend(d, dir)
  {
    var (e, i, b) := Reserve(d);
    if i == 0 then (e, false)
    else
      var f := SetNode(e, i, NewFile(b));
      assert CanExtend(f, dir) by { if i != dir { ExtendSame(d, f, dir); } }
      (Insert(f, dir, MakeEntry(i, key, NameLength(key))).0, true)
  }

  /** A stored key formatted once more, as `fsCreate` does before it looks for the name, never looks like a marker, and
      is the stored key itself unless a lower-case twelfth character leaked into that. */
  lemma AgainKey(name: seq<Byte>)
    requires Text(name) && Accepted(name)
    ensures var key, again := Stored(name), Searched(Stored(name));
            && key[0] != FREE && key[0] != NO_MORE && again[0] != FREE && again[0] != NO_MORE
            && (!CaseLeak(name) || Dotted(name) ==> again == key)
  {
    KeyBytes(name);
    if Dotted(name) { ReformatDotted(name); } else { AgainRegular(name, Stored(name)); }
  }

  lemma AgainRegular(name: seq<Byte>, key: Key)
    requires Text(name) && Regular(name) && key == Stored(name)
    ensures Searched(key)[0] != FREE && Searched(key)[0] != NO_MORE && (!CaseLeak(name) ==> Searched(key) == key)
  {
    ReformatLaw(name);
    KeyClean(name, key);
    UpperFirst(key);
  }

  lemma KeyClean(name: seq<Byte>, key: Key)
    requires Text(name) && Accepted(name) && key == Stored(name)
    ensures key[0] > 1 && 0 !in key
  {
    KeyBytes(name);
    assert forall i :: 0 <= i < NAME_LEN ==> key[i] != 0;
  }

  lemma UpperFirst(key: Key)
    requires 0 !in key && key[0] > 1 && !Accepted(key)
    ensures Searched(key)[0] > 1 && Searched(key)[0] != FREE
  {
    IrregularKey(key);
    assert Upper(key)[0] == ToUpper(key[0]);
  }

  /** Creation does not notice that the stored key is bound, and binds it once more. */
  ghost predicate Doubles(d: Disk, dir: nat, name: seq<Byte>)
    requires Number(dir)
  {
    && Accepted(name) && !Unbound(d, dir, Stored(name)) && Unbound(d, dir, Searched(Stored(name)))
    && ClearFrom(d.used, 0) > 0 && HasSlot(Slots(d, Node(d, dir)))
  }

  /** Every block that is marked now was marked before, or belongs to one of the two inodes. */
  ghost predicate OnlyTheirs(d: Disk, e: Disk, dir: nat, i: nat)
    requires Number(dir) && Number(i)
  {
    forall b :: 0 <= b < BLOCKS ==> e.used[b] == (d.used[b] || b in Blocks(Node(e, dir)) || b in Blocks(Node(e, i)))
  }

  /** The effect of creating a file with inode `i`. */
  ghost predicate Created(d: Disk, e: Disk, dir: nat, i: nat, key: Key, ok: bool)
    requires Number(dir) && Number(i)
  {
    && Bindings(e, dir) == Bindings(d, dir) + (if ok && HasSlot(Slots(d, Node(d, dir))) then {(key, i)} else {})
    && (ok ==> i != dir && !d.inodeUsed[i - 1] && e.inodeUsed == d.inodeUsed[i - 1 := true] && Node(e, i) == NewFile(Node(e, i).block[0]))
    && (ok ==> Starts(d, Node(e, i), 0x21FF) && !IsDir(Node(e, i)) && Contents(e, Node(e, i)) == [])
    && (ok && HasSlot(Slots(d, Node(d, dir))) ==> Entered(Slots(e, Node(e, dir)), key, i, NameLength(key)))
    && RestKept(d, e, dir, i) && OnlyTheirs(d, e, dir, i)
    && (!ok ==> e == d.(inodeUsed := e.inodeUsed)) && KeepsFree(d, e)
  }

  /** The outcome of the part that changes the disk, on a key that may be bound already. */
  ghost predicate Established(d: Disk, e: Disk, dir: nat, key: Key, ok: bool)
    requires Number(dir) && SpareInode(d)
  {
    && Books(e) && Directory(e, dir) && Created(d, e, dir, FirstClear(d.inodeUsed, 0) + 1, key, ok)
    && (ok <==> ClearFrom(d.used, 0) > 0)
    && (!ok || Unbound(d, dir, key) || !HasSlot(Slots(d, Node(d, dir))) ==> FsOk(e))
    && (ok && !Unbound(d, dir, key) && HasSlot(Slots(d, Node(d, dir))) ==> BoundTwice(e, dir, key))
  }

  lemma EstablishLaw(d: Disk, dir: nat, key: Key)
    requires FsOk(d) && Open(d, dir) && SpareInode(d) && key[0] != FREE && key[0] != NO_MORE
    ensures Established(d, Establish(d, dir, key).0, dir, key, Establish(d, dir, key).1)
  {
    var (e, i, b) := Reserve(d);
    ReserveLaw(d);
    ReserveOk(d);
    if i != 0 {
      StartsNew(d, b, 0x21FF);
      Prepare(d, e, i, b, dir);
      FileEstablished(d, SetNode(e, i, NewFile(b)), i, dir, key);
    } else {
      NothingCreated(d, e, dir, key);
    }
  }

  lemma FileEstablished(d: Disk, f: Disk, i: nat, dir: nat, key: Key)
    requires Number(dir) && SpareInode(d) && i == FirstClear(d.inodeUsed, 0) + 1 && ClearFrom(d.used, 0) > 0
    requires Prepared(d, f, dir, i) && key[0] != FREE && key[0] != NO_MORE
    ensures Established(d, Insert(f, dir, MakeEntry(i, key, NameLength(key))).0, dir, key, true)
  {
    CreateInstall(d, f, i, dir, key);
    if Unbound(d, dir, key) || !HasSlot(Slots(d, Node(d, dir))) { CreateTree(d, f, i, dir, key); }
  }

  lemma UnchangedMarks(d: Disk, e: Disk, dir: nat, i: nat)
    requires Books(d) && Number(dir) && Number(i) && e.used == d.used && e.table == d.table
    ensures OnlyTheirs(d, e, dir, i)
  {
    assert NodeOk(d.used, d.table[dir - 1]) && NodeOk(d.used, d.table[i - 1]);
  }

  lemma NothingCreated(d: Disk, e: Disk, dir: nat, key: Key)
    requires Books(d) && Nodes(d) && Number(dir) && SpareInode(d) && e == d.(inodeUsed := e.inodeUsed)
    ensures Created(d, e, dir, FirstClear(d.inodeUsed, 0) + 1, key, false) && Directory(e, dir) == Directory(d, dir)
  {
    assert forall j :: Number(j) ==> Fits(d, j) && Node(d, j) == Node(e, j);
    UnchangedMarks(d, e, dir, FirstClear(d.inodeUsed, 0) + 1);
    assert Slots(d, Node(d, dir)) == Slots(e, Node(e, dir));
  }

  /** What a creation comes to, for every name. */
  ghost predicate CreateOutcome(d: Disk, e: Disk, cached: nat, dir: nat, name: seq<Byte>, ok: bool)
    requires Number(dir) && SpareInode(d)
  {
    && Books(e) && Directory(e, dir) && Created(d, e, dir, FirstClear(d.inodeUsed, 0) + 1, Stored(name), ok)
    && (ok <==> cached != 0 && Accepted(name) && Unbound(d, dir, Searched(Stored(name))) && ClearFrom(d.used, 0) > 0)
    && (FsOk(e) <==> cached == 0 || !Doubles(d, dir, name))
    && (cached != 0 && Doubles(d, dir, name) ==> BoundTwice(e, dir, Stored(name)))
  }

  /** Creating, for every name: succeeds exactly on an acceptable name whose key, formatted once more, is not bound, while
      a block is free, and then adds one binding if there is a slot for it. Every other file and directory is unchanged;
      a failure changes at most one bit of the inode bitmap. The invariant is kept exactly if no name is doubled. */
  lemma CreateLaw(d: Disk, cached: nat, dir: nat, name: seq<Byte>)
    requires FsOk(d) && Open(d, dir) && SpareInode(d) && Text(name)
    ensures CreateOutcome(d, Create(d, cached, dir, name).0, cached, dir, name, Create(d, cached, dir, name).1)
  {
    NothingCreated(d, d, dir, Stored(name));
    if cached != 0 && Accepted(name) {
      AgainKey(name);
      assert DirOk(Slots(d, Node(d, dir))) by { assert GoodDir(d, dir); }
      FindLaw(Slots(d, Node(d, dir)), Searched(Stored(name)));
      if Unbound(d, dir, Searched(Stored(name))) {
        EstablishLaw(d, dir, Stored(name));
        EstablishedOutcome(d, Establish(d, dir, Stored(name)).0, cached, dir, name, Establish(d, dir, Stored(name)).1);
      }
    }
  }

  lemma EstablishedOutcome(d: Disk, e: Disk, cached: nat, dir: nat, name: seq<Byte>, ok: bool)
    requires FsOk(d) && Directory(d, dir) && SpareInode(d) && Text(name) && cached != 0 && Accepted(name)
    requires Unbound(d, dir, Searched(Stored(name))) && Established(d, e, dir, Stored(name), ok)
    ensures CreateOutcome(d, e, cached, dir, name, ok)
  {
    if Doubles(d, dir, name) { TwiceIsBad(e, dir, Stored(name)); }
  }

  /** The disk with the new file's inode in place, before the directory gets its entry. */
  ghost predicate Prepared(d: Disk, f: Disk, dir: nat, i: nat) {
    && FsOk(f) && Open(f, dir) && i != dir && Known(f, i) && Unreferenced(f, i) && OthersKept(d, f, i) && KeepsFree(d, f)
    && !d.inodeUsed[i - 1] && f.inodeUsed == d.inodeUsed[i - 1 := true] && Node(f, i) == NewFile(Node(f, i).block[0])
    && Starts(d, Node(f, i), 0x21FF) && f.used == d.used[Node(f, i).block[0] := true]
    && Slots(f, Node(f, dir)) == Slots(d, Node(d, dir))
  }

  lemma StartsNew(d: Disk, b: BlockNo, mode: nat)
    requires DATA_BASE <= b == FirstClear(d.used, 0) < BLOCKS
    ensures Starts(d, OneBlock(mode, b), mode)
  {
  }

  lemma Prepare(d: Disk, e: Disk, i: nat, b: BlockNo, dir: nat)
    requires FsOk(e) && e.table == d.table && e.data == d.data && Open(e, dir) && i != dir && KeepsFree(d, e)
    requires Known(e, i) && Unreferenced(e, i) && Node(e, i) == NoInode()
    requires !d.inodeUsed[i - 1] && e.inodeUsed == d.inodeUsed[i - 1 := true]
    requires DATA_BASE <= b < BLOCKS && e.used == d.used[b := true] && Unowned(e.table, b) && Starts(d, NewFile(b), 0x21FF)
    ensures Prepared(d, SetNode(e, i, NewFile(b)), dir, i)
  {
    var f := SetNode(e, i, NewFile(b));
    InstallOk(e, i, NewFile(b), b);
    assert Slots(f, Node(f, dir)) == Slots(d, Node(d, dir));
    ExtendSame(e, f, dir);
  }

  /** The part of creation after the reservation. */
  lemma CreateInstall(d: Disk, f: Disk, i: nat, dir: nat, key: Key)
    requires Prepared(d, f, dir, i) && key[0] != FREE && key[0] != NO_MORE
    ensures var g := Insert(f, dir, MakeEntry(i, key, NameLength(key))).0;
            && Books(g) && Directory(g, dir) && Created(d, g, dir, i, key, true)
            && (HasSlot(Slots(d, Node(d, dir))) && !Unbound(d, dir, key) ==> BoundTwice(g, dir, key))
  {
    var x := MakeEntry(i, key, NameLength(key));
    MakeLaw(i, key, NameLength(key));
    assert DirShape(Slots(f, Node(f, dir))) by { assert GoodDir(f, dir); }
    InsertAny(f, dir, x);
    InsertEntered(f, i, dir, key, NameLength(key));
    var (g, ok) := Insert(f, dir, x);
    CreateFrom(d, f, g, i, dir, x, ok);
  }

  lemma CreateFrom(d: Disk, f: Disk, g: Disk, i: nat, dir: nat, x: Entry, ok: bool)
    requires Prepared(d, f, dir, i) && AnyInserted(f, g, dir, x, ok) && InodeOf(x) == i
    requires HasSlot(Slots(f, Node(f, dir))) ==> Entered(Slots(g, Node(g, dir)), NameOf(x), i, NameLength(NameOf(x)))
    ensures Books(g) && Directory(g, dir) && Created(d, g, dir, i, NameOf(x), true)
    ensures HasSlot(Slots(d, Node(d, dir))) && !Unbound(d, dir, NameOf(x)) ==> BoundTwice(g, dir, NameOf(x))
  {
    RestChain(d, f, g, i, dir);
    assert Same(f, g, i);
    assert Blocks(Node(g, i)) == [Node(f, i).block[0]];
  }

  lemma CreateTree(d: Disk, f: Disk, i: nat, dir: nat, key: Key)
    requires Prepared(d, f, dir, i) && key[0] != FREE && key[0] != NO_MORE
    requires Unbound(d, dir, key) || !HasSlot(Slots(d, Node(d, dir)))
    ensures FsOk(Insert(f, dir, MakeEntry(i, key, NameLength(key))).0)
  {
    MakeLaw(i, key, NameLength(key));
    if Unbound(d, dir, key) {
      InsertOk(f, dir, MakeEntry(i, key, NameLength(key)));
    } else {
      NoSlotNoChange(f, dir, MakeEntry(i, key, NameLength(key)));
    }
  }

  /** Without a slot nothing is written. */
  lemma NoSlotNoChange(d: Disk, dir: nat, e: Entry)
    requires Number(dir) && CanExtend(d, dir) && !HasSlot(Slots(d, Node(d, dir)))
    ensures Insert(d, dir, e) == (d, false)
  {
    HasSlotIs(Slots(d, Node(d, dir)));
    FindEnd(Slots(d, Node(d, dir)), 0);
  }

  // ----- a new directory

  function DotName(): Key { [DOT] + Spaces(10) }

  function DotDotName(): Key { [DOT, DOT] + Spaces(9) }

  /** The two dot entries of a new directory. */
  function Populate(d: Disk, i: nat, dir: nat): Disk
    requires Number(i) && Node(d, i).blocks == 1
  {
    var e := Insert(d, i, MakeEntry(i, DotName(), 0)).0;
    Insert(e, i, MakeEntry(dir, DotDotName(), 0)).0
  }

  /** `fsMkdir`; its caller has checked that the name is new. */
  function Mkdir(d: Disk, dir: nat, name: seq<Byte>): (r: (Disk, bool))
    requires Number(dir) && CanExtend(d, dir)
  {
    if !Accepted(name) then (d, false)
    else
      var (e, i, b) := Reserve(d);
      if i == 0 then (e, false) else ExtendSame(d, e, dir); Furnish(e, i, b, dir, Stored(name))
  }

  /** The part of making a directory that follows the reservation: the parent's entry comes first. */
  function Furnish(e: Disk, i: nat, b: BlockNo, dir: nat, key: Key): (r: (Disk, bool))
    requires Number(i) && Number(dir) && CanExtend(e, dir)
  {
    var (f, ok) := Insert(e, dir, MakeEntry(i, key, NAME_LEN));
    if !ok then (f, false) else (Populate(SetNode(f, i, NewDir(b)), i, dir), true)
  }

  /** A directory with room before its end: one more entry finds a slot and leaves room. */
  lemma InsertDot(d: Disk, i: nat, name: Key, ino: nat)
    requires FsOk(d) && Directory(d, i) && Node(d, i).blocks < N_BLOCKS && name[0] == DOT && ino < 0x1_0000_0000 && Unbound(d, i, name)
    requires End(Slots(d, Node(d, i)), 0) + 1 < |Slots(d, Node(d, i))|
    ensures var e := Insert(d, i, MakeEntry(ino, name, 0)).0;
            && FsOk(e) && OthersKept(d, e, i) && Directory(e, i) && Node(e, i).blocks < N_BLOCKS && e.inodeUsed == d.inodeUsed && KeepsFree(d, e)
            && Bindings(e, i) == Bindings(d, i) + {(name, ino)}
            && End(Slots(e, Node(e, i)), 0) <= End(Slots(d, Node(d, i)), 0) + 1 && Node(e, i) == Node(d, i)
  {
    var x := MakeEntry(ino, name, 0);
    MakeLaw(ino, name, 0);
    assert DirOk(Slots(d, Node(d, i))) by { assert GoodDir(d, i); }
    InsertOk(d, i, x);
    PlaceEnd(Slots(d, Node(d, i)), x, ClearFrom(d.used, 0) > 0);
  }

  lemma PopulateLaw(d: Disk, i: nat, dir: nat)
    requires FsOk(d) && Directory(d, i) && Number(dir) && Node(d, i).blocks == 1 && Slots(d, Node(d, i)) == EmptySlots()
    ensures var e := Populate(d, i, dir);
            && FsOk(e) && OthersKept(d, e, i) && Directory(e, i) && e.inodeUsed == d.inodeUsed && KeepsFree(d, e)
            && Bindings(e, i) == {(DotName(), i), (DotDotName(), dir)} && Node(e, i) == Node(d, i)
  {
    EndIs(EmptySlots(), 0, 0);
    InsertDot(d, i, DotName(), i);
    var e := Insert(d, i, MakeEntry(i, DotName(), 0)).0;
    assert Bindings(e, i) == {(DotName(), i)};
    assert Node(e, i).blocks == 1;
    SecondDot(e, i, dir);
    var f := Populate(d, i, dir);
    forall j | Number(j) && j != i ensures Same(d, f, j) { assert Same(d, e, j) && Same(e, f, j); }
  }

  lemma SecondDot(e: Disk, i: nat, dir: nat)
    requires FsOk(e) && Directory(e, i) && Node(e, i).blocks < N_BLOCKS && Number(dir) && Bindings(e, i) == {(DotName(), i)}
    requires End(Slots(e, Node(e, i)), 0) + 1 < |Slots(e, Node(e, i))|
    ensures var f := Insert(e, i, MakeEntry(dir, DotDotName(), 0)).0;
            && FsOk(f) && OthersKept(e, f, i) && Directory(f, i) && f.inodeUsed == e.inodeUsed && KeepsFree(e, f)
            && Bindings(f, i) == {(DotName(), i), (DotDotName(), dir)} && Node(f, i) == Node(e, i)
  {
    assert DotName()[1] != DotDotName()[1];
    InsertDot(e, i, DotDotName(), dir);
  }

  /** The block that the new directory will get holds only zeros. */
  predicate NextBlockZero(d: Disk) {
    var k := FirstClear(d.used, 0); k == BLOCKS || d.data[k] == Zeros(BLOCK_SIZE)
  }

  /** The effect of making a directory with inode `i`: the parent's binding, the two entries of the new directory,
      and every other file and directory unchanged. */
  ghost predicate Made(d: Disk, e: Disk, dir: nat, i: nat, key: Key, ok: bool, bound: bool)
    requires Number(dir) && Number(i)
  {
    && Bindings(e, dir) == Bindings(d, dir) + (if bound then {(key, i)} else {})
    && (bound ==> Entered(Slots(e, Node(e, dir)), key, i, NAME_LEN))
    && (ok ==> Directory(e, i) && Bindings(e, i) == {(DotName(), i), (DotDotName(), dir)} && Starts(d, Node(e, i), 0x41FF))
    && (!ok ==> Node(e, i) == NoInode())
    && RestKept(d, e, dir, i)
  }

  /** The parent gets an entry for the new directory: an acceptable name, a free block and a slot. */
  ghost predicate Binds(d: Disk, dir: nat, name: seq<Byte>)
    requires Number(dir)
  {
    Accepted(name) && ClearFrom(d.used, 0) > 0 && HasSlot(Slots(d, Node(d, dir)))
  }

  /** It gets one for a name that it already binds, which `fsMkdir` does not look at. */
  ghost predicate Rebinds(d: Disk, dir: nat, name: seq<Byte>)
    requires Number(dir)
  {
    Binds(d, dir, name) && !Unbound(d, dir, Stored(name))
  }

  /** What making a directory comes to, if the block taken is zero and the name new, given whether the parent binds it. */
  ghost predicate MadeOutcome(d: Disk, e: Disk, dir: nat, key: Key, ok: bool, bound: bool)
    requires Number(dir) && SpareInode(d)
  {
    && Directory(e, dir) && KeepsFree(d, e)
    && Made(d, e, dir, FirstClear(d.inodeUsed, 0) + 1, key, ok, bound)
    && (ok <==> bound && (MustGrow(Slots(d, Node(d, dir))) ==> ClearFrom(d.used, 0) > 1))
  }

  ghost predicate MkdirOutcome(d: Disk, e: Disk, dir: nat, name: seq<Byte>, ok: bool)
    requires Number(dir) && SpareInode(d)
  {
    MadeOutcome(d, e, dir, Stored(name), ok, Binds(d, dir, name))
  }

  /** Making a directory: the exact conditions for success and for the new binding.
      If the parent has to grow and cannot, the call fails but the binding is there, naming a cleared inode. */
  lemma MkdirLaw(d: Disk, dir: nat, name: seq<Byte>)
    requires FsOk(d) && Open(d, dir) && SpareInode(d) && Text(name) && NextBlockZero(d) && !Rebinds(d, dir, name)
    ensures FsOk(Mkdir(d, dir, name).0) && MkdirOutcome(d, Mkdir(d, dir, name).0, dir, name, Mkdir(d, dir, name).1)
  {
    var (e, i, b) := Reserve(d);
    ReservedFor(d, dir);
    if !Accepted(name) {
      NoneMade(d, d, dir, name);
    } else if i == 0 {
      NoneMade(d, e, dir, name);
    } else {
      KeyBytes(name);
      MadeInZeros(d, e, i, b, dir, name);
    }
  }

  /** An inode and a block set aside for a new entry of `dir`. Contracts compare this with `true`, so that it is passed on
      as a single fact. */
  ghost predicate Reserved(d: Disk, e: Disk, i: nat, b: BlockNo, dir: nat) {
    && FsOk(e) && e.table == d.table && e.data == d.data && Open(e, dir) && i == FirstClear(d.inodeUsed, 0) + 1 != dir
    && Known(e, i) && Unreferenced(e, i) && Node(e, i) == NoInode()
    && DATA_BASE <= b == AllocBlock(d).1 < BLOCKS && !d.used[b] && e.used == d.used[b := true] && Unowned(e.table, b)
    && e.inodeUsed == d.inodeUsed[i - 1 := true]
  }

  lemma ReservedFor(d: Disk, dir: nat)
    requires FsOk(d) && Open(d, dir) && SpareInode(d)
    ensures var (e, i, b) := Reserve(d);
            && (i != 0 ==> Reserved(d, e, i, b, dir) == true && ClearFrom(d.used, 0) > 0)
            && (i == 0 ==> FsOk(e) && e.table == d.table && e.data == d.data && e.used == d.used && ClearFrom(d.used, 0) == 0
                           && e.inodeUsed == d.inodeUsed[FirstClear(d.inodeUsed, 0) := true])
  {
    ReserveLaw(d);
    ReserveOk(d);
  }

  lemma NoneMade(d: Disk, e: Disk, dir: nat, name: seq<Byte>)
    requires Nodes(d) && Directory(d, dir) && SpareInode(d) && e.table == d.table && e.data == d.data && e.used == d.used
    requires !Binds(d, dir, name)
    ensures MkdirOutcome(d, e, dir, name, false)
  {
    NothingMade(d, e, dir, Stored(name));
  }

  lemma MadeInZeros(d: Disk, e: Disk, i: nat, b: BlockNo, dir: nat, name: seq<Byte>)
    requires Number(dir) && SpareInode(d) && Reserved(d, e, i, b, dir) == true && d.data[b] == Zeros(BLOCK_SIZE)
    requires Accepted(name) && !Rebinds(d, dir, name) && ClearFrom(d.used, 0) > 0
    requires Stored(name)[0] != FREE && Stored(name)[0] != NO_MORE
    ensures var r := Furnish(e, i, b, dir, Stored(name)); FsOk(r.0) && MkdirOutcome(d, r.0, dir, name, r.1)
  {
    FurnishLaw(d, e, i, b, dir, Stored(name));
    ReservedUse(d, e, i, b, dir);
    var r := Furnish(e, i, b, dir, Stored(name));
    FurnishedOutcome(d, e, r.0, dir, i, Stored(name), r.1);
    assert Binds(d, dir, name) == HasSlot(Slots(d, Node(d, dir)));
  }

  lemma ReservedUse(d: Disk, e: Disk, i: nat, b: BlockNo, dir: nat)
    requires Reserved(d, e, i, b, dir) == true
    ensures KeepsFree(d, e) && ClearFrom(d.used, 0) == ClearFrom(e.used, 0) + 1
  {
    ClearFromUpdate(d.used, 0, b, true);
  }

  /** The same for the part after the reservation, from the disk `e` that this leaves. */
  ghost predicate FurnishOutcome(d: Disk, e: Disk, g: Disk, dir: nat, i: nat, key: Key, ok: bool)
    requires Number(dir) && Number(i)
  {
    var s := Slots(d, Node(d, dir));
    && Directory(g, dir) && KeepsFree(e, g) && Made(d, g, dir, i, key, ok, HasSlot(s))
    && (ok <==> HasSlot(s) && (MustGrow(s) ==> ClearFrom(e.used, 0) > 0))
  }

  lemma FurnishedOutcome(d: Disk, e: Disk, g: Disk, dir: nat, i: nat, key: Key, ok: bool)
    requires Number(dir) && SpareInode(d) && i == FirstClear(d.inodeUsed, 0) + 1 && KeepsFree(d, e) && ClearFrom(d.used, 0) == ClearFrom(e.used, 0) + 1
    requires FurnishOutcome(d, e, g, dir, i, key, ok)
    ensures MadeOutcome(d, g, dir, key, ok, HasSlot(Slots(d, Node(d, dir))))
  {
    FreeChain(d, e, g);
  }

  lemma FreeChain(d: Disk, e: Disk, g: Disk)
    requires KeepsFree(d, e) && KeepsFree(e, g)
    ensures KeepsFree(d, g)
  {
  }

  lemma NothingMade(d: Disk, e: Disk, dir: nat, key: Key)
    requires Nodes(d) && Number(dir) && SpareInode(d) && e.table == d.table && e.data == d.data
    ensures Made(d, e, dir, FirstClear(d.inodeUsed, 0) + 1, key, false, false) && Directory(e, dir) == Directory(d, dir)
  {
    assert forall j :: Number(j) ==> Fits(d, j);
    assert Fits(d, FirstClear(d.inodeUsed, 0) + 1);
    assert Slots(d, Node(d, dir)) == Slots(e, Node(e, dir));
  }

  /** The disk `f` with the parent's new entry, before the new directory exists, whether or not its name is new. */
  ghost predicate ParentBound(d: Disk, e: Disk, f: Disk, i: nat, b: BlockNo, dir: nat, key: Key, ok: bool)
    requires Number(dir) && b < BLOCKS
  {
    var s := Slots(d, Node(d, dir));
    && (ok <==> HasSlot(s) && (MustGrow(s) ==> ClearFrom(e.used, 0) > 0))
    && Books(f) && Directory(f, dir) && OthersKept(d, f, dir) && KeepsFree(e, f) && f.inodeUsed == e.inodeUsed
    && Bindings(f, dir) == Bindings(d, dir) + (if HasSlot(s) then {(key, i)} else {})
    && (HasSlot(s) && !Unbound(d, dir, key) ==> BoundTwice(f, dir, key))
    && f.used[b] && Unowned(f.table, b) && f.data[b] == e.data[b]
    && (HasSlot(s) ==> Entered(Slots(f, Node(f, dir)), key, i, NAME_LEN))
    && (forall c :: 0 <= c < BLOCKS ==> f.used[c] == (e.used[c] || c in Blocks(Node(f, dir))))
  }

  lemma MkdirBind(d: Disk, e: Disk, i: nat, b: BlockNo, dir: nat, key: Key)
    requires Books(e) && e.table == d.table && e.data == d.data && Open(e, dir) && DirShape(Slots(e, Node(e, dir)))
    requires Number(i) && b < BLOCKS && e.used[b] && Unowned(e.table, b) && key[0] != FREE && key[0] != NO_MORE
    ensures var r := Insert(e, dir, MakeEntry(i, key, NAME_LEN)); ParentBound(d, e, r.0, i, b, dir, key, r.1)
  {
    var x := MakeEntry(i, key, NAME_LEN);
    MakeLaw(i, key, NAME_LEN);
    InsertAny(e, dir, x);
    InsertEntered(e, i, dir, key, NAME_LEN);
    var (f, ok) := Insert(e, dir, x);
    BoundFrom(d, e, f, i, b, dir, x, ok);
  }

  lemma BoundFrom(d: Disk, e: Disk, f: Disk, i: nat, b: BlockNo, dir: nat, x: Entry, ok: bool)
    requires Books(e) && e.table == d.table && e.data == d.data && Directory(e, dir) && DirShape(Slots(e, Node(e, dir)))
    requires b < BLOCKS && e.used[b] && Unowned(e.table, b) && Mark(x) != FREE && Mark(x) != NO_MORE && InodeOf(x) == i
    requires AnyInserted(e, f, dir, x, ok) && (HasSlot(Slots(e, Node(e, dir))) ==> Entered(Slots(f, Node(f, dir)), NameOf(x), i, NAME_LEN))
    ensures ParentBound(d, e, f, i, b, dir, NameOf(x), ok)
  {
    assert Slots(d, Node(d, dir)) == Slots(e, Node(e, dir));
    PlaceShape(Slots(e, Node(e, dir)), x, ClearFrom(e.used, 0) > 0);
    forall j | Number(j) && j != dir ensures Same(d, f, j) { assert Same(e, f, j); }
    StillUnowned(e, f, dir, b);
  }

  /** It keeps the tree if the name is new or finds no slot. */
  lemma MkdirBindTree(d: Disk, e: Disk, i: nat, dir: nat, key: Key)
    requires FsOk(e) && e.table == d.table && e.data == d.data && Open(e, dir) && i != dir && Known(e, i) && Unreferenced(e, i)
    requires key[0] != FREE && key[0] != NO_MORE && (Unbound(d, dir, key) || !HasSlot(Slots(d, Node(d, dir))))
    ensures FsOk(Insert(e, dir, MakeEntry(i, key, NAME_LEN)).0)
  {
    var x := MakeEntry(i, key, NAME_LEN);
    MakeLaw(i, key, NAME_LEN);
    assert Slots(d, Node(d, dir)) == Slots(e, Node(e, dir));
    if Unbound(d, dir, key) { InsertOk(e, dir, x); } else { NoSlotNoChange(e, dir, x); }
  }

  lemma FurnishLaw(d: Disk, e: Disk, i: nat, b: BlockNo, dir: nat, key: Key)
    requires Reserved(d, e, i, b, dir) && d.data[b] == Zeros(BLOCK_SIZE)
    requires key[0] != FREE && key[0] != NO_MORE && (Unbound(d, dir, key) || !HasSlot(Slots(d, Node(d, dir))))
    ensures var r := Furnish(e, i, b, dir, key); FsOk(r.0) && FurnishOutcome(d, e, r.0, dir, i, key, r.1)
  {
    assert DirShape(Slots(e, Node(e, dir))) by { assert GoodDir(e, dir); }
    MkdirBind(d, e, i, b, dir, key);
    MkdirBindTree(d, e, i, dir, key);
    var (f, ok) := Insert(e, dir, MakeEntry(i, key, NAME_LEN));
    StartsNew(d, b, 0x41FF);
    if ok { FurnishGoesOn(d, e, f, i, b, dir, key); } else { FurnishStops(d, e, f, i, b, dir, key); }
  }

  lemma FurnishStops(d: Disk, e: Disk, f: Disk, i: nat, b: BlockNo, dir: nat, key: Key)
    requires Number(dir) && Number(i) && i != dir && Node(d, i) == NoInode() && b < BLOCKS
    requires ParentBound(d, e, f, i, b, dir, key, false)
    ensures FurnishOutcome(d, e, f, dir, i, key, false)
  {
    OneOfTwo(d, f, dir, i);
    assert Same(d, f, i);
  }

  lemma FurnishGoesOn(d: Disk, e: Disk, f: Disk, i: nat, b: BlockNo, dir: nat, key: Key)
    requires Number(dir) && i != dir && Known(f, i) && Node(d, i) == NoInode() && FsOk(f)
    requires DATA_BASE <= b < BLOCKS && e.data[b] == Zeros(BLOCK_SIZE) && ParentBound(d, e, f, i, b, dir, key, true)
    requires Starts(d, NewDir(b), 0x41FF)
    ensures var g := Populate(SetNode(f, i, NewDir(b)), i, dir); FsOk(g) && FurnishOutcome(d, e, g, dir, i, key, true)
  {
    assert Same(d, f, i);
    MkdirFill(f, i, b, dir);
    FilledOutcome(d, e, f, Populate(SetNode(f, i, NewDir(b)), i, dir), i, b, dir, key);
  }

  lemma FilledOutcome(d: Disk, e: Disk, f: Disk, g: Disk, i: nat, b: BlockNo, dir: nat, key: Key)
    requires Number(dir) && Number(i) && b < BLOCKS && ParentBound(d, e, f, i, b, dir, key, true) && Filled(f, g, i, b, dir)
    requires Starts(d, NewDir(b), 0x41FF)
    ensures FurnishOutcome(d, e, g, dir, i, key, true)
  {
    RestChain(d, f, g, dir, i);
  }

  /** A block that is in use but has no owner keeps its contents and stays without owner. */
  lemma StillUnowned(e: Disk, f: Disk, dir: nat, b: BlockNo)
    requires Number(dir) && Books(e) && Books(f) && OnlyFile(e, f, dir) && OthersKept(e, f, dir)
    requires b < BLOCKS && e.used[b] && Unowned(e.table, b)
    requires forall c :: c in Blocks(Node(f, dir)) ==> c in Blocks(Node(e, dir)) || !e.used[c]
    ensures Unowned(f.table, b) && f.data[b] == e.data[b]
  {
    forall k | 0 <= k < |f.table| ensures b !in Blocks(f.table[k]) {
      assert k + 1 != dir ==> Same(e, f, k + 1);
      assert b !in Blocks(e.table[k]);
    }
  }

  /** The new directory in its block of zeros. */
  ghost predicate Filled(f: Disk, g: Disk, i: nat, b: BlockNo, dir: nat)
    requires Number(dir) && Number(i)
  {
    && Node(g, i) == NewDir(b) && Node(g, dir) == Node(f, dir) && Slots(g, Node(g, dir)) == Slots(f, Node(f, dir))
    && Directory(g, dir) && Directory(g, i) && KeepsFree(f, g) && OthersKept(f, g, i)
    && Bindings(g, dir) == Bindings(f, dir) && Bindings(g, i) == {(DotName(), i), (DotDotName(), dir)}
  }

  lemma MkdirFill(f: Disk, i: nat, b: BlockNo, dir: nat)
    requires FsOk(f) && Directory(f, dir) && i != dir && Known(f, i) && Node(f, i) == NoInode()
    requires DATA_BASE <= b < BLOCKS && f.used[b] && Unowned(f.table, b) && f.data[b] == Zeros(BLOCK_SIZE)
    ensures var g := Populate(SetNode(f, i, NewDir(b)), i, dir); FsOk(g) && Filled(f, g, i, b, dir)
  {
    var h := SetNode(f, i, NewDir(b));
    InstallOk(f, i, NewDir(b), b);
    ZeroSlots(h, NewDir(b));
    PopulateLaw(h, i, dir);
    var g := Populate(h, i, dir);
    OthersChain(f, h, g, i);
    assert Same(f, g, dir);
    SameChildren(f, g, dir);
  }
}

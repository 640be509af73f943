/** Formatting, and whole runs of file-system operations. */
module FsRun {
  import opened Bytes
  import opened Bits
  import opened Names
  import opened FsModel
  import opened FsWrite
  import opened FsDir
  import opened FsTree
  import opened FsOps
  import opened FsRemove

  // ----- format

  /** The first block of the root directory: both dot entries name the root, then the terminator. */
  function RootBlock(): Block {
    SetEntry(SetEntry(Zeros(BLOCK_SIZE), 0, MakeEntry(ROOT, DotDotName(), 2)), 1, MakeEntry(ROOT, DotName(), 1))
  }

  function RootInode(): Inode { OneBlock(0x41FF, DATA_BASE) }

  function UsedBits(n: nat, m: nat): (s: seq<bool>)
    requires m <= n
    ensures |s| == n
  {
    seq(n, k => k < m)
  }

  /** A freshly formatted disk. The free-inode count allows for eleven reserved inodes, the bitmap for ten. */
  function NewDisk(): Disk {
    Disk(BLOCKS - DATA_BASE - 1, BLOCKS - DATA_BASE - 1, INODES - 11, INODES - 11,
         UsedBits(BLOCKS, DATA_BASE + 1), UsedBits(INODES, 10),
         Blank().table[ROOT - 1 := RootInode()], Blank().data[DATA_BASE := RootBlock()])
  }

  /** What formatting leaves on any storage: the counts, bitmaps, root block and the first block of the inode table are
      written; the other inodes and data blocks stay as they are. */
  function FormatOver(d: Disk): Disk {
    Disk(BLOCKS - DATA_BASE - 1, BLOCKS - DATA_BASE - 1, INODES - 11, INODES - 11,
         UsedBits(BLOCKS, DATA_BASE + 1), UsedBits(INODES, 10), TableOver(d.table), d.data[DATA_BASE := RootBlock()])
  }

  const INODES_PER_BLOCK: nat := 8

  /** Inode number `k + 1` after formatting, given what it was. */
  function Initial(k: nat, n: Inode): Inode {
    if k == ROOT - 1 then RootInode() else if k < INODES_PER_BLOCK then NoInode() else n
  }

  function TableOver(table: seq<Inode>): (r: seq<Inode>)
    ensures |r| == |table|
  {
    seq<Inode>(|table|, k requires 0 <= k < |table| => Initial(k, table[k]))
  }

  /** On storage that was never used this is the formatted disk of the runs below. */
  lemma FormatOverBlank()
    ensures FormatOver(Blank()) == NewDisk()
  {
    assert TableOver(Blank().table) == NewDisk().table;
  }

  lemma HasMember<T>(s: seq<T>)
    ensures |s| == 0 || exists x :: x in s
  {
    if |s| > 0 { assert s[0] in s; }
  }

  /** Formatting storage in use gives right books exactly if no inode beyond the first block of the table lists a block. */
  lemma FormatOverBooks(d: Disk)
    ensures Books(FormatOver(d)) <==> forall k :: INODES_PER_BLOCK <= k < INODES ==> d.table[k].blocks == 0
  {
    if Books(FormatOver(d)) { BooksListNone(d); }
    if forall k :: INODES_PER_BLOCK <= k < INODES ==> d.table[k].blocks == 0 { ListNoneBooks(d); }
  }

  lemma BooksListNone(d: Disk)
    requires Books(FormatOver(d))
    ensures forall k :: INODES_PER_BLOCK <= k < INODES ==> d.table[k].blocks == 0
  {
    var e := FormatOver(d);
    assert Blocks(RootInode()) == [DATA_BASE];
    forall k | INODES_PER_BLOCK <= k < INODES ensures d.table[k].blocks == 0 {
      assert NodeOk(e.used, e.table[k]) && Apart(e.table[k], e.table[ROOT - 1]);
      assert forall b :: b !in Blocks(e.table[k]);
      HasMember(Blocks(e.table[k]));
    }
  }

  lemma ListNoneBooks(d: Disk)
    requires forall k :: INODES_PER_BLOCK <= k < INODES ==> d.table[k].blocks == 0
    ensures Books(FormatOver(d))
  {
    var e := FormatOver(d);
    UsedBitsCount(BLOCKS, DATA_BASE + 1, 0);
    assert Blocks(RootInode()) == [DATA_BASE];
    assert forall k :: 0 <= k < INODES && k != ROOT - 1 ==> Blocks(e.table[k]) == [];
    assert OwnOk(e.used, e.table);
  }

  lemma {:induction false} UsedBitsCount(n: nat, m: nat, i: nat)
    requires m <= n && i <= n
    ensures ClearFrom(UsedBits(n, m), i) == if i <= m then n - m else n - i
    decreases n - i
  {
    if i < n { UsedBitsCount(n, m, i + 1); }
  }

  /** The slots of a new root directory. */
  function RootSlot(k: nat): Entry {
    if k == 0 then MakeEntry(ROOT, DotDotName(), 2) else if k == 1 then MakeEntry(ROOT, DotName(), 1) else Zeros(ENTRY)
  }

  lemma RootSlotAt(k: nat)
    requires k < PER_BLOCK
    ensures EntryAt(RootBlock(), k) == RootSlot(k)
  {
    SetEntryLaw(Zeros(BLOCK_SIZE), 0, RootSlot(0), k);
    SetEntryLaw(SetEntry(Zeros(BLOCK_SIZE), 0, RootSlot(0)), 1, RootSlot(1), k);
    assert EntryAt(Zeros(BLOCK_SIZE), k) == Zeros(ENTRY);
  }

  lemma RootPairs(s: seq<Entry>)
    requires |s| == PER_BLOCK && forall k :: 0 <= k < PER_BLOCK ==> s[k] == RootSlot(k)
    ensures DirOk(s) && Refs(s) == {} && Pairs(s) == {(DotName(), ROOT), (DotDotName(), ROOT)} && End(s, 0) == 2 && Live(s, 0) && Live(s, 1)
  {
    MakeLaw(ROOT, DotDotName(), 2);
    MakeLaw(ROOT, DotName(), 1);
    assert s[0] == RootSlot(0) && s[1] == RootSlot(1) && s[2] == RootSlot(2);
    EndIs(s, 0, 2);
    assert DotName()[1] != DotDotName()[1];
    assert Pair(s[0]) == (DotDotName(), ROOT) && Pair(s[1]) == (DotName(), ROOT);
    assert Live(s, 0) && Live(s, 1);
  }

  lemma RootSlots(d: Disk)
    requires d.data[DATA_BASE] == RootBlock()
    ensures var s := Slots(d, RootInode());
            DirOk(s) && Refs(s) == {} && Pairs(s) == {(DotName(), ROOT), (DotDotName(), ROOT)} && End(s, 0) == 2 && Live(s, 0) && Live(s, 1)
  {
    var s := Slots(d, RootInode());
    forall k | 0 <= k < PER_BLOCK ensures s[k] == RootSlot(k) { RootSlotAt(k); }
    RootPairs(s);
  }

  lemma FormatNodes(d: Disk)
    requires d == NewDisk()
    ensures forall i :: 0 <= i < INODES ==> d.table[i] == if i == ROOT - 1 then RootInode() else NoInode()
    ensures forall i :: Number(i) ==> Node(d, i) == if i == ROOT then RootInode() else NoInode()
    ensures Blocks(RootInode()) == [DATA_BASE] && Blocks(NoInode()) == []
    ensures IsDir(RootInode()) && !IsDir(NoInode()) && d.inodeUsed[ROOT - 1]
  {
  }

  lemma FormatBooks()
    ensures Books(NewDisk()) && ZeroFree(NewDisk())
  {
    var d := NewDisk();
    UsedBitsCount(BLOCKS, DATA_BASE + 1, 0);
    FormatNodes(d);
  }

  lemma FormatTree()
    ensures Tree(NewDisk()) && Nodes(NewDisk())
    ensures Bindings(NewDisk(), ROOT) == {(DotName(), ROOT), (DotDotName(), ROOT)}
  {
    var d := NewDisk();
    RootSlots(d);
    FormatNodes(d);
    assert Node(d, ROOT) == RootInode() && Children(d, ROOT) == {};
    assert GoodDir(d, ROOT);
    assert forall i :: Directory(d, i) ==> i == ROOT;
    forall i | Number(i) ensures Fits(d, i) { }
  }

  /** A formatted disk satisfies the invariant, and its free blocks are zero. */
  lemma FormatOk()
    ensures FsOk(NewDisk()) && ZeroFree(NewDisk())
    ensures Bindings(NewDisk(), ROOT) == {(DotName(), ROOT), (DotDotName(), ROOT)}
  {
    FormatBooks();
    FormatTree();
  }

  /** What formatting writes, number by number, and what it leaves alone. */
  lemma FormatLaw(d: Disk)
    ensures var e := FormatOver(d);
            && e.sbFree == 7674 && e.gdFree == 7674 && e.sbInodes == 4085 && e.gdInodes == 4085
            && (forall b :: 0 <= b < BLOCKS ==> e.used[b] == (b < 518)) && (forall k :: 0 <= k < INODES ==> e.inodeUsed[k] == (k < 10))
            && Node(e, 2).mode == 0x41FF && Node(e, 2).size == 0 && Node(e, 2).flags == 0 && Node(e, 2).blocks == 1
            && (forall k :: 0 <= k < N_BLOCKS ==> Node(e, 2).block[k] == if k == 0 then 517 else 0)
            && (forall i :: 1 <= i <= 8 && i != 2 ==> Node(e, i) == NoInode()) && (forall i :: 8 < i <= INODES ==> Node(e, i) == Node(d, i))
            && (forall b :: 0 <= b < DISK_BLOCKS && b != 517 ==> e.data[b] == d.data[b])
            && RootEntries(Slots(e, Node(e, 2)))
  {
    RootSlots(FormatOver(d));
    RootEntriesThere(FormatOver(d));
  }

  /** Two dots, one dot, and slots of zeros. */
  ghost predicate RootEntries(s: seq<Entry>) {
    && |s| == 32 && NameOf(s[0]) == [0x2E, 0x2E] + Spaces(9) && NameOf(s[1]) == [0x2E] + Spaces(10)
    && InodeOf(s[0]) == 2 && InodeOf(s[1]) == 2 && LengthOf(s[0]) == 2 && LengthOf(s[1]) == 1
    && forall k :: 2 <= k < 32 ==> s[k] == Zeros(32)
  }

  lemma RootEntriesThere(d: Disk)
    requires d.data[DATA_BASE] == RootBlock()
    ensures RootEntries(Slots(d, RootInode()))
  {
    var s := Slots(d, RootInode());
    forall k | 0 <= k < PER_BLOCK ensures s[k] == RootSlot(k) { RootSlotAt(k); }
    assert s[0] == RootSlot(0) && s[1] == RootSlot(1);
    MakeLaw(ROOT, DotDotName(), 2);
    MakeLaw(ROOT, DotName(), 1);
    EntryLayout(ROOT, DotDotName(), 2);
    EntryLayout(ROOT, DotName(), 1);
  }

  // ----- free blocks that hold zeros

  ghost predicate ZeroFree(d: Disk) {
    forall b :: DATA_BASE <= b < BLOCKS && !d.used[b] ==> d.data[b] == Zeros(BLOCK_SIZE)
  }

  // ----- writing to a file of the tree

  lemma WriteOk(d: Disk, i: nat, offset: nat, buf: seq<Byte>)
    requires FsOk(d) && Known(d, i) && !Directory(d, i)
    ensures FsOk(Write(d, i, offset, buf).0) && OthersKept(d, Write(d, i, offset, buf).0, i)
  {
    var e := Write(d, i, offset, buf).0;
    WriteRollsBack(d, i, offset, buf);
    assert forall j :: Number(j) ==> Fits(d, j);
    if CanWrite(d, i, offset + |buf|) {
      WriteLaw(d, i, offset, buf);
      OwnersKept(d, e, i);
      forall j, c | Directory(d, j) && j != i && c in Children(d, j) ensures Known(e, c) { assert GoodDir(d, j); }
      TreeStep(d, e, i);
      NodesStep(d, e, i);
    }
  }

  /** A write leaves free blocks zero, exactly when the blocks it gives up are zero already. */
  lemma WriteZeroes(d: Disk, i: nat, offset: nat, buf: seq<Byte>)
    requires Books(d) && Number(i) && ZeroFree(d)
    ensures ZeroFree(Write(d, i, offset, buf).0) <==>
            (CanWrite(d, i, offset + |buf|) ==>
               forall b :: b in Surplus(Node(d, i), BlockCount(offset + |buf|)) ==> d.data[b] == Zeros(BLOCK_SIZE))
  {
    WriteRollsBack(d, i, offset, buf);
    if CanWrite(d, i, offset + |buf|) { WriteLeaves(d, i, offset, buf); }
  }

  lemma WriteLeaves(d: Disk, i: nat, offset: nat, buf: seq<Byte>)
    requires Books(d) && ZeroFree(d) && CanWrite(d, i, offset + |buf|)
    ensures ZeroFree(Write(d, i, offset, buf).0) <==>
            forall b :: b in Surplus(Node(d, i), BlockCount(offset + |buf|)) ==> d.data[b] == Zeros(BLOCK_SIZE)
  {
    var e := Write(d, i, offset, buf).0;
    var node, n := Node(d, i), BlockCount(offset + |buf|);
    var cut := Surplus(node, n);
    WriteLaw(d, i, offset, buf);
    WriteBits(d, i, offset, buf);
    assert NodeOk(d.used, d.table[i - 1]) && NodeOk(e.used, e.table[i - 1]);
    forall b | b in cut ensures DATA_BASE <= b < BLOCKS && !e.used[b] && e.data[b] == d.data[b] {
      assert b in Blocks(node);
    }
  }

  /** The bits that are clear after a write: those clear before, less the fresh blocks, and those given up. */
  lemma WriteBits(d: Disk, i: nat, offset: nat, buf: seq<Byte>)
    requires Books(d) && CanWrite(d, i, offset + |buf|)
    ensures var e := Write(d, i, offset, buf).0;
            var cut := Surplus(Node(d, i), BlockCount(offset + |buf|));
            && (forall b :: b in cut ==> b in Blocks(Node(d, i)) && b < BLOCKS && !e.used[b])
            && (forall b :: 0 <= b < BLOCKS && !e.used[b] ==> b in cut || !d.used[b])
  {
    var node, n := Node(d, i), BlockCount(offset + |buf|);
    assert NodeOk(d.used, d.table[i - 1]);
    GrowLaw(d, node.block, node.blocks, n);
    var cut := Surplus(node, n);
    WriteRollsBack(d, i, offset, buf);
    forall b | b in cut ensures b in Blocks(node) { assert cut == Blocks(node)[n..]; }
    assert Write(d, i, offset, buf).0.used == Settled(d, node, n).used;
  }

  // ----- runs

  type OkDisk = d: Disk | FsOk(d) ghost witness (FormatOk(); NewDisk())

  datatype Op =
    | CreateOp(dir: nat, name: seq<Byte>)
    | MkdirOp(dir: nat, name: seq<Byte>)
    | RemoveOp(dir: nat, name: seq<Byte>)
    | RmdirOp(dir: nat, name: seq<Byte>)
    | WriteOp(dir: nat, name: seq<Byte>, offset: nat, buf: seq<Byte>)

  /** A name that starts neither like a marker nor with a dot. */
  predicate Searchable(name: seq<Byte>) { name != [] && name[0] > 1 && !Dotted(name) }

  lemma RegularIsSearchable(name: seq<Byte>)
    requires Regular(name)
    ensures Searchable(name)
  {
    assert Alnum(name[0]);
  }

  lemma SearchableKey(name: seq<Byte>)
    requires Text(name) && Searchable(name)
    ensures var k := Searched(name)[0]; k != FREE && k != NO_MORE && k != DOT
  {
    var c := if |name| <= NAME_LEN then name else name[..NAME_LEN];
    SearchedIs(name);
    if Regular(c) {
      UpperRegular(c);
      assert Canonical(Upper(c))[0] == Base(Upper(c))[0] == Upper(c)[0];
    }
  }

  /** The slot in which `fsLookup` finds the name. */
  function Found(d: Disk, dir: nat, name: seq<Byte>): (k: nat)
    requires Number(dir)
    ensures k <= |Slots(d, Node(d, dir))|
  {
    Find(Slots(d, Node(d, dir)), Searched(name), 0)
  }

  /** The inode number of the entry found, or 0. */
  function Target(d: Disk, dir: nat, name: seq<Byte>): nat
    requires Number(dir)
  {
    var k := Found(d, dir, name);
    if k < |Slots(d, Node(d, dir))| then InodeOf(Slots(d, Node(d, dir))[k]) else 0
  }

  /** What callers must respect: the guards of the code's failing branches, as conditions on the disk before the call. */
  ghost predicate Allowed(d: Disk, op: Op) {
    && Directory(d, op.dir) && Text(op.name)
    && match op
       case CreateOp(dir, name) => Open(d, dir) && SpareInode(d) && !Doubles(d, dir, name)
       case MkdirOp(dir, name) => Open(d, dir) && SpareInode(d) && NextBlockZero(d) && !Rebinds(d, dir, name)
       case RemoveOp(dir, name) => Searchable(name) && Target(d, dir, name) != INODES
       case RmdirOp(dir, name) => Searchable(name) && Target(d, dir, name) != INODES
       case WriteOp(dir, name, _, _) => Searchable(name) && !Directory(d, Target(d, dir, name))
  }

  /** A lookup of a searchable name finds a live entry whose inode is in use. */
  lemma TargetLaw(d: Disk, dir: nat, name: seq<Byte>)
    requires FsOk(d) && Directory(d, dir) && Text(name) && Searchable(name)
    ensures var s, k := Slots(d, Node(d, dir)), Found(d, dir, name);
            k < |s| ==> Live(s, k) && Mark(s[k]) != DOT && Known(d, InodeOf(s[k])) && Pair(s[k]) in Bindings(d, dir)
  {
    var s, k := Slots(d, Node(d, dir)), Found(d, dir, name);
    SearchableKey(name);
    assert GoodDir(d, dir);
    FindLaw(s, Searched(name));
    if k < |s| { assert InodeOf(s[k]) in Children(d, dir); }
  }

  /** One operation as the shell performs it: the name is looked up first. */
  ghost function Apply(d: OkDisk, cached: nat, op: Op): (r: (Disk, bool))
    requires Allowed(d, op)
  {
    var n := Node(d, op.dir);
    match op
    case CreateOp(dir, name) => Create(d, cached, dir, name)
    case MkdirOp(dir, name) => Mkdir(d, dir, name)
    case RemoveOp(dir, name) =>
      TargetLaw(d, dir, name);
      var k := Found(d, dir, name);
      if k == |Slots(d, n)| then (d, false) else HandleCurrent(d, dir, k); Remove(d, SlotHandle(d, n, k))
    case RmdirOp(dir, name) =>
      TargetLaw(d, dir, name);
      var k := Found(d, dir, name);
      if k == |Slots(d, n)| then (d, false) else HandleCurrent(d, dir, k); Rmdir(d, SlotHandle(d, n, k))
    case WriteOp(dir, name, offset, buf) =>
      TargetLaw(d, dir, name);
      var i := Target(d, dir, name);
      if i == 0 then (d, false)
      else assert Number(i) && Fits(d, i); Write(d, i, offset, buf)
  }

  lemma RemoveKeepsOk(d: OkDisk, cached: nat, op: Op)
    requires Allowed(d, op) && (op.RemoveOp? || op.RmdirOp?)
    ensures FsOk(Apply(d, cached, op).0)
  {
    var k := Found(d, op.dir, op.name);
    TargetLaw(d, op.dir, op.name);
    if k < |Slots(d, Node(d, op.dir))| {
      if op.RemoveOp? { RemoveLaw(d, op.dir, k); } else { RmdirLaw(d, op.dir, k); }
    }
  }

  lemma WriteKeepsOk(d: OkDisk, cached: nat, op: Op)
    requires Allowed(d, op) && op.WriteOp?
    ensures FsOk(Apply(d, cached, op).0)
  {
    TargetLaw(d, op.dir, op.name);
    if Target(d, op.dir, op.name) != 0 { WriteOk(d, Target(d, op.dir, op.name), op.offset, op.buf); }
  }

  /** Every allowed operation keeps the invariant. */
  lemma ApplyOk(d: OkDisk, cached: nat, op: Op)
    requires Allowed(d, op)
    ensures FsOk(Apply(d, cached, op).0)
  {
    match op {
      case CreateOp(dir, name) => CreateLaw(d, cached, dir, name);
      case MkdirOp(dir, name) => MkdirLaw(d, dir, name);
      case WriteOp(_, _, _, _) => WriteKeepsOk(d, cached, op);
      case _ => RemoveKeepsOk(d, cached, op);
    }
  }

  ghost predicate Permitted(d: OkDisk, cached: nat, ops: seq<Op>)
    decreases |ops|
  {
    ops == [] || (Allowed(d, ops[0]) && (ApplyOk(d, cached, ops[0]); Permitted(Apply(d, cached, ops[0]).0, cached, ops[1..])))
  }

  ghost function After(d: OkDisk, cached: nat, ops: seq<Op>): OkDisk
    requires Permitted(d, cached, ops)
    decreases |ops|
  {
    if ops == [] then d else ApplyOk(d, cached, ops[0]); After(Apply(d, cached, ops[0]).0, cached, ops[1..])
  }

  /** The block at position `a` of inode `i` is a data block, marked used. */
  predicate Owns(d: Disk, i: nat, a: nat) {
    Number(i) && a < Node(d, i).blocks ==> a < N_BLOCKS && DATA_BASE <= Node(d, i).block[a] < BLOCKS && d.used[Node(d, i).block[a]]
  }

  /** Position `a` of inode `i` and position `b` of inode `j` hold different blocks, unless they are one position. */
  predicate NoSharing(d: Disk, i: nat, a: nat, j: nat, b: nat) {
    Number(i) && Number(j) && a < Node(d, i).blocks && b < Node(d, j).blocks && (i, a) != (j, b)
    ==> a < N_BLOCKS && b < N_BLOCKS && Node(d, i).block[a] != Node(d, j).block[b]
  }

  /** No block belongs to two inodes or twice to one, owned blocks are marked, and both counts are the clear bits. */
  ghost predicate BlocksSafe(d: Disk) {
    && (forall i: nat, a: nat, j: nat, b: nat :: NoSharing(d, i, a, j, b))
    && (forall i: nat, a: nat :: Owns(d, i, a))
    && d.sbFree == ClearFrom(d.used, 0) && d.gdFree == ClearFrom(d.used, 0)
  }

  /** Names are unique in every directory, each names an inode in use, and no inode has two names. */
  ghost predicate NamesSafe(d: Disk) {
    && (forall i, p, q :: Directory(d, i) && p in Bindings(d, i) && q in Bindings(d, i) && p.0 == q.0 ==> p == q)
    && (forall i, p :: Directory(d, i) && p in Bindings(d, i) && p.0[0] != DOT ==> Number(p.1) && d.inodeUsed[p.1 - 1])
    && (forall i, j, p, q ::
          Directory(d, i) && Directory(d, j) && p in Bindings(d, i) && q in Bindings(d, j) && p.0[0] != DOT && q.0[0] != DOT && p.1 == q.1
          ==> i == j && p == q)
  }

  lemma BlocksAreSafe(d: Disk)
    requires Books(d)
    ensures BlocksSafe(d)
  {
    forall i: nat, a: nat ensures Owns(d, i, a) {
      if Number(i) && a < Node(d, i).blocks {
        assert NodeOk(d.used, d.table[i - 1]);
        assert Blocks(Node(d, i))[a] in Blocks(Node(d, i));
      }
    }
    forall i: nat, a: nat, j: nat, b: nat ensures NoSharing(d, i, a, j, b) {
      if Number(i) && Number(j) && a < Node(d, i).blocks && b < Node(d, j).blocks { Unshared(d, i, a, j, b); }
    }
  }

  lemma Unshared(d: Disk, i: nat, a: nat, j: nat, b: nat)
    requires Books(d) && Number(i) && Number(j) && a < Node(d, i).blocks && b < Node(d, j).blocks
    ensures NoSharing(d, i, a, j, b)
  {
    assert NodeOk(d.used, d.table[i - 1]) && NodeOk(d.used, d.table[j - 1]);
    assert Blocks(Node(d, i))[a] in Blocks(Node(d, i)) && Blocks(Node(d, j))[b] in Blocks(Node(d, j));
    assert i != j ==> Apart(d.table[i - 1], d.table[j - 1]);
  }

  /** A binding comes from a live slot. */
  lemma SlotOf(d: OkDisk, i: nat, p: (Key, nat)) returns (k: nat)
    requires Directory(d, i) && p in Bindings(d, i)
    ensures var s := Slots(d, Node(d, i));
            k < |s| && Live(s, k) && Pair(s[k]) == p && Mark(s[k]) == p.0[0] && (p.0[0] != DOT ==> p.1 in Children(d, i))
  {
    assert GoodDir(d, i);
    var s := Slots(d, Node(d, i));
    k :| k < |s| && Live(s, k) && Pair(s[k]) == p;
  }

  lemma NameUnique(d: OkDisk, i: nat, p: (Key, nat), q: (Key, nat))
    requires Directory(d, i) && p in Bindings(d, i) && q in Bindings(d, i) && p.0 == q.0
    ensures p == q
  {
    var a := SlotOf(d, i, p);
    var b := SlotOf(d, i, q);
    assert GoodDir(d, i);
  }

  lemma InodeUnique(d: OkDisk, i: nat, j: nat, p: (Key, nat), q: (Key, nat))
    requires Directory(d, i) && Directory(d, j) && p in Bindings(d, i) && q in Bindings(d, j)
    requires p.0[0] != DOT && q.0[0] != DOT && p.1 == q.1
    ensures i == j && p == q
  {
    var a := SlotOf(d, i, p);
    var b := SlotOf(d, j, q);
    assert GoodDir(d, i);
    assert i == j by { assert p.1 in Children(d, i) && p.1 in Children(d, j); }
  }

  lemma NamesAreSafe(d: OkDisk)
    ensures NamesSafe(d)
  {
    forall i, p, q | Directory(d, i) && p in Bindings(d, i) && q in Bindings(d, i) && p.0 == q.0 ensures p == q {
      NameUnique(d, i, p, q);
    }
    forall i, p | Directory(d, i) && p in Bindings(d, i) && p.0[0] != DOT ensures Number(p.1) && d.inodeUsed[p.1 - 1] {
      var a := SlotOf(d, i, p);
      assert GoodDir(d, i);
    }
    forall i, j, p, q | Directory(d, i) && Directory(d, j) && p in Bindings(d, i) && q in Bindings(d, j)
      && p.0[0] != DOT && q.0[0] != DOT && p.1 == q.1 ensures i == j && p == q
    {
      InodeUnique(d, i, j, p, q);
    }
  }

  ghost function Formatted(): OkDisk { FormatOk(); NewDisk() }

  /** From a formatted disk on, every run of allowed operations keeps blocks, counts and names in order. */
  lemma EveryRunSafe(cached: nat, ops: seq<Op>)
    requires Permitted(Formatted(), cached, ops)
    ensures BlocksSafe(After(Formatted(), cached, ops)) && NamesSafe(After(Formatted(), cached, ops))
    ensures Directory(After(Formatted(), cached, ops), ROOT)
  {
    var d := After(Formatted(), cached, ops);
    BlocksAreSafe(d);
    NamesAreSafe(d);
  }

  // ----- what each operation of a run does

  /** The directory binds the name, as it is searched, by this entry. */
  ghost predicate NamedBy(d: Disk, dir: nat, name: seq<Byte>, x: Entry)
    requires Number(dir)
  {
    Pair(x) in Bindings(d, dir) && NameOf(x) == Searched(name) && Number(InodeOf(x))
  }

  /** Removing what entry `x` names, a file or an empty directory as `dirs` says: done exactly if it is one. */
  ghost predicate RemovedIf(d: Disk, e: Disk, dir: nat, x: Entry, dirs: bool, ok: bool)
    requires Directory(d, dir) && Number(InodeOf(x))
  {
    var i := InodeOf(x);
    && (ok <==> Directory(d, i) == dirs && (dirs ==> forall p :: p in Bindings(d, i) ==> p.0[0] == DOT))
    && (ok ==> Removed(d, e, dir, x)) && (!ok ==> e == d)
  }

  /** Writing to what the entry names: done exactly if the blocks suffice. */
  ghost predicate WrittenIf(d: Disk, e: Disk, i: nat, offset: nat, buf: seq<Byte>, ok: bool)
    requires Number(i)
  {
    && (ok <==> CanWrite(d, i, offset + |buf|)) && (!ok ==> e == d)
    && (ok ==> Sized(Node(e, i)) && Contents(e, Node(e, i)) == Zeros(offset) + buf && OthersKept(d, e, i))
  }

  /** What an operation comes to; one on a name that is not bound changes nothing. */
  ghost predicate Effective(d: OkDisk, cached: nat, op: Op, e: Disk, ok: bool)
    requires Allowed(d, op)
  {
    match op
    case CreateOp(dir, name) => CreateOutcome(d, e, cached, dir, name, ok)
    case MkdirOp(dir, name) => MkdirOutcome(d, e, dir, name, ok)
    case RemoveOp(dir, name) =>
      if forall x :: !NamedBy(d, dir, name, x) then e == d && !ok else exists x :: NamedBy(d, dir, name, x) && RemovedIf(d, e, dir, x, false, ok)
    case RmdirOp(dir, name) =>
      if forall x :: !NamedBy(d, dir, name, x) then e == d && !ok else exists x :: NamedBy(d, dir, name, x) && RemovedIf(d, e, dir, x, true, ok)
    case WriteOp(dir, name, offset, buf) =>
      if forall x :: !NamedBy(d, dir, name, x) then e == d && !ok
      else exists x :: NamedBy(d, dir, name, x) && WrittenIf(d, e, InodeOf(x), offset, buf, ok)
  }

  /** The slot that the lookup finds names what the name is bound to; it finds none if the name is not bound. */
  lemma FoundNames(d: OkDisk, dir: nat, name: seq<Byte>)
    requires Directory(d, dir) && Text(name) && Searchable(name)
    ensures var s, k := Slots(d, Node(d, dir)), Found(d, dir, name);
            if k < |s| then NamedBy(d, dir, name, s[k]) else forall x :: !NamedBy(d, dir, name, x)
  {
    TargetLaw(d, dir, name);
    SearchableKey(name);
    assert DirOk(Slots(d, Node(d, dir))) by { assert GoodDir(d, dir); }
    FindLaw(Slots(d, Node(d, dir)), Searched(name));
  }

  lemma RemovalEffective(d: OkDisk, cached: nat, op: Op)
    requires Allowed(d, op) && (op.RemoveOp? || op.RmdirOp?)
    ensures var (e, ok) := Apply(d, cached, op); Effective(d, cached, op, e, ok)
  {
    var s, k := Slots(d, Node(d, op.dir)), Found(d, op.dir, op.name);
    FoundNames(d, op.dir, op.name);
    TargetLaw(d, op.dir, op.name);
    if k < |s| {
      var (e, ok) := Apply(d, cached, op);
      if op.RemoveOp? {
        RemoveLaw(d, op.dir, k);
        assert RemovedIf(d, e, op.dir, s[k], false, ok);
      } else {
        RmdirLaw(d, op.dir, k);
        assert RemovedIf(d, e, op.dir, s[k], true, ok);
      }
    }
  }

  lemma WriteEffective(d: OkDisk, cached: nat, op: Op)
    requires Allowed(d, op) && op.WriteOp?
    ensures var (e, ok) := Apply(d, cached, op); Effective(d, cached, op, e, ok)
  {
    FoundNames(d, op.dir, op.name);
    if Found(d, op.dir, op.name) < |Slots(d, Node(d, op.dir))| {
      WriteHere(d, Target(d, op.dir, op.name), op.offset, op.buf);
    }
  }

  lemma WriteHere(d: Disk, i: nat, offset: nat, buf: seq<Byte>)
    requires Books(d) && Number(i)
    ensures var (e, ok) := Write(d, i, offset, buf); WrittenIf(d, e, i, offset, buf, ok)
  {
    WriteRollsBack(d, i, offset, buf);
    if CanWrite(d, i, offset + |buf|) {
      WriteLaw(d, i, offset, buf);
      OwnersKept(d, Write(d, i, offset, buf).0, i);
    }
  }

  /** Every operation of every run takes effect. */
  lemma EveryOpEffective(d: OkDisk, cached: nat, op: Op)
    requires Allowed(d, op)
    ensures var (e, ok) := Apply(d, cached, op); Effective(d, cached, op, e, ok)
    ensures Permitted(d, cached, [op]) && After(d, cached, [op]) == Apply(d, cached, op).0
  {
    ApplyOk(d, cached, op);
    assert [op][1..] == [];
    match op {
      case CreateOp(dir, name) => CreateLaw(d, cached, dir, name);
      case MkdirOp(dir, name) => MkdirLaw(d, dir, name);
      case WriteOp(_, _, _, _) => WriteEffective(d, cached, op);
      case _ => RemovalEffective(d, cached, op);
    }
  }

  // ----- what a file holds after a run

  /** The operation neither writes to nor removes inode `i`. */
  predicate Spares(d: Disk, op: Op, i: nat)
    requires Directory(d, op.dir)
  {
    op.CreateOp? || op.MkdirOp? || Target(d, op.dir, op.name) != i
  }

  /** A file that has blocks: it is not a directory, and its inode is in use. */
  predicate Filed(d: Disk, i: nat) {
    Number(i) && !IsDir(Node(d, i)) && Node(d, i).blocks > 0 && Sized(Node(d, i))
  }

  lemma FiledIsUsed(d: OkDisk, i: nat)
    requires Filed(d, i)
    ensures d.inodeUsed[i - 1]
  {
    assert Fits(d, i);
  }

  /** A file is neither a directory nor the next new inode. */
  lemma FiledIsOther(d: OkDisk, i: nat)
    requires Filed(d, i)
    ensures i != FirstClear(d.inodeUsed, 0) + 1
  {
    FiledIsUsed(d, i);
  }

  lemma RestSpares(d: Disk, e: Disk, dir: nat, k: nat, i: nat)
    requires RestKept(d, e, dir, k) && Directory(d, dir) && Filed(d, i) && i != k
    ensures Same(d, e, i)
  {
    assert Same(d, e, i);
  }

  lemma CreateRest(d: OkDisk, cached: nat, dir: nat, name: seq<Byte>)
    requires Allowed(d, CreateOp(dir, name))
    ensures RestKept(d, Create(d, cached, dir, name).0, dir, FirstClear(d.inodeUsed, 0) + 1)
  {
    CreateLaw(d, cached, dir, name);
  }

  lemma MkdirRest(d: OkDisk, dir: nat, name: seq<Byte>)
    requires Allowed(d, MkdirOp(dir, name))
    ensures RestKept(d, Mkdir(d, dir, name).0, dir, FirstClear(d.inodeUsed, 0) + 1)
  {
    MkdirLaw(d, dir, name);
  }

  lemma SparedCreate(d: OkDisk, cached: nat, op: Op, i: nat)
    requires Allowed(d, op) && Filed(d, i) && (op.CreateOp? || op.MkdirOp?)
    ensures Same(d, Apply(d, cached, op).0, i)
  {
    FiledIsOther(d, i);
    if op.CreateOp? { CreateRest(d, cached, op.dir, op.name); } else { MkdirRest(d, op.dir, op.name); }
    RestSpares(d, Apply(d, cached, op).0, op.dir, FirstClear(d.inodeUsed, 0) + 1, i);
  }

  lemma RemovalSpares(d: OkDisk, dir: nat, k: nat, i: nat)
    requires Directory(d, dir) && Filed(d, i)
    requires var s := Slots(d, Node(d, dir)); k < |s| && Live(s, k) && Mark(s[k]) != DOT && InodeOf(s[k]) != INODES && InodeOf(s[k]) != i
    ensures var h := SlotHandle(d, Node(d, dir), k);
            Current(d, h) && Same(d, Remove(d, h).0, i) && Same(d, Rmdir(d, h).0, i)
  {
    RemoveLaw(d, dir, k);
    RmdirLaw(d, dir, k);
  }

  lemma SparedRemove(d: OkDisk, cached: nat, op: Op, i: nat)
    requires Allowed(d, op) && Filed(d, i) && Spares(d, op, i) && (op.RemoveOp? || op.RmdirOp?)
    ensures Same(d, Apply(d, cached, op).0, i)
  {
    var k := Found(d, op.dir, op.name);
    TargetLaw(d, op.dir, op.name);
    if k < |Slots(d, Node(d, op.dir))| { RemovalSpares(d, op.dir, k, i); }
  }

  lemma SparedWrite(d: OkDisk, cached: nat, op: Op, i: nat)
    requires Allowed(d, op) && Filed(d, i) && Spares(d, op, i) && op.WriteOp?
    ensures Same(d, Apply(d, cached, op).0, i)
  {
    TargetLaw(d, op.dir, op.name);
    if Target(d, op.dir, op.name) != 0 { WriteOk(d, Target(d, op.dir, op.name), op.offset, op.buf); }
  }

  lemma SparedStep(d: OkDisk, cached: nat, op: Op, i: nat)
    requires Allowed(d, op) && Filed(d, i) && Spares(d, op, i)
    ensures var e := Apply(d, cached, op).0; Filed(e, i) && Contents(e, Node(e, i)) == Contents(d, Node(d, i))
  {
    if op.WriteOp? { SparedWrite(d, cached, op, i); }
    else if op.CreateOp? || op.MkdirOp? { SparedCreate(d, cached, op, i); }
    else { SparedRemove(d, cached, op, i); }
    SameContents(d, Apply(d, cached, op).0, i);
  }

  ghost predicate AllSpare(d: OkDisk, cached: nat, ops: seq<Op>, i: nat)
    requires Permitted(d, cached, ops)
    decreases |ops|
  {
    ops == [] || (Spares(d, ops[0], i) && (ApplyOk(d, cached, ops[0]); AllSpare(Apply(d, cached, ops[0]).0, cached, ops[1..], i)))
  }

  /** A file keeps its contents through every run that neither writes to it nor removes it. */
  lemma {:induction false} ContentsKept(d: OkDisk, cached: nat, ops: seq<Op>, i: nat)
    requires Permitted(d, cached, ops) && AllSpare(d, cached, ops, i) && Filed(d, i)
    ensures var e := After(d, cached, ops); Filed(e, i) && Contents(e, Node(e, i)) == Contents(d, Node(d, i))
    decreases |ops|
  {
    if ops != [] {
      ApplyOk(d, cached, ops[0]);
      SparedStep(d, cached, ops[0], i);
      ContentsKept(Apply(d, cached, ops[0]).0, cached, ops[1..], i);
    }
  }

  /** The disk after a write to a file. */
  ghost function WrittenDisk(d: OkDisk, i: nat, offset: nat, buf: seq<Byte>): OkDisk
    requires Known(d, i) && !Directory(d, i)
  {
    WriteOk(d, i, offset, buf); Write(d, i, offset, buf).0
  }

  /** What was written is what is read, whatever happens to other files in between. */
  lemma ReadYourWrite(d: OkDisk, i: nat, offset: nat, buf: seq<Byte>, cached: nat, ops: seq<Op>)
    requires Known(d, i) && !Directory(d, i) && Write(d, i, offset, buf).1
    requires Permitted(WrittenDisk(d, i, offset, buf), cached, ops) && AllSpare(WrittenDisk(d, i, offset, buf), cached, ops, i)
    ensures var e := After(WrittenDisk(d, i, offset, buf), cached, ops);
            Filed(e, i) && Contents(e, Node(e, i)) == Zeros(offset) + buf
  {
    WriteRollsBack(d, i, offset, buf);
    WriteLaw(d, i, offset, buf);
    ContentsKept(WrittenDisk(d, i, offset, buf), cached, ops, i);
  }

  // ----- runs in which no write shrinks a file

  /** The write needs no fewer blocks than the file has. */
  predicate NoShrink(d: Disk, op: Op)
    requires Directory(d, op.dir)
  {
    op.WriteOp? && Number(Target(d, op.dir, op.name)) ==>
      Node(d, Target(d, op.dir, op.name)).blocks <= BlockCount(op.offset + |op.buf|)
  }

  /** A removal zeroes what it frees. */
  lemma UnlinkZeroes(d: OkDisk, dir: nat, k: nat)
    requires Directory(d, dir) && ZeroFree(d) && k < PER_BLOCK * Node(d, dir).blocks
    requires Current(d, SlotHandle(d, Node(d, dir), k))
    ensures ZeroFree(Unlink(d, SlotHandle(d, Node(d, dir), k)))
  {
    var h := SlotHandle(d, Node(d, dir), k);
    assert NodeOk(d.used, d.table[dir - 1]);
    assert Blocks(Node(d, dir))[k / PER_BLOCK] in Blocks(Node(d, dir));
    assert d.used[h.block] && h.block !in Direct(Node(d, h.ino));
  }

  lemma AllocateZeroes(d: OkDisk, cached: nat, op: Op)
    requires Allowed(d, op) && ZeroFree(d) && (op.CreateOp? || op.MkdirOp?)
    ensures ZeroFree(Apply(d, cached, op).0)
  {
    if op.CreateOp? { CreateLaw(d, cached, op.dir, op.name); } else { MkdirLaw(d, op.dir, op.name); }
  }

  lemma RemoveZeroes(d: OkDisk, cached: nat, op: Op)
    requires Allowed(d, op) && ZeroFree(d) && (op.RemoveOp? || op.RmdirOp?)
    ensures ZeroFree(Apply(d, cached, op).0)
  {
    var k := Found(d, op.dir, op.name);
    TargetLaw(d, op.dir, op.name);
    if k < |Slots(d, Node(d, op.dir))| {
      HandleCurrent(d, op.dir, k);
      UnlinkZeroes(d, op.dir, k);
    }
  }

  /** If no write shrinks a file, free blocks stay zero; so the block that `fsMkdir` takes unread is zero. */
  lemma ApplyZeroes(d: OkDisk, cached: nat, op: Op)
    requires Allowed(d, op) && ZeroFree(d) && NoShrink(d, op)
    ensures ZeroFree(Apply(d, cached, op).0) && NextBlockZero(d)
  {
    assert NextBlockZero(d) by { assert Books(d); }
    if op.WriteOp? {
      TargetLaw(d, op.dir, op.name);
      var i := Target(d, op.dir, op.name);
      if i != 0 {
        assert Fits(d, i);
        WriteZeroes(d, i, op.offset, op.buf);
      }
    } else if op.CreateOp? || op.MkdirOp? {
      AllocateZeroes(d, cached, op);
    } else {
      RemoveZeroes(d, cached, op);
    }
  }

  // ----- operations one after the other

  /** A created file is found again under its name, in either letter case, if the name has at most eleven characters. */
  lemma CreateThenLookup(d: OkDisk, cached: nat, dir: nat, name: seq<Byte>, again: seq<Byte>)
    requires Allowed(d, CreateOp(dir, name)) && Regular(name) && |name| <= NAME_LEN && Text(again) && Upper(again) == Upper(name)
    requires Create(d, cached, dir, name).1 && HasSlot(Slots(d, Node(d, dir)))
    ensures var e := Create(d, cached, dir, name).0;
            && FsOk(e) && Directory(e, dir)
            && Target(e, dir, again) == FirstClear(d.inodeUsed, 0) + 1
            && Found(e, dir, again) < |Slots(e, Node(e, dir))|
            && NameOf(Slots(e, Node(e, dir))[Found(e, dir, again)]) == Stored(name)
  {
    var e, i := Create(d, cached, dir, name).0, FirstClear(d.inodeUsed, 0) + 1;
    CreateLaw(d, cached, dir, name);
    LookupLaw(name);
    CaseBlind(name, again);
    KeyBytes(name);
    assert (Stored(name), i) in Bindings(e, dir);
    assert GoodDir(e, dir);
    FindLaw(Slots(e, Node(e, dir)), Stored(name));
  }

  /** The entry just created is the one a lookup finds, so that it can be removed. */
  lemma CreatedEntry(d: OkDisk, cached: nat, dir: nat, name: seq<Byte>)
    requires Allowed(d, CreateOp(dir, name)) && Regular(name) && |name| <= NAME_LEN
    requires Create(d, cached, dir, name).1 && HasSlot(Slots(d, Node(d, dir))) && FirstClear(d.inodeUsed, 0) + 1 < INODES
    ensures var e := Create(d, cached, dir, name).0;
            && FsOk(e) && Allowed(e, RemoveOp(dir, name)) && Found(e, dir, name) < |Slots(e, Node(e, dir))|
            && var x := Slots(e, Node(e, dir))[Found(e, dir, name)];
               Pair(x) == (Stored(name), FirstClear(d.inodeUsed, 0) + 1) && !Directory(e, InodeOf(x))
  {
    var e := Create(d, cached, dir, name).0;
    CreateLaw(d, cached, dir, name);
    CreateThenLookup(d, cached, dir, name, name);
    RegularIsSearchable(name);
    FileIsFile(Node(e, FirstClear(d.inodeUsed, 0) + 1).block[0]);
  }

  lemma FileIsFile(b: BlockNo)
    ensures !IsDir(NewFile(b)) && IsDir(NewDir(b))
  {
  }

  /** What creation added, removal takes away. */
  lemma UndoCreate(d: Disk, e: Disk, f: Disk, dir: nat, key: Key, x: Entry)
    requires Nodes(d) && Open(d, dir) && SpareInode(d) && Unbound(d, dir, key) && Directory(e, dir)
    requires Created(d, e, dir, FirstClear(d.inodeUsed, 0) + 1, key, true) && HasSlot(Slots(d, Node(d, dir)))
    requires Pair(x) == (key, FirstClear(d.inodeUsed, 0) + 1)
    requires Removed(e, f, dir, x)
    ensures Bindings(f, dir) == Bindings(d, dir) && f.inodeUsed == d.inodeUsed
    ensures forall j :: Number(j) && j != dir ==> Same(d, f, j)
  {
    assert Bindings(f, dir) == Bindings(d, dir);
    forall j | Number(j) && j != dir ensures Same(d, f, j) {
      assert Fits(d, j);
      if j != InodeOf(x) { assert Same(d, e, j) && Same(e, f, j); }
    }
  }

  /** Removing a file by its name. */
  lemma RemoveNamed(d: OkDisk, cached: nat, dir: nat, name: seq<Byte>)
    requires Allowed(d, RemoveOp(dir, name)) && Found(d, dir, name) < |Slots(d, Node(d, dir))|
    requires !Directory(d, Target(d, dir, name))
    ensures var (e, ok) := Apply(d, cached, RemoveOp(dir, name));
            var x := Slots(d, Node(d, dir))[Found(d, dir, name)];
            ok && Number(InodeOf(x)) && Removed(d, e, dir, x)
  {
    TargetLaw(d, dir, name);
    RemoveLaw(d, dir, Found(d, dir, name));
  }

  /** Creating a file and removing it again: the bindings, the inode bitmap and every other file are as before. */
  lemma CreateThenRemove(d: OkDisk, cached: nat, dir: nat, name: seq<Byte>)
    requires Allowed(d, CreateOp(dir, name)) && Regular(name) && |name| <= NAME_LEN
    requires Create(d, cached, dir, name).1 && HasSlot(Slots(d, Node(d, dir))) && FirstClear(d.inodeUsed, 0) + 1 < INODES
    ensures var e := Create(d, cached, dir, name).0;
            && FsOk(e) && Allowed(e, RemoveOp(dir, name))
            && var (f, ok) := Apply(e, cached, RemoveOp(dir, name));
               && ok && Bindings(f, dir) == Bindings(d, dir) && f.inodeUsed == d.inodeUsed
               && forall j :: Number(j) && j != dir ==> Same(d, f, j)
  {
    var e := Create(d, cached, dir, name).0;
    CreatedEntry(d, cached, dir, name);
    CreateLaw(d, cached, dir, name);
    RemoveNamed(e, cached, dir, name);
    var x := Slots(e, Node(e, dir))[Found(e, dir, name)];
    UndoCreate(d, e, Apply(e, cached, RemoveOp(dir, name)).0, dir, Stored(name), x);
  }

  // ----- where the code falls short of its purpose, with the exact conditions

  /** A directory without freed slot and without terminator: creation reports success, takes an inode and a block, and binds nothing. */
  lemma LostEntry(d: OkDisk, cached: nat, dir: nat, name: seq<Byte>)
    requires Allowed(d, CreateOp(dir, name)) && Create(d, cached, dir, name).1
    ensures Bindings(Create(d, cached, dir, name).0, dir) == Bindings(d, dir) <==> !HasSlot(Slots(d, Node(d, dir)))
  {
    CreateLaw(d, cached, dir, name);
    AgainKey(name);
    if HasSlot(Slots(d, Node(d, dir))) {
      var i := FirstClear(d.inodeUsed, 0) + 1;
      assert (Stored(name), i) in Bindings(Create(d, cached, dir, name).0, dir);
    }
  }

  /** How a directory comes to be in that state: its last slot is taken when no block is left to grow into. */
  lemma SealingInsert(d: OkDisk, dir: nat, e: Entry)
    requires Open(d, dir) && Mark(e) != FREE && Mark(e) != NO_MORE && MustGrow(Slots(d, Node(d, dir))) && ClearFrom(d.used, 0) == 0
    ensures var (f, ok) := Insert(d, dir, e);
            !ok && !HasSlot(Slots(f, Node(f, dir)))
  {
    assert GoodDir(d, dir);
    var s := Slots(d, Node(d, dir));
    InsertLaw(d, dir, e);
    PlaceShape(s, e, false);
    FindFree(s, 0);
    FindEnd(s, 0);
    var s' := FsDir.Place(s, e, false).0;
    assert s' == s[End(s, 0) := e];
    EndIs(s', 0, |s'|);
  }

  /** A second creation of a bound name is refused, unless a lower-case twelfth character hides the first one; then the
      name is bound twice, if there is a slot. */
  lemma SecondCreate(d: OkDisk, cached: nat, dir: nat, name: seq<Byte>)
    requires Open(d, dir) && SpareInode(d) && ClearFrom(d.used, 0) > 0 && cached != 0 && Text(name) && Regular(name)
    requires !Unbound(d, dir, Stored(name))
    ensures var (e, ok) := Create(d, cached, dir, name);
            && (ok <==> CaseLeak(name) && Unbound(d, dir, Searched(Stored(name))))
            && (ok && HasSlot(Slots(d, Node(d, dir))) <==> BoundTwice(e, dir, Stored(name)))
  {
    ReformatLaw(name);
    AgainKey(name);
    CreateLaw(d, cached, dir, name);
    var e := Create(d, cached, dir, name).0;
    if !Doubles(d, dir, name) && BoundTwice(e, dir, Stored(name)) {
      TwiceIsBad(e, dir, Stored(name));
    }
  }
}

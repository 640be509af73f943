/** Removing files and directories. */
module FsRemove {
  import opened Bytes
  import opened Bits
  import opened Names
  import opened FsModel
  import opened FsWrite
  import opened FsDir
  import opened FsTree
  import opened FsOps

  /** What a lookup returns: the inode, and the block and slot of the entry that names it. */
  datatype Handle = Handle(ino: nat, block: BlockNo, offset: nat)

  function SlotHandle(d: Disk, n: Inode, k: nat): Handle
    requires k < PER_BLOCK * n.blocks
  {
    Handle(InodeOf(Slots(d, n)[k]), n.block[k / PER_BLOCK], k % PER_BLOCK)
  }

  /** The blocks that a removal frees: the direct ones. */
  function Direct(n: Inode): seq<BlockNo>
  {
    n.block[..Min(n.blocks, DIRECT)]
  }

  function Wiped(data: seq<Block>, bs: seq<BlockNo>): (r: seq<Block>)
    ensures |r| == |data|
  {
    seq(|data|, k requires 0 <= k < |data| => if k in bs then Zeros(BLOCK_SIZE) else data[k])
  }

  function Emptied(d: Disk, bs: seq<BlockNo>): Disk {
    FreeBlocks(d, bs).(data := Wiped(d.data, bs))
  }

  function ReleaseInode(d: Disk, i: nat): Disk
    requires Number(i)
  {
    SetNode(d, i, NoInode()).(inodeUsed := d.inodeUsed[i - 1 := false], sbInodes := d.sbInodes + 1, gdInodes := d.gdInodes + 1)
  }

  /** The entry of the handle is current, lies outside the blocks to be freed, and names an inode below the last. */
  predicate Current(d: Disk, h: Handle) {
    && Number(h.ino) && h.ino < INODES && h.offset < PER_BLOCK
    && h.block !in Blocks(Node(d, h.ino)) && InodeOf(EntryAt(d.data[h.block], h.offset)) == h.ino
  }

  /** Frees the blocks, marks the slot as free, clears the inode. */
  function Unlink(d: Disk, h: Handle): Disk
    requires Current(d, h)
  {
    var e := Emptied(d, Direct(Node(d, h.ino)));
    ReleaseInode(PutBlock(e, h.block, SetEntry(e.data[h.block], h.offset, FreeEntry())), h.ino)
  }

  function Remove(d: Disk, h: Handle): (r: (Disk, bool))
    requires Current(d, h)
  {
    if IsDir(Node(d, h.ino)) then (d, false) else (Unlink(d, h), true)
  }

  function Rmdir(d: Disk, h: Handle): (r: (Disk, bool))
    requires Current(d, h)
  {
    var s := Slots(d, Node(d, h.ino));
    if !IsDir(Node(d, h.ino)) || FindAny(s, 0) < |s| then (d, false) else (Unlink(d, h), true)
  }

  // ----- a removal as two steps

  /** Gives up an inode and its blocks. */
  function Discard(d: Disk, i: nat): Disk
    requires Number(i)
  {
    ReleaseInode(Emptied(d, Direct(Node(d, i))), i)
  }

  lemma UnlinkIs(d: Disk, dir: nat, k: nat)
    requires Number(dir) && k < PER_BLOCK * Node(d, dir).blocks
    requires Current(d, SlotHandle(d, Node(d, dir), k))
    ensures var h := SlotHandle(d, Node(d, dir), k);
            Unlink(d, h) == Discard(PutSlot(d, Node(d, dir), k, FreeEntry()), h.ino)
  {
    var h := SlotHandle(d, Node(d, dir), k);
    var u, v := Unlink(d, h), Discard(PutSlot(d, Node(d, dir), k, FreeEntry()), h.ino);
    var bs := Direct(Node(d, h.ino));
    assert h.block !in bs;
    forall b | 0 <= b < DISK_BLOCKS ensures u.data[b] == v.data[b] { }
    assert u.data == v.data;
  }

  /** Freeing the slot of an entry removes its binding; its inode is then named by nothing. */
  lemma DeleteSlotOk(d: Disk, dir: nat, k: nat)
    requires FsOk(d) && Directory(d, dir)
    requires var s := Slots(d, Node(d, dir)); k < |s| && Live(s, k) && Mark(s[k]) != DOT
    ensures var e := PutSlot(d, Node(d, dir), k, FreeEntry());
            var x := Slots(d, Node(d, dir))[k];
            && FsOk(e) && Unreferenced(e, InodeOf(x)) && OthersKept(d, e, dir)
            && Bindings(e, dir) == Bindings(d, dir) - {Pair(x)}
  {
    var n := Node(d, dir);
    var e, s := PutSlot(d, n, k, FreeEntry()), Slots(d, n);
    assert GoodDir(d, dir);
    assert NodeOk(d.used, d.table[dir - 1]);
    PutSlotLaw(d, n, k, FreeEntry());
    DataFrame(d, e, dir);
    OwnersKept(d, e, dir);
    DeleteLaw(s, k);
    assert InodeOf(s[k]) in Refs(s);
    forall j, c | Directory(d, j) && j != dir && c in Children(d, j) ensures Known(e, c) { assert GoodDir(d, j); }
    TreeStep(d, e, dir);
    assert Fits(d, dir);
    NodesStep(d, e, dir);
    forall j | Directory(e, j) ensures InodeOf(s[k]) !in Children(e, j) {
      if j != dir { SameChildren(d, e, j); }
    }
  }

  /** Giving up an inode that nothing names. */
  lemma DiscardOk(d: Disk, i: nat)
    requires FsOk(d) && Known(d, i) && Unreferenced(d, i)
    ensures var e := Discard(d, i);
            && FsOk(e) && OthersKept(d, e, i) && Node(e, i) == NoInode()
            && forall j :: Directory(d, j) && j != i ==> Bindings(e, j) == Bindings(d, j)
  {
    var n, e := Node(d, i), Discard(d, i);
    DiscardBooks(d, i);
    forall j, c | Directory(d, j) && j != i && c in Children(d, j) ensures Known(e, c) { assert GoodDir(d, j); }
    TreeStep(d, e, i);
    NodesStep(d, e, i);
    forall j | Directory(d, j) && j != i ensures Bindings(e, j) == Bindings(d, j) { SameChildren(d, e, j); }
  }

  lemma DiscardBooks(d: Disk, i: nat)
    requires Books(d) && Number(i)
    ensures Books(Discard(d, i)) && OthersKept(d, Discard(d, i), i)
  {
    var n, e, bs := Node(d, i), Discard(d, i), Direct(Node(d, i));
    assert NodeOk(d.used, d.table[i - 1]);
    assert forall b :: b in bs ==> b in Blocks(n) by { assert bs == Blocks(n)[..|bs|]; }
    assert Distinct(bs) by { assert bs == Blocks(n)[..|bs|]; }
    ClearedCount(d.used, bs);
    assert Takes(d.used, n, e.used, NoInode());
    Replace(d.used, d.table, e.used, i - 1, NoInode());
    forall j | Number(j) && j != i ensures Same(d, e, j) {
      assert NodeOk(d.used, d.table[j - 1]) && Apart(d.table[j - 1], d.table[i - 1]);
    }
  }

  /** The effect of a removal: one binding less, the inode and its direct blocks free, everything else as before. */
  ghost predicate Removed(d: Disk, e: Disk, dir: nat, x: Entry)
    requires Directory(d, dir) && Number(InodeOf(x))
  {
    var i := InodeOf(x);
    && Node(e, dir) == Node(d, dir) && Bindings(e, dir) == Bindings(d, dir) - {Pair(x)}
    && e.inodeUsed == d.inodeUsed[i - 1 := false] && Node(e, i) == NoInode()
    && e.used == Cleared(d.used, Direct(Node(d, i))) && e.sbFree == d.sbFree + |Direct(Node(d, i))|
    && (forall b :: b in Direct(Node(d, i)) ==> e.data[b] == Zeros(BLOCK_SIZE))
    && RestKept(d, e, dir, i)
  }

  /** A live entry of a directory that is not a dot entry gives a current handle, unless it names the last inode. */
  lemma HandleCurrent(d: Disk, dir: nat, k: nat)
    requires FsOk(d) && Directory(d, dir)
    requires var s := Slots(d, Node(d, dir)); k < |s| && Live(s, k) && Mark(s[k]) != DOT && InodeOf(s[k]) != INODES
    ensures Current(d, SlotHandle(d, Node(d, dir), k))
  {
    var n := Node(d, dir);
    var i := InodeOf(Slots(d, n)[k]);
    assert GoodDir(d, dir);
    assert i in Children(d, dir) && i != dir && Known(d, i);
    assert Apart(d.table[dir - 1], d.table[i - 1]) && NodeOk(d.used, d.table[i - 1]);
    assert Blocks(n)[k / PER_BLOCK] in Blocks(n);
  }

  lemma UnlinkLaw(d: Disk, dir: nat, k: nat)
    requires FsOk(d) && Directory(d, dir)
    requires var s := Slots(d, Node(d, dir)); k < |s| && Live(s, k) && Mark(s[k]) != DOT && InodeOf(s[k]) != INODES
    ensures var h := SlotHandle(d, Node(d, dir), k);
            Current(d, h) && FsOk(Unlink(d, h)) && Removed(d, Unlink(d, h), dir, Slots(d, Node(d, dir))[k])
  {
    var n := Node(d, dir);
    var x := Slots(d, n)[k];
    var i, f := InodeOf(x), PutSlot(d, n, k, FreeEntry());
    HandleCurrent(d, dir, k);
    UnlinkIs(d, dir, k);
    assert Known(d, i) && i != dir by { assert GoodDir(d, dir); assert i in Children(d, dir); }
    DeleteSlotOk(d, dir, k);
    assert Same(d, f, i) && Directory(f, dir);
    DiscardOk(f, i);
    RemovedBy(d, f, dir, x);
  }

  /** In the directory the slot of the entry is freed and every other slot is as before. */
  lemma UnlinkSlots(d: Disk, dir: nat, k: nat)
    requires FsOk(d) && Directory(d, dir)
    requires var s := Slots(d, Node(d, dir)); k < |s| && Live(s, k) && Mark(s[k]) != DOT && InodeOf(s[k]) != INODES
    ensures var h := SlotHandle(d, Node(d, dir), k);
            Current(d, h) && Slots(Unlink(d, h), Node(Unlink(d, h), dir)) == Slots(d, Node(d, dir))[k := FreeEntry()]
  {
    var n := Node(d, dir);
    var i, f := InodeOf(Slots(d, n)[k]), PutSlot(d, n, k, FreeEntry());
    HandleCurrent(d, dir, k);
    UnlinkIs(d, dir, k);
    assert i != dir by { assert GoodDir(d, dir); assert i in Children(d, dir); }
    assert NodeOk(d.used, d.table[dir - 1]);
    PutSlotLaw(d, n, k, FreeEntry());
    DataFrame(d, f, dir);
    DiscardBooks(f, i);
    assert Same(f, Discard(f, i), dir);
    SameSlots(f, Discard(f, i), n);
  }

  lemma RemovedBy(d: Disk, f: Disk, dir: nat, x: Entry)
    requires Directory(d, dir) && Number(InodeOf(x)) && InodeOf(x) != dir
    requires f == d.(data := f.data) && OthersKept(d, f, dir) && Bindings(f, dir) == Bindings(d, dir) - {Pair(x)}
    requires OthersKept(f, Discard(f, InodeOf(x)), InodeOf(x))
    requires Bindings(Discard(f, InodeOf(x)), dir) == Bindings(f, dir)
    ensures Removed(d, Discard(f, InodeOf(x)), dir, x)
  {
    var i := InodeOf(x);
    var e := Discard(f, i);
    assert Node(e, dir) == Node(d, dir);
    forall j | Number(j) && j != dir && j != i ensures Same(d, e, j) {
      assert Same(d, f, j) && Same(f, e, j);
    }
  }

  /** No block of the inode is marked any more. */
  ghost predicate AllFreed(e: Disk, n: Inode) {
    forall b :: b in Blocks(n) ==> b < BLOCKS && !e.used[b]
  }

  /** Only direct blocks are freed: an inode with more than twelve blocks leaves the others marked, owned by nobody. */
  lemma DirectFreed(d: Disk, e: Disk, i: nat)
    requires Books(d) && Number(i) && e.used == Cleared(d.used, Direct(Node(d, i)))
    ensures AllFreed(e, Node(d, i)) <==> Node(d, i).blocks <= DIRECT
  {
    var n := Node(d, i);
    assert NodeOk(d.used, d.table[i - 1]);
    if n.blocks > DIRECT {
      var b := Blocks(n)[DIRECT];
      assert b in Blocks(n);
      assert b !in Direct(n) by { assert Direct(n) == Blocks(n)[..DIRECT]; }
    } else {
      assert Direct(n) == Blocks(n);
    }
  }

  /** `fsRemove` refuses directories and nothing else. */
  lemma RemoveLaw(d: Disk, dir: nat, k: nat)
    requires FsOk(d) && Directory(d, dir)
    requires var s := Slots(d, Node(d, dir)); k < |s| && Live(s, k) && Mark(s[k]) != DOT && InodeOf(s[k]) != INODES
    ensures var x := Slots(d, Node(d, dir))[k];
            var h := SlotHandle(d, Node(d, dir), k);
            && Current(d, h)
            && var (e, ok) := Remove(d, h);
               && FsOk(e) && (ok <==> !Directory(d, InodeOf(x)))
               && (ok ==> Removed(d, e, dir, x) && Direct(Node(d, InodeOf(x))) == Blocks(Node(d, InodeOf(x))))
               && (ok ==> Slots(e, Node(e, dir)) == Slots(d, Node(d, dir))[k := FreeEntry()])
               && (!ok ==> e == d)
  {
    UnlinkLaw(d, dir, k);
    UnlinkSlots(d, dir, k);
    assert Fits(d, InodeOf(Slots(d, Node(d, dir))[k]));
  }

  /** `fsRmdir` succeeds exactly on a directory in which nothing but dot entries is bound. */
  lemma RmdirLaw(d: Disk, dir: nat, k: nat)
    requires FsOk(d) && Directory(d, dir)
    requires var s := Slots(d, Node(d, dir)); k < |s| && Live(s, k) && Mark(s[k]) != DOT && InodeOf(s[k]) != INODES
    ensures var x := Slots(d, Node(d, dir))[k];
            var h := SlotHandle(d, Node(d, dir), k);
            && Current(d, h)
            && var (e, ok) := Rmdir(d, h);
               && FsOk(e) && (ok <==> Directory(d, InodeOf(x)) && forall p :: p in Bindings(d, InodeOf(x)) ==> p.0[0] == DOT)
               && (ok ==> Removed(d, e, dir, x)) && (!ok ==> e == d)
               && (ok ==> Slots(e, Node(e, dir)) == Slots(d, Node(d, dir))[k := FreeEntry()])
               && (ok ==> (AllFreed(e, Node(d, InodeOf(x))) <==> Node(d, InodeOf(x)).blocks <= DIRECT))
  {
    UnlinkLaw(d, dir, k);
    UnlinkSlots(d, dir, k);
    DirectFreed(d, Unlink(d, SlotHandle(d, Node(d, dir), k)), InodeOf(Slots(d, Node(d, dir))[k]));
    EmptyLaw(Slots(d, Node(d, InodeOf(Slots(d, Node(d, dir))[k]))));
  }
}

/** The free-inode counts: one less than the number of clear bits, and exactly when that stays so. */
module FsInodes {
  import opened Bytes
  import opened Bits
  import opened Names
  import opened FsModel
  import opened FsWrite
  import opened FsDir
  import opened FsTree
  import opened FsOps
  import opened FsRemove
  import opened FsRun

  /** Formatting counts eleven reserved inodes and marks ten, so both counts are one below the clear bits. */
  ghost predicate InodeBooks(d: Disk) {
    d.sbInodes == d.gdInodes && d.sbInodes + 1 == ClearFrom(d.inodeUsed, 0)
  }

  lemma FormatInodes()
    ensures InodeBooks(NewDisk())
  {
    UsedBitsCount(INODES, 10, 0);
  }

  ghost predicate SameInodes(d: Disk, e: Disk) {
    e.inodeUsed == d.inodeUsed && e.sbInodes == d.sbInodes && e.gdInodes == d.gdInodes
  }

  lemma InsertInodes(d: Disk, dir: nat, x: Entry)
    requires Number(dir) && CanExtend(d, dir)
    ensures SameInodes(d, Insert(d, dir, x).0)
  {
  }

  /** The operation gets as far as taking an inode. */
  predicate Reserves(d: Disk, cached: nat, op: Op)
    requires Number(op.dir)
  {
    var s := Slots(d, Node(d, op.dir));
    match op
    case CreateOp(_, name) => cached != 0 && Accepted(name) && Find(s, Searched(Stored(name)), 0) == |s|
    case MkdirOp(_, name) => Accepted(name)
    case _ => false
  }

  /** The inode side of a reservation. */
  lemma ReserveInodes(d: Disk)
    requires Books(d) && SpareInode(d) && InodeBooks(d)
    ensures InodeBooks(Reserve(d).0) <==> ClearFrom(d.used, 0) > 0 && d.sbInodes > 0
    ensures Reserve(d).1 == 0 <==> ClearFrom(d.used, 0) == 0
  {
    TakeLaw(AllocInode(d).0);
    ClearFromUpdate(d.inodeUsed, 0, FirstClear(d.inodeUsed, 0), true);
  }

  lemma EstablishInodes(d: Disk, dir: nat, key: Key)
    requires Number(dir) && CanExtend(d, dir)
    ensures SameInodes(Reserve(d).0, Establish(d, dir, key).0)
  {
    var (e, i, b) := Reserve(d);
    if i != 0 { InsertInodes(SetNode(e, i, NewFile(b)), dir, MakeEntry(i, key, NameLength(key))); }
  }

  lemma MkdirInodes(d: Disk, dir: nat, name: seq<Byte>)
    requires Number(dir) && CanExtend(d, dir) && Accepted(name)
    ensures SameInodes(Reserve(d).0, Mkdir(d, dir, name).0)
  {
    var (e, i, b) := Reserve(d);
    if i != 0 {
      var (f, ok) := Insert(e, dir, MakeEntry(i, Stored(name), NAME_LEN));
      InsertInodes(e, dir, MakeEntry(i, Stored(name), NAME_LEN));
      if ok {
        var h := SetNode(f, i, NewDir(b));
        InsertInodes(h, i, MakeEntry(i, DotName(), 0));
        InsertInodes(Insert(h, i, MakeEntry(i, DotName(), 0)).0, i, MakeEntry(dir, DotDotName(), 0));
      }
    }
  }

  lemma UnlinkInodes(d: Disk, h: Handle)
    requires Current(d, h) && d.inodeUsed[h.ino - 1] && InodeBooks(d)
    ensures InodeBooks(Unlink(d, h))
  {
    ClearFromUpdate(d.inodeUsed, 0, h.ino - 1, false);
  }

  /** A removal unlinks the entry found, or does nothing. */
  ghost predicate Unlinks(d: Disk, e: Disk, h: Handle) {
    e == d || (Current(d, h) && d.inodeUsed[h.ino - 1] && e == Unlink(d, h))
  }

  lemma SlotUnlinks(d: OkDisk, dir: nat, k: nat)
    requires Directory(d, dir)
    requires var s := Slots(d, Node(d, dir)); k < |s| && Live(s, k) && Mark(s[k]) != DOT && InodeOf(s[k]) != INODES && Known(d, InodeOf(s[k]))
    ensures var h := SlotHandle(d, Node(d, dir), k);
            Current(d, h) && Unlinks(d, Remove(d, h).0, h) && Unlinks(d, Rmdir(d, h).0, h)
  {
    HandleCurrent(d, dir, k);
  }

  lemma RemovalIs(d: OkDisk, cached: nat, op: Op) returns (h: Handle)
    requires Allowed(d, op) && (op.RemoveOp? || op.RmdirOp?)
    ensures Unlinks(d, Apply(d, cached, op).0, h)
  {
    var k := Found(d, op.dir, op.name);
    h := Handle(0, 0, 0);
    TargetLaw(d, op.dir, op.name);
    if k < |Slots(d, Node(d, op.dir))| {
      SlotUnlinks(d, op.dir, k);
      h := SlotHandle(d, Node(d, op.dir), k);
    }
  }

  lemma RemoveInodes(d: OkDisk, cached: nat, op: Op)
    requires Allowed(d, op) && InodeBooks(d) && (op.RemoveOp? || op.RmdirOp?)
    ensures InodeBooks(Apply(d, cached, op).0)
  {
    var h := RemovalIs(d, cached, op);
    if Apply(d, cached, op).0 != d { UnlinkInodes(d, h); }
  }

  lemma WriteInodes(d: OkDisk, cached: nat, op: Op)
    requires Allowed(d, op) && op.WriteOp?
    ensures SameInodes(d, Apply(d, cached, op).0)
  {
    TargetLaw(d, op.dir, op.name);
    var i := Target(d, op.dir, op.name);
    if i != 0 {
      assert Fits(d, i);
      WriteRollsBack(d, i, op.offset, op.buf);
      if CanWrite(d, i, op.offset + |op.buf|) { WriteLaw(d, i, op.offset, op.buf); }
    }
  }

  /** An operation keeps the free-inode counts right, unless it takes an inode while no block is free, which leaves its
      bit set and uncharged, or takes the very last one, for which the counts are already zero. */
  lemma InodeCounts(d: OkDisk, cached: nat, op: Op)
    requires Allowed(d, op) && InodeBooks(d)
    ensures InodeBooks(Apply(d, cached, op).0) <==>
            !Reserves(d, cached, op) || (ClearFrom(d.used, 0) > 0 && d.sbInodes > 0)
  {
    if op.WriteOp? {
      WriteInodes(d, cached, op);
    } else if op.RemoveOp? || op.RmdirOp? {
      RemoveInodes(d, cached, op);
    } else if Reserves(d, cached, op) {
      ReserveInodes(d);
      if op.CreateOp? { EstablishInodes(d, op.dir, Stored(op.name)); } else { MkdirInodes(d, op.dir, op.name); }
    }
  }
}

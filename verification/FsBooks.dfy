/** Ownership of blocks and the free-block counts over all runs, whatever directories and blocks hold. */
module FsBooks {
  import opened Bytes
  import opened Bits
  import opened Names
  import opened FsModel
  import opened FsWrite
  import opened FsDir
  import opened FsTree
  import opened FsOps
  import opened FsRemove
  import opened FsRun
  import opened FsStale

  /** The books after a step, and a block in use that nobody owned is still such a block. */
  ghost predicate Kept(d: Disk, e: Disk) {
    && Books(e)
    && forall b: BlockNo :: b < BLOCKS && d.used[b] && Unowned(d.table, b) ==> e.used[b] && Unowned(e.table, b)
  }

  lemma UnownedKept(d: Disk, e: Disk, i: nat, b: BlockNo)
    requires Number(i) && b < BLOCKS && d.used[b] && Unowned(d.table, b) && e.table == d.table[i - 1 := Node(e, i)]
    requires forall c :: c in Blocks(Node(e, i)) ==> c in Blocks(Node(d, i)) || (c < BLOCKS && !d.used[c])
    ensures Unowned(e.table, b)
  {
    assert b !in Blocks(d.table[i - 1]);
  }

  /** Inserting into a directory in any state. */
  lemma InsertKeepsBooks(d: Disk, dir: nat, x: Entry)
    requires Books(d) && Number(dir) && CanExtend(d, dir)
    ensures Kept(d, Insert(d, dir, x).0)
  {
    var n := Node(d, dir);
    assert NodeOk(d.used, d.table[dir - 1]);
    var s := Slots(d, n);
    var f, t := Find(s, FreeKey(), 0), Find(s, EndKey(), 0);
    if f < |s| {
      PutSlotLaw(d, n, f, x);
      DataFrame(d, PutSlot(d, n, f, x), dir);
    } else if t < |s| {
      var d1 := PutSlot(d, n, t, x);
      PutSlotLaw(d, n, t, x);
      DataFrame(d, d1, dir);
      if t % PER_BLOCK + 1 < PER_BLOCK {
        PutSlotLaw(d1, n, t + 1, s[t]);
        DataFrame(d, PutSlot(d1, n, t + 1, s[t]), dir);
      } else {
        GrowKeepsBooks(d, d1, dir, s[t]);
      }
    }
  }

  lemma GrowKeepsBooks(d: Disk, d1: Disk, dir: nat, x: Entry)
    requires Books(d) && Books(d1) && Number(dir) && Node(d, dir).blocks < N_BLOCKS
    requires d1 == d.(data := d1.data) && OnlyFile(d, d1, dir)
    ensures var (d2, b) := AllocBlock(d1);
            Kept(d, if b == 0 then d2 else PutBlock(Charge(SetNode(d2, dir, Appended(Node(d, dir), b))), b, FirstSlot(x)))
  {
    GrowDirectory(d, d1, dir, x);
    var (d2, b) := AllocBlock(d1);
    if b != 0 {
      var e := PutBlock(Charge(SetNode(d2, dir, Appended(Node(d, dir), b))), b, FirstSlot(x));
      assert NodeOk(d.used, d.table[dir - 1]);
      forall c: BlockNo | c < BLOCKS && d.used[c] && Unowned(d.table, c) ensures e.used[c] && Unowned(e.table, c) {
        UnownedKept(d, e, dir, c);
      }
    }
  }

  /** An inode or no block is left to take, so that a reservation is charged for what it marks. */
  predicate Chargeable(d: Disk) { SpareInode(d) || FirstClear(d.used, 0) == BLOCKS }

  /** The reservation keeps the books, and what it takes is owned by nobody. */
  lemma ReserveKeepsBooks(d: Disk)
    requires Books(d) && Chargeable(d)
    ensures var (e, i, b) := Reserve(d);
            && Books(e) && e.table == d.table && e.data == d.data
            && (i != 0 ==> Number(i) && DATA_BASE <= b < BLOCKS && e.used[b] && Unowned(e.table, b))
  {
    var (d1, i) := AllocInode(d);
    var (d2, b) := AllocBlock(d1);
    TakeLaw(d1);
    ClearFromZero(d.used, 0);
    if b != 0 {
      ClearIsUnowned(d.used, d.table, b);
      forall k | 0 <= k < INODES ensures NodeOk(d2.used, d.table[k]) { assert NodeOk(d.used, d.table[k]); }
    }
  }

  lemma CreateKeepsBooks(d: Disk, dir: nat, key: Key)
    requires Books(d) && Chargeable(d) && Number(dir) && CanExtend(d, dir)
    ensures Books(Establish(d, dir, key).0)
  {
    var (e, i, b) := Reserve(d);
    ReserveKeepsBooks(d);
    if i != 0 {
      InstallBooks(e, i, 0x21FF, b);
      InsertKeepsBooks(SetNode(e, i, NewFile(b)), dir, MakeEntry(i, key, NameLength(key)));
    }
  }

  lemma MkdirKeepsBooks(d: Disk, dir: nat, name: seq<Byte>)
    requires Books(d) && Chargeable(d) && Number(dir) && CanExtend(d, dir)
    ensures Books(Mkdir(d, dir, name).0)
  {
    var (e, i, b) := Reserve(d);
    ReserveKeepsBooks(d);
    if Accepted(name) && i != 0 {
      var (f, ok) := Insert(e, dir, MakeEntry(i, Stored(name), NAME_LEN));
      InsertKeepsBooks(e, dir, MakeEntry(i, Stored(name), NAME_LEN));
      if ok {
        InstallBooks(f, i, 0x41FF, b);
        var h := SetNode(f, i, NewDir(b));
        InsertKeepsBooks(h, i, DotEntry(i));
        InsertKeepsBooks(Insert(h, i, DotEntry(i)).0, i, DotDotEntry(dir));
      }
    }
  }

  /** A reservation without a spare inode sets the bit of a free block that nothing is charged for. */
  lemma UnchargedBooks(d: Disk, e: Disk)
    requires Books(d) && !Chargeable(d) && e == Reserve(d).0
    ensures Reserve(d).1 == 0 && !Books(e)
  {
    TakeLaw(AllocInode(d).0);
    ClearFromUpdate(d.used, 0, FirstClear(d.used, 0), true);
  }

  /** Creation keeps the books exactly if it is refused before it reserves anything, or an inode is spare, or no block
      is: otherwise a block bit is set without a charge. */
  lemma CreateBooks(d: Disk, cached: nat, dir: nat, name: seq<Byte>)
    requires Books(d) && Number(dir) && CanExtend(d, dir)
    ensures Books(Create(d, cached, dir, name).0) <==>
            cached == 0 || !Accepted(name) || Chargeable(d)
            || Find(Slots(d, Node(d, dir)), Searched(Stored(name)), 0) < |Slots(d, Node(d, dir))|
  {
    if Chargeable(d) { CreateKeepsBooks(d, dir, Stored(name)); } else { UnchargedBooks(d, Reserve(d).0); }
  }

  /** So does making a directory. */
  lemma MkdirBooks(d: Disk, dir: nat, name: seq<Byte>)
    requires Books(d) && Number(dir) && CanExtend(d, dir)
    ensures Books(Mkdir(d, dir, name).0) <==> !Accepted(name) || Chargeable(d)
  {
    if Chargeable(d) { MkdirKeepsBooks(d, dir, name); } else { UnchargedBooks(d, Reserve(d).0); }
  }

  lemma UnlinkKeepsBooks(d: Disk, h: Handle)
    requires Books(d) && Current(d, h)
    ensures Books(Unlink(d, h))
  {
    DiscardBooks(d, h.ino);
    assert Unlink(d, h) == Discard(d, h.ino).(data := Unlink(d, h).data);
  }

  lemma WriteKeepsBooks(d: Disk, i: nat, offset: nat, buf: seq<Byte>)
    requires Books(d)
    ensures Books(Write(d, i, offset, buf).0)
  {
    WriteRollsBack(d, i, offset, buf);
    if CanWrite(d, i, offset + |buf|) { WriteLaw(d, i, offset, buf); }
  }

  // ----- runs

  /** Disks whose blocks and counts are in order; nothing is asked of directories, names or inodes in use. */
  type BookDisk = d: Disk | Books(d) ghost witness (FormatOk(); NewDisk())

  /** The entry that a lookup finds. */
  function FoundHandle(d: Disk, dir: nat, name: seq<Byte>): Handle
    requires Number(dir) && Found(d, dir, name) < |Slots(d, Node(d, dir))|
  {
    SlotHandle(d, Node(d, dir), Found(d, dir, name))
  }

  /** The operation neither needs the last inode nor a sixteenth block, and does not remove what its own entry lies in. */
  predicate Feasible(d: Disk, op: Op) {
    && Number(op.dir)
    && match op
       case CreateOp(dir, _) => CanExtend(d, dir) && Chargeable(d)
       case MkdirOp(dir, _) => CanExtend(d, dir) && Chargeable(d)
       case RemoveOp(dir, name) => Found(d, dir, name) < |Slots(d, Node(d, dir))| ==> Current(d, FoundHandle(d, dir, name))
       case RmdirOp(dir, name) => Found(d, dir, name) < |Slots(d, Node(d, dir))| ==> Current(d, FoundHandle(d, dir, name))
       case WriteOp(_, _, _, _) => true
  }

  ghost function Perform(d: BookDisk, cached: nat, op: Op): (r: (Disk, bool))
    requires Feasible(d, op)
  {
    match op
    case CreateOp(dir, name) => Create(d, cached, dir, name)
    case MkdirOp(dir, name) => Mkdir(d, dir, name)
    case RemoveOp(dir, name) =>
      if Found(d, dir, name) == |Slots(d, Node(d, dir))| then (d, false) else Remove(d, FoundHandle(d, dir, name))
    case RmdirOp(dir, name) =>
      if Found(d, dir, name) == |Slots(d, Node(d, dir))| then (d, false) else Rmdir(d, FoundHandle(d, dir, name))
    case WriteOp(dir, name, offset, buf) =>
      var i := Target(d, dir, name);
      if i == 0 then (d, false) else Write(d, i, offset, buf)
  }

  lemma PerformKeepsBooks(d: BookDisk, cached: nat, op: Op)
    requires Feasible(d, op)
    ensures Books(Perform(d, cached, op).0)
  {
    match op
    case CreateOp(dir, name) => if Accepted(name) { CreateKeepsBooks(d, dir, Stored(name)); }
    case MkdirOp(dir, name) => MkdirKeepsBooks(d, dir, name);
    case RemoveOp(dir, name) =>
      if Found(d, dir, name) < |Slots(d, Node(d, dir))| { UnlinkKeepsBooks(d, FoundHandle(d, dir, name)); }
    case RmdirOp(dir, name) =>
      if Found(d, dir, name) < |Slots(d, Node(d, dir))| { UnlinkKeepsBooks(d, FoundHandle(d, dir, name)); }
    case WriteOp(dir, name, offset, buf) =>
      var i := Target(d, dir, name);
      WriteKeepsBooks(d, i, offset, buf);
  }

  ghost predicate AllFeasible(d: BookDisk, cached: nat, ops: seq<Op>)
    decreases |ops|
  {
    ops == [] || (Feasible(d, ops[0]) && (PerformKeepsBooks(d, cached, ops[0]); AllFeasible(Perform(d, cached, ops[0]).0, cached, ops[1..])))
  }

  ghost function Result(d: BookDisk, cached: nat, ops: seq<Op>): BookDisk
    requires AllFeasible(d, cached, ops)
    decreases |ops|
  {
    if ops == [] then d else PerformKeepsBooks(d, cached, ops[0]); Result(Perform(d, cached, ops[0]).0, cached, ops[1..])
  }

  /** On a disk in order an allowed operation is one of these, and does the same. */
  lemma PerformIsApply(d: OkDisk, cached: nat, op: Op)
    requires Allowed(d, op)
    ensures Feasible(d, op) && Perform(d, cached, op) == Apply(d, cached, op)
  {
    if op.RemoveOp? || op.RmdirOp? {
      TargetLaw(d, op.dir, op.name);
      var k := Found(d, op.dir, op.name);
      if k < |Slots(d, Node(d, op.dir))| { HandleCurrent(d, op.dir, k); }
    } else if op.WriteOp? {
      TargetLaw(d, op.dir, op.name);
    }
  }

  /** So the runs of allowed operations are among these runs. */
  lemma {:induction false} ResultIsAfter(d: OkDisk, cached: nat, ops: seq<Op>)
    requires Permitted(d, cached, ops)
    ensures AllFeasible(d, cached, ops) && Result(d, cached, ops) == FsRun.After(d, cached, ops)
    decreases |ops|
  {
    if ops != [] {
      PerformIsApply(d, cached, ops[0]);
      ApplyOk(d, cached, ops[0]);
      ResultIsAfter(Apply(d, cached, ops[0]).0, cached, ops[1..]);
    }
  }

  /** In every run from a formatted disk that never lacks an inode, keeps directories below fifteen blocks and removes no
      entry from within itself: no block belongs to two inodes, owned blocks are marked, and both counts are the clear bits. */
  lemma EveryRunBooks(cached: nat, ops: seq<Op>)
    requires AllFeasible(FsRun.Formatted(), cached, ops)
    ensures BlocksSafe(Result(FsRun.Formatted(), cached, ops))
  {
    BlocksAreSafe(Result(FsRun.Formatted(), cached, ops));
  }
}

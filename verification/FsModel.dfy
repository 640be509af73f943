/** The disk as values: bitmaps, free counts, inode table and data blocks, and the ownership of blocks. */
module FsModel {
  import opened Bytes
  import opened Bits

  const BLOCK_SIZE: nat := 1024
  const BLOCKS: nat := 8192
  const DISK_BLOCKS: nat := 8193
  const INODES: nat := 4096
  const DATA_BASE: nat := 517
  const DIRECT: nat := 12
  const N_BLOCKS: nat := 15
  const ROOT: nat := 2

  type Block = b: seq<Byte> | |b| == BLOCK_SIZE witness Zeros(1024)

  /** A block that a bit of the bitmap stands for. */
  type BlockNo = n: int | 0 <= n < BLOCKS

  datatype InodeRecord = Inode(mode: nat, size: nat, blocks: nat, flags: nat, block: seq<BlockNo>)

  /** An inode lists at most as many blocks as it has room for. */
  type Inode = n: InodeRecord | |n.block| == N_BLOCKS && n.blocks <= N_BLOCKS witness NoInode()

  /** A cleared inode. */
  function NoInode(): InodeRecord {
    Inode(0, 0, 0, 0, seq(N_BLOCKS, i => 0))
  }

  datatype DiskRecord = Disk(
    sbFree: nat, gdFree: nat, sbInodes: nat, gdInodes: nat,
    used: seq<bool>, inodeUsed: seq<bool>, table: seq<Inode>, data: seq<Block>)

  /** Bits of both bitmaps, one inode per number and all blocks are there. */
  type Disk = d: DiskRecord
    | |d.used| == BLOCKS && |d.inodeUsed| == INODES && |d.table| == INODES && |d.data| == DISK_BLOCKS
    witness Blank()

  /** The disk storage before it is formatted. */
  function Blank(): DiskRecord {
    Disk(0, 0, 0, 0, seq(BLOCKS, i => false), seq(INODES, i => false), seq(INODES, i => NoInode()),
         seq(DISK_BLOCKS, i => Zeros(BLOCK_SIZE)))
  }

  predicate Number(i: int) { 1 <= i <= INODES }

  /** Inode numbers start at one. */
  function Node(d: Disk, i: nat): Inode
    requires Number(i)
  {
    d.table[i - 1]
  }

  function SetNode(d: Disk, i: nat, n: Inode): Disk
    requires Number(i)
  {
    d.(table := d.table[i - 1 := n])
  }

  function PutBlock(d: Disk, b: BlockNo, x: Block): Disk
  {
    d.(data := d.data[b := x])
  }

  // ----- bitmaps and counts

  /** The first clear bit from `i` on, or the length if there is none. */
  function FirstClear(s: seq<bool>, i: nat): (k: nat)
    requires i <= |s|
    ensures i <= k <= |s| && (k < |s| ==> !s[k]) && forall j :: i <= j < k ==> s[j]
    decreases |s| - i
  {
    if i == |s| || !s[i] then i else FirstClear(s, i + 1)
  }

  lemma {:induction false} FirstClearIs(s: seq<bool>, i: nat, k: nat)
    requires i <= k <= |s| && (k < |s| ==> !s[k]) && forall j :: i <= j < k ==> s[j]
    ensures FirstClear(s, i) == k
  {
  }

  /** A block number, with its bit set, or 0. */
  function AllocBlock(d: Disk): (r: (Disk, BlockNo))
    ensures r.1 < BLOCKS
  {
    var k := FirstClear(d.used, 0);
    if k == BLOCKS then (d, 0) else (d.(used := d.used[k := true]), k)
  }

  /** An inode number, with its bit set, or 0. */
  function AllocInode(d: Disk): (r: (Disk, nat))
    ensures r.1 <= INODES
  {
    var k := FirstClear(d.inodeUsed, 0);
    if k == INODES then (d, 0) else (d.(inodeUsed := d.inodeUsed[k := true]), k + 1)
  }

  /** A count that is already zero stays zero. */
  function Less(n: nat): nat { if n >= 1 then n - 1 else n }

  function Charge(d: Disk): Disk {
    d.(sbFree := Less(d.sbFree), gdFree := Less(d.gdFree))
  }

  function ChargeInode(d: Disk): Disk {
    d.(sbInodes := Less(d.sbInodes), gdInodes := Less(d.gdInodes))
  }

  function Refund(d: Disk, n: nat): Disk {
    d.(sbFree := d.sbFree + n, gdFree := d.gdFree + n)
  }

  /** The bitmap with the bits of `bs` cleared. */
  function Cleared(used: seq<bool>, bs: seq<BlockNo>): (r: seq<bool>)
    ensures |r| == |used|
  {
    seq(|used|, k requires 0 <= k < |used| => used[k] && k !in bs)
  }

  /** Gives blocks back: both counts go up and the bits are cleared; the contents stay. */
  function FreeBlocks(d: Disk, bs: seq<BlockNo>): Disk {
    Refund(d, |bs|).(used := Cleared(d.used, bs))
  }

  lemma ClearedAppend(used: seq<bool>, bs: seq<BlockNo>, b: BlockNo)
    requires b < |used|
    ensures Cleared(used, bs + [b]) == Cleared(used, bs)[b := false]
  {
  }

  lemma ClearedNone(used: seq<bool>)
    ensures Cleared(used, []) == used
  {
  }

  ghost predicate Distinct(bs: seq<BlockNo>) {
    forall i, j :: 0 <= i < j < |bs| ==> bs[i] != bs[j]
  }

  /** Every freed block adds one to the number of clear bits. */
  lemma {:induction false} ClearedCount(used: seq<bool>, bs: seq<BlockNo>)
    requires Distinct(bs) && forall b :: b in bs ==> b < |used| && used[b]
    ensures ClearFrom(Cleared(used, bs), 0) == ClearFrom(used, 0) + |bs|
  {
    if bs == [] {
      ClearedNone(used);
    } else {
      var n := |bs| - 1;
      var init, b := bs[..n], bs[n];
      assert bs == init + [b];
      assert forall x :: x in init ==> x in bs;
      assert b !in init && b in bs;
      ClearedCount(used, init);
      ClearedAppend(used, init, b);
      ClearFromUpdate(Cleared(used, init), 0, b, false);
    }
  }

  // ----- ownership

  function Blocks(n: Inode): (bs: seq<BlockNo>)
  {
    n.block[..n.blocks]
  }

  /** An inode lists distinct data blocks whose bits are set. */
  ghost predicate NodeOk(used: seq<bool>, n: Inode) {
    && Distinct(Blocks(n))
    && forall b :: b in Blocks(n) ==> DATA_BASE <= b < |used| && used[b]
  }

  ghost predicate Apart(m: Inode, n: Inode)
  {
    forall b :: b in Blocks(m) ==> b !in Blocks(n)
  }

  /** No block belongs to two inodes, and every owned block's bit is set. */
  ghost predicate OwnOk(used: seq<bool>, table: seq<Inode>) {
    && (forall i {:trigger NodeOk(used, table[i])} :: 0 <= i < |table| ==> NodeOk(used, table[i]))
    && (forall i, j {:trigger Apart(table[i], table[j])} ::
          0 <= i < |table| && 0 <= j < |table| && i != j ==> Apart(table[i], table[j]))
  }

  /** The reserved bits are set, both free counts are the number of clear bits, and blocks have one owner. */
  ghost predicate Books(d: Disk) {
    && (forall k :: 0 <= k < DATA_BASE ==> d.used[k])
    && d.sbFree == ClearFrom(d.used, 0) == d.gdFree
    && OwnOk(d.used, d.table)
  }

  /** The new version of inode `i` may keep its blocks and take free ones; others keep theirs. */
  ghost predicate Takes(used: seq<bool>, old_: Inode, used': seq<bool>, n: Inode)
    requires |used| == |used'|
  {
    && NodeOk(used', n)
    && (forall b :: b in Blocks(n) ==> b in Blocks(old_) || !used[b])
    && (forall b :: 0 <= b < |used| && used[b] && b !in Blocks(old_) ==> used'[b])
  }

  /** No inode owns the block. */
  ghost predicate Unowned(table: seq<Inode>, b: BlockNo) {
    forall i :: 0 <= i < |table| ==> b !in Blocks(table[i])
  }

  /** Blocks that inode `i` kept or that nobody owned are its own afterwards. */
  lemma Adopt(used: seq<bool>, table: seq<Inode>, used': seq<bool>, i: nat, n: Inode)
    requires OwnOk(used, table) && i < |table| && |used| == |used'| && NodeOk(used', n)
    requires forall b :: b in Blocks(n) ==> b in Blocks(table[i]) || Unowned(table, b)
    requires forall b :: 0 <= b < |used| && used[b] && b !in Blocks(table[i]) ==> used'[b]
    ensures OwnOk(used', table[i := n])
  {
    var t := table[i := n];
    forall j | 0 <= j < |table| && j != i ensures NodeOk(used', table[j]) && Apart(table[j], n) && Apart(n, table[j]) {
      assert NodeOk(used, table[j]) && Apart(table[j], table[i]);
    }
    forall j, k | 0 <= j < |table| && 0 <= k < |table| && j != k ensures Apart(t[j], t[k]) {
      assert j != i && k != i ==> Apart(table[j], table[k]);
    }
  }

  lemma ClearIsUnowned(used: seq<bool>, table: seq<Inode>, b: BlockNo)
    requires OwnOk(used, table) && b < |used| && !used[b]
    ensures Unowned(table, b)
  {
    forall i | 0 <= i < |table| ensures b !in Blocks(table[i]) {
      assert NodeOk(used, table[i]);
    }
  }

  lemma Replace(used: seq<bool>, table: seq<Inode>, used': seq<bool>, i: nat, n: Inode)
    requires OwnOk(used, table) && i < |table| && |used| == |used'|
    requires Takes(used, table[i], used', n)
    ensures OwnOk(used', table[i := n])
  {
    forall b | b in Blocks(n) ensures b in Blocks(table[i]) || Unowned(table, b) {
      if b !in Blocks(table[i]) { ClearIsUnowned(used, table, b); }
    }
    Adopt(used, table, used', i, n);
  }

  // ----- what leaves a file or directory as it was

  /** Inode `i` and the contents of its blocks are the same on both disks. */
  ghost predicate Same(d: Disk, e: Disk, i: nat)
    requires Number(i)
  {
    Node(d, i) == Node(e, i) && SameOn(d, e, Blocks(Node(d, i)))
  }

  ghost predicate SameOn(d: Disk, e: Disk, bs: seq<BlockNo>) {
    forall b :: b in bs ==> d.data[b] == e.data[b]
  }
}

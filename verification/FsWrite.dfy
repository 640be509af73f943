/** Writing a file over its direct blocks, with roll-back, and reading it back. */
module FsWrite {
  import opened Bytes
  import opened Bits
  import opened FsModel

  // ----- allocating the missing blocks

  datatype Growth = Growth(d: Disk, block: seq<BlockNo>, upto: nat)

  /** Takes blocks for positions `i` up to `n`, and stops where none is free. */
  function Grow(d: Disk, block: seq<BlockNo>, i: nat, n: nat): (r: Growth)
    requires n <= |block| && i <= |block|
    ensures |r.block| == |block| && i <= r.upto <= |block|
    decreases n - i
  {
    if i >= n then Growth(d, block, i)
    else
      var (d1, b) := AllocBlock(d);
      if b == 0 then Growth(d1, block, i) else Grow(Charge(d1), block[i := b], i + 1, n)
  }

  /** The reserved bits are set and both counts are right. */
  ghost predicate Counted(d: Disk) {
    (forall k :: 0 <= k < DATA_BASE ==> d.used[k]) && d.sbFree == ClearFrom(d.used, 0) == d.gdFree
  }

  /** The blocks `bs` were free on `d` and are taken on `e`. */
  ghost predicate Fresh(d: Disk, e: Disk, bs: seq<BlockNo>) {
    && Distinct(bs)
    && (forall b :: b in bs ==> DATA_BASE <= b < BLOCKS && !d.used[b] && e.used[b])
    && (forall k :: 0 <= k < BLOCKS ==> e.used[k] == (d.used[k] || k in bs))
  }

  /** One allocation: the lowest free block, whose bit is set and which is charged to both counts. */
  lemma TakeLaw(d: Disk)
    requires Counted(d)
    ensures var (e, b) := AllocBlock(d);
            && (b == 0 <==> ClearFrom(d.used, 0) == 0)
            && (b == 0 ==> e == d)
            && (b != 0 ==> DATA_BASE <= b && !d.used[b] && Counted(Charge(e)) && Charge(e).sbFree == d.sbFree - 1
                           && Charge(e) == d.(used := d.used[b := true], sbFree := d.sbFree - 1, gdFree := d.gdFree - 1))
  {
    var k := FirstClear(d.used, 0);
    ClearFromZero(d.used, 0);
    if k < BLOCKS { ClearFromUpdate(d.used, 0, k, true); }
  }

  lemma FreshCons(d: Disk, e: Disk, f: Disk, b: BlockNo, bs: seq<BlockNo>)
    requires DATA_BASE <= b < BLOCKS && !d.used[b] && e.used == d.used[b := true] && Fresh(e, f, bs)
    ensures Fresh(d, f, [b] + bs)
  {
    forall k | 0 <= k < BLOCKS ensures f.used[k] == (d.used[k] || k in [b] + bs) {
      assert f.used[k] == (e.used[k] || k in bs);
    }
    forall x | x in [b] + bs ensures DATA_BASE <= x < BLOCKS && !d.used[x] && f.used[x] {
      assert x != b ==> x in bs;
    }
  }

  /** All blocks below this one are taken. */
  ghost predicate LowestFree(used: seq<bool>, b: BlockNo) {
    forall c :: 0 <= c < b && c < |used| ==> used[c]
  }

  /** What growing from position `i` to `n` gives: fresh blocks at those positions, the lowest ones, charged to the counts. */
  ghost predicate Grown(d: Disk, block: seq<BlockNo>, i: nat, g: Growth)
    requires i <= g.upto <= |block| == |g.block|
  {
    && Counted(g.d) && Fresh(d, g.d, g.block[i..g.upto])
    && g.d == d.(used := g.d.used, sbFree := g.d.sbFree, gdFree := g.d.gdFree)
    && g.d.sbFree + (g.upto - i) == d.sbFree
    && g.block == block[..i] + g.block[i..g.upto] + block[g.upto..]
    && (forall k :: i <= k < g.upto ==> LowestFree(g.d.used, g.block[k]))
  }

  /** Growing takes fresh blocks, giving them back restores the disk, and it succeeds when enough blocks are free. */
  lemma {:induction false} GrowLaw(d: Disk, block: seq<BlockNo>, i: nat, n: nat)
    requires n <= |block| && i <= |block| && Counted(d)
    ensures var g := Grow(d, block, i, n);
            Grown(d, block, i, g) && (g.upto >= n <==> n - i <= ClearFrom(d.used, 0))
    decreases n - i
  {
    if i < n {
      var (d1, b) := AllocBlock(d);
      TakeLaw(d);
      if b != 0 {
        GrowLaw(Charge(d1), block[i := b], i + 1, n);
        GrownCons(d, Charge(d1), block, i, b, Grow(d, block, i, n));
      }
    }
  }

  lemma GrownCons(d: Disk, e: Disk, block: seq<BlockNo>, i: nat, b: BlockNo, g: Growth)
    requires i < g.upto <= |block| == |g.block| && DATA_BASE <= b < BLOCKS && !d.used[b] && d.sbFree > 0 && d.gdFree > 0
    requires e == d.(used := d.used[b := true], sbFree := d.sbFree - 1, gdFree := d.gdFree - 1)
    requires Grown(e, block[i := b], i + 1, g) && LowestFree(d.used, b)
    ensures Grown(d, block, i, g)
  {
    var rest := g.block[i + 1..g.upto];
    assert g.block[i] == b;
    assert g.block[i..g.upto] == [b] + rest;
    FreshCons(d, e, g.d, b, rest);
    assert block[i := b][..i + 1] == block[..i] + [b] && block[i := b][g.upto..] == block[g.upto..];
  }

  /** Giving back what was freshly taken restores the disk. */
  lemma UndoGrow(d: Disk, e: Disk, bs: seq<BlockNo>)
    requires Fresh(d, e, bs) && e == d.(used := e.used, sbFree := e.sbFree, gdFree := e.gdFree)
    requires d.sbFree == d.gdFree == e.sbFree + |bs| == e.gdFree + |bs|
    ensures FreeBlocks(e, bs) == d
  {
    assert FreeBlocks(e, bs).used == d.used;
  }

  // ----- the contents

  /** Byte `p` of `offset` zeros followed by the buffer, and zeros after that. */
  function ByteAt(offset: nat, buf: seq<Byte>, p: nat): Byte {
    if offset <= p < offset + |buf| then buf[p - offset] else 0
  }

  function Chunk(i: nat, offset: nat, buf: seq<Byte>): Block {
    var b := seq<Byte>(BLOCK_SIZE, k requires 0 <= k < BLOCK_SIZE => ByteAt(offset, buf, BLOCK_SIZE * i + k));
    assert |b| == BLOCK_SIZE;
    b
  }

  /** Writes chunk after chunk to the listed blocks. */
  function Fill(data: seq<Block>, bs: seq<BlockNo>, offset: nat, buf: seq<Byte>): (r: seq<Block>)
    requires |data| == DISK_BLOCKS
    ensures |r| == |data|
  {
    if bs == [] then data
    else
      var n := |bs| - 1;
      Fill(data, bs[..n], offset, buf)[bs[n] := Chunk(n, offset, buf)]
  }

  lemma {:induction false} FillLaw(data: seq<Block>, bs: seq<BlockNo>, offset: nat, buf: seq<Byte>)
    requires Distinct(bs) && |data| == DISK_BLOCKS
    ensures forall k :: 0 <= k < |bs| ==> Fill(data, bs, offset, buf)[bs[k]] == Chunk(k, offset, buf)
    ensures forall b :: 0 <= b < |data| && b !in bs ==> Fill(data, bs, offset, buf)[b] == data[b]
  {
    if bs != [] {
      var n := |bs| - 1;
      FillLaw(data, bs[..n], offset, buf);
      forall k | 0 <= k < n ensures Fill(data, bs, offset, buf)[bs[k]] == Chunk(k, offset, buf) {
        assert bs[..n][k] == bs[k];
      }
    }
  }

  /** The size fits the blocks. */
  predicate Sized(n: Inode) { n.size <= BLOCK_SIZE * n.blocks }

  /** The bytes of a file. */
  function Contents(d: Disk, n: Inode): (r: seq<Byte>)
    requires Sized(n)
    ensures |r| == n.size
  {
    seq(n.size, k requires 0 <= k < n.size =>
      d.data[n.block[k / BLOCK_SIZE]][k % BLOCK_SIZE])
  }

  // ----- fsWrite

  function BlockCount(total: nat): (n: nat)
    ensures n >= 1 && total <= BLOCK_SIZE * n
    ensures total > 0 ==> BLOCK_SIZE * (n - 1) < total
  {
    if total == 0 then 1 else (total + BLOCK_SIZE - 1) / BLOCK_SIZE
  }

  /** Entries `lo` to `hi` of the block list are cleared. */
  function Zeroed(block: seq<BlockNo>, lo: nat, hi: nat): (r: seq<BlockNo>)
    ensures |r| == |block|
  {
    seq(|block|, k requires 0 <= k < |block| => if lo <= k < hi then 0 else block[k])
  }

  /** The inode after the write, given its block list. */
  function Written(node: Inode, block: seq<BlockNo>, n: nat, size: nat): Inode
    requires |block| == N_BLOCKS && n <= N_BLOCKS
  {
    node.(size := size, blocks := n, block := Zeroed(block, n, node.blocks))
  }

  function Surplus(node: Inode, n: nat): seq<BlockNo>
  {
    if n < node.blocks then node.block[n..node.blocks] else []
  }

  /** `fsWrite` on inode `i`. */
  function Write(d: Disk, i: nat, offset: nat, buf: seq<Byte>): (r: (Disk, bool))
  {
    var n := BlockCount(offset + |buf|);
    if n > DIRECT || !Number(i) then (d, false)
    else
      var node := Node(d, i);
      var g := Grow(d, node.block, node.blocks, n);
      if g.upto < n then (FreeBlocks(g.d, g.block[node.blocks..g.upto]), false)
      else
        var e := FreeBlocks(g.d, Surplus(node, n));
        var node' := Written(node, g.block, n, offset + |buf|);
        (SetNode(e.(data := Fill(e.data, Blocks(node'), offset, buf)), i, node'), true)
  }
  /** The number of blocks fits, and enough of them are owned or free. */
  ghost predicate CanWrite(d: Disk, i: nat, total: nat) {
    && Number(i) && BlockCount(total) <= DIRECT
    && BlockCount(total) <= Node(d, i).blocks + ClearFrom(d.used, 0)
  }

  /** A write that cannot be completed leaves the whole disk as it was. */
  lemma WriteRollsBack(d: Disk, i: nat, offset: nat, buf: seq<Byte>)
    requires Books(d)
    ensures Write(d, i, offset, buf).1 <==> CanWrite(d, i, offset + |buf|)
    ensures !Write(d, i, offset, buf).1 ==> Write(d, i, offset, buf).0 == d
  {
    if Number(i) {
      var n, node := BlockCount(offset + |buf|), Node(d, i);
      if n <= DIRECT {
        GrowLaw(d, node.block, node.blocks, n);
        var g := Grow(d, node.block, node.blocks, n);
        if g.upto < n { UndoGrow(d, g.d, g.block[node.blocks..g.upto]); }
      }
    }
  }

  /** The bitmap and counts after a write that succeeds. */
  function Settled(d: Disk, node: Inode, n: nat): Disk
    requires n <= N_BLOCKS
  {
    FreeBlocks(Grow(d, node.block, node.blocks, n).d, Surplus(node, n))
  }

  function NewNode(d: Disk, node: Inode, n: nat, size: nat): Inode
    requires n <= N_BLOCKS
  {
    Written(node, Grow(d, node.block, node.blocks, n).block, n, size)
  }

  /** The blocks of the new inode: the kept ones, then the fresh ones. */
  lemma NewBlocks(d: Disk, node: Inode, n: nat, size: nat)
    requires Counted(d) && NodeOk(d.used, node) && n <= DIRECT && n <= node.blocks + ClearFrom(d.used, 0)
    ensures var g := Grow(d, node.block, node.blocks, n);
            Blocks(NewNode(d, node, n, size)) == if n <= node.blocks then node.block[..n] else Blocks(node) + g.block[node.blocks..n]
  {
    GrowLaw(d, node.block, node.blocks, n);
    var g := Grow(d, node.block, node.blocks, n);
    assert Blocks(NewNode(d, node, n, size)) == g.block[..n];
    if n > node.blocks {
      assert g.upto == n by { GrowUpto(d, node.block, node.blocks, n); }
    }
  }

  /** The block list after a write: blocks are kept in their places, and places given up are cleared. */
  ghost predicate Relisted(n: Inode, m: Inode) {
    && (forall k :: 0 <= k < m.blocks && k < n.blocks ==> m.block[k] == n.block[k])
    && (forall k :: m.blocks <= k < N_BLOCKS ==> m.block[k] == if k < n.blocks then 0 else n.block[k])
  }

  lemma KeptList(d: Disk, node: Inode, n: nat, size: nat)
    requires Counted(d) && n <= DIRECT && n <= node.blocks + ClearFrom(d.used, 0)
    ensures Relisted(node, NewNode(d, node, n, size))
  {
    GrowLaw(d, node.block, node.blocks, n);
    GrowUpto(d, node.block, node.blocks, n);
    var g := Grow(d, node.block, node.blocks, n);
    assert forall k :: 0 <= k < node.blocks ==> g.block[k] == node.block[..node.blocks][k];
    assert forall k :: g.upto <= k < N_BLOCKS ==> g.block[k] == node.block[g.upto..][k - g.upto];
  }

  lemma {:induction false} GrowUpto(d: Disk, block: seq<BlockNo>, i: nat, n: nat)
    requires n <= |block| && i <= |block|
    ensures Grow(d, block, i, n).upto <= if i < n then n else i
    decreases n - i
  {
    if i < n {
      var (d1, b) := AllocBlock(d);
      if b != 0 { GrowUpto(Charge(d1), block[i := b], i + 1, n); }
    }
  }

  /** Keeping the first `n` blocks and clearing the bits of the others. */
  lemma ShrinkTakes(used: seq<bool>, node: Inode, n: nat, m: Inode)
    requires |used| == BLOCKS && NodeOk(used, node) && n <= node.blocks && m.blocks == n && Blocks(m) == node.block[..n]
    ensures Takes(used, node, Cleared(used, node.block[n..node.blocks]), m)
  {
    var bs, cut := Blocks(node), node.block[n..node.blocks];
    assert bs == Blocks(m) + cut;
    forall b | b in Blocks(m) ensures b in bs && b !in cut {
      var k :| 0 <= k < n && bs[k] == b;
      assert forall l :: 0 <= l < |cut| ==> cut[l] == bs[n + l];
    }
    assert Distinct(Blocks(m));
  }

  /** Adding fresh blocks. */
  lemma ExtendTakes(d: Disk, e: Disk, node: Inode, m: Inode, bs: seq<BlockNo>)
    requires NodeOk(d.used, node) && Fresh(d, e, bs) && Blocks(m) == Blocks(node) + bs
    ensures Takes(d.used, node, e.used, m)
  {
    forall b | b in Blocks(m) ensures (b in Blocks(node) || !d.used[b]) && DATA_BASE <= b < BLOCKS && e.used[b] {
      assert b in Blocks(node) || b in bs;
    }
    forall i, j | 0 <= i < j < m.blocks ensures Blocks(m)[i] != Blocks(m)[j] {
      if i < node.blocks <= j { assert Blocks(m)[i] in Blocks(node) && Blocks(m)[j] in bs; }
    }
  }

  lemma WriteSettles(d: Disk, node: Inode, n: nat, size: nat)
    requires Counted(d) && NodeOk(d.used, node) && n <= DIRECT && n <= node.blocks + ClearFrom(d.used, 0)
    ensures var e := Settled(d, node, n);
            Counted(e) && Takes(d.used, node, e.used, NewNode(d, node, n, size))
            && (forall b :: 0 <= b < BLOCKS ==> e.used[b] == (b in Blocks(NewNode(d, node, n, size)) || (d.used[b] && b !in Blocks(node))))
            && e == d.(used := e.used, sbFree := e.sbFree, gdFree := e.gdFree)
  {
    var g := Grow(d, node.block, node.blocks, n);
    var m := NewNode(d, node, n, size);
    NewBlocks(d, node, n, size);
    if n < node.blocks {
      var cut := node.block[n..node.blocks];
      ShrinkTakes(d.used, node, n, m);
      ShrinkCount(d, node, n);
    } else {
      GrowLaw(d, node.block, node.blocks, n);
      ClearedNone(g.d.used);
      GrowUpto(d, node.block, node.blocks, n);
      assert Settled(d, node, n) == g.d;
      ExtendTakes(d, g.d, node, m, g.block[node.blocks..n]);
    }
  }

  lemma ShrinkCount(d: Disk, node: Inode, n: nat)
    requires Counted(d) && NodeOk(d.used, node) && n <= node.blocks
    ensures Counted(FreeBlocks(d, node.block[n..node.blocks]))
  {
    var cut := node.block[n..node.blocks];
    assert forall k :: 0 <= k < |cut| ==> cut[k] == Blocks(node)[n + k] && Blocks(node)[n + k] in Blocks(node);
    ClearedCount(d.used, cut);
    assert forall k :: 0 <= k < DATA_BASE ==> k !in cut;
  }

  /** What the written file holds. */
  lemma ContentsOfFill(data: seq<Block>, d: Disk, n: Inode, offset: nat, buf: seq<Byte>)
    requires |data| == DISK_BLOCKS && Sized(n) && n.size == offset + |buf| && Distinct(Blocks(n))
    requires d.data == Fill(data, Blocks(n), offset, buf)
    ensures Contents(d, n) == Zeros(offset) + buf
  {
    FillLaw(data, Blocks(n), offset, buf);
    forall k | 0 <= k < n.size ensures Contents(d, n)[k] == (Zeros(offset) + buf)[k] {
      var q := k / BLOCK_SIZE;
      assert d.data[Blocks(n)[q]] == Chunk(q, offset, buf);
      ByteOfChunk(offset, buf, k);
    }
  }

  lemma ByteOfChunk(offset: nat, buf: seq<Byte>, k: nat)
    requires k < offset + |buf|
    ensures Chunk(k / BLOCK_SIZE, offset, buf)[k % BLOCK_SIZE] == (Zeros(offset) + buf)[k]
  {
    var q, p := k / BLOCK_SIZE, k % BLOCK_SIZE;
    assert BLOCK_SIZE * q + p == k;
    assert Chunk(q, offset, buf)[p] == ByteAt(offset, buf, BLOCK_SIZE * q + p);
  }

  /** Blocks that the inode does not own keep their contents, so every other file and directory is untouched. */
  lemma OthersSame(d: Disk, e: Disk, i: nat, j: nat, offset: nat, buf: seq<Byte>)
    requires Number(i) && Number(j) && i != j && OwnOk(d.used, d.table)
    requires e.table == d.table[i - 1 := Node(e, i)] && NodeOk(e.used, Node(e, i))
    requires forall b :: b in Blocks(Node(e, i)) ==> b in Blocks(Node(d, i)) || !d.used[b]
    requires e.data == Fill(d.data, Blocks(Node(e, i)), offset, buf)
    ensures Same(d, e, j)
  {
    assert NodeOk(d.used, d.table[j - 1]) && Apart(d.table[j - 1], d.table[i - 1]);
    FillLaw(d.data, Blocks(Node(e, i)), offset, buf);
  }

  /** Everything outside the file is as before: names the fields that a write leaves alone. */
  ghost predicate OnlyFile(d: Disk, e: Disk, i: nat)
    requires Number(i) && OwnOk(d.used, d.table)
  {
    && e.inodeUsed == d.inodeUsed && e.sbInodes == d.sbInodes && e.gdInodes == d.gdInodes
    && (forall j :: Number(j) && j != i ==> NodeOk(d.used, Node(d, j)) && Same(d, e, j))
    && (forall b :: 0 <= b < DISK_BLOCKS && b !in Blocks(Node(e, i)) ==> e.data[b] == d.data[b])
  }

  /** A successful write keeps the books, and the file then reads as `offset` zeros followed by the buffer; the blocks it
      had are kept in their places or given up, and every other block is marked as before. */
  lemma WriteLaw(d: Disk, i: nat, offset: nat, buf: seq<Byte>)
    requires Books(d) && CanWrite(d, i, offset + |buf|)
    ensures var (e, ok) := Write(d, i, offset, buf);
            var m := Node(e, i);
            && ok && Books(e) && OnlyFile(d, e, i)
            && Sized(m) && Contents(e, m) == Zeros(offset) + buf
            && m.mode == Node(d, i).mode && m.flags == Node(d, i).flags && m.blocks == BlockCount(offset + |buf|)
            && (forall b :: b in Blocks(m) ==> b in Blocks(Node(d, i)) || !d.used[b])
            && (forall b :: 0 <= b < BLOCKS ==> e.used[b] == (b in Blocks(m) || (d.used[b] && b !in Blocks(Node(d, i)))))
            && Relisted(Node(d, i), m)
  {
    var node, n := Node(d, i), BlockCount(offset + |buf|);
    var m := NewNode(d, node, n, offset + |buf|);
    WriteRollsBack(d, i, offset, buf);
    assert NodeOk(d.used, d.table[i - 1]);
    WriteSettles(d, node, n, offset + |buf|);
    KeptList(d, node, n, offset + |buf|);
    WriteFrom(d, Settled(d, node, n), i, m, offset, buf);
  }

  /** The last step of a write, from the disk `s` with its bitmap and counts settled. */
  lemma WriteFrom(d: Disk, s: Disk, i: nat, m: Inode, offset: nat, buf: seq<Byte>)
    requires Books(d) && Number(i) && Counted(s) && s == d.(used := s.used, sbFree := s.sbFree, gdFree := s.gdFree)
    requires Takes(d.used, Node(d, i), s.used, m) && Sized(m) && m.size == offset + |buf|
    ensures var e := s.(table := d.table[i - 1 := m], data := Fill(d.data, Blocks(m), offset, buf));
            Books(e) && OnlyFile(d, e, i) && Contents(e, m) == Zeros(offset) + buf
  {
    var e := s.(table := d.table[i - 1 := m], data := Fill(d.data, Blocks(m), offset, buf));
    Replace(d.used, d.table, e.used, i - 1, m);
    ContentsOfFill(d.data, e, m, offset, buf);
    FillLaw(d.data, Blocks(m), offset, buf);
    forall j | Number(j) && j != i ensures NodeOk(d.used, Node(d, j)) && Same(d, e, j) {
      assert NodeOk(d.used, d.table[j - 1]);
      OthersSame(d, e, i, j, offset, buf);
    }
  }

  // ----- fsRead

  function Min(a: nat, b: nat): nat { if a <= b then a else b }

  /** At most the rest of one block, and never past the end of the file. */
  function Read(d: Disk, n: Inode, offset: nat, length: nat): (r: seq<Byte>)
  {
    var q, p := offset / BLOCK_SIZE, offset % BLOCK_SIZE;
    if offset >= n.size || q >= n.blocks then []
    else
      var size := Min(Min(length, n.size - offset), BLOCK_SIZE - p);
      d.data[n.block[q]][p..p + size]
  }

  /** A read returns a piece of the contents, and is empty only at the end. */
  lemma ReadLaw(d: Disk, n: Inode, offset: nat, length: nat)
    requires Sized(n) && length > 0
    ensures var r := Read(d, n, offset, length);
            && offset < n.size ==>
                 && 0 < |r| <= length && offset + |r| <= n.size && r == Contents(d, n)[offset..offset + |r|]
                 && (|r| == length || offset + |r| == n.size || (offset + |r|) % BLOCK_SIZE == 0)
                 && offset % BLOCK_SIZE + |r| <= BLOCK_SIZE
    ensures offset >= n.size ==> Read(d, n, offset, length) == []
  {
    if offset < n.size {
      var r := Read(d, n, offset, length);
      forall k | 0 <= k < |r| ensures r[k] == Contents(d, n)[offset..offset + |r|][k] {
        assert (offset + k) / BLOCK_SIZE == offset / BLOCK_SIZE;
      }
    }
  }

  /** Same inode, same blocks: same contents. */
  lemma SameContents(d: Disk, e: Disk, i: nat)
    requires Number(i) && Sized(Node(d, i)) && Same(d, e, i)
    ensures Contents(d, Node(d, i)) == Contents(e, Node(e, i))
  {
    var n := Node(d, i);
    forall k | 0 <= k < n.size ensures Contents(d, n)[k] == Contents(e, n)[k] {
      assert Blocks(n)[k / BLOCK_SIZE] in Blocks(n);
    }
  }
}

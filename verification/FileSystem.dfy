/** The file system in place: bitmap bytes, counts, inode table and data blocks, updated by the operations. */
module FileSystems {
  import opened Bytes
  import opened Bits
  import opened Names
  import opened FsModel
  import opened FsWrite
  import opened FsDir
  import opened FsTree
  import opened FsOps
  import opened FsRemove
  import opened FsRun

  const MSB := true

  /** The first `n` bits are set. */
  ghost predicate AllSet(bits: seq<bool>, n: nat) {
    n <= |bits| && forall k :: 0 <= k < n ==> bits[k]
  }

  lemma BitInByte(m: seq<bv8>, i: nat, j: nat)
    requires i < |m| && j < 8
    ensures 8 * i + j < |BitsOf(m, MSB)| && BitsOf(m, MSB)[8 * i + j] == Bit(m[i], 7 - j)
  {
    assert (8 * i + j) / 8 == i && (8 * i + j) % 8 == j;
  }

  lemma SkipByte(m: seq<bv8>, i: nat)
    requires i < |m| && m[i] == 0xff && AllSet(BitsOf(m, MSB), 8 * i)
    ensures AllSet(BitsOf(m, MSB), 8 * i + 8)
  {
    FullByte(m[i]);
    forall k | 8 * i <= k < 8 * i + 8 ensures BitsOf(m, MSB)[k] { BitInByte(m, i, k - 8 * i); }
  }

  /** The scan of a bitmap: whole bytes that are full are skipped, then bit by bit from the high end. */
  method FirstZero(map_: array<bv8>) returns (k: nat)
    ensures k == FirstClear(BitsOf(map_[..], MSB), 0)
  {
    ghost var bits := BitsOf(map_[..], MSB);
    var i := 0;
    while i < map_.Length
      invariant i <= map_.Length && AllSet(bits, 8 * i)
    {
      if map_[i] != 0xff {
        var j := 0;
        while j < 8
          invariant j <= 8 && AllSet(bits, 8 * i + j)
        {
          BitInByte(map_[..], i, j);
          if !Bit(map_[i], 7 - j) {
            FirstClearIs(bits, 0, 8 * i + j);
            return 8 * i + j;
          }
          j := j + 1;
        }
      } else {
        SkipByte(map_[..], i);
      }
      i := i + 1;
    }
    FirstClearIs(bits, 0, 8 * map_.Length);
    return 8 * map_.Length;
  }

  class FileSystem {
    var sbFree: nat
    var gdFree: nat
    var sbInodes: nat
    var gdInodes: nat
    const blockMap: array<bv8>
    const inodeMap: array<bv8>
    const table: array<Inode>
    const data: array<Block>

    ghost predicate Valid()
    {
      && 8 * blockMap.Length == BLOCKS && 8 * inodeMap.Length == INODES && blockMap != inodeMap
      && table.Length == INODES && data.Length == DISK_BLOCKS
    }

    /** The object and its arrays. */
    ghost function Parts(): set<object> { {this, blockMap, inodeMap, table, data} }

    ghost function State(): Disk
      requires Valid()
      reads this, blockMap, inodeMap, table, data
    {
      Disk(sbFree, gdFree, sbInodes, gdInodes, BitsOf(blockMap[..], MSB), BitsOf(inodeMap[..], MSB), table[..], data[..])
    }

    // ----- bitmaps and counts

    method GetFreeBlockNumber() returns (n: BlockNo)
      requires Valid()
      modifies blockMap
      ensures (State(), n) == AllocBlock(old(State()))
    {
      var k := FirstZero(blockMap);
      if k == BLOCKS { return 0; }
      FlipUpdates(blockMap[..], MSB, k);
      blockMap[k / 8] := FlipBit(blockMap[k / 8], Bits.Place(MSB, k));
      return k;
    }

    method GetFreeInodeNumber() returns (n: nat)
      requires Valid()
      modifies inodeMap
      ensures (State(), n) == AllocInode(old(State()))
    {
      var k := FirstZero(inodeMap);
      if k == INODES { return 0; }
      FlipUpdates(inodeMap[..], MSB, k);
      inodeMap[k / 8] := FlipBit(inodeMap[k / 8], Bits.Place(MSB, k));
      return k + 1;
    }

    method ChargeBlock()
      requires Valid()
      modifies this
      ensures State() == Charge(old(State()))
    {
      if sbFree >= 1 { sbFree := sbFree - 1; }
      if gdFree >= 1 { gdFree := gdFree - 1; }
    }

    method ChargeInodeCount()
      requires Valid()
      modifies this
      ensures State() == ChargeInode(old(State()))
    {
      if sbInodes >= 1 { sbInodes := sbInodes - 1; }
      if gdInodes >= 1 { gdInodes := gdInodes - 1; }
    }

    /** Raises both counts and clears the block's bit. */
    method GiveBack(b: BlockNo, ghost d: Disk, ghost bs: seq<BlockNo>)
      requires Valid() && b < BLOCKS && State() == FreeBlocks(d, bs)
      modifies this, blockMap
      ensures State() == FreeBlocks(d, bs + [b])
    {
      sbFree := sbFree + 1;
      gdFree := gdFree + 1;
      ClearedAppend(d.used, bs, b);
      ClearUpdates(blockMap[..], MSB, b);
      blockMap[b / 8] := ClearBit(blockMap[b / 8], Bits.Place(MSB, b));
    }

    // ----- writing and reading

    /** Takes the missing blocks; `upto` is where it had to stop. */
    method TakeBlocks(first: nat, n: nat, block: seq<BlockNo>) returns (r: seq<BlockNo>, upto: nat)
      requires Valid() && first <= |block| && n <= |block|
      modifies this, blockMap
      ensures Growth(State(), r, upto) == Grow(old(State()), block, first, n)
    {
      var i := first;
      r := block;
      while i < n
        invariant first <= i <= |block| == |r|
        invariant Grow(old(State()), block, first, n) == Grow(State(), r, i, n)
      {
        var b := GetFreeBlockNumber();
        if b == 0 { return r, i; }
        r := r[i := b];
        ChargeBlock();
        i := i + 1;
      }
      return r, i;
    }

    /** Gives back positions `lo` to `hi` of a block list, the last one first. */
    method RollBack(block: seq<BlockNo>, lo: nat, hi: nat)
      requires Valid() && lo <= hi <= |block| && forall b :: b in block[lo..hi] ==> b < BLOCKS
      modifies this, blockMap
      ensures State() == FreeBlocks(old(State()), block[lo..hi])
    {
      ghost var d := State();
      ghost var done: seq<BlockNo> := [];
      var i := hi;
      ClearedNone(d.used);
      while i > lo
        invariant lo <= i <= hi && |done| == hi - i && (forall b :: b in done <==> b in block[i..hi])
        invariant State() == FreeBlocks(d, done)
      {
        i := i - 1;
        assert block[i] in block[lo..hi] by { assert block[lo..hi][i - lo] == block[i]; }
        GiveBack(block[i], d, done);
        assert block[i..hi] == [block[i]] + block[i + 1..hi];
        done := done + [block[i]];
      }
      assert Cleared(d.used, done) == Cleared(d.used, block[lo..hi]);
    }

    /** Gives back the blocks that a shorter file no longer needs, and clears their entries. */
    method DropSurplus(block: seq<BlockNo>, n: nat, blocks: nat) returns (r: seq<BlockNo>)
      requires Valid() && blocks <= |block| && (n < blocks ==> forall b :: b in block[n..blocks] ==> b < BLOCKS)
      modifies this, blockMap
      ensures State() == FreeBlocks(old(State()), if n < blocks then block[n..blocks] else [])
      ensures r == Zeroed(block, n, blocks)
    {
      ghost var d := State();
      var i := n;
      r := block;
      ClearedNone(d.used);
      while i < blocks
        invariant n <= i && (n <= blocks ==> i <= blocks)
        invariant |r| == |block| && forall k :: 0 <= k < |block| ==> r[k] == if n <= k < i && k < blocks then 0 else block[k]
        invariant State() == FreeBlocks(d, if n < blocks then block[n..i] else [])
      {
        assert block[i] in block[n..blocks] by { assert block[n..blocks][i - n] == block[i]; }
        GiveBack(block[i], d, block[n..i]);
        assert block[n..i + 1] == block[n..i] + [block[i]];
        r := r[i := 0];
        i := i + 1;
      }
    }

    /** One block of the file: zeros, with the part of the buffer that falls into it. */
    method BuildBlock(i: nat, offset: nat, buffer: seq<Byte>) returns (b: Block)
      ensures b == Chunk(i, offset, buffer)
    {
      var start := BLOCK_SIZE * i;
      var from := if offset > start then offset else start;
      var to := offset + |buffer|;
      if to > start + BLOCK_SIZE { to := start + BLOCK_SIZE; }
      b := Zeros(BLOCK_SIZE);
      if from < to {
        b := b[..from - start] + buffer[from - offset..to - offset] + b[to - start..];
      }
      forall k | 0 <= k < BLOCK_SIZE ensures b[k] == Chunk(i, offset, buffer)[k] {
        assert Chunk(i, offset, buffer)[k] == ByteAt(offset, buffer, start + k);
        assert from < to && from - start <= k < to - start ==> b[k] == buffer[start + k - offset];
      }
    }

    method FillDataBlocks(block: seq<BlockNo>, n: nat, offset: nat, buffer: seq<Byte>)
      requires Valid() && n <= |block| && forall b :: b in block[..n] ==> DATA_BASE <= b
      modifies data
      ensures State() == old(State()).(data := Fill(old(data[..]), block[..n], offset, buffer))
    {
      var i := 0;
      while i < n
        invariant i <= n && data[..] == Fill(old(data[..]), block[..i], offset, buffer)
      {
        var b := BuildBlock(i, offset, buffer);
        assert block[..i + 1][..i] == block[..i] && block[..i + 1][i] == block[i];
        data[block[i]] := b;
        i := i + 1;
      }
    }

    /** The second half of `fsWrite`, when the file has its blocks: shrink, fill, then store the inode. */
    method StoreFile(ino: nat, node: Inode, block: seq<BlockNo>, n: nat, offset: nat, buffer: seq<Byte>, ghost d: Disk)
      requires Valid() && Books(d) && CanWrite(d, ino, offset + |buffer|) && node == Node(d, ino) && n == BlockCount(offset + |buffer|)
      requires var g := Grow(d, node.block, node.blocks, n); State() == g.d && block == g.block
      modifies this, blockMap, table, data
      ensures (State(), true) == FsWrite.Write(d, ino, offset, buffer)
    {
      assert NodeOk(d.used, d.table[ino - 1]);
      GrowLaw(d, node.block, node.blocks, n);
      WriteRollsBack(d, ino, offset, buffer);
      WriteSettles(d, node, n, offset + |buffer|);
      SurplusBelow(d, node, n);
      assert n < node.blocks ==> block == node.block;
      var kept := DropSurplus(block, n, node.blocks);
      var node' := node.(size := offset + |buffer|, blocks := n, block := kept);
      assert node' == NewNode(d, node, n, offset + |buffer|) && State() == Settled(d, node, n);
      FillDataBlocks(kept, n, offset, buffer);
      table[ino - 1] := node';
    }

    /** `fsWrite` on inode `ino`: grow or roll back, then store. */
    method Write(ino: nat, offset: nat, buffer: seq<Byte>) returns (ok: bool)
      requires Valid() && Books(State())
      modifies this, blockMap, table, data
      ensures (State(), ok) == FsWrite.Write(old(State()), ino, offset, buffer)
    {
      var n := BlockCount(offset + |buffer|);
      if n > DIRECT || !Number(ino) { return false; }
      var node := table[ino - 1];
      ghost var d := State();
      GrowLaw(d, node.block, node.blocks, n);
      WriteRollsBack(d, ino, offset, buffer);
      var block, upto := TakeBlocks(node.blocks, n, node.block);
      if upto < n {
        RollBack(block, node.blocks, upto);
        return false;
      }
      StoreFile(ino, node, block, n, offset, buffer, d);
      return true;
    }

    lemma SurplusBelow(d: Disk, node: Inode, n: nat)
      requires NodeOk(d.used, node)
      ensures forall b :: b in Surplus(node, n) ==> b < BLOCKS
    {
      forall b | b in Surplus(node, n) ensures b < BLOCKS {
        var k :| 0 <= k < |Surplus(node, n)| && Surplus(node, n)[k] == b;
        assert Blocks(node)[n + k] == b && b in Blocks(node);
      }
    }

    /** `fsRead`: at most one block's worth. */
    method Read(ino: nat, offset: nat, length: nat) returns (r: seq<Byte>)
      requires Valid() && Number(ino)
      ensures r == FsWrite.Read(State(), Node(State(), ino), offset, length)
    {
      var node := table[ino - 1];
      var count, blockOffset := offset / BLOCK_SIZE, offset % BLOCK_SIZE;
      if offset >= node.size || count >= node.blocks { return []; }
      var size := length;
      if offset + size > node.size { size := node.size - offset; }
      if blockOffset + size > BLOCK_SIZE { size := BLOCK_SIZE - blockOffset; }
      return data[node.block[count]][blockOffset..blockOffset + size];
    }

    // ----- directories

    /** The scan of one block: 0 with the slot of a match, -2 at the terminator, -1 at the end of the block. */
    method FindEntryAtBlock(block: Block, key: Key, ghost s: seq<Entry>, ghost base: nat) returns (status: int, number: nat)
      requires base + PER_BLOCK <= |s| && forall k :: 0 <= k < PER_BLOCK ==> s[base + k] == EntryAt(block, k)
      ensures status == 0 || status == -1 || status == -2
      ensures status == 0 ==> number < PER_BLOCK && Find(s, key, base) == base + number
      ensures status == -1 ==> Find(s, key, base) == Find(s, key, base + PER_BLOCK)
      ensures status == -2 ==> Find(s, key, base) == |s|
    {
      var i := 0;
      while i < PER_BLOCK
        invariant i <= PER_BLOCK && Find(s, key, base) == Find(s, key, base + i)
      {
        var e := EntryAt(block, i);
        assert s[base + i] == e;
        if NameOf(e) == key { return 0, i; }
        if (key[0] == FREE || key[0] == NO_MORE) && key[0] == Mark(e) { return 0, i; }
        if Mark(e) == NO_MORE { return -2, i; }
        i := i + 1;
      }
      return -1, i;
    }

    /** The same scan for any entry that is not a dot entry. */
    method FindAnyAtBlock(block: Block, ghost s: seq<Entry>, ghost base: nat) returns (status: int)
      requires base + PER_BLOCK <= |s| && forall k :: 0 <= k < PER_BLOCK ==> s[base + k] == EntryAt(block, k)
      ensures status == 0 || status == -1 || status == -2
      ensures status == 0 ==> FindAny(s, base) < |s|
      ensures status == -1 ==> FindAny(s, base) == FindAny(s, base + PER_BLOCK)
      ensures status == -2 ==> FindAny(s, base) == |s|
    {
      var i := 0;
      while i < PER_BLOCK
        invariant i <= PER_BLOCK && FindAny(s, base) == FindAny(s, base + i)
      {
        var e := EntryAt(block, i);
        assert s[base + i] == e;
        if Visible(e) { return 0; }
        if Mark(e) == NO_MORE { return -2; }
        i := i + 1;
      }
      return -1;
    }

    lemma BlockSlots(n: Inode, i: nat)
      requires Valid() && i < n.blocks
      ensures forall k :: 0 <= k < PER_BLOCK ==> Slots(State(), n)[PER_BLOCK * i + k] == EntryAt(data[n.block[i]], k)
    {
      forall k | 0 <= k < PER_BLOCK ensures Slots(State(), n)[PER_BLOCK * i + k] == EntryAt(data[n.block[i]], k) {
        assert (PER_BLOCK * i + k) / PER_BLOCK == i && (PER_BLOCK * i + k) % PER_BLOCK == k;
      }
    }

    /** The outcome of a lookup: the slot, its entry and the handle to it. */
    ghost predicate LookedUp(d: Disk, n: Inode, key: Key, found: bool, h: Handle, e: Entry, k: nat)
    {
      && k == Find(Slots(d, n), key, 0) && found == (k < |Slots(d, n)|)
      && (found ==> e == Slots(d, n)[k] && h == SlotHandle(d, n, k))
    }

    lemma Located(d: Disk, n: Inode, key: Key, i: nat, number: nat)
      requires i < n.blocks && number < PER_BLOCK && Find(Slots(d, n), key, 0) == PER_BLOCK * i + number
      ensures var e := EntryAt(d.data[n.block[i]], number);
              LookedUp(d, n, key, true, Handle(InodeOf(e), n.block[i], number), e, PER_BLOCK * i + number)
    {
      var k := PER_BLOCK * i + number;
      assert k / PER_BLOCK == i && k % PER_BLOCK == number;
    }

    /** Block after block: where the search for a key stops. */
    method FindSlot(node: Inode, key: Key) returns (found: bool, i: nat, number: nat)
      requires Valid()
      ensures found ==> i < node.blocks && number < PER_BLOCK
      ensures var s := Slots(State(), node); Find(s, key, 0) == if found then PER_BLOCK * i + number else |s|
    {
      ghost var s := Slots(State(), node);
      i := 0;
      while i < node.blocks
        invariant i <= node.blocks && Find(s, key, 0) == Find(s, key, PER_BLOCK * i)
      {
        BlockSlots(node, i);
        var status, number := FindEntryAtBlock(data[node.block[i]], key, s, PER_BLOCK * i);
        if status == -2 { return false, i, 0; }
        if status == 0 { return true, i, number; }
        i := i + 1;
      }
      return false, i, 0;
    }

    /** `lookupEntry` with a name. */
    method LookupEntry(dir: nat, key: Key) returns (found: bool, h: Handle, e: Entry, ghost k: nat)
      requires Valid() && Number(dir)
      ensures LookedUp(State(), Node(State(), dir), key, found, h, e, k)
    {
      var node := table[dir - 1];
      var i, number;
      found, i, number := FindSlot(node, key);
      if found {
        e := EntryAt(data[node.block[i]], number);
        Located(State(), node, key, i, number);
        return true, Handle(InodeOf(e), node.block[i], number), e, PER_BLOCK * i + number;
      }
      return false, Handle(0, 0, 0), Zeros(ENTRY), |Slots(State(), node)|;
    }

    /** `lookupEntry` without a name: is anything but the dot entries there? */
    method LookupAny(dir: nat) returns (found: bool)
      requires Valid() && Number(dir)
      ensures var s := Slots(State(), Node(State(), dir)); found == (FindAny(s, 0) < |s|)
    {
      var node := table[dir - 1];
      ghost var s := Slots(State(), node);
      var i := 0;
      while i < node.blocks
        invariant i <= node.blocks && FindAny(s, 0) == FindAny(s, PER_BLOCK * i)
      {
        BlockSlots(node, i);
        var status := FindAnyAtBlock(data[node.block[i]], s, PER_BLOCK * i);
        if status == -2 { return false; }
        if status == 0 { return true; }
        i := i + 1;
      }
      return false;
    }

    method PutEntry(b: BlockNo, offset: nat, e: Entry)
      requires Valid() && offset < PER_BLOCK
      modifies data
      ensures State() == PutBlock(old(State()), b, SetEntry(old(data[b]), offset, e))
    {
      data[b] := SetEntry(data[b], offset, e);
    }

    /** `insertEntry`. */
    method InsertEntry(dir: nat, e: Entry) returns (ok: bool)
      requires Valid() && Number(dir) && CanExtend(State(), dir)
      modifies this, blockMap, table, data
      ensures (State(), ok) == Insert(old(State()), dir, e)
    {
      var found, h, x, k := LookupEntry(dir, FreeKey());
      if found {
        PutEntry(h.block, h.offset, e);
        return true;
      }
      found, h, x, k := LookupEntry(dir, EndKey());
      if !found { return false; }
      PutEntry(h.block, h.offset, e);
      if h.offset + 1 == PER_BLOCK {
        ok := AddBlock(dir, x);
      } else {
        assert (k + 1) / PER_BLOCK == k / PER_BLOCK && (k + 1) % PER_BLOCK == k % PER_BLOCK + 1;
        PutEntry(h.block, h.offset + 1, x);
        ok := true;
      }
    }

    /** Gives a directory another block, zeroed, with the terminator in its first slot. */
    method AddBlock(dir: nat, x: Entry) returns (ok: bool)
      requires Valid() && Number(dir) && Node(State(), dir).blocks < N_BLOCKS
      modifies this, blockMap, table, data
      ensures var (d, b) := AllocBlock(old(State()));
              && ok == (b != 0)
              && State() == if b == 0 then d
                            else PutBlock(Charge(SetNode(d, dir, Appended(Node(old(State()), dir), b))), b, FirstSlot(x))
    {
      var node := table[dir - 1];
      var b := GetFreeBlockNumber();
      if b == 0 { return false; }
      table[dir - 1] := Appended(node, b);
      ChargeBlock();
      data[b] := Zeros(BLOCK_SIZE);
      PutEntry(b, 0, x);
      return true;
    }

    // ----- names

    /** `strncpy` of at most `n` characters into a zeroed buffer. */
    method CopyName(name: seq<Byte>, n: nat) returns (buf: array<Byte>)
      requires n < NAME_BUFFER && 0 !in name
      ensures fresh(buf) && buf[..] == Copied(name, n) && StrLen(buf[..]) < NAME_BUFFER
    {
      buf := new Byte[NAME_BUFFER](i => 0);
      var i := 0;
      while i < n && i < |name|
        invariant i <= n && i <= |name|
        invariant forall k :: 0 <= k < NAME_BUFFER ==> buf[k] == if k < i then name[k] else 0
      {
        buf[i] := name[i];
        i := i + 1;
      }
      assert buf[..] == Copied(name, n);
      CopiedStr(name, n);
    }

    /** `fsLookup`: only the first eleven characters are formatted, and an unacceptable name is searched all the same. */
    method Lookup(dir: nat, name: seq<Byte>) returns (found: bool, h: Handle, ghost k: nat)
      requires Valid() && Number(dir) && 0 !in name
      ensures k == Found(State(), dir, name) && found == (k < |Slots(State(), Node(State(), dir))|)
      ensures found ==> h == SlotHandle(State(), Node(State(), dir), k)
    {
      ghost var d := State();
      var buf := CopyName(name, NAME_LEN);
      var _ := FormatName(buf);
      assert State() == d && buf[..NAME_LEN] == Searched(name);
      var e;
      found, h, e, k := LookupEntry(dir, buf[..NAME_LEN]);
    }

    /** Formats a name for storing. */
    method StoredName(name: seq<Byte>) returns (ok: bool, key: Key, again: seq<Byte>)
      requires 0 !in name
      ensures ok == Accepted(name) && key == Stored(name) && 0 !in again
      ensures ok ==> Searched(again) == Searched(key)
    {
      var buf := CopyName(name, NAME_BUFFER - 1);
      CopiedStr(name, NAME_BUFFER - 1);
      LongNames(name);
      ok := FormatName(buf);
      key := buf[..NAME_LEN];
      var n := StrLength(buf);
      again := buf[..n];
      assert 0 !in again by { assert again == Str(buf[..]); }
      if ok { Reformatted(name, buf[..], again); }
    }

    /** Formatting the stored buffer once more formats its first eleven bytes. */
    lemma Reformatted(name: seq<Byte>, buf: seq<Byte>, again: seq<Byte>)
      requires 0 !in name && Accepted(name) && |buf| == NAME_BUFFER && buf[..NAME_LEN] == Stored(name) && again == Str(buf)
      ensures Searched(again) == Searched(Stored(name))
    {
      var key := Stored(name);
      LongNames(name);
      KeyBytes(if |name| < NAME_BUFFER then name else name[..NAME_BUFFER - 1]);
      assert 0 !in key;
      CopyOfPrefix(buf, key, again);
    }

    lemma CopyOfPrefix(buf: seq<Byte>, key: Key, again: seq<Byte>)
      requires |buf| == NAME_BUFFER && buf[..NAME_LEN] == key && 0 !in key && again == Str(buf)
      ensures Copied(again, NAME_LEN) == Copied(key, NAME_LEN)
    {
      assert forall i :: 0 <= i < NAME_LEN ==> buf[i] == buf[..NAME_LEN][i] && buf[i] in key;
      assert again[..NAME_LEN] == key;
    }

    /** A name that does not fit the buffer is cut, which changes neither its key nor whether it is acceptable. */
    lemma LongNames(name: seq<Byte>)
      requires 0 !in name
      ensures var c := if |name| < NAME_BUFFER then name else name[..NAME_BUFFER - 1];
              Text(c) && Accepted(c) == Accepted(name) && Stored(c) == Stored(name)
    {
      var c := if |name| < NAME_BUFFER then name else name[..NAME_BUFFER - 1];
      assert Copied(c, NAME_BUFFER - 1) == Copied(name, NAME_BUFFER - 1);
      if |name| >= NAME_BUFFER && DotAt(c) < |c| { DotAtIs(name, DotAt(c)); }
    }

    // ----- creating

    method ReserveBoth() returns (i: nat, b: BlockNo)
      requires Valid()
      modifies this, blockMap, inodeMap
      ensures (State(), i, b) == Reserve(old(State()))
    {
      i := GetFreeInodeNumber();
      b := GetFreeBlockNumber();
      if i == 0 || b == 0 { return 0, 0; }
      ChargeBlock();
      ChargeInodeCount();
    }

    method NameLen(key: Key) returns (n: nat)
      ensures n == NameLength(key)
    {
      n := 0;
      while n < NAME_LEN && key[n] != 0 && key[n] != SPACE
        invariant n <= NAME_LEN && NameLength(key) == n + NameLength(key[n..])
      {
        assert key[n..][1..] == key[n + 1..];
        n := n + 1;
      }
    }

    /** `fsCreate`. */
    method Create(cached: nat, dir: nat, name: seq<Byte>) returns (ok: bool)
      requires Valid() && Number(dir) && CanExtend(State(), dir) && 0 !in name
      modifies this, blockMap, inodeMap, table, data
      ensures (State(), ok) == FsOps.Create(old(State()), cached, dir, name)
    {
      if cached == 0 { return false; }
      ghost var d := State();
      var key, again;
      ok, key, again := StoredName(name);
      assert State() == d;
      if !ok { return false; }
      var found, h, k := Lookup(dir, again);
      if found { return false; }
      var i, b := ReserveBoth();
      if i == 0 { return false; }
      table[i - 1] := NewFile(b);
      var len := NameLen(key);
      var _ := InsertEntry(dir, MakeEntry(i, key, len));
      return true;
    }

    /** `fsMkdir`. */
    method Mkdir(dir: nat, name: seq<Byte>) returns (ok: bool)
      requires Valid() && Number(dir) && CanExtend(State(), dir) && 0 !in name
      modifies this, blockMap, inodeMap, table, data
      ensures (State(), ok) == FsOps.Mkdir(old(State()), dir, name)
    {
      ghost var d := State();
      var key, again;
      ok, key, again := StoredName(name);
      assert State() == d;
      if !ok { return false; }
      var i, b := ReserveBoth();
      if i == 0 { return false; }
      ok := FurnishDir(i, b, dir, key);
    }

    /** The part that follows the reservation: the parent's entry, then the inode and its dot entries. */
    method FurnishDir(i: nat, b: BlockNo, dir: nat, key: Key) returns (ok: bool)
      requires Valid() && Number(i) && Number(dir) && CanExtend(State(), dir)
      modifies this, blockMap, table, data
      ensures (State(), ok) == Furnish(old(State()), i, b, dir, key)
    {
      ok := InsertEntry(dir, MakeEntry(i, key, NAME_LEN));
      if !ok { return false; }
      table[i - 1] := NewDir(b);
      var _ := InsertEntry(i, MakeEntry(i, DotName(), 0));
      var _ := InsertEntry(i, MakeEntry(dir, DotDotName(), 0));
      return true;
    }

    // ----- removing

    /** Zeroes and frees the direct blocks of an inode. */
    method EmptyBlocks(node: Inode)
      requires Valid() && forall b :: b in Blocks(node) ==> DATA_BASE <= b < BLOCKS
      modifies this, blockMap, data
      ensures State() == Emptied(old(State()), Direct(node))
    {
      ghost var d := State();
      var i := 0;
      ClearedNone(d.used);
      assert Wiped(d.data, []) == d.data;
      while i < node.blocks
        invariant i <= node.blocks && State() == Emptied(d, node.block[..Min(i, DIRECT)])
      {
        if i < DIRECT {
          var b := node.block[i];
          assert b in Blocks(node) by { assert Blocks(node)[i] == b; }
          assert node.block[..i + 1] == node.block[..i] + [b];
          FreeOne(b, d, node.block[..i]);
        }
        i := i + 1;
      }
    }

    method FreeOne(b: BlockNo, ghost d: Disk, ghost bs: seq<BlockNo>)
      requires Valid() && b < BLOCKS && State() == Emptied(d, bs)
      modifies this, blockMap, data
      ensures State() == Emptied(d, bs + [b])
    {
      data[b] := Zeros(BLOCK_SIZE);
      assert data[..] == Wiped(d.data, bs + [b]);
      gdFree := gdFree + 1;
      sbFree := sbFree + 1;
      ClearedAppend(d.used, bs, b);
      ClearUpdates(blockMap[..], MSB, b);
      blockMap[b / 8] := ClearBit(blockMap[b / 8], Bits.Place(MSB, b));
    }

    method ClearInode(i: nat)
      requires Valid() && Number(i) && i < INODES
      modifies this, inodeMap, table
      ensures State() == ReleaseInode(old(State()), i)
    {
      table[i - 1] := NoInode();
      var n := i % INODES - 1;
      ClearUpdates(inodeMap[..], MSB, n);
      inodeMap[n / 8] := ClearBit(inodeMap[n / 8], Bits.Place(MSB, n));
      sbInodes := sbInodes + 1;
      gdInodes := gdInodes + 1;
    }

    /** The common part of both removals. */
    method UnlinkEntry(h: Handle)
      requires Valid() && Current(State(), h) && forall b :: b in Blocks(Node(State(), h.ino)) ==> DATA_BASE <= b < BLOCKS
      modifies this, blockMap, inodeMap, table, data
      ensures State() == Unlink(old(State()), h)
    {
      ghost var d := State();
      EmptyBlocks(table[h.ino - 1]);
      assert h.block !in Direct(Node(d, h.ino));
      var i := InodeOf(EntryAt(data[h.block], h.offset));
      assert i == h.ino;
      PutEntry(h.block, h.offset, FreeEntry());
      ClearInode(i);
    }

    /** `fsRemove`. */
    method Remove(h: Handle) returns (ok: bool)
      requires Valid() && Current(State(), h) && forall b :: b in Blocks(Node(State(), h.ino)) ==> DATA_BASE <= b < BLOCKS
      modifies this, blockMap, inodeMap, table, data
      ensures (State(), ok) == FsRemove.Remove(old(State()), h)
    {
      if IsDir(table[h.ino - 1]) { return false; }
      UnlinkEntry(h);
      return true;
    }

    /** `fsRmdir`. */
    method Rmdir(h: Handle) returns (ok: bool)
      requires Valid() && Current(State(), h) && forall b :: b in Blocks(Node(State(), h.ino)) ==> DATA_BASE <= b < BLOCKS
      modifies this, blockMap, inodeMap, table, data
      ensures (State(), ok) == FsRemove.Rmdir(old(State()), h)
    {
      if !IsDir(table[h.ino - 1]) { return false; }
      var found := LookupAny(h.ino);
      if found { return false; }
      UnlinkEntry(h);
      return true;
    }

    // ----- formatting

    /** The storage before it is formatted. */
    constructor ()
      ensures Valid() && State() == Blank()
      ensures fresh(blockMap) && fresh(inodeMap) && fresh(table) && fresh(data)
    {
      sbFree, gdFree, sbInodes, gdInodes := 0, 0, 0, 0;
      blockMap := new bv8[1024](i => 0);
      inodeMap := new bv8[512](i => 0);
      table := new Inode[INODES](i => NoInode());
      data := new Block[DISK_BLOCKS](i => Zeros(BLOCK_SIZE));
      new;
      assert forall n :: 0 <= n < BLOCKS ==> !BitsOf(blockMap[..], MSB)[n];
      assert forall n :: 0 <= n < INODES ==> !BitsOf(inodeMap[..], MSB)[n];
      assert State().used == Blank().used && State().inodeUsed == Blank().inodeUsed;
      assert table[..] == Blank().table && data[..] == Blank().data;
    }

    /** Clears a bitmap and sets its first `m` bits. */
    method InitBitmap(map_: array<bv8>, m: nat)
      requires m <= 8 * map_.Length
      modifies map_
      ensures BitsOf(map_[..], MSB) == UsedBits(8 * map_.Length, m)
    {
      for k := 0 to map_.Length
        invariant forall j :: 0 <= j < k ==> map_[j] == 0
      {
        map_[k] := 0;
      }
      assert BitsOf(map_[..], MSB) == UsedBits(8 * map_.Length, 0);
      for i := 0 to m
        invariant BitsOf(map_[..], MSB) == UsedBits(8 * map_.Length, i)
      {
        SetUpdates(map_[..], MSB, i);
        map_[i / 8] := SetBit(map_[i / 8], Bits.Place(MSB, i));
        assert BitsOf(map_[..], MSB) == UsedBits(8 * map_.Length, i)[i := true] == UsedBits(8 * map_.Length, i + 1);
      }
    }

    /** `fsFormat` and `createRoot` on any storage. */
    method Format()
      requires Valid()
      modifies this, blockMap, inodeMap, table, data
      ensures State() == FormatOver(old(State()))
      ensures old(State()) == Blank() ==> State() == NewDisk()
    {
      var free := BLOCKS - (DATA_BASE - 1) - 1;
      sbFree, gdFree, sbInodes, gdInodes := free, free, INODES - 11, INODES - 11;
      InitBitmap(blockMap, DATA_BASE);
      InitBitmap(inodeMap, 10);
      data[DATA_BASE] := RootBlock();
      sbFree, gdFree := sbFree - 1, gdFree - 1;
      SetUpdates(blockMap[..], MSB, DATA_BASE);
      blockMap[DATA_BASE / 8] := SetBit(blockMap[DATA_BASE / 8], Bits.Place(MSB, DATA_BASE));
      assert UsedBits(BLOCKS, DATA_BASE)[DATA_BASE := true] == UsedBits(BLOCKS, DATA_BASE + 1);
      for k := 0 to INODES_PER_BLOCK
        invariant forall j :: 0 <= j < INODES ==> table[j] == if j < k then NoInode() else old(table[j])
        invariant BitsOf(blockMap[..], MSB) == UsedBits(BLOCKS, DATA_BASE + 1) && BitsOf(inodeMap[..], MSB) == UsedBits(INODES, 10)
        invariant data[..] == old(data[..])[DATA_BASE := RootBlock()]
        invariant sbFree == gdFree == BLOCKS - DATA_BASE - 1 && sbInodes == gdInodes == INODES - 11
      {
        table[k] := NoInode();
      }
      table[ROOT - 1] := RootInode();
      assert table[..] == TableOver(old(table[..]));
      FormatOverBlank();
    }
  }
}

/** Directories on the disk: inserting and removing entries, creating and deleting files and directories. */
module FsTree {
  import opened Bytes
  import opened Bits
  import opened Names
  import opened FsModel
  import opened FsWrite
  import opened FsDir

  // ----- slots of directory blocks

  function EntryAt(b: Block, k: nat): Entry
    requires k < PER_BLOCK
  {
    b[ENTRY * k..ENTRY * k + ENTRY]
  }

  function SetEntry(b: Block, k: nat, e: Entry): (r: Block)
    requires k < PER_BLOCK
  {
    b[..ENTRY * k] + e + b[ENTRY * k + ENTRY..]
  }

  lemma SetEntryLaw(b: Block, k: nat, e: Entry, j: nat)
    requires k < PER_BLOCK && j < PER_BLOCK
    ensures EntryAt(SetEntry(b, k, e), j) == if j == k then e else EntryAt(b, j)
  {
    var r := SetEntry(b, k, e);
    forall i | 0 <= i < ENTRY ensures EntryAt(r, j)[i] == (if j == k then e else EntryAt(b, j))[i] {
      assert EntryAt(r, j)[i] == r[ENTRY * j + i];
    }
  }

  /** The slots of a directory, block after block. */
  function Slots(d: Disk, n: Inode): (s: seq<Entry>)
    ensures |s| == PER_BLOCK * n.blocks
  {
    seq(PER_BLOCK * n.blocks, k requires 0 <= k < PER_BLOCK * n.blocks =>
      EntryAt(d.data[n.block[k / PER_BLOCK]], k % PER_BLOCK))
  }

  function PutSlot(d: Disk, n: Inode, k: nat, e: Entry): Disk
    requires k < PER_BLOCK * n.blocks
  {
    var b := n.block[k / PER_BLOCK];
    PutBlock(d, b, SetEntry(d.data[b], k % PER_BLOCK, e))
  }

  lemma PutSlotLaw(d: Disk, n: Inode, k: nat, e: Entry)
    requires k < PER_BLOCK * n.blocks && Distinct(Blocks(n))
    ensures Slots(PutSlot(d, n, k, e), n) == Slots(d, n)[k := e]
    ensures forall b :: 0 <= b < DISK_BLOCKS && b !in Blocks(n) ==> PutSlot(d, n, k, e).data[b] == d.data[b]
  {
    var f, q := PutSlot(d, n, k, e), k / PER_BLOCK;
    assert Blocks(n)[q] in Blocks(n);
    forall j | 0 <= j < PER_BLOCK * n.blocks ensures Slots(f, n)[j] == Slots(d, n)[k := e][j] {
      var p := j / PER_BLOCK;
      assert p != q ==> Blocks(n)[p] != Blocks(n)[q];
      SetEntryLaw(d.data[n.block[q]], k % PER_BLOCK, e, j % PER_BLOCK);
    }
  }

  lemma SameSlots(d: Disk, e: Disk, n: Inode)
    requires SameOn(d, e, Blocks(n))
    ensures Slots(d, n) == Slots(e, n)
  {
    forall k | 0 <= k < PER_BLOCK * n.blocks ensures Slots(d, n)[k] == Slots(e, n)[k] {
      assert Blocks(n)[k / PER_BLOCK] in Blocks(n);
    }
  }

  // ----- insertEntry

  function Appended(n: Inode, b: BlockNo): Inode
    requires n.blocks < N_BLOCKS
  {
    n.(block := n.block[n.blocks := b], blocks := n.blocks + 1)
  }

  function FirstSlot(e: Entry): Block { SetEntry(Zeros(BLOCK_SIZE), 0, e) }

  /** No slot is freed, and the terminator is in the last slot of its block. */
  predicate NeedsBlock(s: seq<Entry>) {
    var t := Find(s, EndKey(), 0);
    Find(s, FreeKey(), 0) == |s| && t < |s| && t % PER_BLOCK + 1 == PER_BLOCK
  }

  /** One more entry does not take a sixteenth block. */
  predicate CanExtend(d: Disk, dir: nat)
    requires Number(dir)
  {
    Node(d, dir).blocks < N_BLOCKS || !NeedsBlock(Slots(d, Node(d, dir)))
  }

  lemma ExtendSame(d: Disk, e: Disk, dir: nat)
    requires Number(dir) && CanExtend(d, dir) && Node(e, dir) == Node(d, dir) && e.data == d.data
    ensures CanExtend(e, dir)
  {
    assert Slots(e, Node(e, dir)) == Slots(d, Node(d, dir));
  }

  function Insert(d: Disk, dir: nat, e: Entry): (r: (Disk, bool))
    requires Number(dir) && CanExtend(d, dir)
    ensures Node(r.0, dir).blocks <= Node(d, dir).blocks + 1
  {
    var n := Node(d, dir);
    var s := Slots(d, n);
    var f := Find(s, FreeKey(), 0);
    if f < |s| then (PutSlot(d, n, f, e), true)
    else
      var t := Find(s, EndKey(), 0);
      if t == |s| then (d, false)
      else
        var d1 := PutSlot(d, n, t, e);
        if t % PER_BLOCK + 1 < PER_BLOCK then (PutSlot(d1, n, t + 1, s[t]), true)
        else
          var (d2, b) := AllocBlock(d1);
          if b == 0 then (d2, false)
          else (PutBlock(Charge(SetNode(d2, dir, Appended(n, b))), b, FirstSlot(s[t])), true)
  }

  /** The slots of a directory that has just grown by a zeroed block. */
  lemma GrownSlots(d: Disk, e: Disk, n: Inode, b: BlockNo, x: Entry)
    requires n.blocks < N_BLOCKS && b !in Blocks(n) && SameOn(d, e, Blocks(n)) && e.data[b] == FirstSlot(x)
    ensures Slots(e, Appended(n, b)) == Slots(d, n) + EmptySlots()[0 := x]
  {
    var s, w := Slots(e, Appended(n, b)), Slots(d, n) + EmptySlots()[0 := x];
    SameSlots(d, e, n);
    forall k | 0 <= k < |s| ensures s[k] == w[k] {
      if k < |Slots(d, n)| {
        assert Slots(e, n)[k] == Slots(d, n)[k];
      } else {
        var j := k - PER_BLOCK * n.blocks;
        assert k / PER_BLOCK == n.blocks && k % PER_BLOCK == j;
        SetEntryLaw(Zeros(BLOCK_SIZE), 0, x, j);
        assert s[k] == EntryAt(FirstSlot(x), j);
        assert EntryAt(Zeros(BLOCK_SIZE), j) == Zeros(ENTRY);
      }
    }
  }

  /** Changing only data blocks of one inode. */
  lemma DataFrame(d: Disk, e: Disk, i: nat)
    requires Books(d) && Number(i) && e == d.(data := e.data)
    requires NodeOk(d.used, Node(d, i)) ==> forall b :: 0 <= b < DISK_BLOCKS && b !in Blocks(Node(d, i)) ==> e.data[b] == d.data[b]
    ensures Books(e) && OnlyFile(d, e, i)
  {
    assert NodeOk(d.used, d.table[i - 1]);
    forall j | Number(j) && j != i ensures NodeOk(d.used, Node(d, j)) && Same(d, e, j) {
      assert NodeOk(d.used, d.table[j - 1]) && Apart(d.table[j - 1], d.table[i - 1]);
    }
  }

  /** What an insertion promises: the slots become those of `Place`, and nothing else changes. */
  ghost predicate Inserted(d: Disk, f: Disk, dir: nat, e: Entry, ok: bool)
    requires Number(dir) && Books(d)
  {
    var n, m := Node(d, dir), Node(f, dir);
    && Books(f) && OnlyFile(d, f, dir)
    && (m == n || (n.blocks < N_BLOCKS && m == Appended(n, m.block[n.blocks])))
    && (Slots(f, m), ok) == FsDir.Place(Slots(d, n), e, ClearFrom(d.used, 0) > 0)
    && (forall b :: b in Blocks(m) ==> b in Blocks(n) || !d.used[b])
    && (forall b :: 0 <= b < BLOCKS ==> f.used[b] == (d.used[b] || b in Blocks(m)))
  }

  /** An insertion that only rewrites slots. */
  lemma InsertedInPlace(d: Disk, f: Disk, dir: nat, e: Entry, ok: bool)
    requires Number(dir) && Books(d) && f == d.(data := f.data)
    requires forall b :: 0 <= b < DISK_BLOCKS && b !in Blocks(Node(d, dir)) ==> f.data[b] == d.data[b]
    requires (Slots(f, Node(d, dir)), ok) == FsDir.Place(Slots(d, Node(d, dir)), e, ClearFrom(d.used, 0) > 0)
    ensures Inserted(d, f, dir, e, ok)
  {
    DataFrame(d, f, dir);
  }

  /** An insertion over the terminator, which moves one slot on. */
  lemma InsertedBeforeEnd(d: Disk, dir: nat, e: Entry, t: nat)
    requires Books(d) && Number(dir) && CanExtend(d, dir) && t + 1 < PER_BLOCK * Node(d, dir).blocks
    requires var s := Slots(d, Node(d, dir));
             Find(s, FreeKey(), 0) == |s| && Find(s, EndKey(), 0) == t && t % PER_BLOCK + 1 < PER_BLOCK
    ensures Inserted(d, Insert(d, dir, e).0, dir, e, Insert(d, dir, e).1)
  {
    var n := Node(d, dir);
    assert NodeOk(d.used, d.table[dir - 1]);
    var s: seq<Entry> := Slots(d, n);
    var s1: seq<Entry> := s[t := e];
    var d1 := PutSlot(d, n, t, e);
    var f := PutSlot(d1, n, t + 1, s[t]);
    assert Insert(d, dir, e) == (f, true);
    assert Slots(f, n) == s1[t + 1 := s[t]] && forall b :: 0 <= b < DISK_BLOCKS && b !in Blocks(n) ==> f.data[b] == d.data[b] by {
      PutSlotLaw(d, n, t, e);
      PutSlotLaw(d1, n, t + 1, s[t]);
    }
    InsertedInPlace(d, f, dir, e, true);
  }

  /** An insertion at the last slot: the directory grows, or loses its terminator. */
  lemma InsertedAtEnd(d: Disk, dir: nat, e: Entry, t: nat)
    requires Books(d) && Number(dir) && CanExtend(d, dir) && t < PER_BLOCK * Node(d, dir).blocks
    requires var s := Slots(d, Node(d, dir));
             Find(s, FreeKey(), 0) == |s| && Find(s, EndKey(), 0) == t < |s| && t % PER_BLOCK + 1 == PER_BLOCK
    ensures Inserted(d, Insert(d, dir, e).0, dir, e, Insert(d, dir, e).1)
  {
    var n := Node(d, dir);
    assert NodeOk(d.used, d.table[dir - 1]);
    var d1 := PutSlot(d, n, t, e);
    PutSlotLaw(d, n, t, e);
    DataFrame(d, d1, dir);
    GrowDirectory(d, d1, dir, Slots(d, n)[t]);
    if ClearFrom(d.used, 0) == 0 {
      assert Insert(d, dir, e) == (d1, false);
      InsertedInPlace(d, d1, dir, e, false);
    } else {
      assert Inserted(d, Insert(d, dir, e).0, dir, e, Insert(d, dir, e).1);
    }
  }

  /** `insertEntry` does to the slots what `Place` does, and keeps the books and every other file. */
  lemma InsertLaw(d: Disk, dir: nat, e: Entry)
    requires Books(d) && Number(dir) && CanExtend(d, dir) && DirShape(Slots(d, Node(d, dir)))
    ensures Inserted(d, Insert(d, dir, e).0, dir, e, Insert(d, dir, e).1)
  {
    var n := Node(d, dir);
    assert NodeOk(d.used, d.table[dir - 1]);
    var s := Slots(d, n);
    var f, t := Find(s, FreeKey(), 0), Find(s, EndKey(), 0);
    if f < |s| {
      PutSlotLaw(d, n, f, e);
      InsertedInPlace(d, PutSlot(d, n, f, e), dir, e, true);
    } else if t == |s| {
      InsertedInPlace(d, d, dir, e, false);
    } else {
      FindEnd(s, 0);
      LastSlot(|s|, t);
      if t + 1 < |s| {
        InsertedBeforeEnd(d, dir, e, t);
      } else {
        InsertedAtEnd(d, dir, e, t);
      }
    }
  }

  /** The step that gives a directory another block, from the disk `d1` whose slots are already written. */
  lemma GrowDirectory(d: Disk, d1: Disk, dir: nat, x: Entry)
    requires Books(d) && Books(d1) && Number(dir) && Node(d, dir).blocks < N_BLOCKS
    requires d1 == d.(data := d1.data) && OnlyFile(d, d1, dir)
    ensures var n := Node(d, dir);
            var (d2, b) := AllocBlock(d1);
            && (b == 0 <==> ClearFrom(d.used, 0) == 0) && (b == 0 ==> d2 == d1)
            && (b != 0 ==>
                  var f := PutBlock(Charge(SetNode(d2, dir, Appended(n, b))), b, FirstSlot(x));
                  && Books(f) && OnlyFile(d, f, dir) && b !in Blocks(n) && !d.used[b] && Node(f, dir) == Appended(n, b)
                  && Blocks(Node(f, dir)) == Blocks(n) + [b]
                  && Slots(f, Node(f, dir)) == Slots(d1, n) + EmptySlots()[0 := x]
                  && forall k :: 0 <= k < BLOCKS && d.used[k] ==> f.used[k])
  {
    var n := Node(d, dir);
    var (d2, b) := AllocBlock(d1);
    TakeLaw(d1);
    if b != 0 {
      var m := Appended(n, b);
      var f := PutBlock(Charge(SetNode(d2, dir, m)), b, FirstSlot(x));
      assert NodeOk(d.used, d.table[dir - 1]);
      assert Blocks(m) == Blocks(n) + [b];
      assert Takes(d.used, n, f.used, m);
      Replace(d.used, d.table, f.used, dir - 1, m);
      GrownSlots(d1, f, n, b, x);
      forall j | Number(j) && j != dir ensures NodeOk(d.used, Node(d, j)) && Same(d, f, j) {
        assert NodeOk(d.used, d.table[j - 1]) && Same(d, d1, j);
      }
    }
  }
}

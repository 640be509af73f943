/** Making a directory in a block that may hold anything: what is bound in it, and exactly when that is right. */
module FsStale {
  import opened Bytes
  import opened Bits
  import opened Names
  import opened FsModel
  import opened FsWrite
  import opened FsDir
  import opened FsTree
  import opened FsOps

  /** What a block holds, read as the slots of a directory of one block. */
  function RawSlots(d: Disk, b: BlockNo): (s: seq<Entry>)
    ensures |s| == PER_BLOCK
  {
    Slots(d, NewDir(b))
  }

  lemma RawShape(d: Disk, b: BlockNo)
    ensures DirShape(RawSlots(d, b))
  {
  }

  /** Two entries find a slot each: two slots are not live, or the directory can grow behind its last slot. */
  ghost predicate TwoSlots(s: seq<Entry>, room: bool) {
    (exists j: nat, k: nat :: j < k < |s| && !Live(s, j) && !Live(s, k)) || (MustGrow(s) && room)
  }

  lemma SecondSlot(s: seq<Entry>, e: Entry, room: bool)
    requires DirShape(s) && Mark(e) != FREE && Mark(e) != NO_MORE
    ensures HasSlot(FsDir.Place(s, e, room).0) <==> TwoSlots(s, room)
  {
    var s' := FsDir.Place(s, e, room).0;
    PlaceShape(s, e, room);
    if HasSlot(s) {
      var k: nat :| Placed(s, s', k, e);
      OtherSlot(s, s', k, e, room);
    }
  }

  lemma OtherSlot(s: seq<Entry>, s': seq<Entry>, k: nat, e: Entry, room: bool)
    requires Placed(s, s', k, e) && |s'| == |s| + (if MustGrow(s) && room then PER_BLOCK else 0)
    ensures HasSlot(s') <==> TwoSlots(s, room)
  {
    if MustGrow(s) && room {
      assert !Live(s', |s|);
    } else if TwoSlots(s, room) {
      var i: nat, j: nat :| i < j < |s| && !Live(s, i) && !Live(s, j);
      assert !Live(s', if i == k then j else i);
    }
  }

  /** At least three slots are not live. */
  ghost predicate ThreeSlots(s: seq<Entry>) {
    exists i: nat, j: nat, k: nat :: i < j < k < |s| && !Live(s, i) && !Live(s, j) && !Live(s, k)
  }

  /** Two more entries take another block: there is a terminator, and fewer than three slots can be taken. */
  ghost predicate Grows(s: seq<Entry>, room: bool) {
    room && End(s, 0) < |s| && !ThreeSlots(s)
  }

  lemma MustGrowIs(s: seq<Entry>)
    requires DirShape(s)
    ensures MustGrow(s) <==> End(s, 0) < |s| && forall j: nat :: j < |s| - 1 ==> Live(s, j)
  {
    FindFree(s, 0);
    if End(s, 0) < |s| - 1 { assert !Live(s, End(s, 0)); }
    var f := Find(s, FreeKey(), 0);
    if f < End(s, 0) { assert !Live(s, f); }
  }

  lemma LastTaken(s: seq<Entry>, s1: seq<Entry>, k: nat, e: Entry)
    requires DirShape(s) && DirShape(s1) && Placed(s, s1, k, e) && |s1| == |s| && End(s, 0) < |s| && End(s1, 0) < |s1|
    ensures MustGrow(s1) <==> !ThreeSlots(s)
  {
    var l := |s| - 1;
    MustGrowIs(s1);
    assert !Live(s1, l);
    if MustGrow(s1) {
      assert forall j: nat :: j < l && j != k ==> Live(s, j);
    } else {
      var j: nat :| j < l && !Live(s1, j);
      assert !Live(s, j) && !Live(s, k) && !Live(s, l);
      if j < k { assert ThreeSlots(s); } else { assert k < j < l; }
    }
  }

  /** Two entries written one after the other take at most one block. */
  lemma TwoPlaced(s: seq<Entry>, x: Entry, y: Entry, room: bool, room': bool)
    requires DirShape(s) && Mark(x) == DOT && Mark(y) == DOT && (!MustGrow(s) ==> room' == room)
    ensures var s1 := FsDir.Place(s, x, room).0;
            |FsDir.Place(s1, y, room').0| == |s| + if Grows(s, room) then PER_BLOCK else 0
  {
    var s1 := FsDir.Place(s, x, room).0;
    PlaceShape(s, x, room);
    PlaceShape(s1, y, room');
    MustGrowIs(s);
    if End(s, 0) < |s| && !(MustGrow(s) && !room) {
      var k: nat :| Placed(s, s1, k, x);
      assert |s1| > |s| ==> !Live(s1, |s|);
      if MustGrow(s) { GrownOnce(s, s1); } else { LastTaken(s, s1, k, x); }
    }
  }

  lemma GrownOnce(s: seq<Entry>, s1: seq<Entry>)
    requires DirShape(s) && DirShape(s1) && MustGrow(s) && |s1| == |s| + PER_BLOCK
    requires !Live(s1, |s|)
    ensures !MustGrow(s1) && !ThreeSlots(s)
  {
    MustGrowIs(s);
    MustGrowIs(s1);
  }

  // ----- the new directory

  function DotEntry(i: nat): Entry { MakeEntry(i, DotName(), 0) }

  function DotDotEntry(dir: nat): Entry { MakeEntry(dir, DotDotName(), 0) }

  lemma DotEntries(i: nat, dir: nat)
    requires Number(i) && Number(dir)
    ensures Mark(DotEntry(i)) == DOT && Mark(DotDotEntry(dir)) == DOT
    ensures Pair(DotEntry(i)) == (DotName(), i) && Pair(DotDotEntry(dir)) == (DotDotName(), dir)
  {
    MakeLaw(i, DotName(), 0);
    MakeLaw(dir, DotDotName(), 0);
  }

  /** The two bindings a new directory should have. */
  function DotPairs(i: nat, dir: nat): set<(Key, nat)> { {(DotName(), i), (DotDotName(), dir)} }

  /** What is bound after the dot entries were added to slots that hold anything. */
  ghost function Mixed(s: seq<Entry>, room: bool, i: nat, dir: nat): set<(Key, nat)> {
    Pairs(s) + (if HasSlot(s) then {(DotName(), i)} else {}) + (if TwoSlots(s, room) then {(DotDotName(), dir)} else {})
  }

  lemma MixedSlots(s: seq<Entry>, room: bool, room': bool, i: nat, dir: nat)
    requires DirShape(s) && Number(i) && Number(dir)
    ensures var s1 := FsDir.Place(s, DotEntry(i), room).0;
            DirShape(s1) && Pairs(FsDir.Place(s1, DotDotEntry(dir), room').0) == Mixed(s, room, i, dir)
  {
    DotEntries(i, dir);
    var s1 := FsDir.Place(s, DotEntry(i), room).0;
    PlaceShape(s, DotEntry(i), room);
    PlacePairs(s, DotEntry(i), room);
    SecondSlot(s, DotEntry(i), room);
    PlacePairs(s1, DotDotEntry(dir), room');
  }

  /** The inode `m` lists the blocks of `n`, or one more, which was free. */
  ghost predicate Extended(h: Disk, n: Inode, m: Inode, blocks: nat) {
    && n.blocks == 1 && m == n.(block := m.block, blocks := m.blocks) && m.blocks == blocks && m.block[0] == n.block[0]
    && forall b :: b in Blocks(m) ==> b == n.block[0] || !h.used[b]
  }

  lemma ExtendedTwice(h: Disk, g: Disk, e: Disk, i: nat, dir: nat, ok: bool, ok': bool)
    requires Books(h) && Books(g) && Number(i) && Number(dir) && Node(h, i).blocks == 1 && DirShape(Slots(h, Node(h, i)))
    requires Inserted(h, g, i, DotEntry(i), ok) && Inserted(g, e, i, DotDotEntry(dir), ok')
    ensures Extended(h, Node(h, i), Node(e, i), if Grows(Slots(h, Node(h, i)), ClearFrom(h.used, 0) > 0) then 2 else 1)
  {
    var s := Slots(h, Node(h, i));
    DotEntries(i, dir);
    PlaceShape(s, DotEntry(i), ClearFrom(h.used, 0) > 0);
    if !MustGrow(s) {
      assert Node(g, i) == Node(h, i);
      assert NodeOk(h.used, h.table[i - 1]);
      assert g.used == h.used;
    }
    TwoPlaced(s, DotEntry(i), DotDotEntry(dir), ClearFrom(h.used, 0) > 0, ClearFrom(g.used, 0) > 0);
  }

  lemma TwoInserts(h: Disk, i: nat, dir: nat)
    requires Books(h) && Number(i) && Number(dir) && Node(h, i).blocks == 1 && DirShape(Slots(h, Node(h, i)))
    ensures TwoInserted(h, Populate(h, i, dir), i, dir)
  {
    var (g, ok) := Insert(h, i, DotEntry(i));
    InsertLaw(h, i, DotEntry(i));
    DotEntries(i, dir);
    PlaceShape(Slots(h, Node(h, i)), DotEntry(i), ClearFrom(h.used, 0) > 0);
    var (e, ok') := Insert(g, i, DotDotEntry(dir));
    InsertLaw(g, i, DotDotEntry(dir));
    ExtendedTwice(h, g, e, i, dir, ok, ok');
    BoundBoth(h, g, e, i, dir, ok, ok');
  }

  /** What adding the two dot entries comes to. */
  ghost predicate TwoInserted(h: Disk, e: Disk, i: nat, dir: nat)
    requires Number(i)
  {
    && Books(e) && OthersKept(h, e, i) && e.inodeUsed == h.inodeUsed
    && Bindings(e, i) == Mixed(Slots(h, Node(h, i)), ClearFrom(h.used, 0) > 0, i, dir)
    && Extended(h, Node(h, i), Node(e, i), if Grows(Slots(h, Node(h, i)), ClearFrom(h.used, 0) > 0) then 2 else 1)
    && (forall c :: 0 <= c < BLOCKS ==> e.used[c] == (h.used[c] || c in Blocks(Node(e, i))))
  }

  lemma BoundBoth(h: Disk, g: Disk, e: Disk, i: nat, dir: nat, ok: bool, ok': bool)
    requires Books(h) && Books(g) && Number(i) && Number(dir) && Node(h, i).blocks == 1 && DirShape(Slots(h, Node(h, i)))
    requires Inserted(h, g, i, DotEntry(i), ok) && Inserted(g, e, i, DotDotEntry(dir), ok')
    ensures OthersKept(h, e, i) && Bindings(e, i) == Mixed(Slots(h, Node(h, i)), ClearFrom(h.used, 0) > 0, i, dir)
    ensures forall c :: 0 <= c < BLOCKS ==> e.used[c] == (h.used[c] || c in Blocks(Node(e, i)))
  {
    OwnersKept(h, g, i);
    OwnersKept(g, e, i);
    OthersChain(h, g, e, i);
    MixedSlots(Slots(h, Node(h, i)), ClearFrom(h.used, 0) > 0, ClearFrom(g.used, 0) > 0, i, dir);
    assert forall b :: b in Blocks(Node(g, i)) ==> b in Blocks(Node(e, i));
  }

  /** Nothing but the two bindings, and both of them: the stale slots bind nothing else, and leave room for what they lack. */
  ghost predicate Unspoilt(s: seq<Entry>, room: bool, i: nat, dir: nat) {
    && Pairs(s) <= DotPairs(i, dir)
    && ((DotName(), i) in Pairs(s) || HasSlot(s))
    && ((DotDotName(), dir) in Pairs(s) || TwoSlots(s, room))
  }

  lemma MixedIsDots(s: seq<Entry>, room: bool, i: nat, dir: nat)
    ensures Mixed(s, room, i, dir) == DotPairs(i, dir) <==> Unspoilt(s, room, i, dir)
  {
    var m := Mixed(s, room, i, dir);
    assert DotName()[1] != DotDotName()[1];
    if m == DotPairs(i, dir) {
      assert (DotName(), i) in m && (DotDotName(), dir) in m;
    }
  }

  // ----- the whole call

  /** An inode that is given a block that nobody owns. */
  lemma InstallBooks(f: Disk, i: nat, mode: nat, b: BlockNo)
    requires Books(f) && Number(i) && Unowned(f.table, b) && DATA_BASE <= b < BLOCKS && f.used[b]
    ensures var h := SetNode(f, i, OneBlock(mode, b)); Books(h) && OthersKept(f, h, i)
  {
    var n := OneBlock(mode, b);
    var h := SetNode(f, i, n);
    assert Blocks(n) == [b];
    assert NodeOk(f.used, f.table[i - 1]);
    Adopt(f.used, f.table, h.used, i - 1, n);
    assert forall j :: Number(j) ==> NodeOk(f.used, f.table[j - 1]);
  }

  /** The inode of the new directory: no bytes, no flags, the lowest block that was free, and another one if the dot
      entries took it. */
  ghost predicate NewDirectory(d: Disk, m: Inode, blocks: nat) {
    && m.mode == 0x41FF && m.size == 0 && m.flags == 0 && m.blocks == blocks
    && DATA_BASE <= m.block[0] && (forall b :: 0 <= b < m.block[0] ==> d.used[b])
    && forall b :: b in Blocks(m) ==> b < BLOCKS && !d.used[b]
  }

  /** Every block that is marked now was marked before, belongs to one of the two inodes, or is one of `bs`. */
  ghost predicate OnlyTheirsAnd(d: Disk, e: Disk, dir: nat, i: nat, bs: set<BlockNo>)
    requires Number(dir) && Number(i)
  {
    forall b :: 0 <= b < BLOCKS ==> e.used[b] == (d.used[b] || b in bs || b in Blocks(Node(e, dir)) || b in Blocks(Node(e, i)))
  }

  lemma ExtendedIsNew(d: Disk, h: Disk, b: BlockNo, m: Inode, blocks: nat)
    requires Starts(d, NewDir(b), 0x41FF) && Extended(h, NewDir(b), m, blocks)
    requires forall c :: 0 <= c < BLOCKS && d.used[c] ==> h.used[c]
    ensures NewDirectory(d, m, blocks)
  {
  }

  /** The result of the second half of the call, given whether blocks are free before and after the parent's entry. */
  ghost predicate Furnished(d: Disk, g: Disk, ok: bool, i: nat, b: BlockNo, dir: nat, key: Key, before: bool, after: bool)
    requires Number(dir) && Number(i)
  {
    var s := Slots(d, Node(d, dir));
    && Books(g) && Directory(g, dir) == Directory(d, dir) && RestKept(d, g, dir, i) && (ok <==> HasSlot(s) && (MustGrow(s) ==> before))
    && Bindings(g, dir) == Bindings(d, dir) + (if HasSlot(s) then {(key, i)} else {})
    && (ok ==> Bindings(g, i) == Mixed(RawSlots(d, b), after, i, dir)) && (!ok ==> Node(g, i) == NoInode())
    && (ok ==> NewDirectory(d, Node(g, i), if Grows(RawSlots(d, b), after) then 2 else 1))
    && (HasSlot(s) ==> Entered(Slots(g, Node(g, dir)), key, i, NAME_LEN))
    && g.inodeUsed == d.inodeUsed[i - 1 := true] && OnlyTheirsAnd(d, g, dir, i, {b}) && (!ok ==> Unowned(g.table, b))
    && (HasSlot(s) && !Unbound(d, dir, key) ==> BoundTwice(g, dir, key))
  }

  /** The call that succeeds, for any contents of the block taken. */
  lemma FurnishExact(d: Disk, e: Disk, i: nat, b: BlockNo, dir: nat, key: Key)
    requires Reserved(d, e, i, b, dir) && key[0] != FREE && key[0] != NO_MORE
    ensures var (g, ok) := Furnish(e, i, b, dir, key);
            var f := Insert(e, dir, MakeEntry(i, key, NAME_LEN)).0;
            Furnished(d, g, ok, i, b, dir, key, ClearFrom(e.used, 0) > 0, ClearFrom(f.used, 0) > 0)
  {
    assert DirShape(Slots(e, Node(e, dir))) by { assert GoodDir(e, dir); }
    MkdirBind(d, e, i, b, dir, key);
    StartsNew(d, b, 0x41FF);
    var (f, ok) := Insert(e, dir, MakeEntry(i, key, NAME_LEN));
    FurnishedFrom(d, e, f, i, b, dir, key, ok);
  }

  lemma FurnishedFrom(d: Disk, e: Disk, f: Disk, i: nat, b: BlockNo, dir: nat, key: Key, ok: bool)
    requires Directory(d, dir) && Number(i) && i != dir && Node(d, i) == NoInode() && DATA_BASE <= b < BLOCKS && e.data == d.data
    requires ParentBound(d, e, f, i, b, dir, key, ok) && Starts(d, NewDir(b), 0x41FF)
    requires e.used == d.used[b := true] && e.inodeUsed == d.inodeUsed[i - 1 := true]
    ensures var g := if ok then Populate(SetNode(f, i, NewDir(b)), i, dir) else f;
            Furnished(d, g, ok, i, b, dir, key, ClearFrom(e.used, 0) > 0, ClearFrom(f.used, 0) > 0)
  {
    assert Same(d, f, i);
    if ok {
      FillExact(f, i, b, dir);
      FurnishedBy(d, e, f, Populate(SetNode(f, i, NewDir(b)), i, dir), i, b, dir, key);
    } else {
      OneOfTwo(d, f, dir, i);
      assert Blocks(Node(f, i)) == [];
    }
  }

  lemma FurnishedBy(d: Disk, e: Disk, f: Disk, g: Disk, i: nat, b: BlockNo, dir: nat, key: Key)
    requires Directory(d, dir) && Number(i) && i != dir && Node(d, i) == NoInode() && DATA_BASE <= b < BLOCKS && e.data == d.data
    requires ParentBound(d, e, f, i, b, dir, key, true) && Starts(d, NewDir(b), 0x41FF)
    requires e.used == d.used[b := true] && e.inodeUsed == d.inodeUsed[i - 1 := true]
    requires FilledExactly(f, g, i, b, dir)
    ensures Furnished(d, g, true, i, b, dir, key, ClearFrom(e.used, 0) > 0, ClearFrom(f.used, 0) > 0)
  {
    var room := ClearFrom(f.used, 0) > 0;
    assert RawSlots(f, b) == RawSlots(d, b);
    ExtendedIsNew(d, f, b, Node(g, i), if Grows(RawSlots(d, b), room) then 2 else 1);
    RestChain(d, f, g, dir, i);
    assert Same(f, g, dir);
    MarksChain(d, e, f, g, i, b, dir);
  }

  /** The new directory, when the dot entries are added to what its block holds. */
  ghost predicate FilledExactly(f: Disk, g: Disk, i: nat, b: BlockNo, dir: nat)
    requires Number(i) && Number(dir)
  {
    && Books(g) && OthersKept(f, g, i) && Slots(g, Node(g, dir)) == Slots(f, Node(f, dir))
    && Bindings(g, i) == Mixed(RawSlots(f, b), ClearFrom(f.used, 0) > 0, i, dir)
    && Extended(f, NewDir(b), Node(g, i), if Grows(RawSlots(f, b), ClearFrom(f.used, 0) > 0) then 2 else 1)
    && g.inodeUsed == f.inodeUsed && (forall c :: 0 <= c < BLOCKS ==> g.used[c] == (f.used[c] || c in Blocks(Node(g, i))))
  }

  lemma MarksChain(d: Disk, e: Disk, f: Disk, g: Disk, i: nat, b: BlockNo, dir: nat)
    requires Number(dir) && Number(i) && Node(g, dir) == Node(f, dir) && e.used == d.used[b := true]
    requires forall c :: 0 <= c < BLOCKS ==> f.used[c] == (e.used[c] || c in Blocks(Node(f, dir)))
    requires forall c :: 0 <= c < BLOCKS ==> g.used[c] == (f.used[c] || c in Blocks(Node(g, i)))
    ensures OnlyTheirsAnd(d, g, dir, i, {b})
  {
  }

  lemma FillExact(f: Disk, i: nat, b: BlockNo, dir: nat)
    requires Books(f) && Number(i) && Number(dir) && i != dir
    requires Unowned(f.table, b) && DATA_BASE <= b < BLOCKS && f.used[b]
    ensures var g := Populate(SetNode(f, i, NewDir(b)), i, dir); FilledExactly(f, g, i, b, dir)
  {
    InstallBooks(f, i, 0x41FF, b);
    var h := SetNode(f, i, NewDir(b));
    assert Slots(h, NewDir(b)) == RawSlots(f, b);
    RawShape(f, b);
    TwoInserts(h, i, dir);
    var g := Populate(h, i, dir);
    forall j | Number(j) && j != i ensures Same(f, g, j) {
      assert Same(f, h, j) && Same(h, g, j);
    }
    SameChildren(f, g, dir);
  }

  /** How many free blocks are left when the dot entries are written. */
  lemma FreeAfterBind(e: Disk, dir: nat, x: Entry)
    requires Books(e) && Open(e, dir) && DirShape(Slots(e, Node(e, dir)))
    ensures var s, f := Slots(e, Node(e, dir)), Insert(e, dir, x).0;
            ClearFrom(f.used, 0) == ClearFrom(e.used, 0) - if MustGrow(s) && ClearFrom(e.used, 0) > 0 then 1 else 0
  {
    var s := Slots(e, Node(e, dir));
    FindEnd(s, 0);
    if End(s, 0) < |s| { LastSlot(|s|, End(s, 0)); }
    if Find(s, FreeKey(), 0) == |s| && End(s, 0) + 1 == |s| {
      var d1 := PutSlot(e, Node(e, dir), End(s, 0), x);
      assert Counted(d1);
      TakeLaw(d1);
    }
  }

  /** Room for the second dot entry of the new directory, should it have to grow. */
  ghost predicate RoomLeft(d: Disk, dir: nat)
    requires Number(dir)
  {
    ClearFrom(d.used, 0) > if MustGrow(Slots(d, Node(d, dir))) then 2 else 1
  }

  /** The new directory `i` binds what its block held and the dot entries that found a slot; nothing else but the
      parent's binding changes. The call succeeds when the parent's binding is made and its growth, if any, is paid for;
      a call that fails leaves a cleared inode, which the parent's binding may name. Contracts
      compare this with `true`, so that it is passed on as a single fact. */
  ghost predicate MadeFrom(d: Disk, e: Disk, dir: nat, i: nat, name: seq<Byte>, ok: bool)
    requires Number(dir) && Number(i)
  {
    var raw := RawSlots(d, AllocBlock(d).1);
    && Books(e) && Directory(e, dir) == Directory(d, dir) && RestKept(d, e, dir, i)
    && (ok <==> Binds(d, dir, name) && (MustGrow(Slots(d, Node(d, dir))) ==> ClearFrom(d.used, 0) > 1))
    && Bindings(e, dir) == Bindings(d, dir) + (if Binds(d, dir, name) then {(Stored(name), i)} else {})
    && (ok ==> Bindings(e, i) == Mixed(raw, RoomLeft(d, dir), i, dir)) && (!ok ==> Node(e, i) == NoInode())
    && (ok ==> NewDirectory(d, Node(e, i), if Grows(raw, RoomLeft(d, dir)) then 2 else 1))
    && (Binds(d, dir, name) ==> Entered(Slots(e, Node(e, dir)), Stored(name), i, NAME_LEN))
    && e.inodeUsed == (if Accepted(name) then d.inodeUsed[i - 1 := true] else d.inodeUsed)
    && OnlyTheirsAnd(d, e, dir, i, if Accepted(name) && ClearFrom(d.used, 0) > 0 then {AllocBlock(d).1} else {})
    && (!ok && Accepted(name) && ClearFrom(d.used, 0) > 0 ==> Unowned(e.table, AllocBlock(d).1))
    && (Rebinds(d, dir, name) ==> BoundTwice(e, dir, Stored(name)))
    && (ok ==> (Bindings(e, i) == DotPairs(i, dir) <==> Unspoilt(raw, RoomLeft(d, dir), i, dir)))
  }

  /** Making a directory, whatever its name and the block it gets: ownership and counts stay right, the parent's binding is
      added under the same conditions, and the new directory binds exactly its dot entries if and only if the slots
      already in the block bind nothing else and leave the room that the missing dot entries need. */
  lemma MkdirExact(d: Disk, dir: nat, name: seq<Byte>)
    requires FsOk(d) && Open(d, dir) && SpareInode(d) && Text(name)
    ensures var (e, ok) := Mkdir(d, dir, name); MadeFrom(d, e, dir, FirstClear(d.inodeUsed, 0) + 1, name, ok) == true
  {
    var (e, i, b) := Reserve(d);
    ReservedFor(d, dir);
    if !Accepted(name) {
      NotMade(d, d, dir, name);
    } else if i == 0 {
      NotMade(d, e, dir, name);
    } else {
      KeyBytes(name);
      MadeHere(d, e, i, b, dir, name);
    }
  }

  lemma NotMade(d: Disk, e: Disk, dir: nat, name: seq<Byte>)
    requires Books(d) && Nodes(d) && Number(dir) && SpareInode(d)
    requires Books(e) && e.table == d.table && e.data == d.data && e.used == d.used && !(Accepted(name) && ClearFrom(d.used, 0) > 0)
    requires e.inodeUsed == if Accepted(name) then d.inodeUsed[FirstClear(d.inodeUsed, 0) := true] else d.inodeUsed
    ensures MadeFrom(d, e, dir, FirstClear(d.inodeUsed, 0) + 1, name, false) == true
  {
    var i, key := FirstClear(d.inodeUsed, 0) + 1, Stored(name);
    NothingMade(d, e, dir, key);
    UnchangedMarks(d, e, dir, i);
    assert OnlyTheirsAnd(d, e, dir, i, {});
    assert !Binds(d, dir, name) && !Rebinds(d, dir, name);
  }

  lemma MadeHere(d: Disk, e: Disk, i: nat, b: BlockNo, dir: nat, name: seq<Byte>)
    requires Reserved(d, e, i, b, dir) == true && Accepted(name)
    requires Stored(name)[0] != FREE && Stored(name)[0] != NO_MORE
    ensures var (g, ok) := Furnish(e, i, b, dir, Stored(name)); MadeFrom(d, g, dir, i, name, ok) == true
  {
    FurnishExact(d, e, i, b, dir, Stored(name));
    RoomIs(d, e, i, b, dir, MakeEntry(i, Stored(name), NAME_LEN));
    var (g, ok) := Furnish(e, i, b, dir, Stored(name));
    FurnishedIsMade(d, g, ok, i, b, dir, name, ClearFrom(e.used, 0) > 0);
  }

  lemma FurnishedIsMade(d: Disk, g: Disk, ok: bool, i: nat, b: BlockNo, dir: nat, name: seq<Byte>, before: bool)
    requires Number(dir) && Number(i) && Accepted(name) && b == AllocBlock(d).1
    requires ClearFrom(d.used, 0) > 0 && (before <==> ClearFrom(d.used, 0) > 1)
    requires Furnished(d, g, ok, i, b, dir, Stored(name), before, RoomLeft(d, dir))
    ensures MadeFrom(d, g, dir, i, name, ok) == true
  {
    MixedIsDots(RawSlots(d, b), RoomLeft(d, dir), i, dir);
  }

  lemma RoomIs(d: Disk, e: Disk, i: nat, b: BlockNo, dir: nat, x: Entry)
    requires Reserved(d, e, i, b, dir) == true
    ensures ClearFrom(d.used, 0) == ClearFrom(e.used, 0) + 1
    ensures ClearFrom(Insert(e, dir, x).0.used, 0) > 0 <==> RoomLeft(d, dir)
  {
    assert Slots(d, Node(d, dir)) == Slots(e, Node(e, dir));
    assert DirShape(Slots(e, Node(e, dir))) by { assert GoodDir(e, dir); }
    FreeAfterBind(e, dir, x);
    ClearFromUpdate(d.used, 0, b, true);
  }

  /** In a block of zeros the invariant of the tree is kept exactly if the parent does not already bind the name. */
  lemma MkdirSafe(d: Disk, dir: nat, name: seq<Byte>)
    requires FsOk(d) && Open(d, dir) && SpareInode(d) && Text(name) && NextBlockZero(d)
    ensures FsOk(Mkdir(d, dir, name).0) <==> !Rebinds(d, dir, name)
  {
    if Rebinds(d, dir, name) {
      MkdirExact(d, dir, name);
      RebindsIsBad(d, Mkdir(d, dir, name), dir, FirstClear(d.inodeUsed, 0) + 1, name);
    } else {
      MkdirLaw(d, dir, name);
    }
  }

  lemma RebindsIsBad(d: Disk, r: (Disk, bool), dir: nat, i: nat, name: seq<Byte>)
    requires Directory(d, dir) && Number(i) && Rebinds(d, dir, name) && MadeFrom(d, r.0, dir, i, name, r.1) == true
    ensures !FsOk(r.0)
  {
    TwiceIsBad(r.0, dir, Stored(name));
  }

  /** A block of zeros is unspoilt, and so is every block with room whose live slots are such dot entries at most. */
  lemma UnspoiltWhen(s: seq<Entry>, room: bool, i: nat, dir: nat)
    ensures TwoSlots(s, room) ==> (Unspoilt(s, room, i, dir) <==> Pairs(s) <= DotPairs(i, dir))
    ensures s == EmptySlots() ==> Unspoilt(s, room, i, dir)
  {
    if MustGrow(s) { assert HasSlot(s); }
    if s == EmptySlots() {
      EndIs(s, 0, 0);
      assert !Live(s, 0) && !Live(s, 1);
    }
  }
}

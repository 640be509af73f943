/** Directories as rows of 32-byte slots: searching, placing and deleting entries, against a set of (name, inode) pairs. */
module FsDir {
  import opened Bytes
  import opened Names

  const ENTRY: nat := 32
  const PER_BLOCK: nat := 32
  const FREE: Byte := 0x01
  const NO_MORE: Byte := 0x00

  type Entry = e: seq<Byte> | |e| == ENTRY witness Zeros(32)

  type Key = k: seq<Byte> | |k| == NAME_LEN witness Zeros(11)

  function NameOf(e: Entry): Key { e[4..15] }

  function Mark(e: Entry): Byte { e[4] }

  function Little(n: nat): (r: seq<Byte>)
    ensures |r| == 4
  {
    var (a, b, c) := (n / 256, n / 256 / 256, n / 256 / 256 / 256);
    [n % 256, a % 256, b % 256, c % 256]
  }

  function InodeOf(e: Entry): nat {
    (e[0] as int) + 256 * ((e[1] as int) + 256 * ((e[2] as int) + 256 * (e[3] as int)))
  }

  function MakeEntry(ino: nat, name: Key, nameLen: nat): Entry {
    Little(ino) + name + Little(nameLen) + Zeros(13)
  }

  lemma MakeLaw(ino: nat, name: Key, nameLen: nat)
    requires ino < 0x1_0000_0000
    ensures var e := MakeEntry(ino, name, nameLen); NameOf(e) == name && InodeOf(e) == ino && Mark(e) == name[0]
  {
    var e := MakeEntry(ino, name, nameLen);
    assert e[0] == Little(ino)[0] && e[1] == Little(ino)[1] && e[2] == Little(ino)[2] && e[3] == Little(ino)[3];
  }

  /** The length recorded beside the name. */
  function LengthOf(e: Entry): nat {
    (e[15] as int) + 256 * ((e[16] as int) + 256 * ((e[17] as int) + 256 * (e[18] as int)))
  }

  /** The layout of an entry: inode number, name, length of the name, and zeros; numbers with the lowest byte first. */
  lemma EntryLayout(ino: nat, name: Key, nameLen: nat)
    requires ino < 0x1_0000_0000 && nameLen <= NAME_LEN
    ensures var e := MakeEntry(ino, name, nameLen);
            && e[0] as int == ino % 0x100 && e[1] as int == ino / 0x100 % 0x100
            && e[2] as int == ino / 0x1_0000 % 0x100 && e[3] as int == ino / 0x100_0000
            && (forall k :: 0 <= k < NAME_LEN ==> e[4 + k] == name[k])
            && e[15] as int == nameLen && (forall k :: 16 <= k < ENTRY ==> e[k] == 0)
            && InodeOf(e) == ino && LengthOf(e) == nameLen
  {
    var e := MakeEntry(ino, name, nameLen);
    MakeLaw(ino, name, nameLen);
    assert e[0] == Little(ino)[0] && e[1] == Little(ino)[1] && e[2] == Little(ino)[2] && e[3] == Little(ino)[3];
    assert e[15] == Little(nameLen)[0] && e[16] == Little(nameLen)[1] && e[17] == Little(nameLen)[2] && e[18] == Little(nameLen)[3];
    assert forall k :: 0 <= k < NAME_LEN ==> e[4 + k] == NameOf(e)[k];
  }

  /** A live slot holds this name, inode number and recorded length. */
  ghost predicate Entered(s: seq<Entry>, key: Key, ino: nat, length: nat) {
    exists k: nat :: k < |s| && Live(s, k) && Pair(s[k]) == (key, ino) && LengthOf(s[k]) == length
  }

  /** What a removal leaves in the slot. */
  function FreeEntry(): (e: Entry)
    ensures Mark(e) == FREE
  {
    Zeros(4) + [FREE] + Zeros(27)
  }

  lemma FreeEntryLaw(k: nat)
    requires k < 32
    ensures FreeEntry()[k] == if k == 4 then 1 else 0
  {
  }

  function EmptySlots(): (s: seq<Entry>)
    ensures |s| == PER_BLOCK && forall k :: 0 <= k < |s| ==> Mark(s[k]) == NO_MORE
  {
    seq(PER_BLOCK, i => Zeros(ENTRY))
  }

  // ----- searching

  /** The comparison of a slot with a searched name: all eleven bytes, or the marker alone. */
  predicate Match(e: Entry, key: Key) {
    NameOf(e) == key || ((key[0] == FREE || key[0] == NO_MORE) && key[0] == Mark(e))
  }

  /** The first match, or the number of slots; the terminator ends the search. */
  function Find(s: seq<Entry>, key: Key, i: nat): (k: nat)
    requires i <= |s|
    ensures i <= k <= |s|
    decreases |s| - i
  {
    if i == |s| then i
    else if Match(s[i], key) then i
    else if Mark(s[i]) == NO_MORE then |s|
    else Find(s, key, i + 1)
  }

  predicate Visible(e: Entry) { Mark(e) != NO_MORE && Mark(e) != FREE && Mark(e) != DOT }

  /** The first entry that is neither a marker nor one of the dot entries. */
  function FindAny(s: seq<Entry>, i: nat): (k: nat)
    requires i <= |s|
    ensures i <= k <= |s|
    decreases |s| - i
  {
    if i == |s| then i
    else if Visible(s[i]) then i
    else if Mark(s[i]) == NO_MORE then |s|
    else FindAny(s, i + 1)
  }

  function FreeKey(): Key { [FREE] + Zeros(10) }

  function EndKey(): Key { Zeros(11) }

  // ----- the directory as a finite map

  /** The position of the terminator, or the number of slots of a directory that has lost it. */
  function End(s: seq<Entry>, i: nat): (t: nat)
    requires i <= |s|
    ensures i <= t <= |s| && (t < |s| ==> Mark(s[t]) == NO_MORE) && forall k :: i <= k < t ==> Mark(s[k]) != NO_MORE
    decreases |s| - i
  {
    if i == |s| || Mark(s[i]) == NO_MORE then i else End(s, i + 1)
  }

  predicate Live(s: seq<Entry>, k: nat) {
    k < End(s, 0) && Mark(s[k]) != FREE
  }

  function Pair(e: Entry): (Key, nat) { (NameOf(e), InodeOf(e)) }

  /** The bindings of a directory, in no order. */
  ghost function Pairs(s: seq<Entry>): set<(Key, nat)> {
    set k: nat | k < |s| && Live(s, k) :: Pair(s[k])
  }

  /** Whole blocks, and the terminator in the last one or missing. */
  predicate DirShape(s: seq<Entry>) {
    |s| % PER_BLOCK == 0 && |s| > 0 && |s| - End(s, 0) <= PER_BLOCK
  }

  /** A directory of that shape in which no name occurs twice. */
  ghost predicate DirOk(s: seq<Entry>) {
    && DirShape(s)
    && forall j: nat, k: nat :: j < k < |s| && Live(s, j) && Live(s, k) ==> NameOf(s[j]) != NameOf(s[k])
  }

  /** No inode is named twice by entries other than the dot entries. */
  ghost predicate RefsOk(s: seq<Entry>) {
    forall j: nat, k: nat :: j < k < |s| && Live(s, j) && Live(s, k) && Mark(s[j]) != DOT && Mark(s[k]) != DOT
      ==> InodeOf(s[j]) != InodeOf(s[k])
  }

  /** The inodes named by entries other than the dot entries. */
  ghost function Refs(s: seq<Entry>): set<nat> {
    set k: nat | k < |s| && Live(s, k) && Mark(s[k]) != DOT :: InodeOf(s[k])
  }

  lemma {:induction false} EndIs(s: seq<Entry>, i: nat, t: nat)
    requires i <= t <= |s| && (t < |s| ==> Mark(s[t]) == NO_MORE) && forall k :: i <= k < t ==> Mark(s[k]) != NO_MORE
    ensures End(s, i) == t
  {
  }

  /** Searching a proper name finds exactly the live entry of that name. */
  lemma {:induction false} FindScan(s: seq<Entry>, key: Key, i: nat)
    requires i <= End(s, 0) && key[0] != FREE && key[0] != NO_MORE
    ensures var k := Find(s, key, i);
            && (k < |s| ==> Live(s, k) && NameOf(s[k]) == key)
            && forall j: nat :: i <= j < k && j < |s| && Live(s, j) ==> NameOf(s[j]) != key
    decreases |s| - i
  {
    if i < |s| {
      assert Mark(s[i]) == NameOf(s[i])[0];
      if i < End(s, 0) { FindScan(s, key, i + 1); }
    }
  }

  /** Lookup agrees with the bindings: it succeeds exactly on bound names and gives the bound inode. */
  lemma FindLaw(s: seq<Entry>, key: Key)
    requires DirOk(s) && key[0] != FREE && key[0] != NO_MORE
    ensures var k := Find(s, key, 0);
            && (k < |s| <==> exists p :: p in Pairs(s) && p.0 == key)
            && (k < |s| ==> Live(s, k) && Pair(s[k]) in Pairs(s) && NameOf(s[k]) == key)
            && (k < |s| ==> forall p :: p in Pairs(s) && p.0 == key ==> p.1 == InodeOf(s[k]))
  {
    var k := Find(s, key, 0);
    FindScan(s, key, 0);
    if k < |s| {
      assert Pair(s[k]) in Pairs(s);
      forall p | p in Pairs(s) && p.0 == key ensures p.1 == InodeOf(s[k]) {
        var j: nat :| j < |s| && Live(s, j) && Pair(s[j]) == p;
        assert j == k;
      }
    }
  }

  lemma {:induction false} FindFree(s: seq<Entry>, i: nat)
    requires i <= End(s, 0)
    ensures var k := Find(s, FreeKey(), i);
            && (k < |s| ==> k < End(s, 0) && Mark(s[k]) == FREE && forall j :: i <= j < k ==> Mark(s[j]) != FREE)
            && (k == |s| ==> forall j :: i <= j < End(s, 0) ==> Mark(s[j]) != FREE)
    decreases |s| - i
  {
    if i < |s| {
      assert Mark(s[i]) == NameOf(s[i])[0];
      if i < End(s, 0) { FindFree(s, i + 1); }
    }
  }

  lemma {:induction false} FindEnd(s: seq<Entry>, i: nat)
    requires i <= End(s, 0)
    ensures Find(s, EndKey(), i) == End(s, 0)
    decreases |s| - i
  {
    if i < |s| {
      assert Mark(s[i]) == NameOf(s[i])[0];
      if i < End(s, 0) { FindEnd(s, i + 1); }
    }
  }

  lemma {:induction false} FindAnyScan(s: seq<Entry>, i: nat)
    requires i <= End(s, 0)
    ensures var k := FindAny(s, i);
            && (k < |s| ==> Live(s, k) && Mark(s[k]) != DOT)
            && forall j: nat :: i <= j < k && j < |s| && Live(s, j) ==> Mark(s[j]) == DOT
    decreases |s| - i
  {
    if i < End(s, 0) { FindAnyScan(s, i + 1); }
  }

  /** The emptiness test of `fsRmdir` finds nothing exactly when no entry but the dot entries is bound. */
  lemma EmptyLaw(s: seq<Entry>)
    ensures FindAny(s, 0) == |s| <==> forall p :: p in Pairs(s) ==> p.0[0] == DOT
    ensures FindAny(s, 0) == |s| ==> Refs(s) == {}
  {
    FindAnyScan(s, 0);
    var k := FindAny(s, 0);
    if k < |s| {
      assert Pair(s[k]) in Pairs(s);
    }
  }

  // ----- placing and deleting

  /** Slots after `insertEntry`; `room` says whether a block is free should the directory have to grow. */
  function Place(s: seq<Entry>, e: Entry, room: bool): (r: (seq<Entry>, bool)) {
    var f := Find(s, FreeKey(), 0);
    if f < |s| then (s[f := e], true)
    else
      var t := Find(s, EndKey(), 0);
      if t == |s| then (s, false)
      else if t % PER_BLOCK + 1 < PER_BLOCK then
        (if t + 1 < |s| then s[t := e][t + 1 := s[t]] else s[t := e], true)
      else if room then (s[t := e] + EmptySlots()[0 := s[t]], true)
      else (s[t := e], false)
  }

  /** There is a freed slot or a terminator to write the entry to. */
  ghost predicate HasSlot(s: seq<Entry>) {
    End(s, 0) < |s| || exists k: nat :: k < |s| && !Live(s, k)
  }

  /** The directory must grow to keep its terminator. */
  predicate MustGrow(s: seq<Entry>) {
    Find(s, FreeKey(), 0) == |s| && End(s, 0) + 1 == |s|
  }

  lemma PlaceKeeps(s: seq<Entry>, s': seq<Entry>, k: nat, e: Entry)
    requires DirOk(s) && k < |s| <= |s'| && s'[k] == e && Live(s', k) && !Live(s, k)
    requires forall j: nat :: j < |s'| && j != k ==> (Live(s', j) <==> j < |s| && Live(s, j)) && (Live(s', j) ==> s'[j] == s[j])
    requires |s'| % PER_BLOCK == 0 && |s'| - End(s', 0) <= PER_BLOCK
    requires forall p :: p in Pairs(s) ==> p.0 != NameOf(e)
    ensures DirOk(s')
    ensures RefsOk(s) && (Mark(e) == DOT || InodeOf(e) !in Refs(s)) ==> RefsOk(s')
  {
    forall j: nat | j < |s'| && j != k && Live(s', j) ensures NameOf(s'[j]) != NameOf(e) {
      assert Pair(s[j]) in Pairs(s);
    }
    if RefsOk(s) && (Mark(e) == DOT || InodeOf(e) !in Refs(s)) {
      forall j: nat | j < |s'| && j != k && Live(s', j) && Mark(s'[j]) != DOT && Mark(e) != DOT
        ensures InodeOf(s'[j]) != InodeOf(e)
      {
        assert InodeOf(s[j]) in Refs(s);
      }
    }
  }

  /** Writing a live entry over a slot that was not live adds one binding. */
  lemma AddPair(s: seq<Entry>, s': seq<Entry>, k: nat, e: Entry)
    requires k < |s| <= |s'| && s'[k] == e && Live(s', k) && !Live(s, k)
    requires forall j: nat :: j < |s'| && j != k ==> (Live(s', j) <==> j < |s| && Live(s, j)) && (Live(s', j) ==> s'[j] == s[j])
    ensures Pairs(s') == Pairs(s) + {Pair(e)}
    ensures Refs(s') == Refs(s) + if Mark(e) == DOT then {} else {InodeOf(e)}
  {
    forall p | p in Pairs(s) ensures p in Pairs(s') {
      var j: nat :| j < |s| && Live(s, j) && Pair(s[j]) == p;
      assert Live(s', j);
    }
    assert Pair(s'[k]) in Pairs(s');
    forall i | i in Refs(s) ensures i in Refs(s') {
      var j: nat :| j < |s| && Live(s, j) && Mark(s[j]) != DOT && InodeOf(s[j]) == i;
      assert Live(s', j);
    }
    if Mark(e) != DOT { assert InodeOf(s'[k]) in Refs(s'); }
  }

  /** The effect of placing an entry on the slots: which one is written, and where the terminator is then. */
  ghost predicate Placed(s: seq<Entry>, s': seq<Entry>, k: nat, e: Entry) {
    && k < |s| <= |s'| && s'[k] == e && Live(s', k) && !Live(s, k)
    && (forall j: nat :: j < |s'| && j != k ==> (Live(s', j) <==> j < |s| && Live(s, j)) && (Live(s', j) ==> s'[j] == s[j]))
    && |s'| % PER_BLOCK == 0 && |s'| - End(s', 0) <= PER_BLOCK
  }

  lemma HasSlotIs(s: seq<Entry>)
    ensures HasSlot(s) <==> Find(s, FreeKey(), 0) < |s| || End(s, 0) < |s|
  {
    FindFree(s, 0);
    var f := Find(s, FreeKey(), 0);
    if f < |s| { assert !Live(s, f); }
  }

  lemma Reuse(s: seq<Entry>, e: Entry, f: nat)
    requires DirShape(s) && Mark(e) != FREE && Mark(e) != NO_MORE && f < End(s, 0) && Mark(s[f]) == FREE
    ensures Placed(s, s[f := e], f, e) && End(s[f := e], 0) == End(s, 0)
  {
    var s' := s[f := e];
    EndIs(s', 0, End(s, 0));
  }

  /** Writing over the terminator, with a new terminator in the next slot if there is one. */
  lemma Extend(s: seq<Entry>, s': seq<Entry>, e: Entry)
    requires DirShape(s) && Mark(e) != FREE && Mark(e) != NO_MORE
    requires var t := End(s, 0);
             && t < |s| <= |s'| && |s'| % PER_BLOCK == 0 && |s'| - t - 1 <= PER_BLOCK
             && s'[t] == e && (forall j: nat :: j < t ==> s'[j] == s[j]) && (t + 1 < |s'| ==> Mark(s'[t + 1]) == NO_MORE)
    ensures Placed(s, s', End(s, 0), e) && End(s', 0) == End(s, 0) + 1
  {
    var t := End(s, 0);
    forall k | 0 <= k < t + 1 ensures Mark(s'[k]) != NO_MORE {
      if k < t { assert s'[k] == s[k]; }
    }
    EndIs(s', 0, t + 1);
  }

  lemma LastSlot(n: nat, t: nat)
    requires n % PER_BLOCK == 0 && t < n <= t + PER_BLOCK
    ensures t % PER_BLOCK + 1 < PER_BLOCK <==> t + 1 < n
    ensures (n + PER_BLOCK) % PER_BLOCK == 0
  {
  }

  /** How the cases of `insertEntry` differ: a freed slot, the terminator, or neither. */
  ghost predicate PlaceOutcome(s: seq<Entry>, s': seq<Entry>, e: Entry, room: bool, ok: bool) {
    && (HasSlot(s) ==> exists k: nat :: Placed(s, s', k, e))
    && (!HasSlot(s) ==> s' == s && !ok)
    && (ok <==> HasSlot(s) && (MustGrow(s) ==> room))
    && |s'| == |s| + (if MustGrow(s) && room then PER_BLOCK else 0)
    && (End(s', 0) == |s'| <==> End(s, 0) == |s| || (MustGrow(s) && !room))
    && DirShape(s')
  }

  lemma OutcomeReuse(s: seq<Entry>, e: Entry, room: bool, f: nat)
    requires DirShape(s) && Mark(e) != FREE && Mark(e) != NO_MORE && f == Find(s, FreeKey(), 0) < End(s, 0) && Mark(s[f]) == FREE
    ensures PlaceOutcome(s, s[f := e], e, room, true)
  {
    HasSlotIs(s);
    Reuse(s, e, f);
  }

  lemma OutcomeExtend(s: seq<Entry>, s': seq<Entry>, e: Entry, room: bool, ok: bool)
    requires DirShape(s) && Mark(e) != FREE && Mark(e) != NO_MORE && Find(s, FreeKey(), 0) == |s| && End(s, 0) < |s|
    requires var t := End(s, 0);
             && |s'| == (if t + 1 == |s| && room then |s| + PER_BLOCK else |s|) && s'[t] == e && ok == (t + 1 == |s| ==> room)
             && (forall j: nat :: j < t ==> s'[j] == s[j]) && (t + 1 < |s'| ==> Mark(s'[t + 1]) == NO_MORE)
    ensures PlaceOutcome(s, s', e, room, ok)
  {
    HasSlotIs(s);
    LastSlot(|s|, End(s, 0));
    Extend(s, s', e);
  }

  lemma PlaceShape(s: seq<Entry>, e: Entry, room: bool)
    requires DirShape(s) && Mark(e) != FREE && Mark(e) != NO_MORE
    ensures PlaceOutcome(s, Place(s, e, room).0, e, room, Place(s, e, room).1)
  {
    var (s', ok) := Place(s, e, room);
    var f, t := Find(s, FreeKey(), 0), End(s, 0);
    FindFree(s, 0);
    FindEnd(s, 0);
    if f < |s| {
      OutcomeReuse(s, e, room, f);
    } else if t < |s| {
      LastSlot(|s|, t);
      OutcomeExtend(s, s', e, room, ok);
    } else {
      HasSlotIs(s);
      assert PlaceOutcome(s, s', e, room, ok);
    }
  }

  /** Slot `k` is the first freed one. */
  ghost predicate FirstFreed(s: seq<Entry>, k: nat) {
    k < End(s, 0) && Mark(s[k]) == FREE && forall j :: 0 <= j < k ==> Mark(s[j]) != FREE
  }

  /** Where an entry is placed: in the first freed slot, else in the place of the terminator, which moves on by one slot,
      or to the front of a block of zeros if the row is full and a block is free. */
  lemma PlaceWhere(s: seq<Entry>, e: Entry, room: bool, k: nat)
    requires DirShape(s)
    ensures var (s', ok) := Place(s, e, room);
            var t := End(s, 0);
            && (FirstFreed(s, k) ==> s' == s[k := e] && ok)
            && ((forall j :: 0 <= j < t ==> Mark(s[j]) != FREE) ==>
                  if t == |s| then s' == s && !ok
                  else if t + 1 < |s| then s' == s[t := e][t + 1 := s[t]] && ok
                  else if !room then s' == s[t := e] && !ok
                  else ok && |s'| == |s| + 32 && s'[..|s|] == s[t := e] && s'[|s|] == s[t]
                       && forall j :: |s| < j < |s'| ==> s'[j] == Zeros(32))
  {
    FindFree(s, 0);
    FindEnd(s, 0);
    if End(s, 0) < |s| { LastSlot(|s|, End(s, 0)); }
  }

  /** In a directory with two slots left behind its last entry the end moves by one at most. */
  lemma PlaceEnd(s: seq<Entry>, e: Entry, room: bool)
    requires DirShape(s) && Mark(e) != FREE && Mark(e) != NO_MORE && End(s, 0) + 1 < |s|
    ensures var s' := Place(s, e, room).0; |s'| == |s| && End(s', 0) <= End(s, 0) + 1
  {
    var f, t := Find(s, FreeKey(), 0), End(s, 0);
    FindFree(s, 0);
    FindEnd(s, 0);
    LastSlot(|s|, t);
    if f < |s| { Reuse(s, e, f); } else { Extend(s, s[t := e][t + 1 := s[t]], e); }
  }

  /** Whatever the names: placing an entry adds its binding, exactly when there is a slot to write it to. */
  lemma PlacePairs(s: seq<Entry>, e: Entry, room: bool)
    requires DirShape(s) && Mark(e) != FREE && Mark(e) != NO_MORE
    ensures Pairs(Place(s, e, room).0) == if HasSlot(s) then Pairs(s) + {Pair(e)} else Pairs(s)
  {
    var s' := Place(s, e, room).0;
    PlaceShape(s, e, room);
    if HasSlot(s) {
      var k: nat :| Placed(s, s', k, e);
      AddPair(s, s', k, e);
    }
  }

  /** Placing an entry of a new name adds one binding, exactly when there is a slot to write it to. */
  lemma PlaceLaw(s: seq<Entry>, e: Entry, room: bool)
    requires DirOk(s) && Mark(e) != FREE && Mark(e) != NO_MORE
    requires forall p :: p in Pairs(s) ==> p.0 != NameOf(e)
    ensures var (s', ok) := Place(s, e, room);
            && DirOk(s')
            && Pairs(s') == (if HasSlot(s) then Pairs(s) + {Pair(e)} else Pairs(s))
            && Refs(s') == Refs(s) + (if HasSlot(s) && Mark(e) != DOT then {InodeOf(e)} else {})
            && (RefsOk(s) && (Mark(e) == DOT || InodeOf(e) !in Refs(s)) ==> RefsOk(s'))
  {
    var (s', ok) := Place(s, e, room);
    PlaceShape(s, e, room);
    if HasSlot(s) {
      var k: nat :| Placed(s, s', k, e);
      AddPair(s, s', k, e);
      PlaceKeeps(s, s', k, e);
    }
  }

  /** Deleting a live entry removes exactly its binding. */
  lemma DeleteLaw(s: seq<Entry>, k: nat)
    requires DirOk(s) && Live(s, k)
    ensures var s' := s[k := FreeEntry()];
            && DirOk(s') && Pairs(s') == Pairs(s) - {Pair(s[k])}
            && (RefsOk(s) ==> RefsOk(s'))
            && (RefsOk(s) && Mark(s[k]) != DOT ==> Refs(s') == Refs(s) - {InodeOf(s[k])})
            && Refs(s') <= Refs(s)
  {
    var s' := s[k := FreeEntry()];
    EndIs(s', 0, End(s, 0));
    assert forall j: nat :: j < |s| ==> (Live(s', j) <==> j != k && Live(s, j));
    forall p | p in Pairs(s) && p != Pair(s[k]) ensures p in Pairs(s') {
      var j: nat :| j < |s| && Live(s, j) && Pair(s[j]) == p;
      assert Live(s', j) && Pair(s'[j]) == p;
    }
    forall i | i in Refs(s) && i != InodeOf(s[k]) ensures i in Refs(s') {
      var j: nat :| j < |s| && Live(s, j) && Mark(s[j]) != DOT && InodeOf(s[j]) == i;
      assert Live(s', j) && InodeOf(s'[j]) == i;
    }
  }
}

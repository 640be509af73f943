/** Runs that end where a name is bound twice, and where a name leads to a cleared inode. */
module FsTwice {
  import opened Bytes
  import opened Bits
  import opened Names
  import opened FsModel
  import opened FsWrite
  import opened FsDir
  import opened FsTree
  import opened FsOps
  import opened FsRun
  import opened FsStale
  import opened FsReach
  import opened FsTall

  // ----- a full-length name created twice

  /** Neither the stored key of such a name nor what that is formatted to once more starts like a marker or a dot. */
  lemma LeakyKey(name: seq<Byte>)
    requires Leaky(name)
    ensures var key, again := Stored(name), Searched(Stored(name));
            key != again && Alnum(key[0]) && Alnum(again[0])
  {
    LeakyFirst(name);
    assert 0 !in Stored(name) by { KeyBytes(name); }
    assert !Accepted(Stored(name)) && Searched(Stored(name)) != Stored(name) by { ReformatLaw(name); }
    AlnumStays(Stored(name));
  }

  lemma LeakyFirst(name: seq<Byte>)
    requires Leaky(name)
    ensures Alnum(Stored(name)[0])
  {
    assert Origin(name, 0) < |name|;
    KeyAt(name, 0);
  }

  lemma AlnumStays(key: Key)
    requires 0 !in key && !Accepted(key) && Alnum(key[0])
    ensures Alnum(Searched(key)[0])
  {
    IrregularKey(key);
    assert Upper(key)[0] == ToUpper(key[0]);
  }

  lemma DotsOnly(d: Disk, key: Key)
    requires RootNames(d, 0) && key[0] != DOT
    ensures Unbound(d, ROOT, key)
  {
    forall p | p in Bindings(d, ROOT) ensures p.0 != key { }
  }

  /** The root after the first creation. */
  ghost predicate CreatedOnce(d: Disk, e: Disk, key: Key) {
    && Bindings(e, ROOT) == Bindings(d, ROOT) + {(key, FirstClear(d.inodeUsed, 0) + 1)} && EndsAt(e, ROOT, 3)
    && ClearFrom(e.used, 0) > 0 && ClearFrom(e.inodeUsed, 0) > 0
  }

  lemma CreateOnce(cached: nat, name: seq<Byte>) returns (e: OkDisk)
    requires cached > 0 && Leaky(name)
    ensures Reaches(FsRun.Formatted(), cached, e) && CreatedOnce(FsRun.Formatted(), e, Stored(name))
  {
    var d := FsRun.Formatted();
    Start();
    LeakyKey(name);
    DotsOnly(d, Stored(name));
    DotsOnly(d, Searched(Stored(name)));
    SomeClear(d.inodeUsed);
    RootStays(d);
    CreateIs(d, cached, ROOT, name);
    OnceEstablished(d, Stored(name));
    e := ReachStep(d, cached, CreateOp(ROOT, name));
  }

  lemma OnceEstablished(d: OkDisk, key: Key)
    requires Tidy(d, ROOT, 2) && ClearFrom(d.used, 0) > 2 && ClearFrom(d.inodeUsed, 0) > 1 && SpareInode(d) && Alnum(key[0])
    ensures CreatedOnce(d, Establish(d, ROOT, key).0, key)
  {
    PackedFind(Slots(d, Node(d, ROOT)), 2);
    EstablishLaw(d, ROOT, key);
    TallEstablish(d, ROOT, key, 2);
    ClearFromUpdate(d.inodeUsed, 0, FirstClear(d.inodeUsed, 0), true);
  }

  lemma OtherUnbound(d: Disk, e: Disk, key: Key, again: Key)
    requires RootNames(d, 0) && CreatedOnce(d, e, key) && key != again && again[0] != DOT
    ensures Unbound(e, ROOT, again) && !Unbound(e, ROOT, key)
  {
    DotsOnly(d, again);
    assert (key, FirstClear(d.inodeUsed, 0) + 1) in Bindings(e, ROOT);
  }

  lemma DoublesNow(d: Disk, e: Disk, name: seq<Byte>)
    requires RootNames(d, 0) && Leaky(name) && CreatedOnce(d, e, Stored(name))
    ensures Doubles(e, ROOT, name) && Open(e, ROOT) && SpareInode(e)
  {
    LeakyKey(name);
    OtherUnbound(d, e, Stored(name), Searched(Stored(name)));
    PackedFind(Slots(e, Node(e, ROOT)), 3);
    SomeClear(e.inodeUsed);
  }

  /** For every such name, as for `abcdefgh.txt`: the run that creates it reaches a disk on which creating it once more
      succeeds and binds the name twice. */
  lemma DoubleReached(cached: nat, name: seq<Byte>) returns (d: OkDisk)
    requires cached > 0 && Leaky(name)
    ensures Reaches(FsRun.Formatted(), cached, d) && Open(d, ROOT) && SpareInode(d) && Doubles(d, ROOT, name)
    ensures var (e, ok) := Create(d, cached, ROOT, name); ok && BoundTwice(e, ROOT, Stored(name)) && !FsOk(e)
  {
    d := CreateOnce(cached, name);
    Start();
    DoublesNow(FsRun.Formatted(), d, name);
    CreateLaw(d, cached, ROOT, name);
  }

  // ----- a directory that could not be made

  /** The call fails, and the parent binds the name to an inode that is cleared. */
  ghost predicate Stranded(r: (Disk, bool), dir: nat, key: Key, i: nat)
    requires Number(dir) && Number(i)
  {
    !r.1 && (key, i) in Bindings(r.0, dir) && Node(r.0, i) == NoInode()
  }

  lemma MadeStranded(d: Disk, r: (Disk, bool), dir: nat, i: nat, name: seq<Byte>)
    requires Number(dir) && Number(i) && MadeFrom(d, r.0, dir, i, name, r.1) == true
    requires Binds(d, dir, name) && MustGrow(Slots(d, Node(d, dir))) && ClearFrom(d.used, 0) == 1
    ensures Stranded(r, dir, Stored(name), i)
  {
  }

  /** A run reaches a disk with one free block and one slot left in the root; making a directory there fails and leaves
      a name that leads to a cleared inode. */
  lemma StrandedReached(cached: nat) returns (d: OkDisk, name: seq<Byte>)
    requires cached > 0
    ensures Reaches(FsRun.Formatted(), cached, d) && Allowed(d, MkdirOp(ROOT, name))
    ensures Stranded(Mkdir(d, ROOT, name), ROOT, Stored(name), FirstClear(d.inodeUsed, 0) + 1)
  {
    var x, f, c;
    d, x, f := ReachBrim(cached);
    c := NameChar(29);
    name := [c];
    RootUnbound(d, 29, 29);
    SomeClear(d.inodeUsed);
    BrimBinds(d, x, f, c);
    MkdirFrom(d, ROOT, c);
    MadeStranded(d, Mkdir(d, ROOT, name), ROOT, FirstClear(d.inodeUsed, 0) + 1, name);
  }

  lemma BrimBinds(d: OkDisk, x: nat, f: nat, c: Byte)
    requires Brim(d, x, f) && Plain1(c) && Unbound(d, ROOT, Key1(c)) && SpareInode(d)
    ensures Allowed(d, MkdirOp(ROOT, [c])) && Binds(d, ROOT, [c]) && MustGrow(Slots(d, Node(d, ROOT)))
  {
    SingleName(c);
    SomeClear(d.used);
    NextIsZero(d);
    PackedFind(Slots(d, Node(d, ROOT)), 31);
  }
}

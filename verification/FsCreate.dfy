/** `dir_create_in` (kernel/core/osfs2.c) keeps the tree, whether it succeeds or runs out of
    inodes, slots or blocks. */
module FsCreate {
  import opened Bytes
  import opened CStrings
  import opened Disk
  import opened FsState
  import opened FsBlocks
  import opened FsDirectory
  import opened FsTree
  import opened FsFile

  /** All inodes in use, all their bytes and all entries are the same; records of unused inodes
      may differ. */
  ghost predicate SameTree(fs: Fs, gs: Fs) {
    && gs.inodeMap == fs.inodeMap && |gs.inodes| == |fs.inodes|
    && (forall j: nat :: Live(fs, j) ==> gs.inodes[j] == fs.inodes[j])
    && SameContent(fs, gs)
  }

  lemma SameTreeKeeps(fs: Fs, gs: Fs)
    requires Tree(fs) && Owned(gs) && SameTree(fs, gs)
    ensures Tree(gs)
    ensures forall e: nat, h: nat, j: nat :: Names(gs, e, h, j) <==> Names(fs, e, h, j)
    ensures forall e: nat, h: nat, j: nat :: Names(fs, e, h, j) ==> SlotName(gs, e, h) == SlotName(fs, e, h)
  {
    hide FileBlock, RecordAt, RecordIno, RecordName, DirShape;
    forall e: nat, h: nat | Live(fs, e) && h < DIR_SLOTS
      ensures Slot(gs, e, h) == Slot(fs, e, h)
    {
      assert FileBlock(gs, e, h / PER_BLOCK) == FileBlock(fs, e, h / PER_BLOCK);
    }
    SameSlotsKeep(fs, gs);
  }

  /** The same inodes are in use, of the same types and with sound sizes. */
  ghost predicate SameDirs(fs: Fs, gs: Fs) {
    && gs.inodeMap == fs.inodeMap && |gs.inodes| == |fs.inodes|
    && (forall j: nat :: Live(fs, j) ==> gs.inodes[j].typ == fs.inodes[j].typ && gs.inodes[j].size <= MAX_BYTES)
    && (forall j: nat :: IsDir(fs, j) ==> DirShape(gs.inodes[j]))
  }

  lemma SameSlotsKeep(fs: Fs, gs: Fs)
    requires Tree(fs) && Owned(gs) && SameDirs(fs, gs)
    requires forall j: nat :: IsDir(fs, j) ==> gs.inodes[j] == fs.inodes[j]
    requires forall e: nat, h: nat :: IsDir(fs, e) && h < DIR_SLOTS ==> Slot(gs, e, h) == Slot(fs, e, h)
    ensures Tree(gs)
    ensures forall e: nat, h: nat, j: nat :: Names(gs, e, h, j) <==> Names(fs, e, h, j)
    ensures forall e: nat, h: nat, j: nat :: Names(fs, e, h, j) ==> SlotName(gs, e, h) == SlotName(fs, e, h)
  {
    hide Slot, RecordIno, RecordName, DirShape, Owned;
    forall e: nat, h: nat, j: nat
      ensures Names(gs, e, h, j) <==> Names(fs, e, h, j)
      ensures Names(fs, e, h, j) ==> SlotName(gs, e, h) == SlotName(fs, e, h)
    {
    }
    SameNamesKeep(fs, gs);
  }

  lemma SameNamesKeep(fs: Fs, gs: Fs)
    requires Tree(fs) && Owned(gs) && SameDirs(fs, gs)
    requires forall e: nat, h: nat, j: nat :: Names(gs, e, h, j) <==> Names(fs, e, h, j)
    requires forall e: nat, h: nat, j: nat :: Names(fs, e, h, j) ==> SlotName(gs, e, h) == SlotName(fs, e, h)
    ensures Tree(gs)
  {
    hide Names, SlotName, DirShape, Owned;
    assert Shapes(gs);
    assert Entries(gs) by {
      forall j: nat | Live(gs, j) && j != ROOT
        ensures Named(gs, j)
      {
        assert Live(fs, j) && Named(fs, j);
        var e: nat, h: nat :| e < |fs.inodes| && h < DIR_SLOTS && Names(fs, e, h, j);
        assert Names(gs, e, h, j);
      }
    }
    var depth: seq<nat> :| Ranked(fs, depth);
    assert Ranked(gs, depth);
  }

  // ---------- the new inode ----------

  /** Marking inode `i` used with a record without pointers. */
  lemma BirthKeeps(fs: Fs, i: nat, x: Inode)
    requires Owned(fs) && ROOT < i < |fs.inodes| && !Live(fs, i) && x.direct == NO_POINTERS && x.indirect == 0
    ensures var gs := PutInode(fs.(inodeMap := fs.inodeMap[i := true]), i, x);
      && Owned(gs) && (forall j: nat :: Live(gs, j) <==> Live(fs, j) || j == i)
      && (forall j: nat, lbn: nat :: Live(fs, j) && lbn < MAX_BLOCKS ==> FileBlock(gs, j, lbn) == FileBlock(fs, j, lbn))
      && (forall lbn: nat :: lbn < MAX_BLOCKS ==> FileBlock(gs, i, lbn) == ZERO)
  {
    var gs := PutInode(fs.(inodeMap := fs.inodeMap[i := true]), i, x);
    forall j: nat, k: nat | Live(fs, j) && k < POSITIONS
      ensures Ptr(gs, j, k) == Ptr(fs, j, k)
    {
    }
    forall j: nat, k: nat, b: nat
      ensures PointsTo(gs, j, k, b) <==> PointsTo(fs, j, k, b)
    {
      if k < POSITIONS && j != i && Live(fs, j) {
        assert Ptr(gs, j, k) == Ptr(fs, j, k);
      }
      if k < POSITIONS {
        assert Ptr(gs, i, k) == 0;
      }
    }
  }

  /** A record nobody uses may hold anything. */
  lemma StaleRecord(fs: Fs, i: nat, x: Inode)
    requires Tree(fs) && i < |fs.inodes| && !Live(fs, i)
    ensures var gs := PutInode(fs, i, x); Tree(gs) && SameTree(fs, gs)
  {
    var gs := PutInode(fs, i, x);
    assert Owned(gs) && SameContent(fs, gs) by {
      hide Shapes, Entries;
      forall j: nat, k: nat | Live(fs, j) && k < POSITIONS
        ensures Ptr(gs, j, k) == Ptr(fs, j, k)
      {
      }
      forall j: nat, k: nat, b: nat
        ensures PointsTo(gs, j, k, b) <==> PointsTo(fs, j, k, b)
      {
      }
      ContentCarries(fs, gs);
    }
    hide FileBlock;
    SameTreeKeeps(fs, gs);
  }

  // ---------- the slot ----------

  lemma SameItself(fs: Fs)
    ensures SameContent(fs, fs)
  {
    hide FileBlock;
  }

  lemma GrowDir(fs: Fs, d: nat, x: Inode, slot: nat)
    requires Owned(fs) && Live(fs, d) && fs.inodes[d] == x && slot < DIR_SLOTS && slot == x.size / 64
    ensures var gs := PutInode(fs, d, x.(size := (slot + 1) * 64));
      Owned(gs) && SameContent(fs, gs)
    ensures DirShape(x) && x.direct[slot / PER_BLOCK] != 0 ==> DirShape(x.(size := (slot + 1) * 64))
  {
    hide FileBlock;
    MetaKeepsOwnedHere(fs, d, x, (slot + 1) * 64);
  }

  lemma MetaKeepsOwnedHere(fs: Fs, d: nat, x: Inode, size: u32)
    requires Owned(fs) && Live(fs, d) && fs.inodes[d] == x
    ensures var gs := PutInode(fs, d, x.(size := size)); Owned(gs) && SameContent(fs, gs)
  {
    hide FileBlock;
    MetaKeepsOwned(fs, d, x.(size := size));
  }

  lemma GrownShape(x: Inode, slot: nat, b: u32)
    requires DirShape(x) && slot == x.size / 64 && slot < DIR_SLOTS && b != 0
    ensures DirShape(x.(direct := x.direct[slot / PER_BLOCK := b], size := (slot + 1) * 64))
  {}

  /** The directory grows by a block and one slot in it. */
  lemma AppendBlock(fs: Fs, d: nat, slot: nat)
    requires Owned(fs) && IsDir(fs, d) && DirShape(fs.inodes[d])
    requires slot == fs.inodes[d].size / 64 && slot < DIR_SLOTS && fs.inodes[d].direct[slot / PER_BLOCK] == 0
    ensures var (f1, b) := AllocBlock(fs);
      var y := fs.inodes[d].(direct := fs.inodes[d].direct[slot / PER_BLOCK := b], size := (slot + 1) * 64);
      b != 0 ==> DirShape(y) && Owned(PutInode(f1, d, y)) && SameContent(fs, PutInode(f1, d, y))
  {
    hide FileBlock, DirShape, Full;
    AllocKeeps(fs);
    var (f1, b) := AllocBlock(fs);
    if b != 0 {
      var x := fs.inodes[d];
      var k := slot / PER_BLOCK;
      LinkDirect(f1, d, k, b);
      var z := x.(direct := x.direct[k := b]);
      var f2 := PutInode(f1, d, z);
      var y := z.(size := (slot + 1) * 64);
      SameContentTrans(fs, f1, f2);
      GrowDir(f2, d, z, slot);
      assert PutInode(f2, d, y) == PutInode(f1, d, y);
      SameContentTrans(fs, f2, PutInode(f1, d, y));
      GrownShape(x, slot, b);
    }
  }

  /** Making a slot gives the parent a block for it, or finds the directory or the disk full. */
  lemma MakeSlotKeeps(fs: Fs, d: nat, empty: int)
    requires Owned(fs) && IsDir(fs, d) && DirShape(fs.inodes[d])
    requires empty == NO_SLOT || 0 <= empty < Slots(fs.inodes[d])
    ensures var (gs, y, slot) := MakeSlot(fs, fs.inodes[d], empty);
      && (slot == NO_SLOT ==> gs == fs && empty == NO_SLOT && (Slots(fs.inodes[d]) == DIR_SLOTS || Full(fs)))
      && (slot != NO_SLOT ==> 0 <= slot < DIR_SLOTS && y.direct[slot / PER_BLOCK] != 0)
      && (slot != NO_SLOT ==> y.typ == Dir && y.size == if empty == NO_SLOT then 64 * (slot + 1) else fs.inodes[d].size)
      && (slot != NO_SLOT ==> slot == if empty == NO_SLOT then Slots(fs.inodes[d]) else empty)
      && (slot != NO_SLOT ==> DirShape(y) && gs.inodes == fs.inodes && Owned(PutInode(gs, d, y)) && SameContent(fs, PutInode(gs, d, y)))
  {
    hide FileBlock;
    var x := fs.inodes[d];
    AllocKeeps(fs);
    if empty != NO_SLOT {
      assert PutInode(fs, d, x) == fs by { assert fs.inodes[d := x] == fs.inodes; }
      SameItself(fs);
    } else {
      var slot := x.size / 64;
      var k := slot / PER_BLOCK;
      if k < DIRECT {
        if x.direct[k] != 0 {
          GrowDir(fs, d, x, slot);
        } else {
          AppendBlock(fs, d, slot);
        }
      }
    }
  }

  // ---------- the whole call ----------

  lemma AllocInodeIs(fs: Fs)
    requires |fs.inodeMap| == |fs.inodes|
    ensures var (gs, i) := AllocInode(fs);
      && (i != 0 ==> ROOT < i < |fs.inodes| && !Live(fs, i) && gs == fs.(inodeMap := fs.inodeMap[i := true]))
      && (i == 0 ==> gs == fs)
      && (i == 0 && |fs.inodes| <= U32 ==> forall j: nat :: ROOT < j < |fs.inodes| ==> Live(fs, j))
  {}

  /** The state once the inode is marked and its record written. */
  function Born(fs: Fs, i: nat, typ: Type): Fs
    requires i < |fs.inodeMap|
  {
    PutInode(fs.(inodeMap := fs.inodeMap[i := true]), i, NewInode(typ))
  }

  /** Giving the inode back leaves only a stale record. */
  lemma Unborn(fs: Fs, i: nat, typ: Type)
    requires Tree(fs) && ROOT < i < |fs.inodes| && !Live(fs, i)
    ensures var gs := FreeInode(Born(fs, i, typ), i); Tree(gs) && SameTree(fs, gs)
  {
    assert fs.inodeMap[i := true][i := false] == fs.inodeMap;
    assert FreeInode(Born(fs, i, typ), i) == PutInode(fs, i, NewInode(typ));
    StaleRecord(fs, i, NewInode(typ));
  }

  /** What a write of the new entry into the grown parent gives. */
  lemma EnterKeeps(fs: Fs, hs: Fs, d: nat, g: nat, i: u32, name: CString)
    requires Tree(fs) && IsDir(fs, d) && GoodName(name)
    requires ROOT < i < |fs.inodes| && !Live(fs, i) && Owned(hs) && g < DIR_SLOTS
    requires |hs.inodes| == |fs.inodes| && |hs.inodeMap| == |fs.inodeMap|
    requires forall j: nat :: Live(hs, j) <==> Live(fs, j) || j == i
    requires forall j: nat :: j < |fs.inodes| && j != d && j != i ==> hs.inodes[j] == fs.inodes[j]
    requires hs.inodes[i].typ != Free && hs.inodes[i].size <= MAX_BYTES && (hs.inodes[i].typ == Dir ==> hs.inodes[i].size == 0)
    requires forall j: nat, lbn: nat :: Live(fs, j) && lbn < MAX_BLOCKS ==> FileBlock(hs, j, lbn) == FileBlock(fs, j, lbn)
    requires hs.inodes[d].typ == Dir && DirShape(hs.inodes[d]) && hs.inodes[d].direct[g / PER_BLOCK] != 0
    requires if g < Slots(fs.inodes[d]) then hs.inodes[d].size == fs.inodes[d].size && SlotIno(fs, d, g) == 0
             else g == Slots(fs.inodes[d]) && hs.inodes[d].size == 64 * (g + 1)
    ensures var (gs, ok) := DirWriteAt(hs, hs.inodes[d], g, Entry(i, name));
      && ok && Owned(gs) && Added(fs, gs, d, g, i, name) && gs.inodes == hs.inodes
      && (forall j: nat, lbn: nat :: Live(fs, j) && j != d && lbn < MAX_BLOCKS ==> FileBlock(gs, j, lbn) == FileBlock(fs, j, lbn))
      && (forall lbn: nat :: lbn < MAX_BLOCKS ==> FileBlock(gs, i, lbn) == FileBlock(hs, i, lbn))
  {
    hide FileBlock, Entry, RecordAt, RecordIno, Owned, DirShape;
    DirWriteKeeps(hs, d, g, Entry(i, name));
    var gs := DirWriteAt(hs, hs.inodes[d], g, Entry(i, name)).0;
    forall e: nat, h: nat | IsDir(fs, e) && h < DIR_SLOTS && !(e == d && h == g)
      ensures Slot(gs, e, h) == Slot(fs, e, h)
    {
      assert FileBlock(hs, e, h / PER_BLOCK) == FileBlock(fs, e, h / PER_BLOCK);
      if e != d {
        assert FileBlock(gs, e, h / PER_BLOCK) == FileBlock(hs, e, h / PER_BLOCK);
      }
    }
  }

  /** The names already in the directory, as the scan reports them. */
  lemma ScanNames(fs: Fs, d: nat, name: CString)
    requires Owned(fs) && IsDir(fs, d) && DirShape(fs.inodes[d])
    ensures var (hit, e) := DirFind(fs, fs.inodes[d], name, 0, NO_SLOT);
      && (hit != NO_SLOT ==> 0 <= hit < DIR_SLOTS && Names(fs, d, hit, SlotIno(fs, d, hit)) && SlotName(fs, d, hit) == name)
      && (hit == NO_SLOT ==> forall h: nat, j: nat :: Names(fs, d, h, j) ==> SlotName(fs, d, h) != name)
      && (e != NO_SLOT ==> 0 <= e < Slots(fs.inodes[d]) && SlotIno(fs, d, e) == 0)
      && (hit == NO_SLOT && e == NO_SLOT ==> forall h: nat :: h < Slots(fs.inodes[d]) ==> SlotIno(fs, d, h) != 0)
  {
    hide Owned, SlotIno, SlotName, DirFind;
    DirFindFinds(fs, d, name, 0, NO_SLOT);
    var (hit, e) := DirFind(fs, fs.inodes[d], name, 0, NO_SLOT);
    if hit == NO_SLOT {
      forall h: nat, j: nat | Names(fs, d, h, j)
        ensures SlotName(fs, d, h) != name
      {
        assert !Match(fs, d, name, h);
      }
      forall h: nat | e == NO_SLOT && h < Slots(fs.inodes[d])
        ensures SlotIno(fs, d, h) != 0
      {
        assert !Empty(fs, d, h);
      }
    }
  }

  /** The inode that directory `d` has under `name`, or 0. */
  function Child(fs: Fs, d: nat, name: CString): nat
    requires d < |fs.inodes|
  {
    var hit := DirFind(fs, fs.inodes[d], name, 0, NO_SLOT).0;
    if 0 <= hit < DIR_SLOTS then SlotIno(fs, d, hit) else 0
  }

  /** The scan agrees with the entries: it finds a name exactly if some entry has it. */
  lemma ChildIs(fs: Fs, d: nat, name: CString)
    requires Tree(fs) && IsDir(fs, d)
    ensures forall g: nat, i: nat :: Names(fs, d, g, i) && SlotName(fs, d, g) == name ==> Child(fs, d, name) == i
    ensures Child(fs, d, name) != 0 ==> exists g: nat :: Names(fs, d, g, Child(fs, d, name)) && SlotName(fs, d, g) == name
  {
    hide Owned, SlotIno, SlotName, DirFind;
    ScanNames(fs, d, name);
    var hit := DirFind(fs, fs.inodes[d], name, 0, NO_SLOT).0;
    if hit != NO_SLOT {
      assert Names(fs, d, hit, SlotIno(fs, d, hit));
    }
  }

  /** No slot is free and the directory cannot grow. */
  predicate DirFull(fs: Fs, d: nat) {
    IsDir(fs, d) && Slots(fs.inodes[d]) == DIR_SLOTS
    && forall h: nat :: h < DIR_SLOTS ==> SlotIno(fs, d, h) != 0
  }

  predicate InodesFull(fs: Fs) {
    forall j: nat :: ROOT < j < |fs.inodes| ==> Live(fs, j)
  }

  /** A new entry `name` for a new inode `i` of the given type, with all other files untouched. */
  ghost predicate Entered(fs: Fs, gs: Fs, d: nat, i: int, name: CString, typ: Type) {
    && ROOT < i < |fs.inodes| && |gs.inodes| == |fs.inodes| && i < U32 && gs.inodes[i] == NewInode(typ)
    && (exists g: nat :: Added(fs, gs, d, g, i, name))
    && (forall j: nat, lbn: nat :: Live(fs, j) && j != d && lbn < MAX_BLOCKS ==> FileBlock(gs, j, lbn) == FileBlock(fs, j, lbn))
  }

  lemma WriteThenPut(fs: Fs, d: nat, y: Inode, g: nat, r: Record)
    requires d < |fs.inodes|
    ensures var hs := PutInode(fs, d, y);
      && DirWriteAt(hs, y, g, r).1 == DirWriteAt(fs, y, g, r).1
      && PutInode(DirWriteAt(fs, y, g, r).0, d, y) == DirWriteAt(hs, y, g, r).0
  {}

  lemma EnterNew(fs: Fs, d: nat, name: CString, typ: Type, i: u32, empty: int)
    requires Tree(fs) && IsDir(fs, d) && GoodName(name) && typ != Free
    requires ROOT < i < |fs.inodes| && !Live(fs, i)
    requires empty == NO_SLOT || (0 <= empty < Slots(fs.inodes[d]) && SlotIno(fs, d, empty) == 0)
    requires forall h: nat, j: nat :: Names(fs, d, h, j) ==> SlotName(fs, d, h) != name
    ensures var (f3, y, slot) := MakeSlot(Born(fs, i, typ), fs.inodes[d], empty);
      && (slot == NO_SLOT ==> f3 == Born(fs, i, typ) && empty == NO_SLOT && (Slots(fs.inodes[d]) == DIR_SLOTS || Full(fs)))
      && (slot != NO_SLOT ==> 0 <= slot < DIR_SLOTS && DirWriteAt(f3, y, slot, Entry(i, name)).1)
      && (slot != NO_SLOT ==> var gs := PutInode(DirWriteAt(f3, y, slot, Entry(i, name)).0, d, y);
                              Tree(gs) && Entered(fs, gs, d, i, name, typ))
  {
    hide FileBlock, Entry, SlotIno, SlotName, MakeSlot, DirWriteAt, NewInode, Slot, DirShape, Entries, Names, Added;
    var f2 := Born(fs, i, typ);
    NewInodeIs(typ);
    BirthKeeps(fs, i, NewInode(typ));
    MakeSlotKeeps(f2, d, empty);
    var (f3, y, slot) := MakeSlot(f2, fs.inodes[d], empty);
    if slot != NO_SLOT {
      var hs := PutInode(f3, d, y);
      forall j: nat, lbn: nat | Live(fs, j) && lbn < MAX_BLOCKS
        ensures FileBlock(hs, j, lbn) == FileBlock(fs, j, lbn)
      {
        assert FileBlock(hs, j, lbn) == FileBlock(f2, j, lbn);
      }
      EnterKeeps(fs, hs, d, slot, i, name);
      WriteThenPut(f3, d, y, slot, Entry(i, name));
      AddedTree(fs, DirWriteAt(hs, y, slot, Entry(i, name)).0, d, slot, i, name);
    }
  }

  lemma NewInodeIs(typ: Type)
    ensures NewInode(typ).direct == NO_POINTERS && NewInode(typ).indirect == 0
    ensures NewInode(typ).typ == typ && NewInode(typ).size == 0
  {}

  /** Creating or making a directory under a parent in use: the tree is kept; a name in use opens
      the file it names and fails otherwise; a new name is entered for a new empty inode; and a
      failure, which needs a bad name, no inode, no slot or no block, changes no entry, no inode
      in use and no byte. */
  lemma CreateSemantics(fs: Fs, d: nat, name: CString, typ: Type)
    requires Tree(fs) && IsDir(fs, d) && typ != Free
    ensures var (gs, rc, c) := (Create(fs, d, name, typ).fs, Create(fs, d, name, typ).rc, Child(fs, d, name));
      && Tree(gs) && rc >= 0
      && (!GoodName(name) ==> gs == fs && rc == 0)
      && (GoodName(name) && c != 0 ==> c < |fs.inodes| && gs == fs && rc == if typ == File && fs.inodes[c].typ == File then c else 0)
      && (GoodName(name) && c == 0 && rc != 0 ==> Entered(fs, gs, d, rc, name, typ))
      && (GoodName(name) && c == 0 && rc == 0 ==> SameTree(fs, gs) && (InodesFull(fs) || DirFull(fs, d) || Full(fs)))
  {
    hide FileBlock, Entry, SlotIno, SlotName, MakeSlot, DirWriteAt, NewInode, Slot, DirShape, Names, DirFind, Full;
    ScanNames(fs, d, name);
    var (hit, empty) := DirFind(fs, fs.inodes[d], name, 0, NO_SLOT);
    AllocInodeIs(fs);
    var (f1, i) := AllocInode(fs);
    if GoodName(name) && hit != NO_SLOT {
      assert Names(fs, d, hit, SlotIno(fs, d, hit));
      NamesNonzero(fs, d, hit);
    } else if GoodName(name) && i != 0 {
      EnterNew(fs, d, name, typ, i, empty);
      Unborn(fs, i, typ);
    } else {
      SameItself(fs);
    }
  }

  lemma NamesNonzero(fs: Fs, d: nat, g: nat)
    requires g < DIR_SLOTS && d < |fs.inodes| && Names(fs, d, g, SlotIno(fs, d, g))
    ensures SlotIno(fs, d, g) != 0
  {}
}

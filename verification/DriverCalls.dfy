/** Whole calls of the OSFS-2 driver as block transfers: every request, in any sequence, transfers
    blocks that are there, and its writes lead exactly to the state the request leaves. */
module DriverCalls {
  import opened Bytes
  import opened CStrings
  import opened Disk
  import opened FsState
  import opened FsBlocks
  import opened FsFile
  import opened FsTruncate
  import opened FsDirectory
  import opened FsTree
  import opened FsCreate
  import opened FsRemove
  import opened FsPaths
  import opened FsView
  import opened StoredFs
  import opened DriverIo
  import opened DriverRuns
  import FsHandles

  // ---------- directories ----------

  lemma {:induction false} DirFindLeads(fs: Fs, d: nat, name: CString, g: nat)
    requires Owned(fs) && Live(fs, d)
    ensures Leads(fs, DirFindIo(fs, fs.inodes[d], name, g), fs)
    decreases DIR_SLOTS - g
  {
    hide Leads, Owned, RecordAt, RecordIno, RecordName;
    var x := fs.inodes[d];
    if g >= DIR_SLOTS {
      Stay(fs);
    } else {
      var blk := x.direct[g / PER_BLOCK];
      if blk == 0 {
        DirFindLeads(fs, d, name, (g / PER_BLOCK + 1) * PER_BLOCK);
      } else {
        DirectInData(fs, d, g / PER_BLOCK);
        var read: Trace := if g % PER_BLOCK == 0 then [GetBlock(blk)] else [];
        OneStep(fs, GetBlock(blk));
        Stay(fs);
        DirFindLeads(fs, d, name, g + 1);
        ThenStay(fs, read, fs, []);
        ThenStay(fs, read, fs, DirFindIo(fs, x, name, g + 1));
      }
    }
  }

  lemma DirReadLeads(fs: Fs, d: nat, g: nat)
    requires Owned(fs) && Live(fs, d)
    ensures Leads(fs, DirReadIo(fs, fs.inodes[d], g), fs)
  {
    hide Leads, Owned;
    var k := g / PER_BLOCK;
    if k < DIRECT && 0 < fs.inodes[d].direct[k] < |fs.data| {
      DirectInData(fs, d, k);
      OneStep(fs, GetBlock(fs.inodes[d].direct[k]));
    } else {
      Stay(fs);
    }
  }

  lemma DirWriteLeads(fs: Fs, x: Inode, g: nat, r: Record)
    requires g / PER_BLOCK < DIRECT && x.direct[g / PER_BLOCK] != 0 ==> fs.dataStart <= x.direct[g / PER_BLOCK]
    ensures Leads(fs, DirWriteIo(fs, x, g, r), DirWriteAt(fs, x, g, r).0)
  {
    hide Leads, PutRecord;
    var k := g / PER_BLOCK;
    if k >= DIRECT || x.direct[k] == 0 || x.direct[k] >= |fs.data| {
      Stay(fs);
    } else {
      var b := x.direct[k];
      var y := PutRecord(fs.data[b], g % PER_BLOCK, r);
      OneStep(fs, GetBlock(b));
      SetDataLeads(fs, b, y);
      Then(fs, [GetBlock(b)], fs, [Put(SetData(b, y))], PutBlock(fs, b, y));
      assert DirWriteIo(fs, x, g, r) == [GetBlock(b)] + [Put(SetData(b, y))];
    }
  }

  lemma {:induction false} AllEmptyLeads(fs: Fs, d: nat, g: nat)
    requires Owned(fs) && Live(fs, d)
    ensures Leads(fs, AllEmptyIo(fs, d, g), fs)
    decreases DIR_SLOTS - g
  {
    hide Leads, Owned, SlotIno, DirReadIo;
    Stay(fs);
    if g < Slots(fs.inodes[d]) && g < DIR_SLOTS {
      DirReadLeads(fs, d, g);
      AllEmptyLeads(fs, d, g + 1);
      ThenStay(fs, DirReadIo(fs, fs.inodes[d], g), fs, []);
      ThenStay(fs, DirReadIo(fs, fs.inodes[d], g), fs, AllEmptyIo(fs, d, g + 1));
    }
  }

  // ---------- creating ----------

  lemma MakeSlotLeads(fs: Fs, x: Inode, empty: int)
    requires |fs.blockMap| == |fs.data|
    ensures Leads(fs, MakeSlotIo(fs, x, empty), MakeSlot(fs, x, empty).0)
  {
    hide Leads, AllocBlock, AllocBlockIo;
    assert Under(fs, fs.inodes, fs.inodeMap) == fs;
    Stay(fs);
    AllocBlockLeads(fs, fs.inodes, fs.inodeMap);
    AllocKeepsTable(fs);
  }

  lemma AllocKeepsTable(fs: Fs)
    ensures Under(AllocBlock(fs).0, fs.inodes, fs.inodeMap) == AllocBlock(fs).0
  {}

  /** The block of the new entry lies in the data area. */
  lemma SlotInData(fs: Fs, d: nat, empty: int)
    requires Owned(fs) && IsDir(fs, d) && DirShape(fs.inodes[d])
    requires empty == NO_SLOT || 0 <= empty < Slots(fs.inodes[d])
    ensures var (gs, y, slot) := MakeSlot(fs, fs.inodes[d], empty);
      && |gs.inodes| == |fs.inodes| && gs.inodeMap == fs.inodeMap
      && (slot >= 0 && slot / PER_BLOCK < DIRECT && y.direct[slot / PER_BLOCK] != 0 ==> gs.dataStart <= y.direct[slot / PER_BLOCK])
  {
    hide FileBlock, MakeSlot, DirShape;
    MakeSlotKeeps(fs, d, empty);
    MakeSlotTable(fs, fs.inodes[d], empty);
    var (gs, y, slot) := MakeSlot(fs, fs.inodes[d], empty);
    if slot >= 0 && slot / PER_BLOCK < DIRECT && y.direct[slot / PER_BLOCK] != 0 {
      DirectInData(PutInode(gs, d, y), d, slot / PER_BLOCK);
    }
  }

  lemma MakeSlotTable(fs: Fs, x: Inode, empty: int)
    ensures |MakeSlot(fs, x, empty).0.inodes| == |fs.inodes| && MakeSlot(fs, x, empty).0.inodeMap == fs.inodeMap
  {}

  /** The end of a create, once there is a slot or none. */
  function PlaceIo(fs: Fs, d: nat, name: CString, i: nat, y: Inode, slot: int): Trace
    requires |name| < NAME_MAX && i < U32
  {
    if slot < 0 then FreeInodeIo(fs, i)
    else
      var (f4, ok) := DirWriteAt(fs, y, slot, Entry(i, name));
      DirWriteIo(fs, y, slot, Entry(i, name)) + if !ok then FreeInodeIo(f4, i) else WriteRecordIo(f4, d, y)
  }

  function PlaceEnd(fs: Fs, d: nat, name: CString, i: nat, y: Inode, slot: int): Fs
    requires |name| < NAME_MAX && i < U32
  {
    if slot < 0 then FreeInode(fs, i)
    else
      var (f4, ok) := DirWriteAt(fs, y, slot, Entry(i, name));
      if !ok then FreeInode(f4, i) else PutInode(f4, d, y)
  }

  lemma PlaceLeads(fs: Fs, d: nat, name: CString, i: nat, y: Inode, slot: int)
    requires |name| < NAME_MAX && i < U32 && 0 < d < |fs.inodes|
    requires slot >= 0 && slot / PER_BLOCK < DIRECT && y.direct[slot / PER_BLOCK] != 0 ==> fs.dataStart <= y.direct[slot / PER_BLOCK]
    ensures Leads(fs, PlaceIo(fs, d, name, i, y, slot), PlaceEnd(fs, d, name, i, y, slot))
  {
    hide Leads, Entry, DirWriteIo, WriteRecordIo, FreeInodeIo, FreeInode;
    if slot < 0 {
      FreeInodeLeads(fs, i);
    } else {
      var (f4, ok) := DirWriteAt(fs, y, slot, Entry(i, name));
      DirWriteLeads(fs, y, slot, Entry(i, name));
      FreeInodeLeads(f4, i);
      if ok {
        WriteRecordLeads(f4, d, y);
        Then(fs, DirWriteIo(fs, y, slot, Entry(i, name)), f4, WriteRecordIo(f4, d, y), PutInode(f4, d, y));
      } else {
        Then(fs, DirWriteIo(fs, y, slot, Entry(i, name)), f4, FreeInodeIo(f4, i), FreeInode(f4, i));
      }
    }
  }

  /** The name is new: inode bit, record, slot, entry and parent, in this order. */
  lemma EnterLeads(fs: Fs, d: nat, name: CString, typ: Type, empty: int)
    requires Tree(fs) && IsDir(fs, d) && GoodName(name) && AllocInode(fs).1 != 0
    requires empty == NO_SLOT || 0 <= empty < Slots(fs.inodes[d])
    ensures var (f1, i) := AllocInode(fs);
      var (f3, y, slot) := MakeSlot(PutInode(f1, i, NewInode(typ)), fs.inodes[d], empty);
      Leads(fs, EnterIo(fs, d, name, typ, empty), PlaceEnd(f3, d, name, i, y, slot))
  {
    hide Leads, Entries, Ranked, DirShape, FileBlock, MakeSlot, MakeSlotIo, NewInode, PlaceEnd, PlaceIo, AllocInodeIo, WriteRecordIo;
    AllocInodeIs(fs);
    NewInodeIs(typ);
    var (f1, i) := AllocInode(fs);
    BirthKeeps(fs, i, NewInode(typ));
    var f2 := PutInode(f1, i, NewInode(typ));
    OwnedSizes(f2);
    SlotInData(f2, d, empty);
    var (f3, y, slot) := MakeSlot(f2, fs.inodes[d], empty);
    AllocInodeLeads(fs);
    WriteRecordLeads(f1, i, NewInode(typ));
    MakeSlotLeads(f2, fs.inodes[d], empty);
    PlaceLeads(f3, d, name, i, y, slot);
    var a, b, c := AllocInodeIo(fs), WriteRecordIo(f1, i, NewInode(typ)), MakeSlotIo(f2, fs.inodes[d], empty);
    Then(fs, a, f1, b, f2);
    Then(fs, a + b, f2, c, f3);
    Then(fs, a + b + c, f3, PlaceIo(f3, d, name, i, y, slot), PlaceEnd(f3, d, name, i, y, slot));
    EnterIs(fs, d, name, typ, empty);
  }

  lemma EnterIs(fs: Fs, d: nat, name: CString, typ: Type, empty: int)
    requires d < |fs.inodes| && |name| < NAME_MAX && AllocInode(fs).1 != 0
    ensures var (f1, i) := AllocInode(fs);
      var f2 := PutInode(f1, i, NewInode(typ));
      var (f3, y, slot) := MakeSlot(f2, fs.inodes[d], empty);
      EnterIo(fs, d, name, typ, empty) ==
      AllocInodeIo(fs) + WriteRecordIo(f1, i, NewInode(typ)) + MakeSlotIo(f2, fs.inodes[d], empty) + PlaceIo(f3, d, name, i, y, slot)
  {
    hide NewInode, MakeSlot, MakeSlotIo, AllocInode, AllocInodeIo, WriteRecordIo, DirWriteIo, FreeInodeIo, DirWriteAt, Entry;
  }

  lemma ExistingLeads(fs: Fs, d: nat, hit: int)
    requires Owned(fs) && Live(fs, d)
    ensures Leads(fs, ExistingIo(fs, d, hit), fs)
  {
    hide Leads, Owned, DirReadIo, ReadRecordIo, SlotIno;
    Stay(fs);
    if 0 <= hit < DIR_SLOTS {
      DirReadLeads(fs, d, hit);
      ReadRecordLeads(fs, SlotIno(fs, d, hit));
      ThenStay(fs, DirReadIo(fs, fs.inodes[d], hit), fs, ReadRecordIo(fs, SlotIno(fs, d, hit)));
    }
  }

  lemma TreeParts(fs: Fs)
    requires Tree(fs)
    ensures Owned(fs) && forall d: nat :: IsDir(fs, d) ==> DirShape(fs.inodes[d])
  {
    hide Owned, Entries, Ranked;
  }

  /** `dir_create_in`. */
  lemma CreateLeads(fs: Fs, d: nat, name: CString, typ: Type)
    requires Tree(fs) && IsDir(fs, d)
    ensures Leads(fs, CreateIo(fs, d, name, typ), Create(fs, d, name, typ).fs)
  {
    hide Leads, Owned, Tree, DirShape, DirFind, DirFindIo, ReadRecordIo, EnterIo, ExistingIo, SlotIno, SlotName, Names;
    TreeParts(fs);
    if name == [] || |name| >= NAME_MAX {
      Stay(fs);
    } else {
      var x := fs.inodes[d];
      ScanNames(fs, d, name);
      var (hit, empty) := DirFind(fs, x, name, 0, NO_SLOT);
      ReadRecordLeads(fs, d);
      DirFindLeads(fs, d, name, 0);
      ExistingLeads(fs, d, hit);
      var tail := if hit != NO_SLOT then ExistingIo(fs, d, hit) else EnterIo(fs, d, name, typ, empty);
      var gs := Create(fs, d, name, typ).fs;
      CreateTail(fs, d, name, typ);
      Then(fs, DirFindIo(fs, x, name, 0), fs, tail, gs);
      Then(fs, ReadRecordIo(fs, d), fs, DirFindIo(fs, x, name, 0) + tail, gs);
    }
  }

  lemma CreateTail(fs: Fs, d: nat, name: CString, typ: Type)
    requires Tree(fs) && IsDir(fs, d) && GoodName(name)
    ensures var (hit, empty) := DirFind(fs, fs.inodes[d], name, 0, NO_SLOT);
      Leads(fs, if hit != NO_SLOT then ExistingIo(fs, d, hit) else EnterIo(fs, d, name, typ, empty), Create(fs, d, name, typ).fs)
  {
    hide Leads, Owned, Tree, DirShape, DirFind, ExistingIo, SlotIno, SlotName, Names, MakeSlot, DirWriteAt, FreeInode, NewInode, Entry;
    TreeParts(fs);
    ScanNames(fs, d, name);
    var (hit, empty) := DirFind(fs, fs.inodes[d], name, 0, NO_SLOT);
    if hit != NO_SLOT {
      ExistingLeads(fs, d, hit);
    } else if AllocInode(fs).1 == 0 {
      Stay(fs);
    } else {
      EnterLeads(fs, d, name, typ, empty);
    }
  }

  // ---------- removing ----------

  lemma DetachLeads(fs: Fs, d: nat, g: nat, i: nat)
    requires Owned(fs) && Live(fs, d) && 0 < i < |fs.inodes|
    ensures Leads(fs, DetachIo(fs, d, g, i), Detach(fs, d, g, i).fs)
  {
    hide Leads, Owned, ReadRecordIo, WriteRecordIo, DirWriteIo, FreeInodeIo, FreeInode;
    ReadRecordLeads(fs, d);
    if fs.inodes[d].typ != Dir {
      assert DetachIo(fs, d, g, i) == ReadRecordIo(fs, d);
    } else {
      var k := g / PER_BLOCK;
      if k < DIRECT && fs.inodes[d].direct[k] != 0 {
        DirectInData(fs, d, k);
      }
      DirWriteLeads(fs, fs.inodes[d], g, Zeros(64));
      var (f1, ok) := DirWriteAt(fs, fs.inodes[d], g, Zeros(64));
      var a := ReadRecordIo(fs, d) + DirWriteIo(fs, fs.inodes[d], g, Zeros(64));
      Then(fs, ReadRecordIo(fs, d), fs, DirWriteIo(fs, fs.inodes[d], g, Zeros(64)), f1);
      if !ok {
        assert DetachIo(fs, d, g, i) == a;
      } else {
        var x := fs.inodes[i].(typ := Free, size := 0, nlink := 0);
        var f2 := PutInode(f1, i, x);
        WriteRecordLeads(f1, i, x);
        FreeInodeLeads(f2, i);
        Then(fs, a, f1, WriteRecordIo(f1, i, x), f2);
        Then(fs, a + WriteRecordIo(f1, i, x), f2, FreeInodeIo(f2, i), FreeInode(f2, i));
        assert DetachIo(fs, d, g, i) == a + WriteRecordIo(f1, i, x) + FreeInodeIo(f2, i);
        FreeInodeRoot(f2, i);
      }
    }
  }

  lemma FreeInodeRoot(fs: Fs, i: nat)
    ensures i <= ROOT ==> FreeInode(fs, i) == fs
  {}

  lemma EmptyThenDetachLeads(fs: Fs, d: nat, g: nat, i: nat)
    requires Tree(fs) && Names(fs, d, g, i)
    ensures Truncate(fs, i, 0).rc == 0 && i < |fs.inodes| && d < |fs.inodes|
    ensures Leads(fs, EmptyThenDetachIo(fs, d, g, i), Detach(Truncate(fs, i, 0).fs, d, g, i).fs)
  {
    hide Leads, Owned, Tree, Names, FileBlock, Truncate, TruncateIo, ReadRecordIo, DetachIo, Detach, Released;
    TreeParts(fs);
    NamedInUse(fs, d, g, i);
    NamesDir(fs, d, g, i);
    FsHandles.SameMapAs(fs);
    TruncateLeadsLive(fs, i);
    TruncateSemantics(fs, i, 0);
    var t := Truncate(fs, i, 0).fs;
    ReadRecordLeads(t, i);
    WriteRecordSame(fs, t, i, fs.inodes[i]);
    DetachLeads(t, d, g, i);
    var gs := Detach(t, d, g, i).fs;
    Then(t, ReadRecordIo(t, i), t, DetachIo(t, d, g, i), gs);
    Then(fs, TruncateIo(fs, i, 0), t, ReadRecordIo(t, i) + DetachIo(t, d, g, i), gs);
  }

  lemma TruncateLeadsLive(fs: Fs, i: nat)
    requires Owned(fs) && Live(fs, i)
    ensures Leads(fs, TruncateIo(fs, i, 0), Truncate(fs, i, 0).fs)
  {
    hide Leads, Owned, TruncateIo, Truncate;
    TruncateLeads(fs, fs.inodeMap, i, 0);
    FsHandles.SameMapAs(fs);
    FsHandles.TruncateAs(fs, fs.inodeMap, i, 0);
    FsHandles.SameMapAs(Truncate(fs, i, 0).fs);
  }

  /** The part of unlink and rmdir that finds the entry. */
  function FindEntryIo(fs: Fs, d: nat, name: CString): Trace
    requires d < |fs.inodes|
  {
    var hit := DirFind(fs, fs.inodes[d], name, 0, NO_SLOT).0;
    ReadRecordIo(fs, d) + (DirFindIo(fs, fs.inodes[d], name, 0)
                           + if 0 <= hit < DIR_SLOTS then DirReadIo(fs, fs.inodes[d], hit) else [])
  }

  lemma FindEntryLeads(fs: Fs, d: nat, name: CString)
    requires Owned(fs) && Live(fs, d)
    ensures Leads(fs, FindEntryIo(fs, d, name), fs)
  {
    hide Leads, Owned, DirFind, DirFindIo, DirReadIo, ReadRecordIo;
    var hit := DirFind(fs, fs.inodes[d], name, 0, NO_SLOT).0;
    ReadRecordLeads(fs, d);
    DirFindLeads(fs, d, name, 0);
    Stay(fs);
    var tail := if 0 <= hit < DIR_SLOTS then DirReadIo(fs, fs.inodes[d], hit) else [];
    if 0 <= hit < DIR_SLOTS {
      DirReadLeads(fs, d, hit);
    }
    ThenStay(fs, DirFindIo(fs, fs.inodes[d], name, 0), fs, tail);
    ThenStay(fs, ReadRecordIo(fs, d), fs, DirFindIo(fs, fs.inodes[d], name, 0) + tail);
  }

  /** `osfs2_unlink` once the parent is known. */
  lemma UnlinkLeads(fs: Fs, d: nat, name: CString)
    requires Tree(fs) && IsDir(fs, d)
    ensures Leads(fs, UnlinkIo(fs, d, name), Unlink(fs, d, name).fs)
  {
    hide Leads, Owned, Tree, Names, DirFind, DirFindIo, DirReadIo, ReadRecordIo, EmptyThenDetachIo, Truncate, Detach, SlotIno, SlotName;
    TreeParts(fs);
    HitIsEntry(fs, d, name);
    FindEntryLeads(fs, d, name);
    var hit := DirFind(fs, fs.inodes[d], name, 0, NO_SLOT).0;
    var head := FindEntryIo(fs, d, name);
    if !(0 <= hit < DIR_SLOTS) {
      assert UnlinkIo(fs, d, name) == head;
    } else {
      var i := SlotIno(fs, d, hit);
      ReadRecordLeads(fs, i);
      ThenStay(fs, head, fs, ReadRecordIo(fs, i));
      if fs.inodes[i].typ == Dir {
        assert UnlinkIo(fs, d, name) == head + ReadRecordIo(fs, i);
      } else {
        EmptyThenDetachLeads(fs, d, hit, i);
        Then(fs, head + ReadRecordIo(fs, i), fs, EmptyThenDetachIo(fs, d, hit, i), Unlink(fs, d, name).fs);
        assert UnlinkIo(fs, d, name) == head + ReadRecordIo(fs, i) + EmptyThenDetachIo(fs, d, hit, i);
      }
    }
  }

  /** `osfs2_rmdir` once the parent is known. */
  lemma RmdirLeads(fs: Fs, d: nat, name: CString)
    requires Tree(fs) && IsDir(fs, d)
    ensures Leads(fs, RmdirIo(fs, d, name), Rmdir(fs, d, name).fs)
  {
    hide Leads, Owned, Tree, Names, DirFind, DirFindIo, DirReadIo, ReadRecordIo, EmptyThenDetachIo, Truncate, Detach, SlotIno, SlotName,
         AllEmpty, AllEmptyIo;
    TreeParts(fs);
    HitIsEntry(fs, d, name);
    FindEntryLeads(fs, d, name);
    var hit := DirFind(fs, fs.inodes[d], name, 0, NO_SLOT).0;
    var head := FindEntryIo(fs, d, name);
    if !(0 <= hit < DIR_SLOTS) {
      assert RmdirIo(fs, d, name) == head;
    } else {
      var i := SlotIno(fs, d, hit);
      ReadRecordLeads(fs, i);
      ThenStay(fs, head, fs, ReadRecordIo(fs, i));
      if fs.inodes[i].typ != Dir {
        assert RmdirIo(fs, d, name) == head + ReadRecordIo(fs, i);
      } else {
        AllEmptyLeads(fs, i, 0);
        ThenStay(fs, head + ReadRecordIo(fs, i), fs, AllEmptyIo(fs, i, 0));
        if !AllEmpty(fs, i, 0) {
          assert RmdirIo(fs, d, name) == head + ReadRecordIo(fs, i) + AllEmptyIo(fs, i, 0);
        } else {
          EmptyThenDetachLeads(fs, d, hit, i);
          Then(fs, head + ReadRecordIo(fs, i) + AllEmptyIo(fs, i, 0), fs, EmptyThenDetachIo(fs, d, hit, i), Rmdir(fs, d, name).fs);
          assert RmdirIo(fs, d, name) == head + ReadRecordIo(fs, i) + AllEmptyIo(fs, i, 0) + EmptyThenDetachIo(fs, d, hit, i);
        }
      }
    }
  }

  // ---------- paths ----------

  /** A walk reads, and reads only. */
  lemma {:induction false} WalkLeads(fs: Fs, cur: nat, path: Path)
    requires Tree(fs) && (0 < cur ==> Live(fs, cur))
    ensures Leads(fs, WalkIo(fs, cur, path), fs)
    decreases |path|
  {
    hide Leads, Owned, Tree, Names, DirFind, DirFindIo, DirReadIo, ReadRecordIo, SlotIno, SlotName, Child;
    TreeParts(fs);
    if path == [] {
      Stay(fs);
    } else {
      ReadRecordLeads(fs, cur);
      if cur == 0 || cur >= |fs.inodes| || fs.inodes[cur].typ != Dir {
        assert WalkIo(fs, cur, path) == ReadRecordIo(fs, cur);
      } else {
        HitIsEntry(fs, cur, path[0]);
        FindEntryLeads(fs, cur, path[0]);
        var hit := DirFind(fs, fs.inodes[cur], path[0], 0, NO_SLOT).0;
        if !(0 <= hit < DIR_SLOTS) {
          assert WalkIo(fs, cur, path) == FindEntryIo(fs, cur, path[0]);
        } else {
          WalkLeads(fs, Child(fs, cur, path[0]), path[1..]);
          ThenStay(fs, FindEntryIo(fs, cur, path[0]), fs, WalkIo(fs, Child(fs, cur, path[0]), path[1..]));
          assert WalkIo(fs, cur, path) == FindEntryIo(fs, cur, path[0]) + WalkIo(fs, Child(fs, cur, path[0]), path[1..]);
        }
      }
    }
  }

  lemma ParentLeads(fs: Fs, path: Path)
    requires Tree(fs)
    ensures Leads(fs, ParentIo(fs, path), fs)
  {
    hide Leads, Tree, WalkIo, ReadRecordIo;
    if path == [] {
      Stay(fs);
    } else {
      RootDir(fs);
      WalkLeads(fs, ROOT, path[..|path| - 1]);
      ReadRecordLeads(fs, FsHandles.Parent(fs, path));
      ThenStay(fs, WalkIo(fs, ROOT, path[..|path| - 1]), fs, ReadRecordIo(fs, FsHandles.Parent(fs, path)));
    }
  }

  // ---------- requests ----------

  lemma ParentIsDir(fs: Fs, path: Path)
    requires Tree(fs) && path != [] && ParentFound(fs, path)
    ensures IsDir(fs, FsHandles.Parent(fs, path))
  {
    hide Tree, Child;
    FsHandles.ParentDir(fs, path);
  }

  lemma PathCallLeads(fs: Fs, call: FsHandles.Call)
    requires FsHandles.Sound(fs) && (call.Make? || call.Remove? || call.RemoveDir?)
    ensures Leads(fs, CallIo(fs, call), FsHandles.Perform(fs, call))
  {
    hide Leads, Tree, FsHandles.Records, ParentIo, CreateIo, UnlinkIo, RmdirIo, Create, Unlink, Rmdir, Walk;
    var path := call.path;
    var d := FsHandles.Parent(fs, path);
    ParentLeads(fs, path);
    Stay(fs);
    ThenStay(fs, ParentIo(fs, path), fs, []);
    if path != [] && ParentFound(fs, path) {
      ParentIsDir(fs, path);
      var name := path[|path| - 1];
      match call {
        case Make(_, typ) =>
          CreateLeads(fs, d, name, typ);
          Then(fs, ParentIo(fs, path), fs, CreateIo(fs, d, name, typ), Create(fs, d, name, typ).fs);
        case Remove(_) =>
          UnlinkLeads(fs, d, name);
          Then(fs, ParentIo(fs, path), fs, UnlinkIo(fs, d, name), Unlink(fs, d, name).fs);
        case RemoveDir(_) =>
          RmdirLeads(fs, d, name);
          Then(fs, ParentIo(fs, path), fs, RmdirIo(fs, d, name), Rmdir(fs, d, name).fs);
        case _ =>
      }
    }
  }

  lemma NumberCallLeads(fs: Fs, call: FsHandles.Call)
    requires FsHandles.Sound(fs) && (call.Write? || call.Clear?)
    ensures Leads(fs, CallIo(fs, call), FsHandles.Perform(fs, call))
  {
    hide Leads, Tree, Owned, WriteIo, TruncateIo, WriteFile, Truncate, ZeroTail;
    var ws, m := FsHandles.Whole(fs), fs.inodeMap;
    FsHandles.WholeLive(fs);
    FsHandles.SameMapAs(fs);
    assert FsHandles.As(ws, m) == fs;
    var all := FsHandles.AllTrue(|fs.inodeMap|);
    match call
    case Write(number, offset, buf) =>
      WriteLeads(ws, m, number, offset, buf);
      FsHandles.WriteFileAs(fs, all, number, offset, buf);
      FsHandles.WriteFileAs(fs, m, number, offset, buf);
    case Clear(number) =>
      Stay(fs);
      TruncateLeads(ws, m, number, 0);
      FsHandles.TruncateAs(fs, all, number, 0);
      FsHandles.TruncateAs(fs, m, number, 0);
    case _ =>
  }

  /** One request: its transfers are fine and lead to the state it leaves. */
  lemma RequestLeads(fs: Fs, q: Request)
    requires FsHandles.Sound(fs)
    ensures Leads(fs, RequestIo(fs, q), Served(fs, q)) && FsHandles.Sound(Served(fs, q))
  {
    hide Leads, Tree, FsHandles.Records, CallIo, WalkIo, ReadIo, FsHandles.Perform, FsHandles.AnswerOf, FsHandles.About;
    match q
    case Change(call) =>
      FsHandles.PerformSound(fs, call);
      if call.Write? || call.Clear? {
        NumberCallLeads(fs, call);
      } else {
        PathCallLeads(fs, call);
      }
    case Look(path) =>
      RootDir(fs);
      WalkLeads(fs, ROOT, path);
    case Fetch(number, offset, len) => FetchLeads(fs, number, offset, len);
  }

  lemma FetchLeads(fs: Fs, number: nat, offset: nat, len: nat)
    requires FsHandles.Sound(fs)
    ensures Leads(fs, ReadIo(FsHandles.Whole(fs), number, offset, len), fs)
  {
    hide Leads, Tree, Owned, ReadIo, ZeroTail;
    var ws := FsHandles.Whole(fs);
    FsHandles.WholeLive(fs);
    FsHandles.SameMapAs(fs);
    ReadLeads(ws, fs.inodeMap, number, offset, len);
    assert FsHandles.As(ws, fs.inodeMap) == fs;
  }

  /** Any sequence of requests from a sound file system: its transfers name blocks that are there,
      its writes lead exactly to the state the requests leave, and that state is sound. */
  lemma {:induction false} RequestsLead(fs: Fs, qs: seq<Request>)
    requires FsHandles.Sound(fs)
    ensures Leads(fs, RequestsIo(fs, qs), ServedAll(fs, qs)) && FsHandles.Sound(ServedAll(fs, qs))
    decreases |qs|
  {
    hide Leads, FsHandles.Sound, RequestIo, Served;
    if qs == [] {
      Stay(fs);
    } else {
      RequestLeads(fs, qs[0]);
      var gs := Served(fs, qs[0]);
      RequestsLead(gs, qs[1..]);
      Then(fs, RequestIo(fs, qs[0]), gs, RequestsIo(gs, qs[1..]), ServedAll(gs, qs[1..]));
    }
  }
}

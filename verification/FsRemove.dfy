/** `osfs2_unlink` and `osfs2_rmdir` (kernel/core/osfs2.c) keep the tree, free exactly the blocks
    of what they remove, and touch nothing else. */
module FsRemove {
  import opened Bytes
  import opened CStrings
  import opened Disk
  import opened FsState
  import opened FsBlocks
  import opened FsFile
  import opened FsTruncate
  import opened FsDirectory
  import opened FsTree
  import opened FsCreate

  /** Slot `g` of directory `d`, which named inode `i`, is empty, and `i`, which had no entries of
      its own, is out of use and its record says so; all other entries and inodes stay. */
  ghost predicate Removed(fs: Fs, gs: Fs, d: nat, g: nat, i: nat) {
    && Names(fs, d, g, i) && i != d && ROOT < i < |fs.inodes|
    && |gs.inodes| == |fs.inodes| && |gs.inodeMap| == |fs.inodeMap|
    && (forall j: nat :: Live(gs, j) <==> Live(fs, j) && j != i)
    && (forall j: nat :: Live(fs, j) && j != i ==> gs.inodes[j] == fs.inodes[j])
    && (forall e: nat, h: nat :: IsDir(fs, e) && e != i && h < DIR_SLOTS && !(e == d && h == g) ==> Slot(gs, e, h) == Slot(fs, e, h))
    && SlotIno(gs, d, g) == 0
    && gs.inodes[i].typ == Free && gs.inodes[i].size == 0 && gs.inodes[i].nlink == 0
    && (forall h: nat, j: nat :: !Names(fs, i, h, j))
  }

  lemma RemovedNames(fs: Fs, gs: Fs, d: nat, g: nat, i: nat)
    requires Removed(fs, gs, d, g, i)
    ensures forall e: nat, h: nat, j: nat :: Names(gs, e, h, j) <==> Names(fs, e, h, j) && !(e == d && h == g)
    ensures forall e: nat, h: nat, j: nat :: Names(gs, e, h, j) ==> SlotName(gs, e, h) == SlotName(fs, e, h)
  {
    hide Slot, RecordIno, RecordName;
    forall e: nat, h: nat, j: nat
      ensures Names(gs, e, h, j) <==> Names(fs, e, h, j) && !(e == d && h == g)
      ensures Names(gs, e, h, j) ==> SlotName(gs, e, h) == SlotName(fs, e, h)
    {
      if IsDir(fs, e) && e != i && h < DIR_SLOTS && !(e == d && h == g) {
        assert Slot(gs, e, h) == Slot(fs, e, h);
      }
    }
  }

  lemma RemovedEntries(fs: Fs, gs: Fs, d: nat, g: nat, i: nat)
    requires Entries(fs) && Removed(fs, gs, d, g, i)
    ensures Entries(gs)
  {
    hide Slot, SlotIno, SlotName, Names;
    RemovedNames(fs, gs, d, g, i);
    NamesIn(fs);
    forall e: nat, h: nat, j: nat | Names(gs, e, h, j)
      ensures Live(gs, j) && j != ROOT && GoodName(SlotName(gs, e, h))
    {
      assert Names(fs, e, h, j) && Names(fs, d, g, i);
    }
    forall j: nat | Live(gs, j) && j != ROOT
      ensures Named(gs, j)
    {
      assert Live(fs, j) && Named(fs, j);
      var e: nat, h: nat :| e < |fs.inodes| && h < DIR_SLOTS && Names(fs, e, h, j);
      assert Names(gs, e, h, j) by {
        assert !(e == d && h == g) by { OneName(fs, d, g, i, j); }
      }
    }
  }

  lemma OneName(fs: Fs, d: nat, g: nat, i: nat, j: nat)
    requires Names(fs, d, g, i) && i != j
    ensures !Names(fs, d, g, j)
  {}

  lemma RemovedTree(fs: Fs, gs: Fs, d: nat, g: nat, i: nat)
    requires Tree(fs) && Owned(gs) && Removed(fs, gs, d, g, i)
    ensures Tree(gs)
  {
    hide Slot, SlotIno, SlotName, DirShape, Names, Owned, Entries;
    RemovedEntries(fs, gs, d, g, i);
    RemovedNames(fs, gs, d, g, i);
    var depth: seq<nat> :| Ranked(fs, depth);
    NamesIn(gs);
    NamedLive(gs);
    assert Ranked(gs, depth);
    assert Shapes(gs);
  }

  // ---------- the inode goes ----------

  /** Taking an inode without pointers out of use. */
  lemma DeathKeeps(fs: Fs, i: nat, x: Inode)
    requires Owned(fs) && Live(fs, i) && forall k: nat :: k < POSITIONS ==> Ptr(fs, i, k) == 0
    ensures var gs := PutInode(fs, i, x).(inodeMap := fs.inodeMap[i := false]);
      && Owned(gs) && (forall j: nat :: Live(gs, j) <==> Live(fs, j) && j != i)
      && (forall j: nat, lbn: nat :: Live(fs, j) && j != i && lbn < MAX_BLOCKS ==> FileBlock(gs, j, lbn) == FileBlock(fs, j, lbn))
  {
    var gs := PutInode(fs, i, x).(inodeMap := fs.inodeMap[i := false]);
    forall j: nat, k: nat | Live(fs, j) && j != i && k < POSITIONS
      ensures Ptr(gs, j, k) == Ptr(fs, j, k)
    {
    }
    forall j: nat, k: nat, b: nat
      ensures PointsTo(gs, j, k, b) <==> PointsTo(fs, j, k, b)
    {
      if k < POSITIONS {
        assert Ptr(fs, i, k) == 0;
      }
    }
  }

  /** After truncation to 0 nothing hangs on the inode, the indirect block included. */
  lemma NoPointers(fs: Fs, i: nat)
    requires i < |fs.inodes| && (forall lbn: nat :: lbn < MAX_BLOCKS ==> Ptr(fs, i, PosOf(lbn)) == 0)
    requires fs.inodes[i].indirect != 0 ==> TableUsed(fs, i)
    ensures forall k: nat :: k < POSITIONS ==> Ptr(fs, i, k) == 0
  {
    hide TableGet;
    if fs.inodes[i].indirect != 0 {
      forall m: nat | m < INDIRECT
        ensures TableGet(Block_(fs, fs.inodes[i].indirect), m) == 0
      {
        assert Ptr(fs, i, PosOf(DIRECT + m)) == 0;
      }
    }
    forall k: nat | k < POSITIONS && k != DIRECT
      ensures Ptr(fs, i, k) == 0
    {
      assert PosOf(if k < DIRECT then k else k - 1) == k;
    }
  }

  lemma ZeroRecord()
    ensures RecordIno(Zeros(64)) == 0
  {}

  /** The last step of a removal, on a state `ts` in which inode `i` was emptied. */
  lemma DetachRemoves(fs: Fs, ts: Fs, d: nat, g: nat, i: nat)
    requires Tree(fs) && Owned(ts) && Names(fs, d, g, i) && (forall h: nat, j: nat :: !Names(fs, i, h, j))
    requires SizeOnly(fs, ts, i, 0)
    requires forall k: nat :: k < POSITIONS ==> Ptr(ts, i, k) == 0
    requires forall j: nat, lbn: nat :: Live(fs, j) && j != i && lbn < MAX_BLOCKS ==> FileBlock(ts, j, lbn) == FileBlock(fs, j, lbn)
    ensures var r := Detach(ts, d, g, i);
      && r.rc == 0 && Owned(r.fs) && Removed(fs, r.fs, d, g, i) && r.fs.blockMap == ts.blockMap
      && (forall j: nat, lbn: nat :: Live(fs, j) && j != i && j != d && lbn < MAX_BLOCKS ==> FileBlock(r.fs, j, lbn) == FileBlock(fs, j, lbn))
  {
    hide FileBlock, RecordAt, RecordIno, Owned, Ptr, Ranked;
    assert ROOT < i && i != d && Live(fs, i) && DirShape(fs.inodes[d]) by { NamesShape(fs, d, g, i); }
    assert ts.inodes[d] == fs.inodes[d] && Live(ts, d) && Live(ts, i);
    DirWriteKeeps(ts, d, g, Zeros(64));
    ZeroRecord();
    var us := DirWriteAt(ts, ts.inodes[d], g, Zeros(64)).0;
    DetachPointers(ts, us, d, g, i);
    var x := ts.inodes[i].(typ := Free, size := 0, nlink := 0);
    DeathKeeps(us, i, x);
    var gs := Detach(ts, d, g, i).fs;
    assert gs == PutInode(us, i, x).(inodeMap := us.inodeMap[i := false]);
    DetachSlots(fs, ts, us, gs, d, g, i);
    assert FileBlock(gs, d, g / PER_BLOCK) == FileBlock(us, d, g / PER_BLOCK);
    assert Slot(us, d, g) == Zeros(64);
  }

  lemma DetachSlots(fs: Fs, ts: Fs, us: Fs, gs: Fs, d: nat, g: nat, i: nat)
    requires |ts.inodes| == |us.inodes| == |gs.inodes| == |fs.inodes| && d != i
    requires forall j: nat, lbn: nat :: Live(fs, j) && j != i && lbn < MAX_BLOCKS ==> FileBlock(ts, j, lbn) == FileBlock(fs, j, lbn)
    requires forall j: nat, lbn: nat :: Live(fs, j) && j != i && lbn < MAX_BLOCKS ==> FileBlock(gs, j, lbn) == FileBlock(us, j, lbn)
    requires forall j: nat, lbn: nat :: Live(fs, j) && j != d && lbn < MAX_BLOCKS ==> FileBlock(us, j, lbn) == FileBlock(ts, j, lbn)
    requires d < |ts.inodes| && forall h: nat :: h < DIR_SLOTS && h != g ==> Slot(us, d, h) == Slot(ts, d, h)
    ensures forall e: nat, h: nat :: Live(fs, e) && e != i && h < DIR_SLOTS && !(e == d && h == g) ==> Slot(gs, e, h) == Slot(fs, e, h)
  {
    hide FileBlock, RecordAt;
    forall e: nat, h: nat | Live(fs, e) && e != i && h < DIR_SLOTS && !(e == d && h == g)
      ensures Slot(gs, e, h) == Slot(fs, e, h)
    {
      assert FileBlock(ts, e, h / PER_BLOCK) == FileBlock(fs, e, h / PER_BLOCK);
      assert FileBlock(gs, e, h / PER_BLOCK) == FileBlock(us, e, h / PER_BLOCK);
      if e == d {
        assert Slot(us, d, h) == Slot(ts, d, h);
      } else {
        assert FileBlock(us, e, h / PER_BLOCK) == FileBlock(ts, e, h / PER_BLOCK);
      }
    }
  }

  lemma NamesShape(fs: Fs, d: nat, g: nat, i: nat)
    requires Tree(fs) && Names(fs, d, g, i)
    ensures ROOT < i && i != d && Live(fs, i) && DirShape(fs.inodes[d]) && fs.inodes[d].direct[g / PER_BLOCK] != 0
  {
    hide Slot, SlotIno, SlotName, Owned;
    var depth: seq<nat> :| Ranked(fs, depth);
    assert depth[i] == depth[d] + 1;
    DirBlocks(fs.inodes[d], g);
  }

  lemma DirBlocks(x: Inode, g: nat)
    requires DirShape(x) && g < Slots(x)
    ensures g / PER_BLOCK < DIRECT && x.direct[g / PER_BLOCK] != 0
  {}

  lemma DetachPointers(ts: Fs, us: Fs, d: nat, g: nat, i: nat)
    requires i < |ts.inodes| && us == ts.(data := us.data) && (forall k: nat :: k < POSITIONS ==> Ptr(ts, i, k) == 0)
    ensures forall k: nat :: k < POSITIONS ==> Ptr(us, i, k) == 0
  {
    assert Ptr(ts, i, DIRECT) == 0;
    forall k: nat | k < POSITIONS
      ensures Ptr(us, i, k) == 0
    {
      assert Ptr(ts, i, k) == 0;
    }
  }

  // ---------- whole calls ----------

  /** Entry `name` of directory `d` and its inode `i` are gone; exactly the blocks of `i` became
      free; no byte of any other file changed. */
  ghost predicate Unlinked(fs: Fs, gs: Fs, d: nat, i: nat, name: CString) {
    && (exists g: nat :: g < DIR_SLOTS && Removed(fs, gs, d, g, i) && SlotName(fs, d, g) == name)
    && |gs.blockMap| == |fs.blockMap|
    && (forall b: nat :: b < |fs.blockMap| ==> gs.blockMap[b] == (fs.blockMap[b] && !Holds(fs, i, b)))
    && (forall j: nat, lbn: nat :: Live(gs, j) && j != d && lbn < MAX_BLOCKS ==> FileBlock(gs, j, lbn) == FileBlock(fs, j, lbn))
  }

  /** Block `b` hangs on inode `i`. */
  ghost predicate Holds(fs: Fs, i: nat, b: nat) {
    exists k: nat :: PointsTo(fs, i, k, b)
  }

  lemma EmptiedReleases(fs: Fs, ts: Fs, i: nat, b: nat)
    requires i < |ts.inodes| && forall k: nat :: k < POSITIONS ==> Ptr(ts, i, k) == 0
    ensures Released(fs, ts, i, b) == Holds(fs, i, b)
  {
    if Holds(fs, i, b) {
      var k: nat :| PointsTo(fs, i, k, b);
      assert !PointsTo(ts, i, k, b);
    }
  }

  lemma NamedInUse(fs: Fs, d: nat, g: nat, i: nat)
    requires Tree(fs) && Names(fs, d, g, i)
    ensures Live(fs, i) && fs.inodes[i].typ != Free && d < |fs.inodes| && g < DIR_SLOTS
  {
    hide Slot, SlotIno, SlotName, Owned;
  }

  lemma EmptyThenDetach(fs: Fs, d: nat, g: nat, i: nat)
    requires Tree(fs) && Names(fs, d, g, i) && (forall h: nat, j: nat :: !Names(fs, i, h, j))
    ensures var t := Truncate(fs, i, 0);
      && t.rc == 0 && |t.fs.inodes| == |fs.inodes|
      && var r := Detach(t.fs, d, g, i);
         r.rc == 0 && Tree(r.fs) && Unlinked(fs, r.fs, d, i, SlotName(fs, d, g))
  {
    hide FileBlock, Owned, Truncate, Detach, Removed, Shapes, Entries, Names, Ranked, Ptr;
    NamedInUse(fs, d, g, i);
    TruncateSemantics(fs, i, 0);
    var ts := Truncate(fs, i, 0).fs;
    NoPointers(ts, i);
    DetachRemoves(fs, ts, d, g, i);
    var gs := Detach(ts, d, g, i).fs;
    RemovedTree(fs, gs, d, g, i);
    forall b: nat | b < |fs.blockMap|
      ensures gs.blockMap[b] == (fs.blockMap[b] && !Holds(fs, i, b))
    {
      EmptiedReleases(fs, ts, i, b);
    }
    RemovedLive(fs, gs, d, g, i);
    assert g < DIR_SLOTS && Removed(fs, gs, d, g, i) && SlotName(fs, d, g) == SlotName(fs, d, g);
  }

  lemma RemovedLive(fs: Fs, gs: Fs, d: nat, g: nat, i: nat)
    requires Removed(fs, gs, d, g, i)
    ensures |gs.inodes| == |fs.inodes| && forall j: nat :: Live(gs, j) ==> Live(fs, j) && j != i
  {
    hide Slot, SlotIno, Names;
  }

  lemma NoEntriesInFile(fs: Fs, i: nat)
    requires !IsDir(fs, i)
    ensures forall h: nat, j: nat :: !Names(fs, i, h, j)
  {}

  /** The emptiness scan of `osfs2_rmdir` sees every entry. */
  lemma {:induction false} AllEmptyIs(fs: Fs, d: nat, g: nat)
    requires Owned(fs) && IsDir(fs, d) && DirShape(fs.inodes[d])
    ensures AllEmpty(fs, d, g) <==> forall h: nat, j: nat :: g <= h ==> !Names(fs, d, h, j)
    decreases DIR_SLOTS - g
  {
    hide SlotIno;
    if g < Slots(fs.inodes[d]) {
      DirBlocks(fs.inodes[d], g);
      SlotInBlock(fs, d, g);
      AllEmptyIs(fs, d, g + 1);
      if SlotIno(fs, d, g) != 0 {
        assert Names(fs, d, g, SlotIno(fs, d, g));
      }
    }
  }

  lemma HitIsEntry(fs: Fs, d: nat, name: CString)
    requires Tree(fs) && IsDir(fs, d)
    ensures var hit := DirFind(fs, fs.inodes[d], name, 0, NO_SLOT).0;
      var c := Child(fs, d, name);
      && (c == 0 <==> !(0 <= hit < DIR_SLOTS))
      && (c != 0 ==> Names(fs, d, hit, c) && SlotName(fs, d, hit) == name && ROOT < c < |fs.inodes| && Live(fs, c))
  {
    hide Owned, SlotIno, SlotName, DirFind, Ranked;
    ScanNames(fs, d, name);
    var hit := DirFind(fs, fs.inodes[d], name, 0, NO_SLOT).0;
    if hit != NO_SLOT {
      NamesNonzero(fs, d, hit);
    }
  }

  /** Unlinking removes the entry and the file it names, or fails without effect when there is no
      such entry or it names a directory. */
  lemma UnlinkSemantics(fs: Fs, d: nat, name: CString)
    requires Tree(fs) && IsDir(fs, d)
    ensures var (gs, rc, c) := (Unlink(fs, d, name).fs, Unlink(fs, d, name).rc, Child(fs, d, name));
      && Tree(gs) && (c != 0 ==> c < |fs.inodes|)
      && (if c != 0 && fs.inodes[c].typ == File then rc == 0 && Unlinked(fs, gs, d, c, name) else rc == -1 && gs == fs)
  {
    hide Owned, SlotIno, SlotName, DirFind, Truncate, Detach, Unlinked, Names, Shapes, Entries, Ranked;
    HitIsEntry(fs, d, name);
    var hit := DirFind(fs, fs.inodes[d], name, 0, NO_SLOT).0;
    var c := Child(fs, d, name);
    if c != 0 {
      NamedInUse(fs, d, hit, c);
      if fs.inodes[c].typ == File {
        NoEntriesInFile(fs, c);
        EmptyThenDetach(fs, d, hit, c);
      }
    }
  }

  /** Removing a directory takes the entry and the directory away exactly when it is there and
      has no entries; otherwise it fails without effect. */
  lemma RmdirSemantics(fs: Fs, d: nat, name: CString)
    requires Tree(fs) && IsDir(fs, d)
    ensures var (gs, rc, c) := (Rmdir(fs, d, name).fs, Rmdir(fs, d, name).rc, Child(fs, d, name));
      && Tree(gs)
      && (if c != 0 && IsDir(fs, c) && (forall h: nat, j: nat :: !Names(fs, c, h, j))
          then rc == 0 && Unlinked(fs, gs, d, c, name) else rc == -1 && gs == fs)
  {
    hide Owned, SlotIno, SlotName, DirFind, Truncate, Detach, Unlinked, Names, DirShape, Entries, Ranked, AllEmpty;
    HitIsEntry(fs, d, name);
    var hit := DirFind(fs, fs.inodes[d], name, 0, NO_SLOT).0;
    var c := Child(fs, d, name);
    if c != 0 && fs.inodes[c].typ == Dir {
      AllEmptyIs(fs, c, 0);
      if AllEmpty(fs, c, 0) {
        EmptyThenDetach(fs, d, hit, c);
      }
    }
  }
}

/** The directory tree of OSFS-2 (kernel/core/osfs2.c): creating, unlinking and removing entries,
    and the invariant that every inode in use but the root is named by exactly one entry. */
module FsTree {
  import opened Bytes
  import opened CStrings
  import opened Disk
  import opened FsState
  import opened FsBlocks
  import opened FsFile
  import opened FsTruncate
  import opened FsDirectory

  // ---------- operations ----------

  const NEW_MODE_DIR: u32 := 493    // 0755
  const NEW_MODE_FILE: u32 := 420   // 0644

  function NewInode(typ: Type): Inode {
    Inode(typ, 0, 1, if typ == Dir then NEW_MODE_DIR else NEW_MODE_FILE, NO_POINTERS, 0)
  }

  /** `alloc_inode`: the first clear bit above the root, or 0. */
  function AllocInode(fs: Fs): (Fs, u32) {
    var i := FirstFree(fs.inodeMap, ROOT + 1);
    if i >= |fs.inodeMap| || i >= U32 then (fs, 0) else (fs.(inodeMap := fs.inodeMap[i := true]), i)
  }

  function FreeInode(fs: Fs, i: nat): Fs {
    if ROOT < i < |fs.inodeMap| then fs.(inodeMap := fs.inodeMap[i := false]) else fs
  }

  /** The slot for a new entry: the empty one found, or one more at the end, with a block for it. */
  function MakeSlot(fs: Fs, x: Inode, empty: int): (Fs, Inode, int) {
    if empty != NO_SLOT then (fs, x, empty)
    else
      var slot := x.size / 64;
      var k := slot / PER_BLOCK;
      if k >= DIRECT then (fs, x, NO_SLOT)
      else if x.direct[k] != 0 then (fs, x.(size := (slot + 1) * 64), slot)
      else
        var (f1, b) := AllocBlock(fs);
        if b == 0 then (f1, x, NO_SLOT)
        else (f1, x.(direct := x.direct[k := b], size := (slot + 1) * 64), slot)
  }

  /** `dir_create_in`: the state after, and the inode named, or 0. */
  function Create(fs: Fs, d: nat, name: CString, typ: Type): Done {
    if name == [] || |name| >= NAME_MAX then Done(fs, 0)
    else if d == 0 || d >= |fs.inodes| || fs.inodes[d].typ != Dir then Done(fs, 0)
    else
      var x := fs.inodes[d];
      var (hit, empty) := DirFind(fs, x, name, 0, NO_SLOT);
      if hit != NO_SLOT then Done(fs, Existing(fs, d, hit, typ))
      else
        var (f1, i) := AllocInode(fs);
        if i == 0 then Done(f1, 0)
        else
          var f2 := PutInode(f1, i, NewInode(typ));
          var (f3, y, slot) := MakeSlot(f2, x, empty);
          if slot < 0 then Done(FreeInode(f3, i), 0)
          else
            var (f4, ok) := DirWriteAt(f3, y, slot, Entry(i, name));
            if !ok then Done(FreeInode(f4, i), 0) else Done(PutInode(f4, d, y), i)
  }

  /** Creating under a name in use opens an existing file and fails for a directory. */
  function Existing(fs: Fs, d: nat, hit: int, typ: Type): int {
    if !(d < |fs.inodes| && 0 <= hit < DIR_SLOTS) then 0
    else
      var i := SlotIno(fs, d, hit);
      if i == 0 || i >= |fs.inodes| || typ == Dir || fs.inodes[i].typ != typ then 0 else i
  }

  /** `dir_unlink_slot` and the freeing of the inode, after the file was emptied. */
  function Detach(fs: Fs, d: nat, g: nat, i: nat): Done
    requires d < |fs.inodes| && i < |fs.inodes|
  {
    if fs.inodes[d].typ != Dir then Done(fs, -1)
    else
      var (f1, ok) := DirWriteAt(fs, fs.inodes[d], g, Zeros(64));
      if !ok then Done(f1, -1)
      else
        var f2 := PutInode(f1, i, fs.inodes[i].(typ := Free, size := 0, nlink := 0));
        if i <= ROOT then Done(f2, -1) else Done(FreeInode(f2, i), 0)
  }

  /** `osfs2_unlink`, from the parent directory and the last name. */
  function Unlink(fs: Fs, d: nat, name: CString): Done {
    if d == 0 || d >= |fs.inodes| then Done(fs, -1)
    else
      var hit := DirFind(fs, fs.inodes[d], name, 0, NO_SLOT).0;
      if !(0 <= hit < DIR_SLOTS) then Done(fs, -1)
      else
        var i := SlotIno(fs, d, hit);
        if i == 0 || i >= |fs.inodes| || fs.inodes[i].typ == Dir then Done(fs, -1)
        else
          var t := Truncate(fs, i, 0);
          if t.rc != 0 then Done(t.fs, -1) else Detach(t.fs, d, hit, i)
  }

  /** No slot from `g` on is in use. */
  predicate AllEmpty(fs: Fs, d: nat, g: nat)
    requires d < |fs.inodes|
    decreases DIR_SLOTS - g
  {
    g >= Slots(fs.inodes[d])
    || (g < DIR_SLOTS && 0 < fs.inodes[d].direct[g / PER_BLOCK] < |fs.data| && SlotIno(fs, d, g) == 0 && AllEmpty(fs, d, g + 1))
  }

  /** `osfs2_rmdir`, from the parent directory and the last name. */
  function Rmdir(fs: Fs, d: nat, name: CString): Done {
    if d == 0 || d >= |fs.inodes| then Done(fs, -1)
    else
      var hit := DirFind(fs, fs.inodes[d], name, 0, NO_SLOT).0;
      if !(0 <= hit < DIR_SLOTS) then Done(fs, -1)
      else
        var i := SlotIno(fs, d, hit);
        if i == ROOT || i == 0 || i >= |fs.inodes| || fs.inodes[i].typ != Dir || !AllEmpty(fs, i, 0) then Done(fs, -1)
        else
          var t := Truncate(fs, i, 0);
          if t.rc != 0 then Done(t.fs, -1) else Detach(t.fs, d, hit, i)
  }

  // ---------- the tree invariant ----------

  predicate IsDir(fs: Fs, d: nat) {
    Live(fs, d) && fs.inodes[d].typ == Dir
  }

  /** Slot `g` of directory `d` is in use and names inode `i`. */
  predicate Names(fs: Fs, d: nat, g: nat, i: nat) {
    IsDir(fs, d) && g < Slots(fs.inodes[d]) && g < DIR_SLOTS && i != 0 && SlotIno(fs, d, g) == i
  }

  predicate GoodName(name: CString) {
    0 < |name| < NAME_MAX
  }

  predicate Named(fs: Fs, i: nat) {
    exists d: nat, g: nat :: d < |fs.inodes| && g < DIR_SLOTS && Names(fs, d, g, i)
  }

  /** The inodes in use: what they are and how long they can be. */
  ghost predicate Shapes(fs: Fs) {
    && |fs.inodes| <= U32
    && IsDir(fs, ROOT)
    && (forall i: nat :: Live(fs, i) ==> fs.inodes[i].typ != Free && fs.inodes[i].size <= MAX_BYTES)
    && (forall d: nat :: IsDir(fs, d) ==> DirShape(fs.inodes[d]))
  }

  /** Entries name inodes in use, each but the root exactly once, under distinct names. */
  ghost predicate Entries(fs: Fs) {
    && (forall d: nat, g: nat, i: nat :: Names(fs, d, g, i) ==> Live(fs, i) && i != ROOT && GoodName(SlotName(fs, d, g)))
    && (forall d: nat, g: nat, e: nat, h: nat, i: nat :: Names(fs, d, g, i) && Names(fs, e, h, i) ==> d == e && g == h)
    && (forall d: nat, g: nat, h: nat, i: nat, j: nat ::
          Names(fs, d, g, i) && Names(fs, d, h, j) && SlotName(fs, d, g) == SlotName(fs, d, h) ==> g == h)
    && (forall i: nat :: Live(fs, i) && i != ROOT ==> Named(fs, i))
  }

  /** Every entry leads one level down, so there are no cycles. */
  ghost predicate Ranked(fs: Fs, depth: seq<nat>) {
    && |depth| == |fs.inodes|
    && (forall d: nat, g: nat, i: nat :: Names(fs, d, g, i) && i < |depth| ==> depth[i] == depth[d] + 1)
  }

  ghost predicate Tree(fs: Fs) {
    Owned(fs) && Shapes(fs) && Entries(fs) && exists depth: seq<nat> :: Ranked(fs, depth)
  }

  // ---------- adding an entry ----------

  /** The new inode `i` is entered as `name` at slot `g` of directory `d`, which was free. */
  ghost predicate Added(fs: Fs, gs: Fs, d: nat, g: nat, i: u32, name: CString) {
    && IsDir(fs, d) && g < DIR_SLOTS && GoodName(name)
    && |gs.inodes| == |fs.inodes| && |gs.inodeMap| == |fs.inodeMap| && ROOT < i < |fs.inodes| && !Live(fs, i)
    && (forall j: nat :: Live(gs, j) <==> Live(fs, j) || j == i)
    && (forall j: nat :: Live(fs, j) && j != d ==> gs.inodes[j] == fs.inodes[j])
    && gs.inodes[d].typ == Dir && DirShape(gs.inodes[d])
    && (if g < Slots(fs.inodes[d]) then gs.inodes[d].size == fs.inodes[d].size && SlotIno(fs, d, g) == 0
        else g == Slots(fs.inodes[d]) && gs.inodes[d].size == 64 * (g + 1))
    && gs.inodes[i].typ != Free && gs.inodes[i].size <= MAX_BYTES && (gs.inodes[i].typ == Dir ==> gs.inodes[i].size == 0)
    && (forall e: nat, h: nat :: IsDir(fs, e) && h < DIR_SLOTS && !(e == d && h == g) ==> Slot(gs, e, h) == Slot(fs, e, h))
    && Slot(gs, d, g) == Entry(i, name)
  }

  lemma AddedNames(fs: Fs, gs: Fs, d: nat, g: nat, i: u32, name: CString)
    requires Shapes(fs) && Added(fs, gs, d, g, i, name)
    ensures SlotName(gs, d, g) == name
    ensures forall e: nat, h: nat, j: nat :: Names(gs, e, h, j) <==> Names(fs, e, h, j) || (e == d && h == g && j == i)
    ensures forall e: nat, h: nat, j: nat :: Names(fs, e, h, j) ==> SlotName(gs, e, h) == SlotName(fs, e, h)
  {
    hide Slot, Entry, RecordIno, RecordName, DirShape;
    EntryRoundTrip(i, name);
    forall e: nat, h: nat, j: nat
      ensures Names(gs, e, h, j) <==> Names(fs, e, h, j) || (e == d && h == g && j == i)
      ensures Names(fs, e, h, j) ==> SlotName(gs, e, h) == SlotName(fs, e, h)
    {
      if IsDir(fs, e) && h < DIR_SLOTS && !(e == d && h == g) {
        assert Slot(gs, e, h) == Slot(fs, e, h);
      }
    }
  }

  lemma AddedShapes(fs: Fs, gs: Fs, d: nat, g: nat, i: u32, name: CString)
    requires Shapes(fs) && Added(fs, gs, d, g, i, name)
    ensures Shapes(gs)
  {
    hide Slot, Entry, SlotIno;
    forall j: nat | Live(gs, j)
      ensures gs.inodes[j].typ != Free && gs.inodes[j].size <= MAX_BYTES
      ensures IsDir(gs, j) ==> DirShape(gs.inodes[j])
    {
      assert j != i ==> Live(fs, j);
    }
  }

  /** What `AddedNames` says, as the only premise about the new entries. */
  ghost predicate OneMore(fs: Fs, gs: Fs, d: nat, g: nat, i: u32, name: CString) {
    && d < |gs.inodes| == |fs.inodes| && g < DIR_SLOTS && SlotName(gs, d, g) == name
    && (forall e: nat, h: nat, j: nat :: Names(gs, e, h, j) <==> Names(fs, e, h, j) || (e == d && h == g && j == i))
    && (forall e: nat, h: nat, j: nat :: Names(fs, e, h, j) ==> SlotName(gs, e, h) == SlotName(fs, e, h))
  }

  lemma AddedEntries(fs: Fs, gs: Fs, d: nat, g: nat, i: u32, name: CString)
    requires Shapes(fs) && Entries(fs) && Added(fs, gs, d, g, i, name)
    requires forall h: nat, j: nat :: Names(fs, d, h, j) ==> SlotName(fs, d, h) != name
    ensures Entries(gs)
  {
    hide Slot, Entry, SlotIno, SlotName, DirShape, Names;
    AddedNames(fs, gs, d, g, i, name);
    assert OneMore(fs, gs, d, g, i, name);
    assert Names(gs, d, g, i);
    forall e: nat, h: nat, j: nat | Names(gs, e, h, j)
      ensures Live(gs, j) && j != ROOT && GoodName(SlotName(gs, e, h))
    {
    }
    NamesIn(fs);
    forall e: nat, h: nat, e': nat, h': nat, j: nat | Names(gs, e, h, j) && Names(gs, e', h', j)
      ensures e == e' && h == h'
    {
    }
    forall e: nat, h: nat, h': nat, j: nat, j': nat | Names(gs, e, h, j) && Names(gs, e, h', j') && SlotName(gs, e, h) == SlotName(gs, e, h')
      ensures h == h'
    {
    }
    forall j: nat | Live(gs, j) && j != ROOT
      ensures Named(gs, j)
    {
      if j != i {
        var e: nat, h: nat :| e < |fs.inodes| && h < DIR_SLOTS && Names(fs, e, h, j);
        assert Names(gs, e, h, j);
      }
    }
  }

  lemma NamesIn(fs: Fs)
    ensures forall d: nat, g: nat, i: nat :: Names(fs, d, g, i) ==> IsDir(fs, d) && g < DIR_SLOTS
  {
    hide SlotIno;
  }

  lemma AddedTree(fs: Fs, gs: Fs, d: nat, g: nat, i: u32, name: CString)
    requires Tree(fs) && Owned(gs) && Added(fs, gs, d, g, i, name)
    requires forall h: nat, j: nat :: Names(fs, d, h, j) ==> SlotName(fs, d, h) != name
    ensures Tree(gs)
  {
    hide Slot, Entry, SlotIno, SlotName, DirShape, Names, Owned, Shapes, Entries;
    AddedShapes(fs, gs, d, g, i, name);
    AddedEntries(fs, gs, d, g, i, name);
    AddedNames(fs, gs, d, g, i, name);
    NamesIn(fs);
    var depth: seq<nat> :| Ranked(fs, depth);
    var depth' := depth[i := depth[d] + 1];
    NamedLive(fs);
    assert Ranked(gs, depth');
  }

  lemma NamedLive(fs: Fs)
    requires Entries(fs)
    ensures forall d: nat, g: nat, i: nat :: Names(fs, d, g, i) ==> Live(fs, d) && Live(fs, i)
  {
    hide SlotIno, SlotName;
  }
}

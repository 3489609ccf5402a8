/** Directories of OSFS-2 (kernel/core/osfs2.c): 64-byte entries in the direct blocks of a
    directory inode, found by a linear scan. */
module FsDirectory {
  import opened Bytes
  import opened CStrings
  import opened Disk
  import opened FsState
  import opened FsBlocks

  const NAME_MAX: nat := 60         // OSFS2_NAME_MAX, the NUL included
  const PER_BLOCK: nat := 64        // OSFS2_DIRENTS_PER_BLOCK
  const DIR_SLOTS: nat := 1024      // 16 direct blocks
  const NO_SLOT: int := -1

  type Record = r: seq<byte> | |r| == 64 witness Zeros(64)

  // ---------- records ----------

  function RecordAt(b: Block, j: nat): Record
    requires j < PER_BLOCK
  {
    b[64 * j..64 * j + 64]
  }

  function PutRecord(b: Block, j: nat, r: Record): Block
    requires j < PER_BLOCK
  {
    b[..64 * j] + r + b[64 * j + 64..]
  }

  lemma RecordGetPut(b: Block, j: nat, r: Record, k: nat)
    requires j < PER_BLOCK && k < PER_BLOCK
    ensures RecordAt(PutRecord(b, j, r), k) == if k == j then r else RecordAt(b, k)
  {
    var c := PutRecord(b, j, r);
    assert forall t: nat :: t < 64 ==> RecordAt(c, k)[t] == c[64 * k + t];
    if k == j {
      assert RecordAt(c, k) == r;
    } else {
      forall t: nat | t < 64
        ensures RecordAt(c, k)[t] == RecordAt(b, k)[t]
      {
        assert c[64 * k + t] == b[64 * k + t];
      }
    }
  }

  function RecordIno(r: Record): u32 {
    De32([r[0], r[1], r[2], r[3]])
  }

  function RecordName(r: Record): CString {
    UpToNul(r[4..])
  }

  function Entry(ino: u32, name: CString): Record
    requires |name| < NAME_MAX
  {
    Le32(ino) + name + Zeros(60 - |name|)
  }

  /** An entry reads back as it was written. */
  lemma EntryRoundTrip(ino: u32, name: CString)
    requires |name| < NAME_MAX
    ensures RecordIno(Entry(ino, name)) == ino && RecordName(Entry(ino, name)) == name
  {
    var r := Entry(ino, name);
    assert [r[0], r[1], r[2], r[3]] == Le32(ino);
    Le32RoundTrip(ino);
    assert r[4..] == name + Zeros(60 - |name|);
    UpToNulStops(name, Zeros(60 - |name|));
  }

  // ---------- slots of a directory ----------

  function Slot(fs: Fs, d: nat, g: nat): Record
    requires d < |fs.inodes| && g < DIR_SLOTS
  {
    RecordAt(FileBlock(fs, d, g / PER_BLOCK), g % PER_BLOCK)
  }

  function SlotIno(fs: Fs, d: nat, g: nat): u32
    requires d < |fs.inodes| && g < DIR_SLOTS
  {
    RecordIno(Slot(fs, d, g))
  }

  function SlotName(fs: Fs, d: nat, g: nat): CString
    requires d < |fs.inodes| && g < DIR_SLOTS
  {
    RecordName(Slot(fs, d, g))
  }

  function Slots(x: Inode): nat {
    x.size / 64
  }

  /** A directory without holes below its size. */
  ghost predicate DirShape(x: Inode) {
    && x.size % 64 == 0 && Slots(x) <= DIR_SLOTS
    && forall k: nat :: k < DIRECT && 4096 * k < x.size ==> x.direct[k] != 0
  }

  // ---------- the scan ----------

  /** `dir_find` from slot `g` on: the slot with this name or -1, and the first empty slot seen. */
  function DirFind(fs: Fs, x: Inode, name: CString, g: nat, empty: int): (r: (int, int))
    decreases DIR_SLOTS - g
  {
    if g >= DIR_SLOTS then (NO_SLOT, empty)
    else
      var blk := x.direct[g / PER_BLOCK];
      if blk == 0 then DirFind(fs, x, name, (g / PER_BLOCK + 1) * PER_BLOCK, empty)
      else if blk >= |fs.data| || g >= Slots(x) then (NO_SLOT, empty)
      else
        var r := RecordAt(fs.data[blk], g % PER_BLOCK);
        if RecordIno(r) == 0 then DirFind(fs, x, name, g + 1, if empty == NO_SLOT then g else empty)
        else if RecordName(r) == name then (g, empty)
        else DirFind(fs, x, name, g + 1, empty)
  }

  /** Slot `g` of directory `d` is in use and carries this name. */
  predicate Match(fs: Fs, d: nat, name: CString, g: nat) {
    d < |fs.inodes| && g < DIR_SLOTS && SlotIno(fs, d, g) != 0 && SlotName(fs, d, g) == name
  }

  predicate Empty(fs: Fs, d: nat, g: nat) {
    d < |fs.inodes| && g < DIR_SLOTS && SlotIno(fs, d, g) == 0
  }

  lemma SlotInBlock(fs: Fs, d: nat, g: nat)
    requires Owned(fs) && Live(fs, d) && g < DIR_SLOTS && fs.inodes[d].direct[g / PER_BLOCK] != 0
    ensures var blk := fs.inodes[d].direct[g / PER_BLOCK];
      && PointsTo(fs, d, PosOf(g / PER_BLOCK), blk)
      && blk < |fs.data| && Slot(fs, d, g) == RecordAt(fs.data[blk], g % PER_BLOCK)
  {
    var k := g / PER_BLOCK;
    assert PosOf(k) == k && k < DIRECT;
    assert PointsTo(fs, d, k, fs.inodes[d].direct[k]);
  }

  /** On a directory without holes the scan finds the first slot with the name, or that there is
      none, and then the first empty slot, or that there is none. */
  lemma {:induction false} DirFindFinds(fs: Fs, d: nat, name: CString, g: nat, empty: int)
    requires Owned(fs) && Live(fs, d) && DirShape(fs.inodes[d]) && g <= Slots(fs.inodes[d])
    requires forall h: nat :: h < g ==> !Match(fs, d, name, h)
    requires if empty == NO_SLOT then forall h: nat :: h < g ==> !Empty(fs, d, h)
             else 0 <= empty < g && Empty(fs, d, empty) && forall h: nat :: h < empty ==> !Empty(fs, d, h)
    ensures var (hit, e) := DirFind(fs, fs.inodes[d], name, g, empty);
      && (hit == NO_SLOT || (0 <= hit < Slots(fs.inodes[d]) && Match(fs, d, name, hit)))
      && (hit != NO_SLOT ==> forall h: nat :: h < hit ==> !Match(fs, d, name, h))
      && (hit == NO_SLOT ==> forall h: nat :: h < Slots(fs.inodes[d]) ==> !Match(fs, d, name, h))
      && (hit == NO_SLOT && e == NO_SLOT ==> forall h: nat :: h < Slots(fs.inodes[d]) ==> !Empty(fs, d, h))
      && (e != NO_SLOT ==> 0 <= e < Slots(fs.inodes[d]) && Empty(fs, d, e) && forall h: nat :: h < e ==> !Empty(fs, d, h))
    decreases DIR_SLOTS - g
  {
    hide Owned, RecordIno, RecordName, RecordAt, FileBlock;
    var x := fs.inodes[d];
    if g == Slots(x) {
      ScanEnds(fs, x, name, g, empty);
    } else {
      assert x.direct[g / PER_BLOCK] != 0;
      SlotInBlock(fs, d, g);
      if SlotIno(fs, d, g) == 0 {
        DirFindFinds(fs, d, name, g + 1, if empty == NO_SLOT then g else empty);
      } else if SlotName(fs, d, g) != name {
        DirFindFinds(fs, d, name, g + 1, empty);
      }
    }
  }

  lemma {:induction false} ScanEnds(fs: Fs, x: Inode, name: CString, g: nat, empty: int)
    requires Slots(x) <= g
    ensures DirFind(fs, x, name, g, empty) == (NO_SLOT, empty)
    decreases DIR_SLOTS - g
  {
    if g < DIR_SLOTS && x.direct[g / PER_BLOCK] == 0 {
      ScanEnds(fs, x, name, (g / PER_BLOCK + 1) * PER_BLOCK, empty);
    }
  }

  // ---------- writing one slot ----------

  /** `dir_write_at`: the entry goes into the block of its slot; -1 if there is none. */
  function DirWriteAt(fs: Fs, x: Inode, g: nat, r: Record): (Fs, bool) {
    var k := g / PER_BLOCK;
    if k >= DIRECT || x.direct[k] == 0 || x.direct[k] >= |fs.data| then (fs, false)
    else (PutBlock(fs, x.direct[k], PutRecord(fs.data[x.direct[k]], g % PER_BLOCK, r)), true)
  }

  /** Exactly slot `g` of directory `d` changes; every other block of every file is as before. */
  lemma DirWriteKeeps(fs: Fs, d: nat, g: nat, r: Record)
    requires Owned(fs) && Live(fs, d) && g < DIR_SLOTS && fs.inodes[d].direct[g / PER_BLOCK] != 0
    ensures var (gs, ok) := DirWriteAt(fs, fs.inodes[d], g, r);
      && ok && Owned(gs) && gs == fs.(data := gs.data)
      && (forall h: nat :: h < DIR_SLOTS ==> Slot(gs, d, h) == if h == g then r else Slot(fs, d, h))
      && (forall j: nat, lbn: nat :: Live(fs, j) && lbn < MAX_BLOCKS && j != d ==> FileBlock(gs, j, lbn) == FileBlock(fs, j, lbn))
      && (forall lbn: nat :: lbn < MAX_BLOCKS && lbn != g / PER_BLOCK ==> FileBlock(gs, d, lbn) == FileBlock(fs, d, lbn))
  {
    hide FileBlock, RecordAt, PutRecord;
    SlotInBlock(fs, d, g);
    var k := g / PER_BLOCK;
    var b := fs.inodes[d].direct[k];
    var y := PutRecord(fs.data[b], g % PER_BLOCK, r);
    PutBlockKeeps(fs, d, k, b, y);
    var gs := DirWriteAt(fs, fs.inodes[d], g, r).0;
    forall h: nat | h < DIR_SLOTS
      ensures Slot(gs, d, h) == if h == g then r else Slot(fs, d, h)
    {
      assert FileBlock(gs, d, h / PER_BLOCK) == if h / PER_BLOCK == k then y else FileBlock(fs, d, h / PER_BLOCK);
      if h / PER_BLOCK == k {
        SlotInBlock(fs, d, h);
        RecordGetPut(fs.data[b], g % PER_BLOCK, r, h % PER_BLOCK);
        assert h == g <==> h % PER_BLOCK == g % PER_BLOCK;
      }
    }
  }
}

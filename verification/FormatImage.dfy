/** The image formatter (scripts/mkosfs2.py, `format_image`): it lays files out one after another
    and enters them in the root directory. The kernel's reader inverts it. */
module FormatImage {
  import opened Bytes
  import opened Options
  import opened CStrings
  import opened Disk
  import opened FsState
  import opened FsBlocks
  import opened FsFile
  import opened FsDirectory
  import opened FsTree
  import opened FsCreate
  import opened FsPaths
  import opened FsView
  import FsRuns

  const TOTAL_BLOCKS: nat := 16384
  const INODE_COUNT: nat := 2048
  const DATA_START: nat := 100
  const ROOT_BLOCK: nat := 100

  datatype Seed = Seed(name: CString, bytes: seq<byte>)

  /** The image under construction: the file system without its root directory, the next free
      block and inode, and the root's entries so far. */
  datatype Builder = Builder(fs: Fs, nextBlock: nat, nextInode: nat, dirents: Block, count: nat)

  const UNUSED: Inode := Inode(Free, 0, 0, 0, NO_POINTERS, 0)

  function Fill<T>(n: nat, x: T): (r: seq<T>)
    ensures |r| == n && forall k :: 0 <= k < n ==> r[k] == x
  {
    if n == 0 then [] else Fill(n - 1, x) + [x]
  }

  /** The zeroed image with everything before the data area and the root's block marked, and the
      null inode and the root. */
  function StartOfImage(): Builder {
    Builder(Fs(DATA_START, Fill(INODE_COUNT, UNUSED), Fill(ROOT + 1, true) + Fill(INODE_COUNT - ROOT - 1, false),
               Fill(ROOT_BLOCK + 1, true) + Fill(TOTAL_BLOCKS - ROOT_BLOCK - 1, false), Fill(TOTAL_BLOCKS, ZERO)),
            ROOT_BLOCK + 1, ROOT + 1, ZERO, 0)
  }

  // ---------- one file ----------

  function BlockCount(n: nat): nat {
    (n + 4095) / 4096
  }

  /** Blocks a file of `n` bytes takes, the indirect block included. */
  function Footprint(n: nat): nat {
    if BlockCount(n) <= DIRECT then BlockCount(n) else BlockCount(n) + 1
  }

  /** Block `lbn` of the file, the rest of the last one zero. */
  function ChunkBlock(bytes: seq<byte>, lbn: nat): (b: Block) {
    seq<byte>(4096, (q: nat) => if 4096 * lbn + q < |bytes| then bytes[4096 * lbn + q] else 0)
  }

  /** The indirect table of a file placed at `start`, with `n` entries. */
  function TableBlock(start: nat, n: nat): Block
    requires n <= INDIRECT && start + DIRECT + 1 + n <= U32
  {
    if n == 0 then ZERO else TablePut(TableBlock(start, n - 1), n - 1, start + DIRECT + n)
  }

  predicate Fits(start: nat, n: nat) {
    n <= MAX_BYTES && start + Footprint(n) <= TOTAL_BLOCKS
  }

  /** What block `start + k` of the image holds once the file is in place. */
  function PlacedBlock(bytes: seq<byte>, start: nat, k: nat): Block
    requires Fits(start, |bytes|) && k < Footprint(|bytes|)
  {
    if k < DIRECT then ChunkBlock(bytes, k)
    else if k == DIRECT then TableBlock(start, BlockCount(|bytes|) - DIRECT)
    else ChunkBlock(bytes, k - 1)
  }

  function DirectPointers(start: nat, nb: nat): (p: Pointers)
    requires start + DIRECT <= U32
    ensures forall k: nat :: k < DIRECT ==> p[k] == if k < nb then start + k else 0
  {
    seq<u32>(16, (k: nat) requires k < 16 => if k < nb then start + k else 0)
  }

  function FileInode(start: nat, n: nat): Inode
    requires Fits(start, n)
  {
    Inode(File, n, 1, NEW_MODE_FILE, DirectPointers(start, BlockCount(n)), if BlockCount(n) <= DIRECT then 0 else start + DIRECT)
  }

  /** Blocks `from..to` marked. */
  function Marked(map_: seq<bool>, from: nat, to: nat): (r: seq<bool>)
    ensures |r| == |map_| && forall c: nat :: c < |map_| ==> r[c] == (map_[c] || from <= c < to)
  {
    seq(|map_|, (c: nat) requires c < |map_| => map_[c] || from <= c < to)
  }

  /** The blocks of the image with the file laid out from block `start`. */
  function LaidOut(data: seq<Block>, start: nat, bytes: seq<byte>): (r: seq<Block>)
    requires Fits(start, |bytes|)
    ensures |r| == |data|
    ensures forall c: nat :: c < |data| ==>
      r[c] == if start <= c < start + Footprint(|bytes|) then PlacedBlock(bytes, start, c - start) else data[c]
  {
    seq<Block>(|data|, (c: nat) requires c < |data| => BlockAfter(data, start, bytes, c))
  }

  function BlockAfter(data: seq<Block>, start: nat, bytes: seq<byte>, c: nat): Block
    requires Fits(start, |bytes|) && c < |data|
  {
    if start <= c < start + Footprint(|bytes|) then PlacedBlock(bytes, start, c - start) else data[c]
  }

  function Placed(fs: Fs, i: nat, start: nat, bytes: seq<byte>): (r: Fs)
    requires Fits(start, |bytes|) && i < |fs.inodes| && i < |fs.inodeMap|
    ensures |r.data| == |fs.data| && |r.blockMap| == |fs.blockMap|
  {
    fs.(inodes := fs.inodes[i := FileInode(start, |bytes|)], inodeMap := fs.inodeMap[i := true],
        blockMap := Marked(fs.blockMap, start, start + Footprint(|bytes|)), data := LaidOut(fs.data, start, bytes))
  }

  /** One turn of the loop over the files; nothing if it does not fit or its name is too long. */
  function AddFile(b: Builder, seed: Seed): Option<Builder>
    requires |b.fs.inodes| == |b.fs.inodeMap| == INODE_COUNT && 0 < b.nextBlock
  {
    if !Fits(b.nextBlock, |seed.bytes|) || b.nextInode >= INODE_COUNT || b.count >= PER_BLOCK || |seed.name| >= NAME_MAX then None
    else
      Some(Builder(Placed(b.fs, b.nextInode, b.nextBlock, seed.bytes), b.nextBlock + Footprint(|seed.bytes|), b.nextInode + 1,
                   PutRecord(b.dirents, b.count, Entry(b.nextInode, seed.name)), b.count + 1))
  }

  function RootInode(count: nat): Inode
    requires count <= PER_BLOCK
  {
    Inode(Dir, 64 * count, 1, NEW_MODE_DIR, NO_POINTERS[0 := ROOT_BLOCK], 0)
  }

  /** The root directory goes in last. */
  function Finish(b: Builder): Fs
    requires b.count <= PER_BLOCK
  {
    PutBlock(PutInode(b.fs, ROOT, RootInode(b.count)), ROOT_BLOCK, b.dirents)
  }

  predicate Sizes(b: Builder) {
    |b.fs.inodes| == |b.fs.inodeMap| == INODE_COUNT && 0 < b.nextBlock && b.count <= PER_BLOCK
  }

  function AddAll(b: Builder, seeds: seq<Seed>): (r: Option<Builder>)
    requires Sizes(b)
    ensures r.Some? ==> Sizes(r.value)
    decreases |seeds|
  {
    if seeds == [] then Some(b)
    else
      match AddFile(b, seeds[0])
      case None => None
      case Some(c) => AddAll(c, seeds[1..])
  }

  /** `format_image`: the mounted image, or nothing where the script gives up. */
  function Format(seeds: seq<Seed>): Option<Fs> {
    if |seeds| > PER_BLOCK then None
    else
      match AddAll(StartOfImage(), seeds)
      case None => None
      case Some(b) => Some(Finish(b))
  }

  // ---------- the layout of one file ----------

  lemma {:induction false} TableBlockGet(start: nat, n: nat, j: nat)
    requires n <= INDIRECT && start + DIRECT + 1 + n <= U32 && j < INDIRECT
    ensures TableGet(TableBlock(start, n), j) == if j < n then start + DIRECT + 1 + j else 0
    decreases n
  {
    hide TableGet, TablePut;
    if n == 0 {
      ZeroTable(j);
    } else {
      TableGetPut(TableBlock(start, n - 1), n - 1, start + DIRECT + n, j);
      TableBlockGet(start, n - 1, j);
    }
  }

  lemma FootprintBound(n: nat)
    requires n <= MAX_BYTES
    ensures BlockCount(n) <= MAX_BLOCKS && Footprint(n) <= POSITIONS
  {}

  /** Position `k` of the placed file points to block `start + k`. */
  lemma PlacedPtr(fs: Fs, i: nat, start: nat, bytes: seq<byte>, k: nat)
    requires 0 < start && Fits(start, |bytes|) && i < |fs.inodes| && i < |fs.inodeMap| && |fs.data| == TOTAL_BLOCKS && k < POSITIONS
    ensures Ptr(Placed(fs, i, start, bytes), i, k) == if k < Footprint(|bytes|) then start + k else 0
  {
    hide TableGet, TableBlock, LaidOut, DirectPointers, BlockCount;
    FootprintBound(|bytes|);
    var gs, nb := Placed(fs, i, start, bytes), BlockCount(|bytes|);
    assert gs.inodes[i] == FileInode(start, |bytes|);
    if k > DIRECT && nb > DIRECT {
      TableBlockGet(start, nb - DIRECT, k - DIRECT - 1);
      PlacedData(fs, i, start, bytes, DIRECT);
    }
  }

  lemma PlacedData(fs: Fs, i: nat, start: nat, bytes: seq<byte>, k: nat)
    requires 0 < start && Fits(start, |bytes|) && i < |fs.inodes| && i < |fs.inodeMap| && |fs.data| == TOTAL_BLOCKS && k < Footprint(|bytes|)
    ensures Block_(Placed(fs, i, start, bytes), start + k) == PlacedBlock(bytes, start, k)
  {}

  /** Every block of the placed file reads as its bytes. */
  lemma PlacedContent(fs: Fs, i: nat, start: nat, bytes: seq<byte>, lbn: nat)
    requires 0 < start && Fits(start, |bytes|) && i < |fs.inodes| && i < |fs.inodeMap| && |fs.data| == TOTAL_BLOCKS && lbn < MAX_BLOCKS
    ensures FileBlock(Placed(fs, i, start, bytes), i, lbn) == ChunkBlock(bytes, lbn)
  {
    hide Placed, PlacedBlock, ChunkBlock;
    PlacedShape(fs, i, start, bytes);
    var k := PosOf(lbn);
    PlacedPtr(fs, i, start, bytes, k);
    if k < Footprint(|bytes|) {
      PlacedData(fs, i, start, bytes, k);
      PlacedIsChunk(bytes, start, lbn);
    } else {
      PastEnd(bytes, lbn);
    }
  }

  lemma PlacedShape(fs: Fs, i: nat, start: nat, bytes: seq<byte>)
    requires 0 < start && Fits(start, |bytes|) && i < |fs.inodes| && i < |fs.inodeMap|
    ensures |Placed(fs, i, start, bytes).inodes| == |fs.inodes|
  {}

  lemma PlacedIsChunk(bytes: seq<byte>, start: nat, lbn: nat)
    requires Fits(start, |bytes|) && lbn < MAX_BLOCKS && PosOf(lbn) < Footprint(|bytes|)
    ensures PlacedBlock(bytes, start, PosOf(lbn)) == ChunkBlock(bytes, lbn)
  {}

  lemma PastEnd(bytes: seq<byte>, lbn: nat)
    requires |bytes| <= MAX_BYTES && lbn < MAX_BLOCKS && PosOf(lbn) >= Footprint(|bytes|)
    ensures ChunkBlock(bytes, lbn) == ZERO
  {
    assert lbn >= BlockCount(|bytes|);
  }

  /** The kernel reads the placed file back byte for byte, zeroes past its end. */
  lemma PlacedBytes(fs: Fs, i: nat, start: nat, bytes: seq<byte>)
    requires 0 < start && Fits(start, |bytes|) && i < |fs.inodes| && i < |fs.inodeMap| && |fs.data| == TOTAL_BLOCKS
    ensures var gs := Placed(fs, i, start, bytes);
      && |gs.inodes| == |fs.inodes| && gs.inodes[i].size == |bytes| && gs.inodes[i].typ == File
      && Contents(gs, i) == bytes && ZeroTail(gs, i)
  {
    hide FileBlock, ChunkBlock;
    var gs := Placed(fs, i, start, bytes);
    assert gs.inodes[i] == FileInode(start, |bytes|);
    hide Placed;
    forall p: nat | p < MAX_BYTES
      ensures ByteAt(gs, i, p) == if p < |bytes| then bytes[p] else 0
    {
      PlacedContent(fs, i, start, bytes, p / 4096);
      ChunkByte(bytes, p);
    }
    forall p: nat | p < |bytes|
      ensures Contents(gs, i)[p] == bytes[p]
    {
      assert Contents(gs, i)[p] == ByteAt(gs, i, p);
    }
  }

  lemma ChunkByte(bytes: seq<byte>, p: nat)
    ensures ChunkBlock(bytes, p / 4096)[p % 4096] == if p < |bytes| then bytes[p] else 0
  {
    assert 4096 * (p / 4096) + p % 4096 == p;
  }

  // ---------- one file more ----------

  /** Laying a file out in free blocks keeps ownership and changes no other file. */
  lemma PlacedOwned(fs: Fs, i: nat, start: nat, bytes: seq<byte>)
    requires Owned(fs) && ROOT < i < |fs.inodes| && !Live(fs, i) && fs.dataStart <= start && Fits(start, |bytes|)
    requires |fs.data| == TOTAL_BLOCKS && forall c: nat :: c < TOTAL_BLOCKS ==> fs.blockMap[c] == (c < start)
    ensures var gs := Placed(fs, i, start, bytes);
      && Owned(gs) && (forall j: nat :: Live(gs, j) <==> Live(fs, j) || j == i)
      && (forall j: nat, lbn: nat :: Live(fs, j) && lbn < MAX_BLOCKS ==> FileBlock(gs, j, lbn) == FileBlock(fs, j, lbn))
  {
    var gs := Placed(fs, i, start, bytes);
    forall c: nat | c < start
      ensures Block_(gs, c) == Block_(fs, c)
    {
    }
    forall j: nat, k: nat | Live(fs, j) && k < POSITIONS
      ensures Ptr(gs, j, k) == Ptr(fs, j, k)
    {
      OldPointer(fs, gs, j, k, start);
    }
    forall k: nat | k < POSITIONS
      ensures Ptr(gs, i, k) == if k < Footprint(|bytes|) then start + k else 0
    {
      PlacedPtr(fs, i, start, bytes, k);
    }
    hide Placed, PtrOf, Footprint;
    OwnedAfter(fs, gs, i, start, Footprint(|bytes|));
  }

  lemma OldPointer(fs: Fs, gs: Fs, j: nat, k: nat, start: nat)
    requires Owned(fs) && Live(fs, j) && k < POSITIONS && j < |gs.inodes| && gs.inodes[j] == fs.inodes[j]
    requires forall c: nat :: c < start ==> Block_(gs, c) == Block_(fs, c)
    requires forall c: nat :: c < |fs.blockMap| ==> fs.blockMap[c] == (c < start)
    ensures Ptr(gs, j, k) == Ptr(fs, j, k)
  {
    var x := fs.inodes[j];
    if k > DIRECT && x.indirect != 0 {
      assert PointsTo(fs, j, DIRECT, x.indirect);
    }
  }

  lemma OwnedAfter(fs: Fs, gs: Fs, i: nat, start: nat, n: nat)
    requires Owned(fs) && ROOT < i < |fs.inodes| && !Live(fs, i) && fs.dataStart <= start && start + n <= TOTAL_BLOCKS == |fs.data|
    requires |gs.inodes| == |fs.inodes| && gs.inodeMap == fs.inodeMap[i := true] && gs.dataStart == fs.dataStart
    requires |gs.data| == TOTAL_BLOCKS == |gs.blockMap|
    requires forall c: nat :: c < TOTAL_BLOCKS ==> fs.blockMap[c] == (c < start) && gs.blockMap[c] == (c < start + n)
    requires forall c: nat :: c < start ==> Block_(gs, c) == Block_(fs, c)
    requires forall j: nat, k: nat :: Live(fs, j) && k < POSITIONS ==> Ptr(gs, j, k) == Ptr(fs, j, k)
    requires forall k: nat :: k < POSITIONS ==> Ptr(gs, i, k) == if k < n then start + k else 0
    ensures Owned(gs) && (forall j: nat :: Live(gs, j) <==> Live(fs, j) || j == i)
    ensures forall j: nat, lbn: nat :: Live(fs, j) && lbn < MAX_BLOCKS ==> FileBlock(gs, j, lbn) == FileBlock(fs, j, lbn)
  {
    forall j: nat, k: nat, c: nat
      ensures PointsTo(gs, j, k, c) <==> PointsTo(fs, j, k, c) || (j == i && k < n && k < POSITIONS && c == start + k)
    {
      if Live(fs, j) && k < POSITIONS {
        assert Ptr(gs, j, k) == Ptr(fs, j, k);
      }
    }
    forall j: nat, lbn: nat | Live(fs, j) && lbn < MAX_BLOCKS
      ensures FileBlock(gs, j, lbn) == FileBlock(fs, j, lbn)
    {
      assert Ptr(gs, j, PosOf(lbn)) == Ptr(fs, j, PosOf(lbn));
      if Ptr(fs, j, PosOf(lbn)) != 0 {
        assert PointsTo(fs, j, PosOf(lbn), Ptr(fs, j, PosOf(lbn)));
      }
    }
  }

  /** The builder's counters say what is in use, and the image is sound if finished now. */
  ghost predicate BuilderOk(b: Builder) {
    && Sizes(b) && |b.fs.data| == |b.fs.blockMap| == TOTAL_BLOCKS && b.fs.dataStart == DATA_START
    && ROOT_BLOCK < b.nextBlock <= TOTAL_BLOCKS && ROOT < b.nextInode <= INODE_COUNT
    && (forall c: nat :: c < TOTAL_BLOCKS ==> b.fs.blockMap[c] == (c < b.nextBlock))
    && (forall i: nat :: i < INODE_COUNT ==> b.fs.inodeMap[i] == (i < b.nextInode))
    && Good(Finish(b))
  }

  /** Finishing after one more file is the finished image, with the file placed, the root one
      entry longer, and the entry written. */
  lemma FinishedStep(b: Builder, seed: Seed)
    requires Sizes(b) && |b.fs.data| == TOTAL_BLOCKS && ROOT_BLOCK < b.nextBlock && ROOT < b.nextInode && AddFile(b, seed).Some?
    ensures var fs, c := Finish(b), AddFile(b, seed).value;
      && Fits(b.nextBlock, |seed.bytes|) && b.nextInode < INODE_COUNT && b.count < PER_BLOCK && |seed.name| < NAME_MAX
      && var hs := PutInode(Placed(fs, b.nextInode, b.nextBlock, seed.bytes), ROOT, RootInode(b.count + 1));
         Finish(c) == DirWriteAt(hs, hs.inodes[ROOT], b.count, Entry(b.nextInode, seed.name)).0
  {
    hide FileInode, PlacedBlock, Entry, PutRecord;
    var fs, c := Finish(b), AddFile(b, seed).value;
    var p := Placed(fs, b.nextInode, b.nextBlock, seed.bytes);
    var hs := PutInode(p, ROOT, RootInode(b.count + 1));
    var gs := DirWriteAt(hs, hs.inodes[ROOT], b.count, Entry(b.nextInode, seed.name)).0;
    assert hs.inodes[ROOT].direct[0] == ROOT_BLOCK && b.count / PER_BLOCK == 0;
    assert hs.data[ROOT_BLOCK] == b.dirents;
    assert Finish(c).inodes == gs.inodes;
    assert Finish(c).data == gs.data;
    assert Finish(c).blockMap == gs.blockMap;
  }

  lemma AddFileKeeps(b: Builder, seed: Seed)
    requires BuilderOk(b) && AddFile(b, seed).Some? && 0 < |seed.name| && View(Finish(b), [seed.name]) == Missing
    ensures var c := AddFile(b, seed).value;
      && BuilderOk(c)
      && (forall q: Path :: View(Finish(c), q) == if q == [seed.name] then Regular(seed.bytes) else View(Finish(b), q))
  {
    hide Good, View, Placed, DirWriteAt;
    var fs, c := Finish(b), AddFile(b, seed).value;
    FinishedStep(b, seed);
    PlacedMaps(b, seed);
    EnteredFile(fs, b.nextInode, b.nextBlock, b.count, seed);
  }

  lemma PlacedMaps(b: Builder, seed: Seed)
    requires BuilderOk(b) && AddFile(b, seed).Some?
    ensures var c := AddFile(b, seed).value;
      && Sizes(c) && |c.fs.data| == |c.fs.blockMap| == TOTAL_BLOCKS && c.fs.dataStart == DATA_START
      && (forall k: nat :: k < TOTAL_BLOCKS ==> c.fs.blockMap[k] == (k < c.nextBlock))
      && (forall i: nat :: i < INODE_COUNT ==> c.fs.inodeMap[i] == (i < c.nextInode))
  {
    hide Good, FileInode, LaidOut, Footprint;
  }

  /** The finished image, as far as adding a file cares. */
  ghost predicate Finished(fs: Fs, next: nat, count: nat) {
    && Good(fs) && |fs.inodes| == |fs.inodeMap| == INODE_COUNT && |fs.data| == TOTAL_BLOCKS && count < PER_BLOCK
    && fs.inodes[ROOT] == RootInode(count) && fs.dataStart <= next
    && |fs.blockMap| == TOTAL_BLOCKS && forall c: nat :: c < TOTAL_BLOCKS ==> fs.blockMap[c] == (c < next)
  }

  lemma EnteredFile(fs: Fs, i: nat, start: nat, count: nat, seed: Seed)
    requires Finished(fs, start, count) && ROOT < i < INODE_COUNT && !Live(fs, i)
    requires 0 < start && Fits(start, |seed.bytes|) && 0 < |seed.name| < NAME_MAX && View(fs, [seed.name]) == Missing
    ensures var hs := PutInode(Placed(fs, i, start, seed.bytes), ROOT, RootInode(count + 1));
      var gs := DirWriteAt(hs, hs.inodes[ROOT], count, Entry(i, seed.name)).0;
      && Good(gs)
      && (forall q: Path :: View(gs, q) == if q == [seed.name] then Regular(seed.bytes) else View(fs, q))
  {
    hide FileBlock, Placed, DirWriteAt, Entry, View, FileInode, DirShape, Tree, ZeroTail, Contents, RootInode;
    Grown(fs, i, start, count, seed.bytes);
    var hs := PutInode(Placed(fs, i, start, seed.bytes), ROOT, RootInode(count + 1));
    RootShape(count);
    RootInUse(fs);
    EnterKeeps(fs, hs, ROOT, count, i, seed.name);
    var gs := DirWriteAt(hs, hs.inodes[ROOT], count, Entry(i, seed.name)).0;
    NameIsNew(fs, seed.name);
    AddedTree(fs, gs, ROOT, count, i, seed.name);
    EnteredBytes(fs, hs, gs, i, seed);
    forall q: Path
      ensures View(gs, q) == if q == [seed.name] then Regular(seed.bytes) else View(fs, q)
    {
      FileEntered(fs, gs, count, i, seed, q);
    }
    EnteredTails(fs, gs, count, i, seed.name);
  }

  /** The file in place and the root one entry longer, before the entry is written. */
  lemma Grown(fs: Fs, i: nat, start: nat, count: nat, bytes: seq<byte>)
    requires Finished(fs, start, count) && ROOT < i < INODE_COUNT && !Live(fs, i) && 0 < start && Fits(start, |bytes|)
    ensures var hs := PutInode(Placed(fs, i, start, bytes), ROOT, RootInode(count + 1));
      && Owned(hs) && |hs.inodes| == |fs.inodes| && |hs.inodeMap| == |fs.inodeMap|
      && (forall j: nat :: Live(hs, j) <==> Live(fs, j) || j == i)
      && (forall j: nat :: j < |fs.inodes| && j != ROOT && j != i ==> hs.inodes[j] == fs.inodes[j])
      && (forall j: nat, lbn: nat :: Live(fs, j) && lbn < MAX_BLOCKS ==> FileBlock(hs, j, lbn) == FileBlock(fs, j, lbn))
      && hs.inodes[ROOT] == RootInode(count + 1) && DirShape(hs.inodes[ROOT]) && hs.inodes[ROOT].direct[0] != 0 && hs.inodes[ROOT].typ == Dir
      && hs.inodes[ROOT].size == 64 * (count + 1)
      && hs.inodes[i].typ == File && hs.inodes[i].size == |bytes| <= MAX_BYTES
      && Contents(hs, i) == bytes && ZeroTail(hs, i)
  {
    hide FileBlock, Placed, FileInode, DirShape, Good, ZeroTail, Contents;
    var p := Placed(fs, i, start, bytes);
    PlacedSound(fs, i, start, bytes, count);
    PlacedBytes(fs, i, start, bytes);
    var hs := PutInode(p, ROOT, RootInode(count + 1));
    RootShape(count);
    RootShape(count + 1);
    MetaKeepsOwned(p, ROOT, RootInode(count + 1));
    forall j: nat, lbn: nat | Live(fs, j) && lbn < MAX_BLOCKS
      ensures FileBlock(hs, j, lbn) == FileBlock(fs, j, lbn)
    {
      assert FileBlock(hs, j, lbn) == FileBlock(p, j, lbn);
    }
    forall lbn: nat | lbn < MAX_BLOCKS
      ensures FileBlock(hs, i, lbn) == FileBlock(p, i, lbn)
    {
      assert Live(p, i);
    }
    GrownFile(p, hs, i, bytes);
  }

  lemma GrownFile(p: Fs, hs: Fs, i: nat, bytes: seq<byte>)
    requires i < |p.inodes| == |hs.inodes| && hs.inodes[i] == p.inodes[i] && p.inodes[i].size == |bytes| <= MAX_BYTES && p.inodes[i].typ == File && 0 < i
    requires Contents(p, i) == bytes && ZeroTail(p, i)
    requires forall lbn: nat :: lbn < MAX_BLOCKS ==> FileBlock(hs, i, lbn) == FileBlock(p, i, lbn)
    ensures Contents(hs, i) == bytes && ZeroTail(hs, i)
  {
    hide FileBlock, ZeroTail, Contents;
    SameFile(p, hs, i);
    assert NodeOf(p, i) == Regular(Contents(p, i)) && NodeOf(hs, i) == Regular(Contents(hs, i));
  }

  lemma RootInUse(fs: Fs)
    requires Good(fs)
    ensures Tree(fs) && IsDir(fs, ROOT)
  {
    hide Owned, Entries, Ranked;
  }

  lemma PlacedSound(fs: Fs, i: nat, start: nat, bytes: seq<byte>, count: nat)
    requires Finished(fs, start, count) && ROOT < i < INODE_COUNT && !Live(fs, i) && Fits(start, |bytes|)
    ensures var gs := Placed(fs, i, start, bytes);
      && Owned(gs) && (forall j: nat :: Live(gs, j) <==> Live(fs, j) || j == i)
      && (forall j: nat, lbn: nat :: Live(fs, j) && lbn < MAX_BLOCKS ==> FileBlock(gs, j, lbn) == FileBlock(fs, j, lbn))
      && |gs.inodes| == |fs.inodes| && |gs.inodeMap| == |fs.inodeMap|
      && (forall j: nat :: j < |fs.inodes| && j != i ==> gs.inodes[j] == fs.inodes[j])
  {
    hide FileBlock, Shapes, Entries, Ranked, LaidOut, FileInode;
    PlacedOwned(fs, i, start, bytes);
  }

  lemma RootShape(count: nat)
    requires count <= PER_BLOCK
    ensures DirShape(RootInode(count)) && Slots(RootInode(count)) == count
    ensures RootInode(count).direct[0] != 0 && RootInode(count).typ == Dir && RootInode(count).size == 64 * count
    ensures RootInode(count).indirect == 0 && RootInode(count).direct == NO_POINTERS[0 := ROOT_BLOCK]
  {}

  /** A path with no node is no entry of the root. */
  lemma NameIsNew(fs: Fs, name: CString)
    requires Tree(fs) && View(fs, [name]) == Missing
    ensures Child(fs, ROOT, name) == 0
    ensures forall h: nat, j: nat :: Names(fs, ROOT, h, j) ==> SlotName(fs, ROOT, h) != name
  {
    hide Owned, Entries, Ranked, Child, Names, SlotName, Walk, Contents;
    WalkStart(fs);
    assert [] + [name] == [name];
    WalkLast(fs, ROOT, [], name);
    ChildIs(fs, ROOT, name);
    NamedLive(fs);
    if Child(fs, ROOT, name) != 0 {
      ChildLive(fs, ROOT, name);
    }
  }

  /** The new file shows the seed's bytes. */
  lemma EnteredBytes(fs: Fs, hs: Fs, gs: Fs, i: nat, seed: Seed)
    requires i < |hs.inodes| && gs.inodes == hs.inodes && hs.inodes[i].size == |seed.bytes| <= MAX_BYTES && hs.inodes[i].typ == File && 0 < i
    requires Contents(hs, i) == seed.bytes && ZeroTail(hs, i)
    requires forall lbn: nat :: lbn < MAX_BLOCKS ==> FileBlock(gs, i, lbn) == FileBlock(hs, i, lbn)
    ensures NodeOf(gs, i) == Regular(seed.bytes) && ZeroTail(gs, i)
  {
    hide FileBlock, ZeroTail, Contents;
    SameFile(hs, gs, i);
  }

  lemma FileEntered(fs: Fs, gs: Fs, count: nat, i: u32, seed: Seed, q: Path)
    requires Good(fs) && Tree(gs) && Added(fs, gs, ROOT, count, i, seed.name) && Child(fs, ROOT, seed.name) == 0
    requires NodeOf(gs, i) == Regular(seed.bytes)
    requires forall j: nat, lbn: nat :: Live(fs, j) && j != ROOT && lbn < MAX_BLOCKS ==> FileBlock(gs, j, lbn) == FileBlock(fs, j, lbn)
    ensures View(gs, q) == if q == [seed.name] then Regular(seed.bytes) else View(fs, q)
  {
    hide FileBlock, Tree, Walk, Child, ZeroTail, Slot, Contents, DirShape;
    WalkStart(fs);
    assert [] + [seed.name] == [seed.name];
    EnteredWalk(fs, gs, [], count, i, seed.name, q);
    var j := Walk(fs, ROOT, q);
    if q != [seed.name] && j != 0 {
      WalkLive(fs, q);
      if j == ROOT {
        RootDir(fs);
        DirNode(fs, gs, ROOT);
      } else {
        SameFile(fs, gs, j);
      }
    }
  }

  lemma EnteredTails(fs: Fs, gs: Fs, count: nat, i: u32, name: CString)
    requires Good(fs) && Tree(gs) && Added(fs, gs, ROOT, count, i, name) && ZeroTail(gs, i)
    requires forall j: nat, lbn: nat :: Live(fs, j) && j != ROOT && lbn < MAX_BLOCKS ==> FileBlock(gs, j, lbn) == FileBlock(fs, j, lbn)
    ensures Good(gs)
  {
    hide FileBlock, Tree, Slot, Contents, DirShape;
    forall j: nat | Live(gs, j) && gs.inodes[j].typ == File
      ensures ZeroTail(gs, j)
    {
      if j != i {
        SameFile(fs, gs, j);
      }
    }
  }

  // ---------- the whole image ----------

  lemma StartOk()
    ensures BuilderOk(StartOfImage())
    ensures forall q: Path :: View(Finish(StartOfImage()), q) == if q == [] then Folder else Missing
  {
    hide Fill, View, Good;
    var b := StartOfImage();
    StartFields();
    var fs := Finish(b);
    OnlyRoot(fs);
    FsRuns.BlankGood(fs, []);
    forall q: Path
      ensures View(fs, q) == if q == [] then Folder else Missing
    {
      FsRuns.BlankGood(fs, q);
    }
  }

  lemma StartFields()
    ensures var b := StartOfImage();
      && Sizes(b) && |b.fs.data| == |b.fs.blockMap| == TOTAL_BLOCKS && b.fs.dataStart == DATA_START
      && b.nextBlock == ROOT_BLOCK + 1 && b.nextInode == ROOT + 1 && b.count == 0
      && (forall c: nat :: c < TOTAL_BLOCKS ==> b.fs.blockMap[c] == (c < b.nextBlock) && b.fs.data[c] == ZERO)
      && (forall i: nat :: i < INODE_COUNT ==> b.fs.inodeMap[i] == (i < b.nextInode) && b.fs.inodes[i] == UNUSED)
  {
    hide Fill;
  }

  lemma OnlyRoot(fs: Fs)
    requires |fs.inodes| == |fs.inodeMap| == INODE_COUNT && |fs.data| == |fs.blockMap| == TOTAL_BLOCKS && fs.dataStart == DATA_START
    requires fs.inodes[ROOT] == RootInode(0) && fs.blockMap[ROOT_BLOCK]
    requires forall i: nat :: i < INODE_COUNT ==> fs.inodeMap[i] == (i <= ROOT)
    ensures FsRuns.Blank(fs)
  {
    RootShape(0);
    forall i: nat, k: nat, b: nat
      ensures PointsTo(fs, i, k, b) <==> i == ROOT && k == 0 && b == ROOT_BLOCK
    {
      if Live(fs, i) && k < POSITIONS {
        assert i == ROOT;
      }
    }
  }

  /** What path `q` shows after the seeds, if it showed `before` until then. */
  function Seeded(seeds: seq<Seed>, q: Path, before: Node): Node
    decreases |seeds|
  {
    if seeds == [] then before
    else if q == [seeds[0].name] then Regular(seeds[0].bytes)
    else Seeded(seeds[1..], q, before)
  }

  ghost predicate DistinctNames(seeds: seq<Seed>) {
    && (forall k :: 0 <= k < |seeds| ==> seeds[k].name != [])
    && (forall j, k :: 0 <= j < k < |seeds| ==> seeds[j].name != seeds[k].name)
  }

  lemma {:induction false} SeededOther(seeds: seq<Seed>, q: Path, before: Node)
    requires forall k :: 0 <= k < |seeds| ==> q != [seeds[k].name]
    ensures Seeded(seeds, q, before) == before
    decreases |seeds|
  {
    if seeds != [] {
      forall k | 0 <= k < |seeds[1..]|
        ensures q != [seeds[1..][k].name]
      {
        assert q != [seeds[k + 1].name];
      }
      SeededOther(seeds[1..], q, before);
    }
  }

  lemma {:induction false} SeededAt(seeds: seq<Seed>, k: nat, before: Node)
    requires DistinctNames(seeds) && k < |seeds|
    ensures Seeded(seeds, [seeds[k].name], before) == Regular(seeds[k].bytes)
    decreases |seeds|
  {
    if k > 0 {
      assert seeds[0].name != seeds[k].name;
      SeededAt(seeds[1..], k - 1, before);
    }
  }

  lemma {:induction false} AddAllKeeps(b: Builder, seeds: seq<Seed>)
    requires BuilderOk(b) && DistinctNames(seeds) && AddAll(b, seeds).Some?
    requires forall k :: 0 <= k < |seeds| ==> View(Finish(b), [seeds[k].name]) == Missing
    ensures var c := AddAll(b, seeds).value;
      BuilderOk(c) && forall q: Path :: View(Finish(c), q) == Seeded(seeds, q, View(Finish(b), q))
    decreases |seeds|
  {
    hide Good, View, Finish, AddFile;
    if seeds != [] {
      AddFileKeeps(b, seeds[0]);
      var c := AddFile(b, seeds[0]).value;
      forall k | 0 <= k < |seeds[1..]|
        ensures View(Finish(c), [seeds[1..][k].name]) == Missing
      {
        assert seeds[1..][k].name == seeds[k + 1].name != seeds[0].name;
        assert [seeds[k + 1].name] != [seeds[0].name] by { OneName(seeds[k + 1].name, seeds[0].name); }
      }
      AddAllKeeps(c, seeds[1..]);
      forall q: Path
        ensures View(Finish(AddAll(b, seeds).value), q) == Seeded(seeds, q, View(Finish(b), q))
      {
        if q == [seeds[0].name] {
          forall k | 0 <= k < |seeds[1..]|
            ensures q != [seeds[1..][k].name]
          {
            OneName(seeds[0].name, seeds[k + 1].name);
          }
          SeededOther(seeds[1..], q, View(Finish(c), q));
        }
      }
    }
  }

  lemma OneName(a: CString, b: CString)
    requires a != b
    ensures [a] != [b]
  {
    assert [a][0] == a && [b][0] == b;
  }

  /** An image formatted from distinct names is sound, and shows exactly the root and, under its
      name, each seeded file byte for byte. */
  lemma FormatShows(seeds: seq<Seed>)
    requires Format(seeds).Some? && DistinctNames(seeds)
    ensures var fs := Format(seeds).value;
      && Good(fs)
      && View(fs, []) == Folder
      && (forall k :: 0 <= k < |seeds| ==> View(fs, [seeds[k].name]) == Regular(seeds[k].bytes))
      && (forall q: Path :: q != [] && (forall k :: 0 <= k < |seeds| ==> q != [seeds[k].name]) ==> View(fs, q) == Missing)
  {
    hide View, Finish, AddFile, Good, AddAll;
    StartOk();
    AddAllKeeps(StartOfImage(), seeds);
    var fs := Format(seeds).value;
    BuilderGood(AddAll(StartOfImage(), seeds).value);
    SeededOther(seeds, [], Folder);
    forall k | 0 <= k < |seeds|
      ensures View(fs, [seeds[k].name]) == Regular(seeds[k].bytes)
    {
      SeededAt(seeds, k, Missing);
    }
    forall q: Path | q != [] && (forall k :: 0 <= k < |seeds| ==> q != [seeds[k].name])
      ensures View(fs, q) == Missing
    {
      SeededOther(seeds, q, Missing);
    }
  }

  lemma BuilderGood(b: Builder)
    requires BuilderOk(b)
    ensures Good(Finish(b))
  {}

  // ---------- why the names must differ ----------

  /** The entries so far are those of the seeds, in order. */
  ghost predicate Lists(b: Builder, seeds: seq<Seed>) {
    && b.count == |seeds| <= PER_BLOCK && b.nextInode == ROOT + 1 + |seeds| && ROOT_BLOCK < b.nextBlock
    && |b.fs.inodes| == INODE_COUNT && |b.fs.data| == TOTAL_BLOCKS
    && forall h: nat :: h < |seeds| ==> |seeds[h].name| < NAME_MAX && RecordAt(b.dirents, h) == Entry(ROOT + 1 + h, seeds[h].name)
  }

  lemma {:induction false} AddAllLists(b: Builder, listed: seq<Seed>, seeds: seq<Seed>)
    requires Sizes(b) && Lists(b, listed) && AddAll(b, seeds).Some?
    ensures Lists(AddAll(b, seeds).value, listed + seeds)
    decreases |seeds|
  {
    hide RecordAt, PutRecord, Entry, Placed;
    if seeds == [] {
      assert listed + seeds == listed;
    } else {
      var c := AddFile(b, seeds[0]).value;
      var more := listed + [seeds[0]];
      PlacedShapes(b, seeds[0]);
      forall h: nat | h < |more|
        ensures |more[h].name| < NAME_MAX && RecordAt(c.dirents, h) == Entry(ROOT + 1 + h, more[h].name)
      {
        RecordGetPut(b.dirents, b.count, Entry(b.nextInode, seeds[0].name), h);
      }
      AddAllLists(c, more, seeds[1..]);
      assert more + seeds[1..] == listed + seeds;
    }
  }

  lemma PlacedShapes(b: Builder, seed: Seed)
    requires Sizes(b) && AddFile(b, seed).Some?
    ensures var c := AddFile(b, seed).value; Sizes(c) && |c.fs.data| == |b.fs.data|
  {}

  /** Entry `h` of the finished root directory. */
  lemma ListedSlot(b: Builder, seeds: seq<Seed>, h: nat)
    requires Sizes(b) && Lists(b, seeds) && h < |seeds| && IsDir(Finish(b), ROOT)
    ensures Names(Finish(b), ROOT, h, ROOT + 1 + h) && SlotName(Finish(b), ROOT, h) == seeds[h].name
  {
    hide RecordAt, RecordIno, RecordName, Entry;
    var fs := Finish(b);
    assert fs.inodes[ROOT] == RootInode(b.count) && fs.data[ROOT_BLOCK] == b.dirents;
    assert FileBlock(fs, ROOT, 0) == b.dirents;
    EntryRoundTrip(ROOT + 1 + h, seeds[h].name);
  }

  /** The script does not compare names; an image it builds is sound if and only if the names are
      nonempty and distinct. */
  lemma FormatNeedsDistinct(seeds: seq<Seed>)
    requires Format(seeds).Some?
    ensures Good(Format(seeds).value) <==> DistinctNames(seeds)
  {
    hide Good, Finish, AddAll, SlotName, Names, SlotIno;
    if DistinctNames(seeds) {
      FormatShows(seeds);
    }
    if Good(Format(seeds).value) {
      var b := AddAll(StartOfImage(), seeds).value;
      StartFields();
      AddAllLists(StartOfImage(), [], seeds);
      assert [] + seeds == seeds;
      NamesDiffer(b, seeds);
    }
  }

  lemma NamesDiffer(b: Builder, seeds: seq<Seed>)
    requires Sizes(b) && Lists(b, seeds) && Good(Finish(b))
    ensures DistinctNames(seeds)
  {
    hide Finish, SlotName, SlotIno, Owned, Ranked, Names;
    var fs := Finish(b);
    RootInUse(fs);
    forall h: nat | h < |seeds|
      ensures GoodName(seeds[h].name)
    {
      ListedSlot(b, seeds, h);
    }
    forall j: nat, k: nat | j < k < |seeds|
      ensures seeds[j].name != seeds[k].name
    {
      ListedSlot(b, seeds, j);
      ListedSlot(b, seeds, k);
    }
  }

  // ---------- when an image can be built ----------

  /** The blocks that files of these sizes take: one for every 4096 bytes begun, and an indirect
      block for a file of more than 65536. */
  function BlocksTaken(seeds: seq<Seed>): nat
    decreases |seeds|
  {
    if seeds == [] then 0
    else
      var n := |seeds[0].bytes|;
      (n + 4095) / 4096 + (if n > 65536 then 1 else 0) + BlocksTaken(seeds[1..])
  }

  ghost predicate SmallEnough(seeds: seq<Seed>) {
    forall k :: 0 <= k < |seeds| ==> |seeds[k].name| <= 59 && |seeds[k].bytes| <= 4259840
  }

  lemma {:induction false} AddAllSucceeds(b: Builder, seeds: seq<Seed>)
    requires Sizes(b) && b.nextInode == ROOT + 1 + b.count && b.count + |seeds| <= 64 && b.nextBlock <= TOTAL_BLOCKS
    ensures AddAll(b, seeds).Some? <==> SmallEnough(seeds) && b.nextBlock + BlocksTaken(seeds) <= TOTAL_BLOCKS
    decreases |seeds|
  {
    hide Placed, PutRecord, Entry;
    if seeds != [] {
      var n := |seeds[0].bytes|;
      assert n <= MAX_BYTES ==> Footprint(n) == (n + 4095) / 4096 + if n > 65536 then 1 else 0;
      SmallFirst(seeds);
      if AddFile(b, seeds[0]).Some? {
        PlacedShapes(b, seeds[0]);
        AddAllSucceeds(AddFile(b, seeds[0]).value, seeds[1..]);
      }
    }
  }

  lemma SmallFirst(seeds: seq<Seed>)
    requires seeds != []
    ensures SmallEnough(seeds) <==> |seeds[0].name| <= 59 && |seeds[0].bytes| <= 4259840 && SmallEnough(seeds[1..])
  {
    assert seeds == [seeds[0]] + seeds[1..];
  }

  /** The script builds an image if and only if there are at most 64 files, every name has at most 59
      bytes and every file at most 4259840, and together they take at most 16283 blocks. */
  lemma FormatSucceeds(seeds: seq<Seed>)
    ensures Format(seeds).Some? <==> |seeds| <= 64 && SmallEnough(seeds) && BlocksTaken(seeds) <= 16283
  {
    StartFields();
    if |seeds| <= 64 {
      AddAllSucceeds(StartOfImage(), seeds);
    }
  }
}

/** A file system and the blocks that hold it: what the kernel mounts from the blocks is the file
    system, and each update the driver makes to a block is the update of the model. */
module StoredFs {
  import opened Bytes
  import opened Options
  import opened CStrings
  import opened Disk
  import opened FsState
  import opened FsBlocks
  import opened FsFile
  import opened FsTree
  import opened FsCreate
  import opened FsPaths
  import opened FsView
  import opened OnDisk

  // ---------- where everything lies ----------

  function TableEnd(sb: Super): nat {
    sb.inodeTable + (sb.inodeCount + 31) / 32
  }

  predicate InTable(sb: Super, b: nat) {
    sb.inodeTable <= b < TableEnd(sb)
  }

  predicate InLog(sb: Super, b: nat) {
    sb.journalHeader <= b < sb.journalHeader + 1 + sb.journalBlocks
  }

  /** The areas of the image lie apart, below the data, and the bitmaps are large enough. */
  predicate Coherent(sb: Super, n: nat) {
    && sb.blockSize == 4096 && 0 < sb.inodeCount <= BITS && sb.totalBlocks <= BITS && sb.totalBlocks <= n
    && 0 < sb.blockBitmap < sb.dataStart <= sb.totalBlocks && 0 < sb.inodeBitmap < sb.dataStart
    && 0 < sb.inodeTable && TableEnd(sb) <= sb.dataStart
    && 0 < sb.journalHeader && sb.journalHeader + 1 + sb.journalBlocks <= sb.dataStart
    && sb.blockBitmap != sb.inodeBitmap && !InTable(sb, sb.blockBitmap) && !InTable(sb, sb.inodeBitmap)
    && !InLog(sb, sb.blockBitmap) && !InLog(sb, sb.inodeBitmap)
    && (TableEnd(sb) <= sb.journalHeader || sb.journalHeader + 1 + sb.journalBlocks <= sb.inodeTable)
  }

  /** Block `b` holds part of the file system: it is none of the journal's. */
  predicate Meaningful(sb: Super, b: nat) {
    b == 0 || b == sb.blockBitmap || b == sb.inodeBitmap || InTable(sb, b) || sb.dataStart <= b < sb.totalBlocks
  }

  ghost predicate SuperIn(blocks: seq<Block>, sb: Super) {
    ParseSuper(BlockOr(blocks, 0)) == Some(sb)
  }

  ghost predicate InodesIn(blocks: seq<Block>, sb: Super, fs: Fs) {
    |fs.inodes| == sb.inodeCount && forall i: nat :: i < |fs.inodes| ==> ReadInode(blocks, sb.inodeTable, i) == fs.inodes[i]
  }

  ghost predicate BitsIn(blocks: seq<Block>, at: nat, map_: seq<bool>) {
    |map_| <= BITS && forall i: nat :: i < |map_| ==> BitmapGet(BlockOr(blocks, at), i) == map_[i]
  }

  ghost predicate DataIn(blocks: seq<Block>, sb: Super, fs: Fs) {
    |fs.data| == sb.totalBlocks && forall b: nat :: sb.dataStart <= b < |fs.data| ==> BlockOr(blocks, b) == fs.data[b]
  }

  /** The blocks hold file system `fs`. */
  ghost predicate Stored(blocks: seq<Block>, sb: Super, fs: Fs) {
    && Coherent(sb, |blocks|) && SuperIn(blocks, sb) && fs.dataStart == sb.dataStart
    && InodesIn(blocks, sb, fs)
    && |fs.inodeMap| == sb.inodeCount && BitsIn(blocks, sb.inodeBitmap, fs.inodeMap)
    && |fs.blockMap| == sb.totalBlocks && BitsIn(blocks, sb.blockBitmap, fs.blockMap)
    && DataIn(blocks, sb, fs)
  }

  /** The journal's blocks do not matter. */
  lemma StoredOn(blocks: seq<Block>, other: seq<Block>, sb: Super, fs: Fs)
    requires Stored(blocks, sb, fs) && |other| == |blocks|
    requires forall b: nat :: b < |blocks| && Meaningful(sb, b) ==> other[b] == blocks[b]
    ensures Stored(other, sb, fs)
  {
    hide ParseSuper, InodeOf, BitmapGet, RecordIn;
    forall i: nat | i < |fs.inodes|
      ensures ReadInode(other, sb.inodeTable, i) == fs.inodes[i]
    {
      assert ReadInode(blocks, sb.inodeTable, i) == fs.inodes[i];
      assert InTable(sb, sb.inodeTable + i / PER_INODE_BLOCK);
    }
    forall b: nat | sb.dataStart <= b < |fs.data|
      ensures BlockOr(other, b) == fs.data[b]
    {
      assert BlockOr(blocks, b) == fs.data[b] && Meaningful(sb, b);
    }
  }

  // ---------- mounting ----------

  /** The two may differ below the data area only, where no file has blocks. */
  ghost predicate SameButMetadata(fs: Fs, gs: Fs) {
    gs == fs.(data := gs.data) && |gs.data| == |fs.data| && forall b: nat :: fs.dataStart <= b < |fs.data| ==> gs.data[b] == fs.data[b]
  }

  /** Mounting the blocks that hold a file system gives that file system. */
  lemma MountStored(blocks: seq<Block>, sb: Super, fs: Fs)
    requires Stored(blocks, sb, fs)
    ensures Mount(blocks).Some? && SameButMetadata(fs, Mount(blocks).value)
  {
    hide ParseSuper, ReadInode, BitmapGet;
    var gs := Mounted(blocks, sb);
    assert gs.inodes == fs.inodes;
    assert gs.inodeMap == fs.inodeMap;
    assert gs.blockMap == fs.blockMap;
  }

  /** No path shows anything of the metadata blocks. */
  lemma MetadataInvisible(fs: Fs, gs: Fs)
    requires Good(fs) && SameButMetadata(fs, gs)
    ensures Good(gs) && forall q: Path :: View(gs, q) == View(fs, q)
  {
    hide Entries, Shapes, Ranked, ZeroTail, View, FileBlock;
    forall i: nat, k: nat, b: nat | PointsTo(fs, i, k, b)
      ensures Block_(gs, b) == Block_(fs, b)
    {
      assert DataBlock(fs, b);
    }
    SamePointers(fs, gs);
    ContentCarries(fs, gs);
    OwnedCarries(fs, gs);
    SameTreeKeeps(fs, gs);
    SameTreeView(fs, gs);
  }

  lemma OwnedCarries(fs: Fs, gs: Fs)
    requires Owned(fs) && SameButMetadata(fs, gs)
    requires forall i: nat, k: nat, b: nat :: PointsTo(gs, i, k, b) <==> PointsTo(fs, i, k, b)
    ensures Owned(gs)
  {}

  /** What a sound file system shows by path, its mounted blocks show. */
  lemma MountShows(blocks: seq<Block>, sb: Super, fs: Fs)
    requires Stored(blocks, sb, fs) && Good(fs)
    ensures Mount(blocks).Some? && Good(Mount(blocks).value)
    ensures forall q: Path :: View(Mount(blocks).value, q) == View(fs, q)
  {
    hide Stored, Good, View, Mount, SameButMetadata;
    MountStored(blocks, sb, fs);
    MetadataInvisible(fs, Mount(blocks).value);
  }

  // ---------- updates ----------

  /** Everything the driver does to the state: a record written, a bit flipped and its bitmap block
      written, a data block written. */
  datatype Update =
    | SetRecord(i: nat, x: Inode)
    | SetBlockBit(b: nat, on: bool)
    | SetInodeBit(i: nat, on: bool)
    | SetData(b: nat, y: Block)

  predicate Sensible(fs: Fs, u: Update) {
    match u
    case SetRecord(i, x) => i < |fs.inodes|
    case SetBlockBit(b, on) => b < |fs.blockMap|
    case SetInodeBit(i, on) => i < |fs.inodeMap|
    case SetData(b, y) => fs.dataStart <= b < |fs.data|
  }

  function Updated(fs: Fs, u: Update): Fs
    requires Sensible(fs, u)
  {
    match u
    case SetRecord(i, x) => PutInode(fs, i, x)
    case SetBlockBit(b, on) => fs.(blockMap := fs.blockMap[b := on])
    case SetInodeBit(i, on) => fs.(inodeMap := fs.inodeMap[i := on])
    case SetData(b, y) => PutBlock(fs, b, y)
  }

  /** The one block an update writes. */
  function TargetOf(sb: Super, u: Update): nat {
    match u
    case SetRecord(i, x) => sb.inodeTable + i / PER_INODE_BLOCK
    case SetBlockBit(b, on) => sb.blockBitmap
    case SetInodeBit(i, on) => sb.inodeBitmap
    case SetData(b, y) => b
  }

  /** What it writes there, given what the block held. A record keeps its time stamps. */
  function NewContent(u: Update, was: Block): Block
    requires u.SetBlockBit? ==> u.b < BITS
    requires u.SetInodeBit? ==> u.i < BITS
  {
    match u
    case SetRecord(i, x) =>
      WithRecord(was, i % PER_INODE_BLOCK, InodeBytes(x, ExtraOf(RecordIn(was, i % PER_INODE_BLOCK))))
    case SetBlockBit(b, on) => if on then BitmapSet(was, b) else BitmapClear(was, b)
    case SetInodeBit(i, on) => if on then BitmapSet(was, i) else BitmapClear(was, i)
    case SetData(b, y) => y
  }

  /** The blocks after an update. */
  function Written(blocks: seq<Block>, sb: Super, u: Update): (r: seq<Block>)
    requires TargetOf(sb, u) < |blocks|
    requires (u.SetBlockBit? ==> u.b < BITS) && (u.SetInodeBit? ==> u.i < BITS)
    ensures |r| == |blocks|
  {
    blocks[TargetOf(sb, u) := NewContent(u, blocks[TargetOf(sb, u)])]
  }

  lemma BitsAfter(blocks: seq<Block>, at: nat, map_: seq<bool>, i: nat, on: bool)
    requires BitsIn(blocks, at, map_) && at < |blocks| && i < |map_|
    ensures BitsIn(blocks[at := if on then BitmapSet(blocks[at], i) else BitmapClear(blocks[at], i)], at, map_[i := on])
  {
    hide BitmapGet, BitmapSet, BitmapClear;
    var b := if on then BitmapSet(blocks[at], i) else BitmapClear(blocks[at], i);
    forall j: nat | j < |map_|
      ensures BitmapGet(b, j) == map_[i := on][j]
    {
      BitmapAfter(blocks[at], i, j);
      assert BitmapGet(BlockOr(blocks, at), j) == map_[j];
    }
  }

  lemma InodesAfter(blocks: seq<Block>, sb: Super, fs: Fs, i: nat, x: Inode)
    requires InodesIn(blocks, sb, fs) && i < |fs.inodes| && TableEnd(sb) <= |blocks|
    ensures InodesIn(Written(blocks, sb, SetRecord(i, x)), sb, PutInode(fs, i, x))
  {
    var b := sb.inodeTable + i / PER_INODE_BLOCK;
    var e := ExtraOf(RecordIn(blocks[b], i % PER_INODE_BLOCK));
    assert Written(blocks, sb, SetRecord(i, x)) == WriteInode(blocks, sb.inodeTable, i, x, e);
    hide ReadInode, WriteInode, Written;
    forall j: nat | j < |fs.inodes|
      ensures ReadInode(WriteInode(blocks, sb.inodeTable, i, x, e), sb.inodeTable, j) == PutInode(fs, i, x).inodes[j]
    {
      InodeAfter(blocks, sb.inodeTable, i, x, e, j);
    }
  }

  /** Blocks that an update does not write keep what they hold. */
  lemma Untouched(blocks: seq<Block>, sb: Super, fs: Fs, at: nat, y: Block)
    requires Stored(blocks, sb, fs) && 0 < at < |blocks|
    ensures SuperIn(blocks[at := y], sb)
    ensures !InTable(sb, at) ==> InodesIn(blocks[at := y], sb, fs)
    ensures at != sb.inodeBitmap ==> BitsIn(blocks[at := y], sb.inodeBitmap, fs.inodeMap)
    ensures at != sb.blockBitmap ==> BitsIn(blocks[at := y], sb.blockBitmap, fs.blockMap)
    ensures !(sb.dataStart <= at < sb.totalBlocks) ==> DataIn(blocks[at := y], sb, fs)
  {
    hide ParseSuper, InodeOf, RecordIn, BitmapGet;
    var now := blocks[at := y];
    if !InTable(sb, at) {
      forall i: nat | i < |fs.inodes|
        ensures ReadInode(now, sb.inodeTable, i) == fs.inodes[i]
      {
        assert ReadInode(blocks, sb.inodeTable, i) == fs.inodes[i];
        assert InTable(sb, sb.inodeTable + i / PER_INODE_BLOCK);
      }
    }
  }

  lemma TargetInRange(blocks: seq<Block>, sb: Super, fs: Fs, u: Update)
    requires Stored(blocks, sb, fs) && Sensible(fs, u)
    ensures 0 < TargetOf(sb, u) < |blocks| && Meaningful(sb, TargetOf(sb, u))
    ensures (u.SetBlockBit? ==> u.b < BITS) && (u.SetInodeBit? ==> u.i < BITS)
    ensures u.SetRecord? ==> InTable(sb, TargetOf(sb, u))
  {
    hide InodesIn, BitsIn, DataIn, SuperIn;
    StoredSizes(blocks, sb, fs);
  }

  lemma StoredSizes(blocks: seq<Block>, sb: Super, fs: Fs)
    requires Stored(blocks, sb, fs)
    ensures |fs.inodes| == |fs.inodeMap| == sb.inodeCount && |fs.data| == |fs.blockMap| == sb.totalBlocks && Coherent(sb, |blocks|)
    ensures fs.dataStart == sb.dataStart
  {}

  /** An update of the state is the write of one block: the blocks then hold the updated state. */
  lemma UpdateStored(blocks: seq<Block>, sb: Super, fs: Fs, u: Update)
    requires Stored(blocks, sb, fs) && Sensible(fs, u)
    ensures 0 < TargetOf(sb, u) < |blocks| && Meaningful(sb, TargetOf(sb, u))
    ensures (u.SetBlockBit? ==> u.b < BITS) && (u.SetInodeBit? ==> u.i < BITS)
    ensures Stored(Written(blocks, sb, u), sb, Updated(fs, u))
  {
    TargetInRange(blocks, sb, fs, u);
    StoredSizes(blocks, sb, fs);
    var at := TargetOf(sb, u);
    Untouched(blocks, sb, fs, at, NewContent(u, blocks[at]));
    hide BitmapSet, BitmapClear, BitmapGet, ReadInode, ParseSuper, NewContent;
    match u
    case SetRecord(i, x) => InodesAfter(blocks, sb, fs, i, x);
    case SetBlockBit(b, on) => BitUpdate(blocks, sb, fs, u);
    case SetInodeBit(i, on) => BitUpdate(blocks, sb, fs, u);
    case SetData(b, y) => DataUpdate(blocks, sb, fs, b, y);
  }

  lemma BitUpdate(blocks: seq<Block>, sb: Super, fs: Fs, u: Update)
    requires Stored(blocks, sb, fs) && Sensible(fs, u)
    requires (u.SetBlockBit? && u.b < BITS) || (u.SetInodeBit? && u.i < BITS)
    ensures TargetOf(sb, u) < |blocks|
    ensures u.SetBlockBit? ==> BitsIn(Written(blocks, sb, u), sb.blockBitmap, Updated(fs, u).blockMap)
    ensures u.SetInodeBit? ==> BitsIn(Written(blocks, sb, u), sb.inodeBitmap, Updated(fs, u).inodeMap)
  {
    StoredSizes(blocks, sb, fs);
    if u.SetBlockBit? {
      BitsAfter(blocks, sb.blockBitmap, fs.blockMap, u.b, u.on);
    } else {
      BitsAfter(blocks, sb.inodeBitmap, fs.inodeMap, u.i, u.on);
    }
  }

  lemma DataUpdate(blocks: seq<Block>, sb: Super, fs: Fs, b: nat, y: Block)
    requires Stored(blocks, sb, fs) && fs.dataStart <= b < |fs.data|
    ensures b < |blocks| && DataIn(Written(blocks, sb, SetData(b, y)), sb, PutBlock(fs, b, y))
  {
    StoredSizes(blocks, sb, fs);
    hide ReadInode, BitmapGet, ParseSuper;
    forall c: nat | sb.dataStart <= c < |fs.data|
      ensures BlockOr(blocks[b := y], c) == PutBlock(fs, b, y).data[c]
    {
      assert BlockOr(blocks, c) == fs.data[c];
    }
  }
}

/** The bytes of a formatted image (scripts/mkosfs2.py) and what the kernel mounts from them:
    superblock, bitmaps and inode table packed by the script, unpacked by kernel/core/osfs2.c. */
module FormatOnDisk {
  import opened Bytes
  import opened Options
  import opened CStrings
  import opened Disk
  import opened FsState
  import opened FsBlocks
  import opened FsFile
  import opened FsDirectory
  import opened FsTree
  import opened FsCreate
  import opened FsPaths
  import opened FsView
  import opened FormatImage
  import opened OnDisk
  import opened StoredFs
  import opened PathStrings
  import FsHandles
  import Journal

  const INODE_TABLE: nat := 3
  const TABLE_BLOCKS: nat := 64
  const JOURNAL_HEADER: nat := 67
  const JOURNAL_BLOCKS: nat := 32
  const SUPER: Super := Super(4096, TOTAL_BLOCKS, INODE_COUNT, 1, 2, INODE_TABLE, TABLE_BLOCKS, DATA_START, ROOT,
                              JOURNAL_HEADER, JOURNAL_BLOCKS, 0)

  /** The parts of the state have the sizes of the image. */
  predicate ImageSized(fs: Fs) {
    && |fs.inodes| == |fs.inodeMap| == INODE_COUNT && |fs.data| == |fs.blockMap| == TOTAL_BLOCKS && fs.dataStart == DATA_START
  }

  /** Block `b` of the image file. */
  function ImageBlock(fs: Fs, b: nat): Block
    requires ImageSized(fs) && b < TOTAL_BLOCKS
  {
    if b == 0 then SuperBytes(SUPER)
    else if b == 1 then BitmapOf(fs.blockMap, TOTAL_BLOCKS)
    else if b == 2 then BitmapOf(fs.inodeMap, INODE_COUNT)
    else if b < INODE_TABLE + TABLE_BLOCKS then
      TableBytes(fs.inodes, INODE_COUNT)[4096 * (b - INODE_TABLE)..4096 * (b - INODE_TABLE) + 4096]
    else fs.data[b]
  }

  function ImageOf(fs: Fs): (image: seq<Block>)
    requires ImageSized(fs)
    ensures |image| == TOTAL_BLOCKS && forall b: nat :: b < TOTAL_BLOCKS ==> image[b] == ImageBlock(fs, b)
  {
    seq<Block>(TOTAL_BLOCKS, (b: nat) requires b < TOTAL_BLOCKS => ImageBlock(fs, b))
  }

  /** Record `i` of the contiguous table is where the kernel looks for it. */
  lemma TableRecord(fs: Fs, i: nat)
    requires ImageSized(fs) && i < INODE_COUNT
    ensures ReadInode(ImageOf(fs), INODE_TABLE, i) == fs.inodes[i]
  {
    hide InodeOf, InodeBytes, TableBytes, SuperBytes, BitmapOf;
    var t := TableBytes(fs.inodes, INODE_COUNT);
    var b, j := INODE_TABLE + i / PER_INODE_BLOCK, i % PER_INODE_BLOCK;
    assert BlockOr(ImageOf(fs), b) == ImageBlock(fs, b);
    assert 4096 * (b - INODE_TABLE) + 128 * j == 128 * i;
    SliceOfSlice(t, 4096 * (b - INODE_TABLE), 4096, 128 * j, 128);
    TableBytesAt(fs.inodes, INODE_COUNT, i);
    InodeRoundTrip(fs.inodes[i], NO_EXTRA);
  }

  lemma SliceOfSlice(t: seq<byte>, at: nat, n: nat, off: nat, k: nat)
    requires at + n <= |t| && off + k <= n
    ensures t[at..at + n][off..off + k] == t[at + off..at + off + k]
  {
    var a, b := t[at..at + n][off..off + k], t[at + off..at + off + k];
    forall q: nat | q < k
      ensures a[q] == b[q]
    {
      assert a[q] == t[at..at + n][off + q] == t[at + off + q];
    }
  }

  /** The image holds the file system the script built. */
  lemma ImageStored(fs: Fs)
    requires ImageSized(fs)
    ensures Stored(ImageOf(fs), SUPER, fs)
  {
    hide ParseSuper, SuperBytes, BitmapOf, TableBytes, BitmapGet, ReadInode;
    var image := ImageOf(fs);
    SuperRoundTrip(SUPER);
    assert BlockOr(image, 0) == ImageBlock(fs, 0) && BlockOr(image, 1) == ImageBlock(fs, 1) && BlockOr(image, 2) == ImageBlock(fs, 2);
    forall i: nat | i < INODE_COUNT
      ensures ReadInode(image, INODE_TABLE, i) == fs.inodes[i]
    {
      TableRecord(fs, i);
    }
    forall i: nat | i < INODE_COUNT
      ensures BitmapGet(BlockOr(image, 2), i) == fs.inodeMap[i]
    {
      BitmapOfGet(fs.inodeMap, INODE_COUNT, i);
    }
    forall b: nat | b < TOTAL_BLOCKS
      ensures BitmapGet(BlockOr(image, 1), b) == fs.blockMap[b]
    {
      BitmapOfGet(fs.blockMap, TOTAL_BLOCKS, b);
    }
    forall b: nat | DATA_START <= b < TOTAL_BLOCKS
      ensures BlockOr(image, b) == fs.data[b]
    {
      assert image[b] == ImageBlock(fs, b);
    }
  }

  // ---------- what the script leaves alone ----------

  /** Blocks before the data area and records not handed out are as they were at the start. */
  ghost predicate Plain(b: Builder) {
    && ImageSized(b.fs) && b.count <= PER_BLOCK && ROOT_BLOCK < b.nextBlock && ROOT < b.nextInode
    && (forall c: nat :: c < DATA_START ==> b.fs.data[c] == ZERO)
    && (forall i: nat :: i < INODE_COUNT && (i <= ROOT || i >= b.nextInode) ==> b.fs.inodes[i] == UNUSED)
    && (forall i: nat :: i < INODE_COUNT ==> b.fs.inodeMap[i] == (i < b.nextInode))
  }

  lemma PlainNext(b: Builder, seed: Seed)
    requires Plain(b) && AddFile(b, seed).Some?
    ensures Plain(AddFile(b, seed).value)
  {
    hide PlacedBlock, FileInode, Entry, PutRecord;
  }

  lemma {:induction false} PlainAll(b: Builder, seeds: seq<Seed>)
    requires Plain(b) && AddAll(b, seeds).Some?
    ensures Plain(AddAll(b, seeds).value)
    decreases |seeds|
  {
    hide AddFile, Plain;
    PlainSizes(b);
    if seeds != [] {
      PlainNext(b, seeds[0]);
      PlainAll(AddFile(b, seeds[0]).value, seeds[1..]);
    }
  }

  lemma PlainSizes(b: Builder)
    requires Plain(b)
    ensures Sizes(b)
  {}

  lemma PlainStart()
    ensures Plain(StartOfImage())
  {
    hide Fill;
    StartFields();
  }

  lemma FormatSized(seeds: seq<Seed>)
    requires Format(seeds).Some?
    ensures var fs := Format(seeds).value;
      && ImageSized(fs) && (forall c: nat :: c < DATA_START ==> fs.data[c] == ZERO)
      && (forall i: nat :: i < INODE_COUNT && i != ROOT && !fs.inodeMap[i] ==> fs.inodes[i] == UNUSED)
  {
    hide AddAll, StartOfImage;
    PlainStart();
    PlainAll(StartOfImage(), seeds);
  }

  // ---------- the round trip ----------

  /** The bytes the script writes out. */
  function FormatBytes(seeds: seq<Seed>): Option<seq<Block>> {
    if Format(seeds).None? then None
    else
      FormatSized(seeds);
      Some(ImageOf(Format(seeds).value))
  }

  /** What the kernel mounts from those bytes. */
  function MountedImage(seeds: seq<Seed>): Fs
    requires FormatBytes(seeds).Some?
  {
    FormatSized(seeds);
    ImageStored(Format(seeds).value);
    MountStored(FormatBytes(seeds).value, SUPER, Format(seeds).value);
    Mount(FormatBytes(seeds).value).value
  }

  /** The kernel mounts every image the script writes: there is nothing to replay, and it reads the
      same inode table and bitmaps, and the same data blocks. */
  lemma FormatMounts(seeds: seq<Seed>, g: Journal.Geometry)
    requires FormatBytes(seeds).Some?
    ensures var image := FormatBytes(seeds).value;
      && |image| == TOTAL_BLOCKS && Mount(image) == Some(MountedImage(seeds))
      && !Journal.Committed(g, Journal.ParseHeader(image[JOURNAL_HEADER]))
      && SameButMetadata(Format(seeds).value, MountedImage(seeds))
  {
    hide Format, Mount, Stored, ImageBlock, Journal.Committed, Journal.ParseHeader;
    var fs := Format(seeds).value;
    FormatSized(seeds);
    ImageStored(fs);
    MountStored(ImageOf(fs), SUPER, fs);
    HeaderBlock(fs);
    Journal.ZeroIsUncommitted(g, ZERO);
  }

  lemma HeaderBlock(fs: Fs)
    requires ImageSized(fs) && fs.data[JOURNAL_HEADER] == ZERO
    ensures ImageOf(fs)[JOURNAL_HEADER] == ZERO && ZERO[..152] == Zeros(152)
  {}

  /** From distinct names the mounted file system is sound, by number too, and shows exactly the
      root and, under its name, each seeded file byte for byte. */
  lemma MountedImageShows(seeds: seq<Seed>)
    requires FormatBytes(seeds).Some? && DistinctNames(seeds)
    ensures var fs := MountedImage(seeds);
      && Good(fs) && FsHandles.Sound(fs)
      && View(fs, []) == Folder
      && (forall k :: 0 <= k < |seeds| ==> View(fs, [seeds[k].name]) == Regular(seeds[k].bytes))
      && (forall q: Path :: q != [] && (forall k :: 0 <= k < |seeds| ==> q != [seeds[k].name]) ==> View(fs, q) == Missing)
  {
    hide Format, MountedImage, View, Good, SameButMetadata, FsHandles.Sound, FormatBytes;
    FormatMounts(seeds, Journal.Geometry(0, 0, 0));
    BytesOfFormat(seeds);
    FormatShows(seeds);
    MetadataInvisible(Format(seeds).value, MountedImage(seeds));
    FormatSized(seeds);
    UnusedRecords(Format(seeds).value, MountedImage(seeds));
    FsHandles.FreshRecords(MountedImage(seeds));
  }

  lemma BytesOfFormat(seeds: seq<Seed>)
    requires FormatBytes(seeds).Some?
    ensures Format(seeds).Some?
  {}

  lemma UnusedRecords(fs: Fs, gs: Fs)
    requires ImageSized(fs) && SameButMetadata(fs, gs) && Good(fs)
    requires forall i: nat :: i < INODE_COUNT && i != ROOT && !fs.inodeMap[i] ==> fs.inodes[i] == UNUSED
    ensures forall i: nat :: FsHandles.Numbered(gs, i) && !Live(gs, i) ==>
      gs.inodes[i].direct == NO_POINTERS && gs.inodes[i].indirect == 0 && gs.inodes[i].size <= MAX_BYTES
  {
    hide Owned, Entries, Ranked, ZeroTail;
  }

  // ---------- by path string ----------

  /** The script gives up on longer names. */
  lemma ShortName(seeds: seq<Seed>, k: nat)
    requires FormatBytes(seeds).Some? && k < |seeds|
    ensures |seeds[k].name| < NAME_MAX
  {
    hide AddAll, Finish, RecordAt, Entry;
    StartFields();
    AddAllLists(StartOfImage(), [], seeds);
    assert [] + seeds == seeds;
  }

  /** Each seeded file whose name has no slash is read back under its name, at any offset. */
  lemma LookupThenRead(seeds: seq<Seed>, k: nat, offset: nat, len: nat)
    requires FormatBytes(seeds).Some? && DistinctNames(seeds) && k < |seeds| && SlashFree(seeds[k].name)
    ensures var fs, path := MountedImage(seeds), PathStrings.Join([seeds[k].name]);
      Readable(path) && ReadFile(fs, WalkString(fs, path), offset, len) == Got(FsHandles.Stretch(seeds[k].bytes, offset, len))
  {
    hide MountedImage, View, Good, Walk, ReadFile, FormatBytes, FsHandles.Sound;
    MountedImageShows(seeds);
    var fs := MountedImage(seeds);
    ShortName(seeds, k);
    assert forall j :: 0 <= j < 1 ==> [seeds[k].name][j] == seeds[k].name;
    WalkJoined(fs, [seeds[k].name]);
    ReadView(fs, [seeds[k].name], offset, len);
  }

  /** A seeded file can be reached by some path string if and only if its name has no slash. */
  lemma Reachable(seeds: seq<Seed>, k: nat)
    requires FormatBytes(seeds).Some? && DistinctNames(seeds) && k < |seeds|
    ensures var fs := MountedImage(seeds);
      (exists s: CString :: Readable(s) && WalkString(fs, s) == Walk(fs, ROOT, [seeds[k].name]) != 0) <==> SlashFree(seeds[k].name)
  {
    hide MountedImage, View, Good, Walk, FormatBytes, FsHandles.Sound, WalkString, Split, CutAll, Readable;
    MountedImageShows(seeds);
    var fs, path := MountedImage(seeds), [seeds[k].name];
    assert View(fs, path) == Regular(seeds[k].bytes);
    Leads(fs, path);
    if SlashFree(seeds[k].name) {
      ShortName(seeds, k);
      WalkJoined(fs, path);
      assert Readable(PathStrings.Join(path)) && WalkString(fs, PathStrings.Join(path)) == Walk(fs, ROOT, path);
    }
    if s: CString :| Readable(s) && WalkString(fs, s) == Walk(fs, ROOT, path) != 0 {
      WalkStringIs(fs, s);
      GoodIsTree(fs);
      PathsDistinct(fs, CutAll(Split(s)), path);
      SplitIsComponents(s);
      CutLength(Split(s));
      CutComponents(Split(s), 0);
      assert CutAll(Split(s))[0] == seeds[k].name;
    }
  }

  lemma CutLength(path: Path)
    ensures |CutAll(path)| == |path|
  {}

  lemma GoodIsTree(fs: Fs)
    requires Good(fs)
    ensures Tree(fs)
  {}

  lemma Leads(fs: Fs, path: Path)
    requires View(fs, path) != Missing
    ensures Walk(fs, ROOT, path) != 0
  {
    hide Walk, Contents;
  }
}

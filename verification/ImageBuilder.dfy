/** The formatter as it runs (scripts/mkosfs2.py): bitmaps, inode table and blocks filled in place
    with moving cursors. */
module ImageBuilder {
  import opened Bytes
  import opened Options
  import opened Disk
  import opened FsState
  import opened FsFile
  import opened FsDirectory
  import FsTree
  import opened FormatImage
  import opened OnDisk
  import opened FormatOnDisk

  class Image {
    const blocks: array<Block>
    const blockBitmap: array<bool>
    const inodeBitmap: array<bool>
    const inodeTable: array<Inode>
    var nextBlock: nat
    var nextInode: nat
    var dirents: Block
    var count: nat

    ghost predicate Shape()
      reads this, blocks
    {
      && blocks.Length == blockBitmap.Length == TOTAL_BLOCKS && inodeBitmap.Length == inodeTable.Length == INODE_COUNT
      && blockBitmap != inodeBitmap && ROOT_BLOCK < nextBlock && count <= PER_BLOCK
      && forall c :: nextBlock <= c < TOTAL_BLOCKS ==> blocks[c] == ZERO
    }

    ghost predicate Valid()
      reads this, blocks
    {
      Shape() && nextBlock <= TOTAL_BLOCKS
    }

    ghost function Build(): Builder
      reads this, blocks, blockBitmap, inodeBitmap, inodeTable
    {
      Builder(Fs(DATA_START, inodeTable[..], inodeBitmap[..], blockBitmap[..], blocks[..]), nextBlock, nextInode, dirents, count)
    }

    /** The zeroed image, metadata blocks and the root's block marked, inodes 0 and 1 marked. */
    constructor ()
      ensures Valid() && fresh(blocks) && fresh(blockBitmap) && fresh(inodeBitmap) && fresh(inodeTable)
      ensures Build() == StartOfImage()
    {
      blocks := new Block[TOTAL_BLOCKS](_ => ZERO);
      inodeTable := new Inode[INODE_COUNT](_ => UNUSED);
      var bits := MarkFirst(TOTAL_BLOCKS, ROOT_BLOCK + 1);
      blockBitmap := bits;
      bits := MarkFirst(INODE_COUNT, ROOT + 1);
      inodeBitmap := bits;
      nextBlock, nextInode, dirents, count := ROOT_BLOCK + 1, ROOT + 1, ZERO, 0;
      new;
      hide Fill;
      StartFields();
      assert Build() == StartOfImage() by { Same(); }
    }

    lemma Same()
      requires |Build().fs.data| == |Build().fs.blockMap| == TOTAL_BLOCKS && |Build().fs.inodes| == |Build().fs.inodeMap| == INODE_COUNT
      requires forall c: nat :: c < TOTAL_BLOCKS ==> blocks[c] == ZERO && blockBitmap[c] == (c < ROOT_BLOCK + 1)
      requires forall i: nat :: i < INODE_COUNT ==> inodeTable[i] == UNUSED && inodeBitmap[i] == (i < ROOT + 1)
      requires nextBlock == ROOT_BLOCK + 1 && nextInode == ROOT + 1 && dirents == ZERO && count == 0
      ensures Build() == StartOfImage()
    {
      hide Fill;
      StartFields();
      var b := StartOfImage();
      assert blocks[..] == b.fs.data && blockBitmap[..] == b.fs.blockMap;
      assert inodeBitmap[..] == b.fs.inodeMap && inodeTable[..] == b.fs.inodes;
    }

    /** A bitmap with its first `n` bits set. */
    static method MarkFirst(size: nat, n: nat) returns (bits: array<bool>)
      requires n <= size
      ensures fresh(bits) && bits.Length == size && forall k: nat :: k < size ==> bits[k] == (k < n)
    {
      bits := new bool[size](_ => false);
      for k := 0 to n
        invariant forall j: nat :: j < size ==> bits[j] == (j < k)
      {
        bits[k] := true;
      }
    }

    /** Takes the next block for `chunk`; fails when the data section is full. */
    method TakeBlock(chunk: seq<byte>) returns (ok: bool, blk: nat)
      requires Shape() && |chunk| <= 4096
      modifies `nextBlock, blocks, blockBitmap
      ensures ok <==> old(nextBlock) < TOTAL_BLOCKS
      ensures ok ==> Valid() && blk == old(nextBlock) && nextBlock == blk + 1
      ensures ok ==> blocks[..] == old(blocks[..])[blk := Splice(ZERO, 0, chunk)] && blockBitmap[..] == old(blockBitmap[..])[blk := true]
    {
      blk := nextBlock;
      nextBlock := nextBlock + 1;
      if nextBlock > TOTAL_BLOCKS {
        return false, 0;
      }
      blockBitmap[blk] := true;
      blocks[blk] := Splice(blocks[blk], 0, chunk);
      ok := true;
    }

    /** The next block's worth of the file, and where the cursor goes. */
    static function Next(bytes: seq<byte>, cursor: nat): (to: nat)
      requires cursor <= |bytes|
      ensures cursor <= to <= |bytes| && to - cursor <= 4096
    {
      if cursor + 4096 <= |bytes| then cursor + 4096 else |bytes|
    }

    /** The loop over the direct blocks. */
    method LayDirect(bytes: seq<byte>) returns (ok: bool, direct: Pointers, cursor: nat)
      requires Valid() && |bytes| <= MAX_BYTES
      modifies `nextBlock, blocks, blockBitmap
      ensures var n := if BlockCount(|bytes|) < DIRECT then BlockCount(|bytes|) else DIRECT;
        && (ok <==> old(nextBlock) + n <= TOTAL_BLOCKS || n == 0)
        && (ok ==> Valid() && nextBlock == old(nextBlock) + n && cursor == CursorAt(bytes, n))
        && (ok ==> forall k: nat :: k < DIRECT ==> direct[k] == if k < n then old(nextBlock) + k else 0)
        && (ok ==> Laid(old(blocks[..]), blocks[..], old(blockBitmap[..]), blockBitmap[..], bytes, old(nextBlock), n))
    {
      hide ChunkBlock, Splice;
      ghost var was, map_, start := blocks[..], blockBitmap[..], nextBlock;
      direct, cursor, ok := NO_POINTERS, 0, true;
      var i := 0;
      while i < DIRECT && cursor < |bytes|
        invariant Valid() && i <= DIRECT && nextBlock == start + i && cursor == CursorAt(bytes, i) && i <= BlockCount(|bytes|)
        invariant i > 0 ==> nextBlock <= TOTAL_BLOCKS
        invariant forall k: nat :: k < DIRECT ==> direct[k] == if k < i then start + k else 0
        invariant Laid(was, blocks[..], map_, blockBitmap[..], bytes, start, i)
      {
        var to := Next(bytes, cursor);
        var blk;
        ok, blk := TakeBlock(bytes[cursor..to]);
        if !ok {
          return;
        }
        OneChunk(bytes, i);
        direct := direct[i := blk];
        cursor, i := to, i + 1;
      }
    }

    /** The loop over the blocks behind the indirect one; the table is written at the end. */
    method LayIndirect(bytes: seq<byte>) returns (ok: bool, indirect: u32)
      requires Valid() && 4096 * DIRECT < |bytes| <= MAX_BYTES
      modifies `nextBlock, blocks, blockBitmap
      ensures var n := BlockCount(|bytes|) - DIRECT;
        && (ok <==> old(nextBlock) + 1 + n <= TOTAL_BLOCKS)
        && (ok ==> Valid() && nextBlock == old(nextBlock) + 1 + n && indirect == old(nextBlock) >= DIRECT)
        && (ok ==> LaidBehind(old(blocks[..]), blocks[..], old(blockBitmap[..]), blockBitmap[..], bytes, indirect, n)
                   && blocks[indirect] == TableBlock(indirect - DIRECT, n))
    {
      hide ChunkBlock, Splice, TablePut, LaidBehind;
      ghost var was, map_ := blocks[..], blockBitmap[..];
      var ind := nextBlock;
      BehindStart(was, map_, bytes, ind);
      nextBlock := nextBlock + 1;
      if ind < TOTAL_BLOCKS {
        blockBitmap[ind] := true;
      }
      var table: Block, cursor, j := ZERO, 4096 * DIRECT, 0;
      ok := true;
      while cursor < |bytes|
        invariant Shape() && nextBlock == ind + 1 + j && cursor == CursorAt(bytes, DIRECT + j) && j <= BlockCount(|bytes|) - DIRECT
        invariant j > 0 ==> nextBlock <= TOTAL_BLOCKS
        invariant ind < TOTAL_BLOCKS ==> LaidBehind(was, blocks[..], map_, blockBitmap[..], bytes, ind, j) && blocks[ind] == ZERO
        invariant j > 0 ==> table == TableBlock(ind - DIRECT, j)
        invariant j == 0 ==> table == ZERO
      {
        var to := Next(bytes, cursor);
        var blk;
        label before:
        ok, blk := TakeBlock(bytes[cursor..to]);
        if !ok {
          return false, 0;
        }
        OneChunk(bytes, DIRECT + j);
        assert LaidBehind(was, blocks[..], map_, blockBitmap[..], bytes, ind, j + 1) by {
          BehindMore(was, old@before(blocks[..]), map_, old@before(blockBitmap[..]), bytes, ind, j);
        }
        table := TablePut(table, j, blk);
        cursor, j := to, j + 1;
      }
      BehindAny(was, blocks[..], map_, blockBitmap[..], bytes, ind, j, table);
      blocks[ind] := table;
      indirect := ind;
    }

    /** One seed file: its inode, its blocks, its entry. */
    method Add(seed: Seed) returns (ok: bool)
      requires Valid()
      modifies this, blocks, blockBitmap, inodeBitmap, inodeTable
      ensures ok <==> AddFile(old(Build()), seed).Some?
      ensures ok ==> Valid() && Build() == AddFile(old(Build()), seed).value
    {
      hide PutRecord, Entry, LaidOut, Marked, DirectPointers;
      if |seed.bytes| > MAX_BYTES {
        return false;
      }
      var ino := nextInode;
      nextInode := nextInode + 1;
      if ino >= INODE_COUNT {
        return false;
      }
      inodeBitmap[ino] := true;
      var direct, indirect;
      ok, direct, indirect := Lay(seed.bytes);
      if !ok {
        return;
      }
      inodeTable[ino] := Inode(File, |seed.bytes|, 1, FsTree.NEW_MODE_FILE, direct, indirect);
      if count >= PER_BLOCK || |seed.name| >= NAME_MAX {
        return false;
      }
      dirents := PutRecord(dirents, count, Entry(ino, seed.name));
      count := count + 1;
      assert inodeTable[..] == old(inodeTable[..])[ino := inodeTable[ino]];
    }

    /** The blocks of one file. */
    method Lay(bytes: seq<byte>) returns (ok: bool, direct: Pointers, indirect: u32)
      requires Valid() && |bytes| <= MAX_BYTES
      modifies `nextBlock, blocks, blockBitmap
      ensures ok <==> Fits(old(nextBlock), |bytes|)
      ensures ok ==> Valid() && nextBlock == old(nextBlock) + Footprint(|bytes|)
      ensures ok ==> blocks[..] == LaidOut(old(blocks[..]), old(nextBlock), bytes)
      ensures ok ==> blockBitmap[..] == Marked(old(blockBitmap[..]), old(nextBlock), nextBlock)
      ensures ok ==> FileInode(old(nextBlock), |bytes|) == Inode(File, |bytes|, 1, FsTree.NEW_MODE_FILE, direct, indirect)
    {
      hide ChunkBlock, TableBlock, Laid, LaidBehind, LaidOut, Marked;
      ghost var start, was, map_ := nextBlock, blocks[..], blockBitmap[..];
      var cursor;
      indirect := 0;
      ok, direct, cursor := LayDirect(bytes);
      if !ok {
        return;
      }
      if cursor < |bytes| {
        ghost var mid, bits := blocks[..], blockBitmap[..];
        ok, indirect := LayIndirect(bytes);
        if !ok {
          return;
        }
        LaidBoth(was, mid, blocks[..], map_, bits, blockBitmap[..], bytes, start);
      } else {
        LaidDirectly(was, blocks[..], map_, blockBitmap[..], bytes, start);
      }
      assert direct == DirectPointers(start, BlockCount(|bytes|));
    }

    /** The root directory's inode and block go in last; the result is what the kernel mounts. */
    method Close() returns (fs: Fs)
      requires Valid()
      modifies inodeTable, blocks
      ensures fs == Finish(old(Build()))
    {
      inodeTable[ROOT] := RootInode(count);
      blocks[ROOT_BLOCK] := dirents;
      fs := Fs(DATA_START, inodeTable[..], inodeBitmap[..], blockBitmap[..], blocks[..]);
      assert fs.inodes == old(inodeTable[..])[ROOT := RootInode(count)] && fs.data == old(blocks[..])[ROOT_BLOCK := dirents];
    }
  }

  /** `format_image`. */
  method FormatFiles(seeds: seq<Seed>) returns (r: Option<Fs>)
    ensures r == Format(seeds)
  {
    hide AddFile, Finish;
    if |seeds| > PER_BLOCK {
      return None;
    }
    var image := new Image();
    var i := 0;
    while i < |seeds|
      invariant 0 <= i <= |seeds| && image.Valid() && fresh(image)
      invariant fresh(image.blocks) && fresh(image.blockBitmap) && fresh(image.inodeBitmap) && fresh(image.inodeTable)
      invariant Sizes(image.Build()) && AddAll(StartOfImage(), seeds) == AddAll(image.Build(), seeds[i..])
    {
      assert seeds[i..][0] == seeds[i] && seeds[i..][1..] == seeds[i + 1..];
      var ok := image.Add(seeds[i]);
      if !ok {
        return None;
      }
      i := i + 1;
    }
    var fs := image.Close();
    r := Some(fs);
  }

  // ---------- packing ----------

  /** The bits of a bitmap set one by one in a zeroed block. */
  method PackBits(map_: seq<bool>) returns (b: Block)
    requires |map_| <= BITS
    ensures b == BitmapOf(map_, |map_|)
  {
    hide BitmapSet;
    b := ZERO;
    for i := 0 to |map_|
      invariant b == BitmapOf(map_, i)
    {
      if map_[i] {
        b := BitmapSet(b, i);
      }
    }
  }

  /** The records packed one after another. */
  method PackTable(inodes: seq<Inode>) returns (t: seq<byte>)
    ensures t == TableBytes(inodes, |inodes|)
  {
    hide InodeBytes;
    t := [];
    for i := 0 to |inodes|
      invariant t == TableBytes(inodes, i)
    {
      t := t + InodeBytes(inodes[i], NO_EXTRA);
    }
  }

  /** Superblock, bitmaps and inode table go to their blocks. */
  method PlaceMetadata(fs: Fs) returns (image: seq<Block>)
    requires ImageSized(fs)
    ensures image == ImageOf(fs)
  {
    hide SuperBytes, BitmapOf, TableBytes;
    var blockBits := PackBits(fs.blockMap);
    var inodeBits := PackBits(fs.inodeMap);
    var table := PackTable(fs.inodes);
    image := fs.data[0 := SuperBytes(SUPER)][1 := blockBits][2 := inodeBits];
    for k := 0 to TABLE_BLOCKS
      invariant |image| == TOTAL_BLOCKS
      invariant forall b: nat :: b < INODE_TABLE + k ==> image[b] == ImageBlock(fs, b)
      invariant forall b: nat :: INODE_TABLE + k <= b < TOTAL_BLOCKS ==> image[b] == fs.data[b]
    {
      image := image[INODE_TABLE + k := table[4096 * k..4096 * k + 4096]];
    }
  }

  /** `format_image`, down to the bytes written out. */
  method FormatImageFile(seeds: seq<Seed>) returns (r: Option<seq<Block>>)
    ensures r == FormatBytes(seeds)
  {
    hide Format, ImageBlock;
    var fs := FormatFiles(seeds);
    if fs.None? {
      return None;
    }
    FormatSized(seeds);
    var image := PlaceMetadata(fs.value);
    r := Some(image);
  }

  /** How far the cursor is after `n` blocks. */
  function CursorAt(bytes: seq<byte>, n: nat): nat {
    if 4096 * n <= |bytes| then 4096 * n else |bytes|
  }

  /** Blocks `start .. start + n` hold the first blocks of the file and are marked; the rest is as
      it was. */
  ghost predicate Laid(was: seq<Block>, now: seq<Block>, map_: seq<bool>, bits: seq<bool>, bytes: seq<byte>, start: nat, n: nat) {
    && |now| == |was| && |bits| == |map_|
    && (forall c: nat :: c < |was| ==> now[c] == if start <= c < start + n then ChunkBlock(bytes, c - start) else was[c])
    && (forall c: nat :: c < |map_| ==> bits[c] == (map_[c] || start <= c < start + n))
  }

  /** Behind block `ind` come the file's blocks from the seventeenth on; all these are marked, and
      what `ind` itself holds is not said. */
  ghost predicate LaidBehind(was: seq<Block>, now: seq<Block>, map_: seq<bool>, bits: seq<bool>, bytes: seq<byte>, ind: nat, n: nat) {
    && |now| == |was| && |bits| == |map_|
    && (forall c: nat :: c < |was| && c != ind ==> now[c] == if ind < c <= ind + n then ChunkBlock(bytes, c - ind - 1 + DIRECT) else was[c])
    && (forall c: nat :: c < |map_| ==> bits[c] == (map_[c] || ind <= c <= ind + n))
  }

  /** The direct blocks alone are the whole layout of a small file. */
  lemma LaidDirectly(was: seq<Block>, now: seq<Block>, map_: seq<bool>, bits: seq<bool>, bytes: seq<byte>, start: nat)
    requires Fits(start, |bytes|) && BlockCount(|bytes|) <= DIRECT
    requires Laid(was, now, map_, bits, bytes, start, BlockCount(|bytes|))
    ensures now == LaidOut(was, start, bytes) && bits == Marked(map_, start, start + Footprint(|bytes|))
  {
    hide ChunkBlock;
  }

  /** Direct blocks, then the indirect block and those behind it, are the layout of a large one. */
  lemma LaidBoth(was: seq<Block>, mid: seq<Block>, now: seq<Block>, map_: seq<bool>, half: seq<bool>, bits: seq<bool>, bytes: seq<byte>, start: nat)
    requires Fits(start, |bytes|) && BlockCount(|bytes|) > DIRECT && |was| == TOTAL_BLOCKS
    requires Laid(was, mid, map_, half, bytes, start, DIRECT)
    requires LaidBehind(mid, now, half, bits, bytes, start + DIRECT, BlockCount(|bytes|) - DIRECT)
    requires now[start + DIRECT] == TableBlock(start, BlockCount(|bytes|) - DIRECT)
    ensures now == LaidOut(was, start, bytes) && bits == Marked(map_, start, start + Footprint(|bytes|))
  {
    hide ChunkBlock, TableBlock;
    var data := LaidOut(was, start, bytes);
    forall c: nat | c < |was|
      ensures now[c] == data[c]
    {
    }
  }

  lemma BehindStart(was: seq<Block>, map_: seq<bool>, bytes: seq<byte>, ind: nat)
    ensures ind < |map_| ==> LaidBehind(was, was, map_, map_[ind := true], bytes, ind, 0)
  {}

  lemma BehindMore(was: seq<Block>, now: seq<Block>, map_: seq<bool>, bits: seq<bool>, bytes: seq<byte>, ind: nat, n: nat)
    requires LaidBehind(was, now, map_, bits, bytes, ind, n) && ind + 1 + n < |was| && ind + 1 + n < |map_|
    ensures LaidBehind(was, now[ind + 1 + n := ChunkBlock(bytes, n + DIRECT)], map_, bits[ind + 1 + n := true], bytes, ind, n + 1)
  {
    hide ChunkBlock;
  }

  lemma BehindAny(was: seq<Block>, now: seq<Block>, map_: seq<bool>, bits: seq<bool>, bytes: seq<byte>, ind: nat, n: nat, t: Block)
    requires LaidBehind(was, now, map_, bits, bytes, ind, n) && ind < |was|
    ensures LaidBehind(was, now[ind := t], map_, bits, bytes, ind, n)
  {
    hide ChunkBlock;
  }

  /** A chunk written into a zeroed block is that block of the file. */
  lemma OneChunk(bytes: seq<byte>, lbn: nat)
    requires 4096 * lbn < |bytes|
    ensures var from := CursorAt(bytes, lbn);
      from < |bytes| && Splice(ZERO, 0, bytes[from..Image.Next(bytes, from)]) == ChunkBlock(bytes, lbn)
    ensures Image.Next(bytes, CursorAt(bytes, lbn)) == CursorAt(bytes, lbn + 1)
  {
    var chunk := bytes[4096 * lbn..Image.Next(bytes, 4096 * lbn)];
    forall q: nat | q < 4096
      ensures Splice(ZERO, 0, chunk)[q] == ChunkBlock(bytes, lbn)[q]
    {
      SpliceByte(ZERO, 0, chunk, q);
    }
  }
}

/** OSFS-2 as bytes: inode records, bitmaps and the superblock as scripts/mkosfs2.py packs them and
    as kernel/core/osfs2.c reads and updates them. */
module OnDisk {
  import opened Bytes
  import opened Options
  import opened Disk
  import opened FsState

  // ---------- words ----------

  /** 32-bit fields one after another. */
  function Pack(ws: seq<u32>): (s: seq<byte>)
    ensures |s| == 4 * |ws|
  {
    if ws == [] then [] else Pack(ws[..|ws| - 1]) + Le32(ws[|ws| - 1])
  }

  /** The 32-bit field at offset `at`. */
  function Field(s: seq<byte>, at: nat): u32
    requires at + 4 <= |s|
  {
    De32(s[at..at + 4])
  }

  lemma {:induction false} FieldOfPack(ws: seq<u32>, rest: seq<byte>, k: nat)
    requires k < |ws|
    ensures Field(Pack(ws) + rest, 4 * k) == ws[k]
    decreases |ws|
  {
    var n := |ws| - 1;
    var s := Pack(ws) + rest;
    if k < n {
      FieldOfPack(ws[..n], Le32(ws[n]) + rest, k);
      assert s == Pack(ws[..n]) + (Le32(ws[n]) + rest);
    } else {
      assert s[4 * n..4 * n + 4] == Le32(ws[n]);
      Le32RoundTrip(ws[n]);
    }
  }

  // ---------- bits of a byte ----------

  /** `x >> k`. */
  function Shr(x: nat, k: nat): nat {
    if k == 0 then x else Shr(x / 2, k - 1)
  }

  function Bit(x: nat, k: nat): bool {
    Shr(x, k) % 2 == 1
  }

  /** `x | 1 << k`. */
  function OrBit(x: nat, k: nat): nat {
    if k == 0 then x / 2 * 2 + 1 else 2 * OrBit(x / 2, k - 1) + x % 2
  }

  /** `x & ~(1 << k)`. */
  function AndNotBit(x: nat, k: nat): nat {
    if k == 0 then x / 2 * 2 else 2 * AndNotBit(x / 2, k - 1) + x % 2
  }

  lemma {:induction false} BitAfter(x: nat, k: nat, j: nat)
    ensures Bit(OrBit(x, k), j) == (j == k || Bit(x, j))
    ensures Bit(AndNotBit(x, k), j) == (j != k && Bit(x, j))
  {
    if k > 0 && j > 0 {
      BitAfter(x / 2, k - 1, j - 1);
      assert OrBit(x, k) / 2 == OrBit(x / 2, k - 1) && AndNotBit(x, k) / 2 == AndNotBit(x / 2, k - 1);
    } else if j > 0 {
      assert OrBit(x, k) / 2 == x / 2 && AndNotBit(x, k) / 2 == x / 2;
    }
  }

  function Pow2(n: nat): nat {
    if n == 0 then 1 else 2 * Pow2(n - 1)
  }

  lemma {:induction false} BitFits(x: nat, k: nat, n: nat)
    requires k < n && x < Pow2(n)
    ensures OrBit(x, k) < Pow2(n) && AndNotBit(x, k) < Pow2(n)
  {
    if k > 0 {
      BitFits(x / 2, k - 1, n - 1);
    }
  }

  lemma ByteFits(x: byte, k: nat)
    requires k < 8
    ensures OrBit(x, k) < 256 && AndNotBit(x, k) < 256
  {
    assert Pow2(8) == 256;
    BitFits(x, k, 8);
  }

  lemma {:induction false} NoBits(k: nat)
    ensures !Bit(0, k)
  {
    if k > 0 {
      NoBits(k - 1);
    }
  }

  // ---------- bitmaps ----------

  const BITS: nat := 32768     // bits in a block

  /** `bitmap_get`. */
  function BitmapGet(b: Block, i: nat): bool
    requires i < BITS
  {
    Bit(b[i / 8], i % 8)
  }

  /** `bitmap_set` in the kernel; `alloc_block` and `alloc_inode` in the script. */
  function BitmapSet(b: Block, i: nat): Block
    requires i < BITS
  {
    ByteFits(b[i / 8], i % 8);
    b[i / 8 := OrBit(b[i / 8], i % 8)]
  }

  /** `bitmap_clear`. */
  function BitmapClear(b: Block, i: nat): Block
    requires i < BITS
  {
    ByteFits(b[i / 8], i % 8);
    b[i / 8 := AndNotBit(b[i / 8], i % 8)]
  }

  lemma BitmapAfter(b: Block, i: nat, j: nat)
    requires i < BITS && j < BITS
    ensures BitmapGet(BitmapSet(b, i), j) == (j == i || BitmapGet(b, j))
    ensures BitmapGet(BitmapClear(b, i), j) == (j != i && BitmapGet(b, j))
  {
    ByteFits(b[i / 8], i % 8);
    BitAfter(b[i / 8], i % 8, j % 8);
    assert i == 8 * (i / 8) + i % 8 && j == 8 * (j / 8) + j % 8;
  }

  /** A zeroed bitmap block with the bits of `map_` set one by one. */
  function BitmapOf(map_: seq<bool>, n: nat): Block
    requires n <= |map_| && n <= BITS
  {
    if n == 0 then ZERO
    else if map_[n - 1] then BitmapSet(BitmapOf(map_, n - 1), n - 1)
    else BitmapOf(map_, n - 1)
  }

  lemma {:induction false} BitmapOfGet(map_: seq<bool>, n: nat, i: nat)
    requires n <= |map_| && n <= BITS && i < BITS
    ensures BitmapGet(BitmapOf(map_, n), i) == (i < n && map_[i])
  {
    hide BitmapGet, BitmapSet;
    if n == 0 {
      ZeroBitmap(i);
    } else {
      BitmapOfGet(map_, n - 1, i);
      if map_[n - 1] {
        BitmapAfter(BitmapOf(map_, n - 1), n - 1, i);
      }
    }
  }

  lemma ZeroBitmap(i: nat)
    requires i < BITS
    ensures !BitmapGet(ZERO, i)
  {
    NoBits(i % 8);
  }

  /** The first `n` bits, as the kernel asks for them. */
  function BitsOf(b: Block, n: nat): (m: seq<bool>)
    ensures |m| == n && forall i: nat :: i < n ==> m[i] == (i < BITS && BitmapGet(b, i))
  {
    seq(n, (i: nat) requires i < n => i < BITS && BitmapGet(b, i))
  }

  // ---------- inode records ----------

  const INODE_SIZE: nat := 128
  const PER_INODE_BLOCK: nat := 32

  type InodeRecord = r: seq<byte> | |r| == 128 witness Zeros(128)

  function TypeCode(t: Type): u32 {
    match t case Free => 0 case File => 1 case Dir => 2
  }

  function TypeOf(code: u32): Type {
    if code == 1 then File else if code == 2 then Dir else Free
  }

  /** What a record holds besides the fields of `Inode`: two time stamps and padding. */
  datatype Extra = Extra(ctime: u32, mtime: u32, pad: seq<byte>)

  const NO_EXTRA: Extra := Extra(0, 0, Zeros(36))

  function InodeWords(x: Inode, e: Extra): (ws: seq<u32>)
    ensures |ws| == 23
  {
    [TypeCode(x.typ), x.size, x.nlink, x.mode, e.ctime, e.mtime] + x.direct + [x.indirect]
  }

  /** `INODE_PACK`, `<6I16II36s`; the layout of `struct osfs2_inode`. */
  function InodeBytes(x: Inode, e: Extra): InodeRecord
    requires |e.pad| == 36
  {
    Pack(InodeWords(x, e)) + e.pad
  }

  function ExtraOf(r: InodeRecord): (e: Extra)
    ensures |e.pad| == 36
  {
    Extra(Field(r, 16), Field(r, 20), r[92..])
  }

  function DirectAt(r: InodeRecord): Pointers {
    seq<u32>(16, (k: nat) requires k < 16 => Field(r, 24 + 4 * k))
  }

  /** The record as the kernel's structure shows it. */
  function InodeOf(r: InodeRecord): Inode {
    Inode(TypeOf(Field(r, 0)), Field(r, 4), Field(r, 8), Field(r, 12), DirectAt(r), Field(r, 88))
  }

  /** What the script packs, the kernel reads back field by field. */
  lemma InodeRoundTrip(x: Inode, e: Extra)
    requires |e.pad| == 36
    ensures InodeOf(InodeBytes(x, e)) == x && ExtraOf(InodeBytes(x, e)) == e
  {
    hide Field, Pack;
    var ws := InodeWords(x, e);
    forall k: nat | k < 23
      ensures Field(InodeBytes(x, e), 4 * k) == ws[k]
    {
      FieldOfPack(ws, e.pad, k);
    }
    var r := InodeBytes(x, e);
    assert Field(r, 4 * 0) == ws[0] && Field(r, 4 * 1) == ws[1] && Field(r, 4 * 2) == ws[2] && Field(r, 4 * 3) == ws[3];
    assert Field(r, 4 * 4) == ws[4] && Field(r, 4 * 5) == ws[5] && Field(r, 4 * 22) == ws[22];
    forall k: nat | k < 16
      ensures DirectAt(r)[k] == x.direct[k]
    {
      assert Field(r, 4 * (6 + k)) == ws[6 + k];
    }
    assert DirectAt(r) == x.direct;
  }

  // ---------- the inode table ----------

  function BlockOr(blocks: seq<Block>, b: nat): Block {
    if b < |blocks| then blocks[b] else ZERO
  }

  function RecordIn(b: Block, j: nat): InodeRecord
    requires j < PER_INODE_BLOCK
  {
    b[128 * j..128 * j + 128]
  }

  function WithRecord(b: Block, j: nat, r: InodeRecord): Block
    requires j < PER_INODE_BLOCK
  {
    b[..128 * j] + r + b[128 * j + 128..]
  }

  lemma RecordAfter(b: Block, j: nat, r: InodeRecord, k: nat)
    requires j < PER_INODE_BLOCK && k < PER_INODE_BLOCK
    ensures RecordIn(WithRecord(b, j, r), k) == if k == j then r else RecordIn(b, k)
  {
    var c := WithRecord(b, j, r);
    forall t: nat | t < 128
      ensures RecordIn(c, k)[t] == (if k == j then r else RecordIn(b, k))[t]
    {
      assert RecordIn(c, k)[t] == c[128 * k + t];
    }
  }

  /** `read_inode`: record `i` of the table that starts at block `table`. */
  function ReadInode(blocks: seq<Block>, table: nat, i: nat): Inode {
    InodeOf(RecordIn(BlockOr(blocks, table + i / PER_INODE_BLOCK), i % PER_INODE_BLOCK))
  }

  /** `write_inode`: the block is read, the record replaced, the block written. */
  function WriteInode(blocks: seq<Block>, table: nat, i: nat, x: Inode, e: Extra): (r: seq<Block>)
    requires |e.pad| == 36
    ensures |r| == |blocks|
  {
    var b := table + i / PER_INODE_BLOCK;
    if b < |blocks| then blocks[b := WithRecord(blocks[b], i % PER_INODE_BLOCK, InodeBytes(x, e))] else blocks
  }

  /** A record written reads back; every other record stays. */
  lemma InodeAfter(blocks: seq<Block>, table: nat, i: nat, x: Inode, e: Extra, j: nat)
    requires |e.pad| == 36 && table + i / PER_INODE_BLOCK < |blocks|
    ensures ReadInode(WriteInode(blocks, table, i, x, e), table, j) == if j == i then x else ReadInode(blocks, table, j)
  {
    hide InodeOf, InodeBytes, RecordIn, WithRecord;
    InodeRoundTrip(x, e);
    if j / PER_INODE_BLOCK == i / PER_INODE_BLOCK {
      RecordAfter(blocks[table + i / PER_INODE_BLOCK], i % PER_INODE_BLOCK, InodeBytes(x, e), j % PER_INODE_BLOCK);
      assert j == i <==> j % PER_INODE_BLOCK == i % PER_INODE_BLOCK;
    }
  }

  /** The script's contiguous table: record `i` at byte `128 * i`. */
  function TableBytes(inodes: seq<Inode>, n: nat): (s: seq<byte>)
    requires n <= |inodes|
    ensures |s| == 128 * n
  {
    if n == 0 then [] else TableBytes(inodes, n - 1) + InodeBytes(inodes[n - 1], NO_EXTRA)
  }

  lemma {:induction false} TableBytesAt(inodes: seq<Inode>, n: nat, i: nat)
    requires i < n <= |inodes|
    ensures TableBytes(inodes, n)[128 * i..128 * i + 128] == InodeBytes(inodes[i], NO_EXTRA)
  {
    hide InodeBytes;
    if i < n - 1 {
      TableBytesAt(inodes, n - 1, i);
      assert TableBytes(inodes, n)[128 * i..128 * i + 128] == TableBytes(inodes, n - 1)[128 * i..128 * i + 128];
    }
  }

  // ---------- the superblock ----------

  /** `struct osfs2_superblock` behind its magic. */
  datatype Super = Super(blockSize: u32, totalBlocks: u32, inodeCount: u32, blockBitmap: u32, inodeBitmap: u32,
                         inodeTable: u32, tableBlocks: u32, dataStart: u32, root: u32, journalHeader: u32,
                         journalBlocks: u32, reserved: u32)

  const MAGIC: seq<byte> := [0x4f, 0x53, 0x46, 0x53, 0x2d, 0x30, 0x30, 0x32]     // OSFS-002

  function SuperWords(sb: Super): (ws: seq<u32>)
    ensures |ws| == 12
  {
    [sb.blockSize, sb.totalBlocks, sb.inodeCount, sb.blockBitmap, sb.inodeBitmap, sb.inodeTable, sb.tableBlocks,
     sb.dataStart, sb.root, sb.journalHeader, sb.journalBlocks, sb.reserved]
  }

  /** `SUPERBLOCK_PACK`, `<8s12I`, in a zeroed block. */
  function SuperBytes(sb: Super): Block {
    MAGIC + Pack(SuperWords(sb)) + Zeros(4040)
  }

  /** The superblock part of `osfs2_init`: magic, fields, and its two checks. */
  function ParseSuper(b: Block): Option<Super> {
    if b[..8] != MAGIC then None
    else
      var sb := Super(Field(b, 8), Field(b, 12), Field(b, 16), Field(b, 20), Field(b, 24), Field(b, 28), Field(b, 32),
                      Field(b, 36), Field(b, 40), Field(b, 44), Field(b, 48), Field(b, 52));
      if sb.blockSize != 4096 || sb.inodeCount == 0 || sb.inodeCount > 65536 then None else Some(sb)
  }

  /** The kernel accepts a superblock the script packed exactly if its two fields are in range, and
      reads every field as it was packed. */
  lemma SuperRoundTrip(sb: Super)
    ensures ParseSuper(SuperBytes(sb)) == if sb.blockSize == 4096 && 0 < sb.inodeCount <= 65536 then Some(sb) else None
  {
    hide Field, Pack;
    SuperField(sb, 0); SuperField(sb, 1); SuperField(sb, 2); SuperField(sb, 3); SuperField(sb, 4); SuperField(sb, 5);
    SuperField(sb, 6); SuperField(sb, 7); SuperField(sb, 8); SuperField(sb, 9); SuperField(sb, 10); SuperField(sb, 11);
    assert SuperBytes(sb)[..8] == MAGIC;
  }

  lemma SuperField(sb: Super, k: nat)
    requires k < 12
    ensures Field(SuperBytes(sb), 8 + 4 * k) == SuperWords(sb)[k]
  {
    hide Field, Pack;
    FieldOfPack(SuperWords(sb), Zeros(4040), k);
    FieldBehind(SuperBytes(sb), Pack(SuperWords(sb)) + Zeros(4040), 4 * k);
  }

  lemma FieldBehind(b: seq<byte>, rest: seq<byte>, at: nat)
    requires |b| == 8 + |rest| && b[8..] == rest && at + 4 <= |rest|
    ensures Field(b, 8 + at) == Field(rest, at)
  {
    assert b[8 + at..8 + at + 4] == rest[at..at + 4];
  }

  // ---------- mounting ----------

  /** The end of `osfs2_init`, once the journal is replayed: the state behind the superblock. The
      code takes it for granted that the bitmaps and the inode table cover what it counts. */
  function Mount(blocks: seq<Block>): Option<Fs> {
    var sb := ParseSuper(BlockOr(blocks, 0));
    if sb.None? || sb.value.blockBitmap >= sb.value.totalBlocks || sb.value.inodeBitmap >= sb.value.totalBlocks then None
    else Some(Mounted(blocks, sb.value))
  }

  function Inodes(blocks: seq<Block>, table: nat, n: nat): (xs: seq<Inode>)
    ensures |xs| == n && forall i: nat :: i < n ==> xs[i] == ReadInode(blocks, table, i)
  {
    if n == 0 then [] else Inodes(blocks, table, n - 1) + [ReadInode(blocks, table, n - 1)]
  }

  function FirstBlocks(blocks: seq<Block>, n: nat): (r: seq<Block>)
    ensures |r| == n && forall b: nat :: b < n ==> r[b] == BlockOr(blocks, b)
  {
    seq<Block>(n, (b: nat) requires b < n => BlockOr(blocks, b))
  }

  function Mounted(blocks: seq<Block>, sb: Super): Fs {
    Fs(sb.dataStart, Inodes(blocks, sb.inodeTable, sb.inodeCount), BitsOf(BlockOr(blocks, sb.inodeBitmap), sb.inodeCount),
       BitsOf(BlockOr(blocks, sb.blockBitmap), sb.totalBlocks), FirstBlocks(blocks, sb.totalBlocks))
  }
}

/** OSFS-2 below the directory level (kernel/core/osfs2.c): inodes, bitmaps, block pointers, and
    block allocation. Blocks are read and written through the cache, whose reads see the last
    writes, so here they are simply an array; a transfer fails only for a block number that is
    out of range. */
module FsState {
  import opened Bytes
  import opened Disk

  const BLOCK_BYTES: nat := 4096
  const DIRECT: nat := 16                       // OSFS2_DIRECT_PTRS
  const INDIRECT: nat := 1024                   // OSFS2_INDIRECT_PTRS
  const MAX_BLOCKS: nat := 1040                 // OSFS2_MAX_FILE_BLOCKS
  const MAX_BYTES: nat := MAX_BLOCKS * 4096     // OSFS2_MAX_FILE_BYTES
  const ROOT: nat := 1
  const ZERO: Block := Zeros(4096)

  datatype Type = Free | File | Dir

  type Pointers = p: seq<u32> | |p| == 16 witness [0, 0, 0, 0, 0, 0, 0, 0, 0, 0, 0, 0, 0, 0, 0, 0]

  datatype Inode = Inode(typ: Type, size: u32, nlink: u32, mode: u32, direct: Pointers, indirect: u32)

  const NO_POINTERS: Pointers := [0, 0, 0, 0, 0, 0, 0, 0, 0, 0, 0, 0, 0, 0, 0, 0]

  /** The mounted file system: first data block, inode table, the two bitmaps, and all blocks. */
  datatype Fs = Fs(dataStart: nat, inodes: seq<Inode>, inodeMap: seq<bool>, blockMap: seq<bool>, data: seq<Block>)

  function Block_(fs: Fs, b: nat): Block {
    if b < |fs.data| then fs.data[b] else ZERO
  }

  function PutBlock(fs: Fs, b: nat, x: Block): (r: Fs)
    ensures |r.data| == |fs.data|
  {
    if b < |fs.data| then fs.(data := fs.data[b := x]) else fs
  }

  function PutInode(fs: Fs, i: nat, x: Inode): Fs {
    if i < |fs.inodes| then fs.(inodes := fs.inodes[i := x]) else fs
  }

  // ---------- the indirect table ----------

  function TableGet(b: Block, j: nat): u32
    requires j < INDIRECT
  {
    De32([b[4 * j], b[4 * j + 1], b[4 * j + 2], b[4 * j + 3]])
  }

  function TablePut(b: Block, j: nat, v: u32): Block
    requires j < INDIRECT
  {
    b[..4 * j] + Le32(v) + b[4 * j + 4..]
  }

  lemma TableGetPut(b: Block, j: nat, v: u32, k: nat)
    requires j < INDIRECT && k < INDIRECT
    ensures TableGet(TablePut(b, j, v), k) == if k == j then v else TableGet(b, k)
  {
    var c := TablePut(b, j, v);
    if k == j {
      assert [c[4 * k], c[4 * k + 1], c[4 * k + 2], c[4 * k + 3]] == Le32(v);
      Le32RoundTrip(v);
    } else {
      assert forall t :: 0 <= t < 4096 && !(4 * j <= t < 4 * j + 4) ==> c[t] == b[t];
    }
  }

  lemma ZeroTable(k: nat)
    requires k < INDIRECT
    ensures TableGet(ZERO, k) == 0
  {}

  // ---------- block pointers ----------

  const POSITIONS: nat := 1041      // 16 direct, the indirect pointer itself, 1024 through it

  /** The block pointer of inode `x` at position `k`. */
  function PtrOf(fs: Fs, x: Inode, k: nat): u32
    requires k < POSITIONS
  {
    if k < DIRECT then x.direct[k]
    else if k == DIRECT then x.indirect
    else if x.indirect == 0 then 0
    else TableGet(Block_(fs, x.indirect), k - DIRECT - 1)
  }

  function Ptr(fs: Fs, i: nat, k: nat): u32
    requires i < |fs.inodes| && k < POSITIONS
  {
    PtrOf(fs, fs.inodes[i], k)
  }

  /** The position that holds the pointer for logical block `lbn`. */
  function PosOf(lbn: nat): (k: nat)
    requires lbn < MAX_BLOCKS
    ensures k < POSITIONS && k != DIRECT
  {
    if lbn < DIRECT then lbn else lbn + 1
  }

  // ---------- allocation ----------

  function FirstFree(map_: seq<bool>, b: nat): (r: nat)
    ensures b <= r && (b <= |map_| ==> r <= |map_|)
    ensures r < |map_| ==> !map_[r]
    ensures forall j :: b <= j < r && j < |map_| ==> map_[j]
    decreases |map_| - b
  {
    if b >= |map_| || !map_[b] then b else FirstFree(map_, b + 1)
  }

  /** `alloc_block`: the first clear bit in the data area, its block zeroed; 0 when full. */
  function AllocBlock(fs: Fs): (r: (Fs, u32))
    ensures |r.0.data| == |fs.data| && |r.0.inodes| == |fs.inodes| && |r.0.blockMap| == |fs.blockMap|
  {
    var b := FirstFree(fs.blockMap, fs.dataStart);
    if b >= |fs.blockMap| || b >= U32 then (fs, 0)
    else (PutBlock(fs.(blockMap := fs.blockMap[b := true]), b, ZERO), b)
  }

  /** `free_block`: only the bit is cleared, and only in the data area. */
  function FreeBlock(fs: Fs, b: nat): (r: Fs)
    ensures r.data == fs.data && r.inodes == fs.inodes && |r.blockMap| == |fs.blockMap|
  {
    if fs.dataStart <= b < |fs.blockMap| then fs.(blockMap := fs.blockMap[b := false]) else fs
  }

  /** `resolve_block` with `allocate` set, for the inode in slot `i`: the physical block for `lbn`,
      allocated if missing, or 0 when space runs out. An indirect block that was allocated stays
      in the inode even if the block it was for could not be had. */
  function Resolve(fs: Fs, i: nat, lbn: nat): (r: (Fs, u32))
    requires i < |fs.inodes|
    ensures |r.0.inodes| == |fs.inodes| && |r.0.data| == |fs.data| && |r.0.blockMap| == |fs.blockMap|
  {
    var x := fs.inodes[i];
    if lbn >= MAX_BLOCKS then (fs, 0)
    else if lbn < DIRECT then
      if x.direct[lbn] != 0 then (fs, x.direct[lbn])
      else
        var (f1, b) := AllocBlock(fs);
        if b == 0 then (f1, 0)
        else (PutInode(f1, i, x.(direct := x.direct[lbn := b])), b)
    else
      var (f1, ok) := NeedIndirect(fs, i);
      if !ok || f1.inodes[i].indirect >= |f1.data| then (f1, 0)
      else
        var ind := f1.inodes[i].indirect;
        var table := Block_(f1, ind);
        var j := lbn - DIRECT;
        if TableGet(table, j) != 0 then (f1, TableGet(table, j))
        else
          var (f2, b) := AllocBlock(f1);
          if b == 0 then (f2, 0)
          else (PutBlock(f2, ind, TablePut(table, j, b)), b)
  }

  /** The head of the single-indirect tier of `resolve_block`. */
  function NeedIndirect(fs: Fs, i: nat): (r: (Fs, bool))
    requires i < |fs.inodes|
    ensures |r.0.inodes| == |fs.inodes| && |r.0.data| == |fs.data| && |r.0.blockMap| == |fs.blockMap|
  {
    var x := fs.inodes[i];
    if x.indirect != 0 then (fs, true)
    else
      var (f1, b) := AllocBlock(fs);
      if b == 0 then (f1, false) else (PutInode(f1, i, x.(indirect := b)), true)
  }

  /** `resolve_block` without allocation. */
  function Lookup(fs: Fs, x: Inode, lbn: nat): u32 {
    if lbn >= MAX_BLOCKS then 0 else PtrOf(fs, x, PosOf(lbn))
  }
}

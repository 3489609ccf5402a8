/** The block transfers of the OSFS-2 driver (kernel/core/osfs2.c): for each routine, in order, the
    blocks it asks the cache to read and the updates it asks the cache to write. */
module DriverIo {
  import opened Bytes
  import opened CStrings
  import opened Disk
  import opened FsState
  import opened FsFile
  import opened FsTruncate
  import opened FsDirectory
  import opened FsTree
  import opened FsCreate
  import opened FsPaths
  import opened OnDisk
  import opened StoredFs
  import FsHandles

  /** One call into the cache: the inode-table block of record `i` read, block `b` read, or the one
      block of an update written. */
  datatype Io = GetRecord(i: nat) | GetBlock(b: nat) | Put(u: Update)

  type Trace = seq<Io>

  /** The block a transfer names. */
  function Subject(sb: Super, e: Io): nat {
    match e
    case GetRecord(i) => sb.inodeTable + i / PER_INODE_BLOCK
    case GetBlock(b) => b
    case Put(u) => TargetOf(sb, u)
  }

  /** All blocks a trace reads or writes. */
  function Touched(sb: Super, io: Trace): set<nat>
    decreases |io|
  {
    if io == [] then {} else Touched(sb, io[..|io| - 1]) + {Subject(sb, io[|io| - 1])}
  }

  // ---------- records, bitmaps ----------

  /** `read_inode`. */
  function ReadRecordIo(fs: Fs, i: nat): Trace {
    if 0 < i < |fs.inodes| then [GetRecord(i)] else []
  }

  /** `write_inode`: the block is read, then written. */
  function WriteRecordIo(fs: Fs, i: nat, x: Inode): Trace {
    if 0 < i < |fs.inodes| then [GetRecord(i), Put(SetRecord(i, x))] else []
  }

  /** `alloc_block`: the bitmap, then the zeroed block. */
  function AllocBlockIo(fs: Fs): Trace {
    var b := FirstFree(fs.blockMap, fs.dataStart);
    if b >= |fs.blockMap| || b >= U32 then [] else [Put(SetBlockBit(b, true)), Put(SetData(b, ZERO))]
  }

  /** `free_block`. */
  function FreeBlockIo(fs: Fs, b: nat): Trace {
    if fs.dataStart <= b < |fs.blockMap| then [Put(SetBlockBit(b, false))] else []
  }

  /** `alloc_inode`. */
  function AllocInodeIo(fs: Fs): Trace {
    var i := AllocInode(fs).1;
    if i == 0 then [] else [Put(SetInodeBit(i, true))]
  }

  /** `free_inode`. */
  function FreeInodeIo(fs: Fs, i: nat): Trace {
    if ROOT < i < |fs.inodeMap| then [Put(SetInodeBit(i, false))] else []
  }

  // ---------- block pointers ----------

  function NeedIndirectIo(fs: Fs, i: nat): Trace
    requires i < |fs.inodes|
  {
    if fs.inodes[i].indirect != 0 then [] else AllocBlockIo(fs)
  }

  /** `resolve_block` with `allocate` set. */
  function ResolveIo(fs: Fs, i: nat, lbn: nat): Trace
    requires i < |fs.inodes|
  {
    var x := fs.inodes[i];
    if lbn >= MAX_BLOCKS then []
    else if lbn < DIRECT then (if x.direct[lbn] != 0 then [] else AllocBlockIo(fs))
    else
      var (f1, ok) := NeedIndirect(fs, i);
      NeedIndirectIo(fs, i) +
      if !ok || f1.inodes[i].indirect >= |f1.data| then []
      else TableIo(f1, f1.inodes[i].indirect, lbn - DIRECT)
  }

  /** Entry `j` of the table in block `ind`, filled if it is empty. */
  function TableIo(fs: Fs, ind: nat, j: nat): Trace
    requires j < INDIRECT && ind < |fs.data|
  {
    var table := Block_(fs, ind);
    [GetBlock(ind)] +
    if TableGet(table, j) != 0 then []
    else
      var b := AllocBlock(fs).1;
      AllocBlockIo(fs) + if b == 0 then [] else [Put(SetData(ind, TablePut(table, j, b)))]
  }

  /** `resolve_block` without allocation. */
  function LookupIo(fs: Fs, x: Inode, lbn: nat): Trace {
    if DIRECT <= lbn < MAX_BLOCKS && 0 < x.indirect < |fs.data| then [GetBlock(x.indirect)] else []
  }

  // ---------- files ----------

  /** The copy loop of `osfs2_read`. */
  function ReadFromIo(fs: Fs, x: Inode, offset: nat, len: nat, done: nat): Trace
    requires done <= len
    decreases len - done
  {
    if done == len then []
    else
      var pos := offset + done;
      var n := Chunk(pos, len - done);
      var pb := Lookup(fs, x, pos / 4096);
      LookupIo(fs, x, pos / 4096) +
      if pb == 0 then ReadFromIo(fs, x, offset, len, done + n)
      else if pb >= |fs.data| then []
      else [GetBlock(pb)] + ReadFromIo(fs, x, offset, len, done + n)
  }

  /** `osfs2_read`. */
  function ReadIo(fs: Fs, i: nat, offset: nat, len: nat): Trace {
    ReadRecordIo(fs, i) +
    if i == 0 || i >= |fs.inodes| || fs.inodes[i].typ == Free || offset >= fs.inodes[i].size then []
    else
      var left := fs.inodes[i].size - offset;
      ReadFromIo(fs, fs.inodes[i], offset, if len > left then left else len, 0)
  }

  /** One turn of the copy loop of `osfs2_write` once its block is known: a block that is not
      covered whole is read first. */
  function ChunkIo(fs: Fs, pb: nat, at: nat, xs: seq<byte>): Trace
    requires pb < |fs.data| && at + |xs| <= 4096
  {
    (if |xs| == 4096 then [] else [GetBlock(pb)]) + [Put(SetData(pb, Splice(fs.data[pb], at, xs)))]
  }

  /** The copy loop of `osfs2_write`. */
  function WriteFromIo(fs: Fs, i: nat, offset: nat, buf: seq<byte>, done: nat): Trace
    requires i < |fs.inodes| && done <= |buf|
    decreases |buf| - done
  {
    if done == |buf| then []
    else
      var pos := offset + done;
      var n := Chunk(pos, |buf| - done);
      var (f1, pb) := Resolve(fs, i, pos / 4096);
      ResolveIo(fs, i, pos / 4096) +
      if pb == 0 || pb >= |fs.data| then []
      else
        var xs := buf[done..done + n];
        ChunkIo(f1, pb, pos % 4096, xs) + WriteFromIo(PutBlock(f1, pb, Splice(f1.data[pb], pos % 4096, xs)), i, offset, buf, done + n)
  }

  /** `osfs2_write`: the record is written only if something was stored. */
  function WriteIo(fs: Fs, i: nat, offset: nat, buf: seq<byte>): Trace {
    if buf == [] || offset + |buf| > MAX_BYTES then []
    else
      ReadRecordIo(fs, i) +
      if i == 0 || i >= |fs.inodes| || fs.inodes[i].typ != File then []
      else
        var (f1, k) := WriteFrom(fs, i, offset, buf, 0);
        WriteFromIo(fs, i, offset, buf, 0) +
        if k == 0 then [] else WriteRecordIo(fs, i, WriteFile(fs, i, offset, buf).fs.inodes[i])
  }

  function DropDirectIo(fs: Fs, i: nat, kept: nat, k: nat): Trace
    requires i < |fs.inodes| && k <= DIRECT
    decreases DIRECT - k
  {
    if k == DIRECT then []
    else
      var x := fs.inodes[i];
      if k >= kept && x.direct[k] != 0 then
        FreeBlockIo(fs, x.direct[k])
        + DropDirectIo(PutInode(FreeBlock(fs, x.direct[k]), i, x.(direct := x.direct[k := 0])), i, kept, k + 1)
      else DropDirectIo(fs, i, kept, k + 1)
  }

  function DropTableIo(fs: Fs, t: Block, kept: nat, j: nat): Trace
    requires j <= INDIRECT
    decreases INDIRECT - j
  {
    if j == INDIRECT then []
    else if DIRECT + j >= kept && TableGet(t, j) != 0 then
      FreeBlockIo(fs, TableGet(t, j)) + DropTableIo(FreeBlock(fs, TableGet(t, j)), TablePut(t, j, 0), kept, j + 1)
    else DropTableIo(fs, t, kept, j + 1)
  }

  /** The table is written back only if an entry was dropped and another is left. */
  function DropIndirectIo(fs: Fs, i: nat, kept: nat): Trace
    requires i < |fs.inodes| && 0 < fs.inodes[i].indirect < |fs.data|
  {
    var ind := fs.inodes[i].indirect;
    var (f, t, left) := DropTable(fs, fs.data[ind], kept, 0);
    [GetBlock(ind)] + DropTableIo(fs, fs.data[ind], kept, 0) +
    if !left then FreeBlockIo(f, ind) else if t != fs.data[ind] then [Put(SetData(ind, t))] else []
  }

  /** `osfs2_truncate`. */
  function TruncateIo(fs: Fs, i: nat, size: nat): Trace {
    ReadRecordIo(fs, i) +
    if i == 0 || i >= |fs.inodes| || fs.inodes[i].typ == Free || size > MAX_BYTES then []
    else
      var f1 := DropDirect(fs, i, Kept(size), 0);
      var ind := f1.inodes[i].indirect;
      DropDirectIo(fs, i, Kept(size), 0) +
      if ind != 0 && ind >= |fs.data| then []
      else
        (if ind == 0 then [] else DropIndirectIo(f1, i, Kept(size)))
        + WriteRecordIo(fs, i, Truncate(fs, i, size).fs.inodes[i])
  }

  // ---------- directories ----------

  /** `dir_find` from slot `g` on: each block is read as the scan comes to its first entry. */
  function DirFindIo(fs: Fs, x: Inode, name: CString, g: nat): Trace
    decreases DIR_SLOTS - g
  {
    if g >= DIR_SLOTS then []
    else
      var blk := x.direct[g / PER_BLOCK];
      if blk == 0 then DirFindIo(fs, x, name, (g / PER_BLOCK + 1) * PER_BLOCK)
      else if blk >= |fs.data| then []
      else
        (if g % PER_BLOCK == 0 then [GetBlock(blk)] else []) +
        if g >= Slots(x) then []
        else
          var r := RecordAt(fs.data[blk], g % PER_BLOCK);
          if RecordIno(r) != 0 && RecordName(r) == name then [] else DirFindIo(fs, x, name, g + 1)
  }

  /** `dir_read_at`. */
  function DirReadIo(fs: Fs, x: Inode, g: nat): Trace {
    var k := g / PER_BLOCK;
    if k < DIRECT && 0 < x.direct[k] < |fs.data| then [GetBlock(x.direct[k])] else []
  }

  /** `dir_write_at`. */
  function DirWriteIo(fs: Fs, x: Inode, g: nat, r: Record): Trace {
    var k := g / PER_BLOCK;
    if k >= DIRECT || x.direct[k] == 0 || x.direct[k] >= |fs.data| then []
    else [GetBlock(x.direct[k]), Put(SetData(x.direct[k], PutRecord(fs.data[x.direct[k]], g % PER_BLOCK, r)))]
  }

  function MakeSlotIo(fs: Fs, x: Inode, empty: int): Trace {
    var k := x.size / 64 / PER_BLOCK;
    if empty != NO_SLOT || k >= DIRECT || x.direct[k] != 0 then [] else AllocBlockIo(fs)
  }

  /** `dir_create_in`. */
  function CreateIo(fs: Fs, d: nat, name: CString, typ: Type): Trace {
    if name == [] || |name| >= NAME_MAX then []
    else
      ReadRecordIo(fs, d) +
      if d == 0 || d >= |fs.inodes| || fs.inodes[d].typ != Dir then []
      else
        var x := fs.inodes[d];
        var (hit, empty) := DirFind(fs, x, name, 0, NO_SLOT);
        DirFindIo(fs, x, name, 0) + if hit != NO_SLOT then ExistingIo(fs, d, hit) else EnterIo(fs, d, name, typ, empty)
  }

  /** The name is in use. */
  function ExistingIo(fs: Fs, d: nat, hit: int): Trace
    requires d < |fs.inodes|
  {
    if !(0 <= hit < DIR_SLOTS) then []
    else DirReadIo(fs, fs.inodes[d], hit) + ReadRecordIo(fs, SlotIno(fs, d, hit))
  }

  /** The name is new. */
  function EnterIo(fs: Fs, d: nat, name: CString, typ: Type, empty: int): Trace
    requires d < |fs.inodes| && |name| < NAME_MAX
  {
    var (f1, i) := AllocInode(fs);
    if i == 0 then []
    else
      var f2 := PutInode(f1, i, NewInode(typ));
      var (f3, y, slot) := MakeSlot(f2, fs.inodes[d], empty);
      AllocInodeIo(fs) + WriteRecordIo(f1, i, NewInode(typ)) + MakeSlotIo(f2, fs.inodes[d], empty) +
      if slot < 0 then FreeInodeIo(f3, i)
      else
        var (f4, ok) := DirWriteAt(f3, y, slot, Entry(i, name));
        DirWriteIo(f3, y, slot, Entry(i, name)) + if !ok then FreeInodeIo(f4, i) else WriteRecordIo(f4, d, y)
  }

  /** `dir_unlink_slot`, the freed record, and its bit. */
  function DetachIo(fs: Fs, d: nat, g: nat, i: nat): Trace
    requires d < |fs.inodes| && i < |fs.inodes|
  {
    ReadRecordIo(fs, d) +
    if fs.inodes[d].typ != Dir then []
    else
      var (f1, ok) := DirWriteAt(fs, fs.inodes[d], g, Zeros(64));
      DirWriteIo(fs, fs.inodes[d], g, Zeros(64)) +
      if !ok then []
      else
        var x := fs.inodes[i].(typ := Free, size := 0, nlink := 0);
        WriteRecordIo(f1, i, x) + FreeInodeIo(PutInode(f1, i, x), i)
  }

  /** The end of `osfs2_unlink` and `osfs2_rmdir`. */
  function EmptyThenDetachIo(fs: Fs, d: nat, g: nat, i: nat): Trace
    requires d < |fs.inodes| && i < |fs.inodes|
  {
    var t := Truncate(fs, i, 0);
    TruncateIo(fs, i, 0) + if t.rc != 0 then [] else ReadRecordIo(fs, i) + DetachIo(t.fs, d, g, i)
  }

  /** `osfs2_unlink` once the parent is known. */
  function UnlinkIo(fs: Fs, d: nat, name: CString): Trace {
    ReadRecordIo(fs, d) +
    if d == 0 || d >= |fs.inodes| then []
    else
      var hit := DirFind(fs, fs.inodes[d], name, 0, NO_SLOT).0;
      DirFindIo(fs, fs.inodes[d], name, 0) +
      if !(0 <= hit < DIR_SLOTS) then []
      else
        var i := SlotIno(fs, d, hit);
        DirReadIo(fs, fs.inodes[d], hit) + ReadRecordIo(fs, i) +
        if i == 0 || i >= |fs.inodes| || fs.inodes[i].typ == Dir then [] else EmptyThenDetachIo(fs, d, hit, i)
  }

  /** The emptiness scan of `osfs2_rmdir`: one entry at a time, up to the first in use. */
  function AllEmptyIo(fs: Fs, d: nat, g: nat): Trace
    requires d < |fs.inodes|
    decreases DIR_SLOTS - g
  {
    if g >= Slots(fs.inodes[d]) || g >= DIR_SLOTS then []
    else
      DirReadIo(fs, fs.inodes[d], g) +
      if 0 < fs.inodes[d].direct[g / PER_BLOCK] < |fs.data| && SlotIno(fs, d, g) == 0 then AllEmptyIo(fs, d, g + 1) else []
  }

  /** `osfs2_rmdir` once the parent is known. */
  function RmdirIo(fs: Fs, d: nat, name: CString): Trace {
    ReadRecordIo(fs, d) +
    if d == 0 || d >= |fs.inodes| then []
    else
      var hit := DirFind(fs, fs.inodes[d], name, 0, NO_SLOT).0;
      DirFindIo(fs, fs.inodes[d], name, 0) +
      if !(0 <= hit < DIR_SLOTS) then []
      else
        var i := SlotIno(fs, d, hit);
        DirReadIo(fs, fs.inodes[d], hit) +
        if i == ROOT then []
        else
          ReadRecordIo(fs, i) +
          if i == 0 || i >= |fs.inodes| || fs.inodes[i].typ != Dir then []
          else AllEmptyIo(fs, i, 0) + if !AllEmpty(fs, i, 0) then [] else EmptyThenDetachIo(fs, d, hit, i)
  }

  // ---------- paths ----------

  /** `walk` from inode `cur`: record, scan and entry of each directory on the way. */
  function WalkIo(fs: Fs, cur: nat, path: Path): Trace
    decreases |path|
  {
    if path == [] then []
    else
      ReadRecordIo(fs, cur) +
      if cur == 0 || cur >= |fs.inodes| || fs.inodes[cur].typ != Dir then []
      else
        var hit := DirFind(fs, fs.inodes[cur], path[0], 0, NO_SLOT).0;
        DirFindIo(fs, fs.inodes[cur], path[0], 0) +
        if !(0 <= hit < DIR_SLOTS) then []
        else DirReadIo(fs, fs.inodes[cur], hit) + WalkIo(fs, Child(fs, cur, path[0]), path[1..])
  }

  /** `walk_parent`. */
  function ParentIo(fs: Fs, path: Path): Trace {
    if path == [] then []
    else WalkIo(fs, ROOT, path[..|path| - 1]) + ReadRecordIo(fs, FsHandles.Parent(fs, path))
  }

  predicate ParentFound(fs: Fs, path: Path) {
    var d := FsHandles.Parent(fs, path);
    0 < d < |fs.inodes| && fs.inodes[d].typ == Dir
  }

  // ---------- requests ----------

  /** What callers ask of the driver: the calls that change something, lookups and reads. */
  datatype Request =
    | Change(call: FsHandles.Call)
    | Look(path: Path)                                  // osfs2_lookup
    | Fetch(number: nat, offset: nat, len: nat)         // osfs2_read

  function Served(fs: Fs, q: Request): Fs {
    if q.Change? then FsHandles.Perform(fs, q.call) else fs
  }

  /** A call that takes a number does not look at the inode bitmap. */
  function CallIo(fs: Fs, call: FsHandles.Call): Trace {
    match call
    case Make(path, typ) =>
      if typ == Free then []
      else ParentIo(fs, path) + if path == [] || !ParentFound(fs, path) then []
                                else CreateIo(fs, FsHandles.Parent(fs, path), path[|path| - 1], typ)
    case Remove(path) =>
      ParentIo(fs, path) + if path == [] || !ParentFound(fs, path) then []
                           else UnlinkIo(fs, FsHandles.Parent(fs, path), path[|path| - 1])
    case RemoveDir(path) =>
      ParentIo(fs, path) + if path == [] || !ParentFound(fs, path) then []
                           else RmdirIo(fs, FsHandles.Parent(fs, path), path[|path| - 1])
    case Write(number, offset, buf) => WriteIo(FsHandles.Whole(fs), number, offset, buf)
    case Clear(number) =>
      if FsHandles.Numbered(fs, number) && fs.inodes[number].typ == File then TruncateIo(FsHandles.Whole(fs), number, 0) else []
  }

  function RequestIo(fs: Fs, q: Request): Trace {
    match q
    case Change(call) => CallIo(fs, call)
    case Look(path) => WalkIo(fs, ROOT, path)
    case Fetch(number, offset, len) => ReadIo(FsHandles.Whole(fs), number, offset, len)
  }

  function ServedAll(fs: Fs, qs: seq<Request>): Fs
    decreases |qs|
  {
    if qs == [] then fs else ServedAll(Served(fs, qs[0]), qs[1..])
  }

  /** Every transfer of a sequence of requests. */
  function RequestsIo(fs: Fs, qs: seq<Request>): Trace
    decreases |qs|
  {
    if qs == [] then [] else RequestIo(fs, qs[0]) + RequestsIo(Served(fs, qs[0]), qs[1..])
  }
}

/** The OSFS-2 driver as it runs (kernel/core/osfs2.c): bitmaps and blocks changed in place by
    scans and copy loops. Every method is proved to compute the function of the same name, and to ask
    the block cache for exactly the transfers that `DriverIo` lists, in that order. */
module FileSystem {
  import opened Bytes
  import opened CStrings
  import opened Disk
  import opened FsState
  import FsBlocks
  import FsFile
  import FsTruncate
  import opened FsDirectory
  import FsTree
  import FsCreate
  import FsPaths
  import opened Options
  import opened PathStrings
  import OnDisk
  import StoredFs
  import opened DriverIo
  import opened DriverStrings

  class Osfs2 {
    const dataStart: nat
    const blockBitmap: array<bool>
    const inodeBitmap: array<bool>
    var inodes: seq<Inode>          // the inode table blocks
    var data: seq<Block>            // all blocks, behind the cache
    ghost var io: Trace             // the transfers asked of the cache so far

    ghost predicate Valid()
      reads this
    {
      blockBitmap != inodeBitmap
    }

    ghost function State(): Fs
      reads this, blockBitmap, inodeBitmap
    {
      Fs(dataStart, inodes, inodeBitmap[..], blockBitmap[..], data)
    }

    /** `osfs2_init`: the mounted image, its bitmaps copied to memory. */
    constructor (fs: Fs)
      ensures Valid() && fresh(blockBitmap) && fresh(inodeBitmap) && State() == fs && io == []
    {
      dataStart, inodes, data, io := fs.dataStart, fs.inodes, fs.data, [];
      blockBitmap := new bool[|fs.blockMap|](i requires 0 <= i < |fs.blockMap| => fs.blockMap[i]);
      inodeBitmap := new bool[|fs.inodeMap|](i requires 0 <= i < |fs.inodeMap| => fs.inodeMap[i]);
      new;
      assert blockBitmap[..] == fs.blockMap;
      assert inodeBitmap[..] == fs.inodeMap;
    }

    /** `osfs2_init`, once the journal is replayed: the superblock checks, then the driver's state as
        the blocks hold it; null when it refuses them. */
    static method Init(blocks: seq<Block>) returns (driver: Osfs2?)
      ensures driver == null <==> OnDisk.Mount(blocks).None?
      ensures driver != null ==> driver.Valid() && fresh(driver) && fresh(driver.blockBitmap) && fresh(driver.inodeBitmap)
      ensures driver != null ==> driver.State() == OnDisk.Mount(blocks).value
    {
      hide OnDisk.ParseSuper, OnDisk.Mounted;
      var sb := OnDisk.ParseSuper(OnDisk.BlockOr(blocks, 0));
      if sb.None? || sb.value.blockBitmap >= sb.value.totalBlocks || sb.value.inodeBitmap >= sb.value.totalBlocks {
        return null;
      }
      driver := new Osfs2(OnDisk.Mounted(blocks, sb.value));
    }

    // ---------- transfers ----------

    /** `read_block`, of a block that is there. */
    method ReadBlock(b: nat) returns (x: Block)
      requires b < |data|
      modifies `io
      ensures x == data[b] && io == old(io) + [GetBlock(b)]
    {
      io := io + [GetBlock(b)];
      x := data[b];
    }

    /** `write_block`. */
    method WriteBlock(b: nat, x: Block)
      modifies `io, `data
      ensures State() == PutBlock(old(State()), b, x) && inodes == old(inodes)
      ensures io == old(io) + [DriverIo.Put(StoredFs.SetData(b, x))]
    {
      io := io + [DriverIo.Put(StoredFs.SetData(b, x))];
      if b < |data| {
        data := data[b := x];
      }
    }

    /** A bit of the block bitmap and `flush_block_bitmap`. */
    method MarkBlock(b: nat, on: bool)
      requires Valid() && b < blockBitmap.Length
      modifies `io, blockBitmap
      ensures State() == old(State()).(blockMap := old(blockBitmap[..])[b := on])
      ensures io == old(io) + [DriverIo.Put(StoredFs.SetBlockBit(b, on))]
    {
      blockBitmap[b] := on;
      io := io + [DriverIo.Put(StoredFs.SetBlockBit(b, on))];
    }

    /** A bit of the inode bitmap and `flush_inode_bitmap`. */
    method MarkInode(i: nat, on: bool)
      requires Valid() && i < inodeBitmap.Length
      modifies `io, inodeBitmap
      ensures State() == old(State()).(inodeMap := old(inodeBitmap[..])[i := on])
      ensures io == old(io) + [DriverIo.Put(StoredFs.SetInodeBit(i, on))]
    {
      inodeBitmap[i] := on;
      io := io + [DriverIo.Put(StoredFs.SetInodeBit(i, on))];
    }

    /** `read_inode`. */
    method ReadInode(i: nat) returns (ok: bool, x: Inode)
      modifies `io
      ensures ok <==> 0 < i < |inodes|
      ensures ok ==> x == inodes[i]
      ensures io == old(io) + ReadRecordIo(State(), i)
    {
      if i == 0 || i >= |inodes| {
        return false, FsTree.NewInode(Free);
      }
      io := io + [GetRecord(i)];
      return true, inodes[i];
    }

    /** `write_inode`: the table block is read, changed and written. */
    method WriteInode(i: nat, x: Inode)
      requires 0 < i
      modifies `io, `inodes
      ensures State() == PutInode(old(State()), i, x)
      ensures io == old(io) + WriteRecordIo(old(State()), i, x)
    {
      if i < |inodes| {
        inodes := inodes[i := x];
        io := io + [GetRecord(i), DriverIo.Put(StoredFs.SetRecord(i, x))];
      }
    }

    // ---------- blocks and inodes ----------

    method AllocBlock() returns (b: u32)
      requires Valid()
      modifies `io, `data, blockBitmap
      ensures Valid() && (State(), b) == FsState.AllocBlock(old(State()))
      ensures io == old(io) + AllocBlockIo(old(State()))
    {
      var i := dataStart;
      while i < blockBitmap.Length && blockBitmap[i]
        invariant FirstFree(blockBitmap[..], dataStart) == FirstFree(blockBitmap[..], i)
        invariant State() == old(State()) && io == old(io)
        decreases blockBitmap.Length - i
      {
        i := i + 1;
      }
      if i >= blockBitmap.Length || i >= U32 {
        return 0;
      }
      MarkBlock(i, true);
      WriteBlock(i, ZERO);
      return i;
    }

    method FreeBlock(b: u32)
      requires Valid()
      modifies `io, blockBitmap
      ensures State() == FsState.FreeBlock(old(State()), b)
      ensures io == old(io) + FreeBlockIo(old(State()), b)
    {
      if dataStart <= b < blockBitmap.Length {
        MarkBlock(b, false);
      }
    }

    method AllocInode() returns (i: u32)
      requires Valid()
      modifies `io, inodeBitmap
      ensures (State(), i) == FsTree.AllocInode(old(State()))
      ensures io == old(io) + AllocInodeIo(old(State()))
    {
      var k := ROOT + 1;
      while k < inodeBitmap.Length && inodeBitmap[k]
        invariant FirstFree(inodeBitmap[..], ROOT + 1) == FirstFree(inodeBitmap[..], k)
        invariant State() == old(State()) && io == old(io)
        decreases inodeBitmap.Length - k
      {
        k := k + 1;
      }
      if k >= inodeBitmap.Length || k >= U32 {
        return 0;
      }
      MarkInode(k, true);
      return k;
    }

    method FreeInode(i: nat)
      requires Valid()
      modifies `io, inodeBitmap
      ensures State() == FsTree.FreeInode(old(State()), i)
      ensures io == old(io) + FreeInodeIo(old(State()), i)
    {
      if ROOT < i < inodeBitmap.Length {
        MarkInode(i, false);
      }
    }

    /** `resolve_block`: the caller's inode copy comes back changed, the table does not change. */
    method ResolveBlock(fi: Inode, lbn: nat, allocate: bool, ghost i: nat) returns (x: Inode, pb: u32)
      requires Valid() && i < |inodes|
      modifies `io, `data, blockBitmap
      ensures Valid() && inodes == old(inodes)
      ensures allocate ==> (PutInode(State(), i, x), pb) == Resolve(PutInode(old(State()), i, fi), i, lbn)
      ensures allocate ==> io == old(io) + ResolveIo(PutInode(old(State()), i, fi), i, lbn)
      ensures !allocate ==> State() == old(State()) && x == fi && pb == Lookup(old(State()), fi, lbn)
      ensures !allocate ==> io == old(io) + LookupIo(old(State()), fi, lbn)
    {
      hide FsState.AllocBlock, TableGet, TablePut, AllocBlockIo, TableIo;
      x := fi;
      AllocAfterPut(State(), i, fi);
      if lbn >= MAX_BLOCKS {
        return x, 0;
      }
      if lbn < DIRECT {
        x, pb := ResolveDirect(fi, lbn, allocate, i);
        return;
      }
      if x.indirect == 0 {
        if !allocate {
          return x, 0;
        }
        var b := AllocBlock();
        if b == 0 {
          return x, 0;
        }
        x := x.(indirect := b);
        assert inodes[i := fi][i := x] == inodes[i := x];
      }
      ghost var mid := State();
      pb := ResolveEntry(x, lbn - DIRECT, allocate, i);
      if allocate {
        Glue(old(io), NeedIndirectIo(PutInode(old(State()), i, fi), i), EntryIo(PutInode(mid, i, x), x.indirect, lbn - DIRECT));
      }
    }

    /** The direct part of `resolve_block`. */
    method ResolveDirect(fi: Inode, lbn: nat, allocate: bool, ghost i: nat) returns (x: Inode, pb: u32)
      requires Valid() && i < |inodes| && lbn < DIRECT
      modifies `io, `data, blockBitmap
      ensures Valid() && inodes == old(inodes)
      ensures allocate ==> (PutInode(State(), i, x), pb) == Resolve(PutInode(old(State()), i, fi), i, lbn)
      ensures allocate ==> io == old(io) + ResolveIo(PutInode(old(State()), i, fi), i, lbn)
      ensures !allocate ==> State() == old(State()) && x == fi && pb == Lookup(old(State()), fi, lbn)
      ensures !allocate ==> io == old(io) + LookupIo(old(State()), fi, lbn)
    {
      hide FsState.AllocBlock, TableGet, TablePut, AllocBlockIo, TableIo;
      x := fi;
      AllocAfterPut(State(), i, fi);
      if x.direct[lbn] != 0 || !allocate {
        return x, x.direct[lbn];
      }
      pb := AllocBlock();
      if pb != 0 {
        x := x.(direct := x.direct[lbn := pb]);
        assert inodes[i := fi][i := x] == inodes[i := x];
      }
    }

    /** The table part of `resolve_block`. */
    method ResolveEntry(x: Inode, j: nat, allocate: bool, ghost i: nat) returns (pb: u32)
      requires Valid() && i < |inodes| && j < INDIRECT && x.indirect != 0
      modifies `io, `data, blockBitmap
      ensures Valid() && inodes == old(inodes)
      ensures allocate ==> (PutInode(State(), i, x), pb) == Resolve(PutInode(old(State()), i, x), i, DIRECT + j)
      ensures allocate ==> io == old(io) + EntryIo(PutInode(old(State()), i, x), x.indirect, j)
      ensures !allocate ==> State() == old(State()) && pb == Lookup(old(State()), x, DIRECT + j)
      ensures !allocate ==> io == old(io) + LookupIo(old(State()), x, DIRECT + j)
    {
      hide FsState.AllocBlock, TableGet, TablePut, AllocBlockIo;
      AllocAfterPut(State(), i, x);
      if x.indirect >= |data| {
        ZeroTable(j);
        return 0;
      }
      var table := ReadBlock(x.indirect);
      if TableGet(table, j) != 0 || !allocate {
        return TableGet(table, j);
      }
      var b := AllocBlock();
      if b == 0 {
        return 0;
      }
      WriteBlock(x.indirect, TablePut(table, j, b));
      Glue4(old(io), [GetBlock(x.indirect)], AllocBlockIo(old(State())), [DriverIo.Put(StoredFs.SetData(x.indirect, TablePut(table, j, b)))]);
      return b;
    }

    // ---------- files ----------

    /** `osfs2_read`: the bytes copied out, or failure. */
    method Read(ino: nat, offset: nat, len: nat) returns (r: FsFile.ReadResult)
      requires Valid()
      modifies `io, `data, blockBitmap
      ensures State() == old(State())
      ensures r == FsFile.ReadFile(old(State()), ino, offset, len)
      ensures io == old(io) + ReadIo(old(State()), ino, offset, len)
    {
      hide ReadRecordIo;
      var ok, fi := ReadInode(ino);
      if !ok || fi.typ == Free {
        return FsFile.Bad;
      }
      if offset >= fi.size {
        return FsFile.Got([]);
      }
      var n := if len > fi.size - offset then fi.size - offset else len;
      r := CopyOut(ino, offset, n);
      Glue(old(io), ReadRecordIo(old(State()), ino), ReadFromIo(old(State()), fi, offset, n, 0));
    }

    /** The copy loop of `osfs2_read`. */
    method CopyOut(ino: nat, offset: nat, n: nat) returns (r: FsFile.ReadResult)
      requires Valid() && ino < |inodes|
      modifies `io, `data, blockBitmap
      ensures State() == old(State())
      ensures r == FsFile.ReadFrom(old(State()), inodes[ino], offset, n, [])
      ensures io == old(io) + ReadFromIo(old(State()), inodes[ino], offset, n, 0)
    {
      hide Lookup, FsFile.Chunk, LookupIo, Resolve, ResolveIo, FsFile.ReadFrom, ReadFromIo;
      ghost var s := State();
      var fi := inodes[ino];
      var produced: seq<byte> := [];
      while |produced| < n
        invariant Valid() && State() == s && |produced| <= n
        invariant FsFile.ReadFrom(s, fi, offset, n, []) == FsFile.ReadFrom(s, fi, offset, n, produced)
        invariant old(io) + ReadFromIo(s, fi, offset, n, 0) == io + ReadFromIo(s, fi, offset, n, |produced|)
      {
        var pos := offset + |produced|;
        var can := FsFile.Chunk(pos, n - |produced|);
        ghost var was, ahead := io, LookupIo(s, fi, pos / 4096);
        ReadTurn(s, fi, offset, n, produced);
        var _, pb := ResolveBlock(fi, pos / 4096, false, ino);
        if pb == 0 {
          Glue(was, ahead, ReadFromIo(s, fi, offset, n, |produced| + can));
          produced := produced + Zeros(can);
        } else if pb >= |data| {
          Glue(was, ahead, []);
          return if produced == [] then FsFile.Bad else FsFile.Got(produced);
        } else {
          var blk := ReadBlock(pb);
          Glue3(was, ahead, [GetBlock(pb)], ReadFromIo(s, fi, offset, n, |produced| + can));
          produced := produced + blk[pos % 4096..pos % 4096 + can];
        }
      }
      ReadEnd(s, fi, offset, n, produced);
      return FsFile.Got(produced);
    }

    /** `osfs2_write`: the inode copy is written back only if something was stored. */
    method Write(ino: nat, offset: nat, buf: seq<byte>) returns (rc: int)
      requires Valid()
      modifies `io, `inodes, `data, blockBitmap
      ensures Valid() && FsFile.Done(State(), rc) == FsFile.WriteFile(old(State()), ino, offset, buf)
      ensures io == old(io) + WriteIo(old(State()), ino, offset, buf)
    {
      hide ReadRecordIo, WriteRecordIo, FsFile.WriteFrom, WriteFromIo;
      if buf == [] {
        return 0;
      }
      if offset + |buf| > MAX_BYTES {
        return -1;
      }
      var ok, x := ReadInode(ino);
      if !ok || x.typ != File {
        return -1;
      }
      var fi, consumed := CopyIn(ino, offset, buf);
      ghost var head, body := ReadRecordIo(old(State()), ino), WriteFromIo(old(State()), ino, offset, buf, 0);
      if consumed == 0 {
        Glue(old(io), head, body);
        return -1;
      }
      if offset + consumed > fi.size {
        fi := fi.(size := offset + consumed);
      }
      ghost var mid := State();
      ghost var tail := WriteRecordIo(mid, ino, fi);
      WriteInode(ino, fi);
      SameWriteBack(old(State()), ino, offset, buf, fi);
      SameRecord(old(State()), mid, ino, fi);
      Glue3(old(io), head, body, tail);
      return consumed;
    }

    /** The copy loop of `osfs2_write`. A block that is not covered whole is read first. */
    method CopyIn(ino: nat, offset: nat, buf: seq<byte>) returns (fi: Inode, consumed: nat)
      requires Valid() && 0 < ino < |inodes| && offset + |buf| <= MAX_BYTES
      modifies `io, `data, blockBitmap
      ensures Valid() && inodes == old(inodes) && consumed <= |buf|
      ensures (PutInode(State(), ino, fi), consumed) == FsFile.WriteFrom(old(State()), ino, offset, buf, 0)
      ensures io == old(io) + WriteFromIo(old(State()), ino, offset, buf, 0)
    {
      hide Resolve, TableGet, TablePut, FsFile.Splice, ResolveIo, FsFile.WriteFrom, WriteFromIo, FsFile.Chunk;
      fi, consumed := inodes[ino], 0;
      assert inodes[ino := fi] == inodes;
      ghost var s := State();
      while consumed < |buf|
        invariant Valid() && inodes == old(inodes) && consumed <= |buf|
        invariant FsFile.WriteFrom(s, ino, offset, buf, 0) == FsFile.WriteFrom(PutInode(State(), ino, fi), ino, offset, buf, consumed)
        invariant old(io) + WriteFromIo(s, ino, offset, buf, 0) == io + WriteFromIo(PutInode(State(), ino, fi), ino, offset, buf, consumed)
      {
        var pos := offset + consumed;
        var can := FsFile.Chunk(pos, |buf| - consumed);
        ghost var was, f0 := io, PutInode(State(), ino, fi);
        ghost var ahead := ResolveIo(f0, ino, pos / 4096);
        WriteTurn(f0, ino, offset, buf, consumed);
        var pb;
        fi, pb := ResolveBlock(fi, pos / 4096, true, ino);
        if pb == 0 || pb >= |data| {
          Glue(was, ahead, []);
          return;
        }
        ghost var f1 := PutInode(State(), ino, fi);
        StoreChunk(pb, pos % 4096, buf[consumed..consumed + can]);
        ghost var chunk := ChunkIo(f1, pb, pos % 4096, buf[consumed..consumed + can]);
        consumed := consumed + can;
        Glue3(was, ahead, chunk, WriteFromIo(PutInode(State(), ino, fi), ino, offset, buf, consumed));
      }
      WriteEnd(PutInode(State(), ino, fi), ino, offset, buf);
    }

    /** The end of one turn of that loop. */
    method StoreChunk(pb: nat, at: nat, xs: seq<byte>)
      requires pb < |data| && at + |xs| <= 4096
      modifies `io, `data
      ensures State() == PutBlock(old(State()), pb, FsFile.Splice(old(data)[pb], at, xs)) && inodes == old(inodes)
      ensures io == old(io) + ChunkIo(old(State()), pb, at, xs)
    {
      var blk := ZERO;
      if |xs| != 4096 {
        blk := ReadBlock(pb);
      }
      WholeBlock(old(data)[pb], at, xs);
      WriteBlock(pb, FsFile.Splice(blk, at, xs));
    }

    /** `osfs2_truncate`. */
    method Truncate(ino: nat, size: nat) returns (rc: int)
      requires Valid()
      modifies `io, `inodes, `data, blockBitmap
      ensures Valid() && FsFile.Done(State(), rc) == FsTruncate.Truncate(old(State()), ino, size)
      ensures io == old(io) + TruncateIo(old(State()), ino, size)
    {
      hide FsTruncate.DropDirect, FsTruncate.DropIndirect, ReadRecordIo, WriteRecordIo, DropDirectIo, DropIndirectIo;
      ghost var s := State();
      var ok, x := ReadInode(ino);
      if !ok || x.typ == Free || size > MAX_BYTES {
        return -1;
      }
      var kept := FsTruncate.Kept(size);
      ghost var a, b := ReadRecordIo(s, ino), DropDirectIo(s, ino, kept, 0);
      var fi := DropDirect(ino, kept);
      ghost var f1 := PutInode(State(), ino, fi);
      ghost var c: Trace := [];
      if fi.indirect != 0 {
        if fi.indirect >= |data| {
          assert inodes[ino := fi][ino := inodes[ino]] == inodes;
          Glue(old(io), a, b);
          return -1;
        }
        c := DropIndirectIo(f1, ino, kept);
        fi := DropIndirect(ino, fi, kept);
      }
      ghost var f2 := PutInode(State(), ino, fi);
      fi := fi.(size := size);
      assert f2.inodes[ino := fi] == inodes[ino := fi];
      ghost var mid := State();
      ghost var d := WriteRecordIo(mid, ino, fi);
      WriteInode(ino, fi);
      SameTrimBack(s, ino, size, fi);
      SameRecord(s, mid, ino, fi);
      Glue3(old(io), a, b, c + d);
      Glue(old(io) + a + b, c, d);
      return 0;
    }

    method DropDirect(ino: nat, kept: nat) returns (fi: Inode)
      requires Valid() && ino < |inodes|
      modifies `io, blockBitmap
      ensures PutInode(State(), ino, fi) == FsTruncate.DropDirect(old(State()), ino, kept, 0)
      ensures io == old(io) + DropDirectIo(old(State()), ino, kept, 0)
    {
      hide FsState.FreeBlock, FsTruncate.DropDirect, FreeBlockIo, DropDirectIo;
      fi := inodes[ino];
      assert inodes[ino := fi] == inodes;
      ghost var s := State();
      var i := 0;
      while i < DIRECT
        invariant 0 <= i <= DIRECT
        invariant FsTruncate.DropDirect(s, ino, kept, 0) == FsTruncate.DropDirect(PutInode(State(), ino, fi), ino, kept, i)
        invariant old(io) + DropDirectIo(s, ino, kept, 0) == io + DropDirectIo(PutInode(State(), ino, fi), ino, kept, i)
      {
        DropStep(PutInode(State(), ino, fi), ino, kept, i);
        DropIoStep(PutInode(State(), ino, fi), ino, kept, i);
        if i >= kept && fi.direct[i] != 0 {
          ghost var x, was, f0 := fi, io, State();
          FreeAfterPut(State(), ino, x, fi.direct[i]);
          FreeBlock(fi.direct[i]);
          fi := fi.(direct := fi.direct[i := 0]);
          assert inodes[ino := x][ino := fi] == inodes[ino := fi];
          Glue(was, FreeBlockIo(f0, x.direct[i]), DropDirectIo(PutInode(State(), ino, fi), ino, kept, i + 1));
        }
        i := i + 1;
      }
      DropOver(PutInode(State(), ino, fi), ino, kept);
      DropIoStep(PutInode(State(), ino, fi), ino, kept, DIRECT);
    }

    method DropIndirect(ino: nat, x: Inode, kept: nat) returns (fi: Inode)
      requires Valid() && ino < |inodes| && 0 < x.indirect < |data|
      modifies `io, `data, blockBitmap
      ensures inodes == old(inodes)
      ensures PutInode(State(), ino, fi) == FsTruncate.DropIndirect(PutInode(old(State()), ino, x), ino, kept)
      ensures io == old(io) + DropIndirectIo(PutInode(old(State()), ino, x), ino, kept)
    {
      hide DropTableIo, FsTruncate.DropTable;
      fi := x;
      ghost var s := PutInode(State(), ino, x);
      var ind, dirty, anyLeft := DropTable(ino, x, x.indirect, kept);
      ghost var head, body := [GetBlock(x.indirect)], DropTableIo(s, s.data[x.indirect], kept, 0);
      ghost var was := State();
      if !anyLeft {
        FreeAfterPut(was, ino, x, x.indirect);
        FreeBlock(fi.indirect);
        fi := fi.(indirect := 0);
        assert inodes[ino := x][ino := fi] == inodes[ino := fi];
        Glue4(old(io), head, body, FreeBlockIo(was, x.indirect));
      } else if dirty {
        WriteBlock(fi.indirect, ind);
        Glue4(old(io), head, body, [DriverIo.Put(StoredFs.SetData(x.indirect, ind))]);
      } else {
        assert data[fi.indirect := ind] == data;
        Glue4(old(io), head, body, []);
      }
    }

    /** The loop over the indirect table, on a copy of it; `dirty` tells whether the copy differs. */
    method DropTable(ghost ino: nat, ghost x: Inode, ind: u32, kept: nat) returns (t: Block, dirty: bool, anyLeft: bool)
      requires Valid() && ino < |inodes| && ind < |data|
      modifies `io, blockBitmap
      ensures dirty <==> t != data[ind]
      ensures (PutInode(State(), ino, x), t, anyLeft) == FsTruncate.DropTable(PutInode(old(State()), ino, x), old(data[ind]), kept, 0)
      ensures io == old(io) + [GetBlock(ind)] + DropTableIo(PutInode(old(State()), ino, x), old(data[ind]), kept, 0)
    {
      hide TableGet, TablePut, FsState.FreeBlock, FreeBlockIo;
      t := ReadBlock(ind);
      dirty, anyLeft := false, false;
      var j := 0;
      ghost var goal := FsTruncate.DropTable(PutInode(State(), ino, x), t, kept, 0);
      ghost var all := io + DropTableIo(PutInode(State(), ino, x), t, kept, 0);
      while j < INDIRECT
        invariant 0 <= j <= INDIRECT
        invariant !dirty ==> t == data[ind]
        invariant dirty ==> Dropped(data[ind], t)
        invariant var r := FsTruncate.DropTable(PutInode(State(), ino, x), t, kept, j);
                  goal == (r.0, r.1, anyLeft || r.2)
        invariant all == io + DropTableIo(PutInode(State(), ino, x), t, kept, j)
      {
        if DIRECT + j >= kept && TableGet(t, j) != 0 {
          ghost var was, f0, t0 := io, State(), t;
          FreeAfterPut(f0, ino, x, TableGet(t, j));
          FreeBlock(TableGet(t, j));
          t := TablePut(t, j, 0);
          DroppedMore(data[ind], t0, j, dirty);
          dirty := true;
          Glue(was, FreeBlockIo(f0, TableGet(t0, j)), DropTableIo(PutInode(State(), ino, x), t, kept, j + 1));
        } else if TableGet(t, j) != 0 {
          anyLeft := true;
        }
        j := j + 1;
      }
    }

    // ---------- directories ----------

    /** `dir_find`: block by block. */
    method DirFind(x: Inode, name: CString) returns (hit: int, empty: int)
      modifies `io
      ensures (hit, empty) == FsDirectory.DirFind(State(), x, name, 0, NO_SLOT)
      ensures io == old(io) + DirFindIo(State(), x, name, 0)
    {
      hide FsDirectory.DirFind, DirFindIo, ScanRest, Slots;
      ghost var s := State();
      empty := NO_SLOT;
      var i := 0;
      while i < DIRECT
        invariant 0 <= i <= DIRECT
        invariant FsDirectory.DirFind(s, x, name, 0, NO_SLOT) == FsDirectory.DirFind(s, x, name, i * PER_BLOCK, empty)
        invariant old(io) + DirFindIo(s, x, name, 0) == io + DirFindIo(s, x, name, i * PER_BLOCK)
      {
        var blk := x.direct[i];
        ScanStep(s, x, name, i, 0, empty);
        ScanIo(s, x, name, i, 0);
        if blk != 0 {
          if blk >= |data| {
            return NO_SLOT, empty;
          }
          var over;
          over, hit, empty := ScanBlock(x, name, i, empty);
          if over {
            return;
          }
        }
        i := i + 1;
      }
      ScanOver(s, x, name, empty);
      ScanIoOver(s, x, name);
      hit := NO_SLOT;
    }

    /** The entries of block `i`, after `seen`, the first empty slot so far; `over` says that the scan
        ends here. */
    method ScanBlock(x: Inode, name: CString, i: nat, seen: int) returns (over: bool, hit: int, empty: int)
      requires i < DIRECT && 0 < x.direct[i] < |data|
      modifies `io
      ensures FsDirectory.DirFind(State(), x, name, i * PER_BLOCK, seen) ==
              if over then (hit, empty) else FsDirectory.DirFind(State(), x, name, (i + 1) * PER_BLOCK, empty)
      ensures old(io) + DirFindIo(State(), x, name, i * PER_BLOCK) ==
              io + if over then [] else DirFindIo(State(), x, name, (i + 1) * PER_BLOCK)
    {
      hide RecordAt, RecordIno, RecordName, FsDirectory.DirFind, DirFindIo, Slots, Ahead, FoundAhead;
      ghost var s := State();
      ScanStart(s, x, name, i, seen);
      Glue(io, [GetBlock(x.direct[i])], Ahead(s, x, name, i, 0));
      var buf := ReadBlock(x.direct[i]);
      ghost var goal := io + Ahead(s, x, name, i, 0);
      over, hit, empty := true, NO_SLOT, seen;
      var j := 0;
      while j < PER_BLOCK
        invariant 0 <= j <= PER_BLOCK && over && hit == NO_SLOT
        invariant FoundAhead(s, x, name, i, 0, seen) == FoundAhead(s, x, name, i, j, empty)
        invariant goal == io + Ahead(s, x, name, i, j)
      {
        ScanEntry(s, x, name, i, j, empty);
        if i * PER_BLOCK + j >= Slots(x) {
          return;
        }
        var r := RecordAt(buf, j);
        if RecordIno(r) == 0 {
          if empty == NO_SLOT {
            empty := i * PER_BLOCK + j;
          }
        } else if RecordName(r) == name {
          hit := i * PER_BLOCK + j;
          return;
        }
        j := j + 1;
      }
      ScanEnd(s, x, name, i, empty);
      over := false;
    }

    /** `dir_write_at`. */
    method DirWriteAt(x: Inode, g: nat, r: Record) returns (ok: bool)
      modifies `io, `data
      ensures (State(), ok) == FsDirectory.DirWriteAt(old(State()), x, g, r)
      ensures io == old(io) + DirWriteIo(old(State()), x, g, r)
    {
      hide PutRecord;
      var k := g / PER_BLOCK;
      if k >= DIRECT || x.direct[k] == 0 || x.direct[k] >= |data| {
        return false;
      }
      var blk := ReadBlock(x.direct[k]);
      WriteBlock(x.direct[k], PutRecord(blk, g % PER_BLOCK, r));
      return true;
    }

    /** `dir_read_at`: the inode an entry names, if the entry can be read. */
    method DirReadAt(d: nat, g: nat) returns (ok: bool, i: u32)
      requires d < |inodes|
      modifies `io
      ensures ok <==> g < DIR_SLOTS && inodes[d].direct[g / PER_BLOCK] != 0 && inodes[d].direct[g / PER_BLOCK] < |data|
      ensures g < DIR_SLOTS ==> SlotIno(State(), d, g) == if ok then i else 0
      ensures io == old(io) + DirReadIo(State(), inodes[d], g)
    {
      hide RecordAt, RecordIno;
      var k := g / PER_BLOCK;
      if k >= DIRECT || inodes[d].direct[k] == 0 || inodes[d].direct[k] >= |data| {
        ZeroSlot(g % PER_BLOCK);
        return false, 0;
      }
      assert FsBlocks.FileBlock(State(), d, k) == data[inodes[d].direct[k]];
      var blk := ReadBlock(inodes[d].direct[k]);
      return true, RecordIno(RecordAt(blk, g % PER_BLOCK));
    }

    /** The slot part of `dir_create_in`. */
    method MakeSlot(x: Inode, empty: int) returns (y: Inode, slot: int)
      requires Valid()
      modifies `io, `data, blockBitmap
      ensures Valid() && inodes == old(inodes)
      ensures (State(), y, slot) == FsTree.MakeSlot(old(State()), x, empty)
      ensures io == old(io) + MakeSlotIo(old(State()), x, empty)
    {
      hide FsState.AllocBlock, AllocBlockIo;
      AllocAfterPut(State(), |inodes|, FsTree.NewInode(File));
      if empty != NO_SLOT {
        return x, empty;
      }
      slot := x.size / 64;
      y := x;
      var k := slot / PER_BLOCK;
      if k >= DIRECT {
        return x, NO_SLOT;
      }
      if y.direct[k] == 0 {
        var b := AllocBlock();
        if b == 0 {
          return x, NO_SLOT;
        }
        y := y.(direct := y.direct[k := b]);
      }
      y := y.(size := (slot + 1) * 64);
    }

    /** `dir_create_in`. */
    method Create(d: nat, name: CString, typ: Type) returns (rc: int)
      requires Valid()
      modifies `io, `inodes, `data, blockBitmap, inodeBitmap
      ensures Valid() && FsFile.Done(State(), rc) == FsTree.Create(old(State()), d, name, typ)
      ensures io == old(io) + CreateIo(old(State()), d, name, typ)
    {
      hide FsDirectory.DirFind, ReadRecordIo, DirFindIo, ExistingIo, EnterIo, FsTree.Existing, FsTree.MakeSlot, FsTree.AllocInode,
           FsTree.FreeInode, FsTree.NewInode, FsDirectory.DirWriteAt, Entry;
      if name == [] || |name| >= NAME_MAX {
        return 0;
      }
      var ok, x := ReadInode(d);
      if !ok || x.typ != Dir {
        return 0;
      }
      var hit, empty := DirFind(x, name);
      ghost var head, scan := ReadRecordIo(old(State()), d), DirFindIo(old(State()), x, name, 0);
      if hit != NO_SLOT {
        rc := Existing(d, hit, typ);
        Glue3(old(io), head, scan, ExistingIo(old(State()), d, hit));
      } else {
        rc := Enter(d, name, typ, empty);
        Glue3(old(io), head, scan, EnterIo(old(State()), d, name, typ, empty));
      }
    }

    /** The name is new: inode bit, record, slot, entry and parent, in this order. */
    method Enter(d: nat, name: CString, typ: Type, empty: int) returns (rc: int)
      requires Valid() && 0 < d < |inodes| && name != [] && |name| < NAME_MAX && inodes[d].typ == Dir
      requires FsDirectory.DirFind(State(), inodes[d], name, 0, NO_SLOT) == (NO_SLOT, empty)
      modifies `io, `inodes, `data, blockBitmap, inodeBitmap
      ensures Valid() && FsFile.Done(State(), rc) == FsTree.Create(old(State()), d, name, typ)
      ensures io == old(io) + EnterIo(old(State()), d, name, typ, empty)
    {
      hide FsDirectory.DirFind, FsTree.MakeSlot, Entry, FsDirectory.DirWriteAt, FsTree.AllocInode, FsTree.FreeInode, FsTree.NewInode,
           AllocInodeIo, WriteRecordIo, MakeSlotIo, DirWriteIo, FreeInodeIo;
      var x := inodes[d];
      ghost var s := State();
      var i := AllocInode();
      NoInode(s);
      if i == 0 {
        return 0;
      }
      ghost var f1 := State();
      WriteInode(i, FsTree.NewInode(typ));
      ghost var f2 := State();
      var y, slot := MakeSlot(x, empty);
      ghost var f3 := State();
      ghost var a, b, c := AllocInodeIo(s), WriteRecordIo(f1, i, FsTree.NewInode(typ)), MakeSlotIo(f2, x, empty);
      if slot < 0 {
        FreeInode(i);
        Glue5(old(io), a, b, c, FreeInodeIo(f3, i));
        return 0;
      }
      ghost var d0 := DirWriteIo(f3, y, slot, Entry(i, name));
      var ok := DirWriteAt(y, slot, Entry(i, name));
      ghost var f4 := State();
      if !ok {
        FreeInode(i);
        Glue(old(io) + a + b + c, d0, FreeInodeIo(f4, i));
        Glue5(old(io), a, b, c, d0 + FreeInodeIo(f4, i));
        return 0;
      }
      WriteInode(d, y);
      Glue(old(io) + a + b + c, d0, WriteRecordIo(f4, d, y));
      Glue5(old(io), a, b, c, d0 + WriteRecordIo(f4, d, y));
      return i;
    }

    /** The name is in use: open a file, fail for a directory. */
    method Existing(d: nat, hit: int, typ: Type) returns (rc: int)
      requires d < |inodes|
      modifies `io
      ensures rc == FsTree.Existing(State(), d, hit, typ)
      ensures io == old(io) + ExistingIo(State(), d, hit)
    {
      hide SlotIno, DirReadIo, ReadRecordIo;
      if hit < 0 {
        return 0;
      }
      var ok, i := DirReadAt(d, hit);
      if !ok {
        ReadNothing(State(), 0);
        NoEntry(State(), d, hit);
        Glue(old(io), DirReadIo(State(), inodes[d], hit), []);
        return 0;
      }
      var found, x := ReadInode(i);
      Glue(old(io), DirReadIo(State(), inodes[d], hit), ReadRecordIo(State(), i));
      if !found || typ == Dir || x.typ != typ {
        return 0;
      }
      return i;
    }

    /** `dir_unlink_slot`, then the record of the emptied inode and its bit. */
    method Detach(d: nat, g: nat, i: nat, x: Inode) returns (rc: int)
      requires Valid() && 0 < d < |inodes| && 0 < i < |inodes| && x == inodes[i]
      modifies `io, `inodes, `data, inodeBitmap
      ensures Valid() && FsFile.Done(State(), rc) == FsTree.Detach(old(State()), d, g, i)
      ensures io == old(io) + DetachIo(old(State()), d, g, i)
    {
      hide FsDirectory.DirWriteAt, ReadRecordIo, DirWriteIo, WriteRecordIo, FreeInodeIo;
      ghost var s := State();
      var _, pi := ReadInode(d);
      if pi.typ != Dir {
        return -1;
      }
      var ok := DirWriteAt(pi, g, Zeros(64));
      ghost var a, b := ReadRecordIo(s, d), DirWriteIo(s, pi, g, Zeros(64));
      if !ok {
        Glue(old(io), a, b);
        return -1;
      }
      ghost var f1 := State();
      var fi := x.(typ := Free, size := 0, nlink := 0);
      WriteInode(i, fi);
      ghost var c := WriteRecordIo(f1, i, fi);
      ghost var f2 := State();
      if i <= ROOT {
        NoBit(f2, i);
        Glue5(old(io), a, b, c, []);
        return -1;
      }
      FreeInode(i);
      Glue5(old(io), a, b, c, FreeInodeIo(f2, i));
      return 0;
    }

    /** The end of `osfs2_unlink` and `osfs2_rmdir`. */
    method EmptyThenDetach(d: nat, g: nat, i: nat) returns (rc: int)
      requires Valid() && 0 < d < |inodes| && 0 < i < |inodes|
      modifies `io, `inodes, `data, blockBitmap, inodeBitmap
      ensures Valid()
      ensures var t := FsTruncate.Truncate(old(State()), i, 0);
        FsFile.Done(State(), rc) == if t.rc != 0 then FsFile.Done(t.fs, -1) else FsTree.Detach(t.fs, d, g, i)
      ensures io == old(io) + EmptyThenDetachIo(old(State()), d, g, i)
    {
      hide FsTruncate.Truncate, FsTree.Detach, TruncateIo, DetachIo, ReadRecordIo;
      ghost var s := State();
      rc := Truncate(i, 0);
      ghost var t := State();
      if rc != 0 {
        return -1;
      }
      var _, fi := ReadInode(i);
      SameTable(s, t, i);
      rc := Detach(d, g, i, fi);
      Glue3(old(io), TruncateIo(s, i, 0), ReadRecordIo(s, i), DetachIo(t, d, g, i));
    }

    /** The rest of `osfs2_unlink`, once `walk_parent` has found the parent. */
    method Unlink(d: nat, name: CString) returns (rc: int)
      requires Valid()
      modifies `io, `inodes, `data, blockBitmap, inodeBitmap
      ensures Valid() && FsFile.Done(State(), rc) == FsTree.Unlink(old(State()), d, name)
      ensures io == old(io) + UnlinkIo(old(State()), d, name)
    {
      hide FsDirectory.DirFind, FsTruncate.Truncate, FsTree.Detach, SlotIno, ReadRecordIo, DirFindIo, DirReadIo, EmptyThenDetachIo;
      ghost var s := State();
      var found, pi := ReadInode(d);
      if !found {
        ReadNothing(s, d);
        return -1;
      }
      var hit, _ := DirFind(pi, name);
      ghost var a, b := ReadRecordIo(s, d), DirFindIo(s, pi, name, 0);
      if !(0 <= hit < DIR_SLOTS) {
        Glue(old(io), a, b);
        return -1;
      }
      var ok, i := DirReadAt(d, hit);
      ghost var c, e := DirReadIo(s, pi, hit), ReadRecordIo(s, SlotIno(s, d, hit));
      ReadNothing(s, 0);
      if !ok {
        GlueUnlink(old(io), a, b, c, [], []);
        return -1;
      }
      var there, fi := ReadInode(i);
      if !there || fi.typ == Dir {
        GlueUnlink(old(io), a, b, c, e, []);
        return -1;
      }
      rc := EmptyThenDetach(d, hit, i);
      GlueUnlink(old(io), a, b, c, e, EmptyThenDetachIo(s, d, hit, i));
    }

    /** The rest of `osfs2_rmdir`, once `walk_parent` has found the parent. */
    method Rmdir(d: nat, name: CString) returns (rc: int)
      requires Valid()
      modifies `io, `inodes, `data, blockBitmap, inodeBitmap
      ensures Valid() && FsFile.Done(State(), rc) == FsTree.Rmdir(old(State()), d, name)
      ensures io == old(io) + RmdirIo(old(State()), d, name)
    {
      hide FsDirectory.DirFind, FsTruncate.Truncate, FsTree.Detach, SlotIno, FsTree.AllEmpty, ReadRecordIo, DirFindIo, DirReadIo,
           AllEmptyIo, EmptyThenDetachIo;
      ghost var s := State();
      var found, pi := ReadInode(d);
      if !found {
        ReadNothing(s, d);
        return -1;
      }
      var hit, _ := DirFind(pi, name);
      ghost var a, b := ReadRecordIo(s, d), DirFindIo(s, pi, name, 0);
      if !(0 <= hit < DIR_SLOTS) {
        Glue(old(io), a, b);
        return -1;
      }
      var ok, i := DirReadAt(d, hit);
      ghost var c, e := DirReadIo(s, pi, hit), ReadRecordIo(s, SlotIno(s, d, hit));
      ReadNothing(s, 0);
      if !ok || i == ROOT {
        GlueRmdir(old(io), a, b, c, [], [], []);
        return -1;
      }
      var there, di := ReadInode(i);
      if !there || di.typ != Dir {
        GlueRmdir(old(io), a, b, c, e, [], []);
        return -1;
      }
      var bare := IsBare(i);
      ghost var m := AllEmptyIo(s, i, 0);
      if !bare {
        GlueRmdir(old(io), a, b, c, e, m, []);
        return -1;
      }
      rc := EmptyThenDetach(d, hit, i);
      GlueRmdir(old(io), a, b, c, e, m, EmptyThenDetachIo(s, d, hit, i));
    }

    /** The scan of `osfs2_rmdir`: every entry can be read and is empty. */
    method IsBare(d: nat) returns (bare: bool)
      requires d < |inodes|
      modifies `io
      ensures bare == FsTree.AllEmpty(State(), d, 0)
      ensures io == old(io) + AllEmptyIo(State(), d, 0)
    {
      hide SlotIno, DirReadIo, FsTree.AllEmpty, AllEmptyIo;
      ghost var s := State();
      var g := 0;
      while g < Slots(inodes[d])
        invariant 0 <= g
        invariant FsTree.AllEmpty(s, d, 0) == FsTree.AllEmpty(s, d, g)
        invariant old(io) + AllEmptyIo(s, d, 0) == io + AllEmptyIo(s, d, g)
      {
        BareTurn(s, d, g);
        Glue(io, DirReadIo(s, inodes[d], g), AllEmptyIo(s, d, g + 1));
        var ok, i := DirReadAt(d, g);
        if !ok || i != 0 {
          return false;
        }
        g := g + 1;
      }
      BareEnd(s, d, g, io);
      return true;
    }

    // ---------- paths ----------

    /** The loops that step over slashes. */
    static method PastSlashes(s: CString, p: nat) returns (q: nat)
      requires p <= |s|
      ensures q == SkipSlashes(s, p)
    {
      q := p;
      while q < |s| && s[q] == SLASH
        invariant p <= q <= |s| && SkipSlashes(s, q) == SkipSlashes(s, p)
      {
        q := q + 1;
      }
    }

    /** The loop that copies a name into its buffer, as far as it fits. */
    static method CopyName(s: CString, p: nat) returns (out: CString, q: nat)
      requires p <= |s|
      ensures q == SkipName(s, p) && out == Cut(s[p..q])
    {
      q, out := p, [];
      while q < |s| && s[q] != SLASH
        invariant p <= q <= |s| && SkipName(s, q) == SkipName(s, p) && out == Cut(s[p..q])
      {
        OneMoreChar(s, p, q);
        if |out| + 1 < NAME_MAX {
          out := out + [s[q]];
        }
        q := q + 1;
      }
    }

    /** `path_next_component`: past the slashes, the name into its buffer, past the slashes behind. */
    static method NextComponent(s: CString, p: nat) returns (found: bool, out: CString, next: nat)
      requires p <= |s|
      ensures PathStrings.NextComponent(s, p) == if found then Some((out, next)) else None
    {
      next := PastSlashes(s, p);
      if next == |s| {
        return false, [], next;
      }
      out, next := CopyName(s, next);
      next := PastSlashes(s, next);
      found := true;
    }

    /** `walk`. */
    method WalkPath(s: CString) returns (i: nat)
      requires Readable(s)
      modifies `io
      ensures i == WalkString(State(), s)
      ensures io == old(io) + WalkStringIo(State(), s)
    {
      hide FsDirectory.DirFind, SlotIno, PathStrings.NextComponent, WalkFrom, WalkFromIo, ReadRecordIo, DirFindIo, DirReadIo;
      ghost var fs := State();
      i := ROOT;
      if s == [] || s == [SLASH] {
        return;
      }
      var p := 0;
      while true
        invariant 0 <= p <= |s| && WalkFrom(fs, s, p, i) == WalkString(fs, s)
        invariant old(io) + WalkStringIo(fs, s) == io + WalkFromIo(fs, s, p, i)
        decreases |s| - p
      {
        WalkFromNext(fs, s, p, i);
        WalkFromIoNext(fs, s, p, i);
        var found, name, next := NextComponent(s, p);
        if !found {
          return;
        }
        ghost var was := io;
        var there, dir := ReadInode(i);
        ghost var a := ReadRecordIo(fs, i);
        if !there || dir.typ != Dir {
          Glue(was, a, []);
          return 0;
        }
        WalkFromNowhere(fs, s, next);
        WalkNowhereIo(fs, s, next);
        var hit, _ := DirFind(dir, name);
        ghost var b := DirFindIo(fs, dir, name, 0);
        if !(0 <= hit < DIR_SLOTS) {
          Glue3(was, a, b, []);
          return 0;
        }
        var ok, c := DirReadAt(i, hit);
        Glue3(was, a, b, DirReadIo(fs, dir, hit) + WalkFromIo(fs, s, next, if ok then c else 0));
        Glue(was + a + b, DirReadIo(fs, dir, hit), WalkFromIo(fs, s, next, if ok then c else 0));
        if !ok {
          return 0;
        }
        i, p := c, next;
      }
    }

    /** The scan of `walk_parent` for the start of the last name. */
    static method ScanLeaf(s: CString, p: nat) returns (at: nat)
      requires p <= |s|
      ensures at == LeafStart(s, p, p)
    {
      at := p;
      var scan := p;
      while scan < |s|
        invariant at <= scan <= |s| && LeafStart(s, scan, at) == LeafStart(s, p, p)
      {
        if s[scan] == SLASH && scan + 1 < |s| && s[scan + 1] != SLASH {
          at := scan + 1;
        }
        scan := scan + 1;
      }
    }

    /** The loops that strip trailing slashes. */
    static method StripEnd(s: CString, low: nat, e: nat) returns (r: nat)
      requires low <= e <= |s|
      ensures r == TrimEnd(s, low, e)
    {
      r := e;
      while r > low && s[r - 1] == SLASH
        invariant low <= r <= e && TrimEnd(s, low, r) == TrimEnd(s, low, e)
      {
        r := r - 1;
      }
    }

    /** The string part of `walk_parent`. */
    static method FindLeaf(s: CString) returns (ok: bool, parent: CString, leaf: CString)
      ensures SplitParent(s) == if ok then Some(Place(parent, leaf)) else None
    {
      var p := PastSlashes(s, 0);
      if p == |s| {
        return false, [], [];
      }
      var at := ScanLeaf(s, p);
      var end := StripEnd(s, at, |s|);
      var len := StripEnd(s, 0, at);
      leaf, parent := s[at..end], s[..len];
      ok := leaf != [] && |leaf| < NAME_MAX && SLASH !in leaf && len < PARENT_MAX;
    }

    /** `walk_parent`. */
    method ParentOf(s: CString) returns (ok: bool, d: nat, leaf: CString)
      modifies `io
      ensures WalkParent(State(), s) == if ok then Some((d, leaf)) else None
      ensures io == old(io) + WalkParentIo(State(), s)
    {
      hide SplitParent, WalkString, WalkStringIo, ReadRecordIo;
      var parent;
      ok, parent, leaf := FindLeaf(s);
      if !ok {
        return false, 0, [];
      }
      ParentReadable(s);
      d := WalkPath(parent);
      var there, pi := ReadInode(d);
      Glue(old(io), WalkStringIo(State(), parent), ReadRecordIo(State(), d));
      ok := there && pi.typ == Dir;
    }

    /** `osfs2_create` and `osfs2_mkdir`. */
    method CreatePath(s: CString, typ: Type) returns (rc: int)
      requires Valid()
      modifies `io, `inodes, `data, blockBitmap, inodeBitmap
      ensures Valid() && FsFile.Done(State(), rc) == CreateString(old(State()), s, typ)
      ensures io == old(io) + CreateStringIo(old(State()), s, typ)
    {
      hide FsTree.Create, WalkParent, WalkParentIo, CreateIo;
      ghost var fs := State();
      var ok, d, leaf := ParentOf(s);
      if !ok {
        return 0;
      }
      rc := Create(d, leaf, typ);
      Glue(old(io), WalkParentIo(fs, s), CreateIo(fs, d, leaf, typ));
    }

    /** `osfs2_unlink`. */
    method UnlinkPath(s: CString) returns (rc: int)
      requires Valid()
      modifies `io, `inodes, `data, blockBitmap, inodeBitmap
      ensures Valid() && FsFile.Done(State(), rc) == UnlinkString(old(State()), s)
      ensures io == old(io) + UnlinkStringIo(old(State()), s)
    {
      hide FsTree.Unlink, WalkParent, WalkParentIo, UnlinkIo;
      ghost var fs := State();
      var ok, d, leaf := ParentOf(s);
      if !ok {
        return -1;
      }
      rc := Unlink(d, leaf);
      Glue(old(io), WalkParentIo(fs, s), UnlinkIo(fs, d, leaf));
    }

    /** `osfs2_rmdir`. */
    method RmdirPath(s: CString) returns (rc: int)
      requires Valid()
      modifies `io, `inodes, `data, blockBitmap, inodeBitmap
      ensures Valid() && FsFile.Done(State(), rc) == RmdirString(old(State()), s)
      ensures io == old(io) + RmdirStringIo(old(State()), s)
    {
      hide FsTree.Rmdir, WalkParent, WalkParentIo, RmdirIo;
      ghost var fs := State();
      var ok, d, leaf := ParentOf(s);
      if !ok {
        return -1;
      }
      rc := Rmdir(d, leaf);
      Glue(old(io), WalkParentIo(fs, s), RmdirIo(fs, d, leaf));
    }
  }

  // ---------- traces ----------

  lemma Glue(o: Trace, a: Trace, b: Trace)
    ensures o + (a + b) == o + a + b
  {}

  lemma Glue3(o: Trace, a: Trace, b: Trace, c: Trace)
    ensures o + (a + (b + c)) == o + a + b + c
  {}

  lemma Glue4(o: Trace, a: Trace, b: Trace, c: Trace)
    ensures o + (a + b + c) == o + a + b + c
  {}

  lemma Glue5(o: Trace, a: Trace, b: Trace, c: Trace, d: Trace)
    ensures o + (a + b + c + d) == o + a + b + c + d
  {}

  lemma GlueUnlink(o: Trace, a: Trace, b: Trace, c: Trace, d: Trace, e: Trace)
    ensures o + (a + (b + (c + d + e))) == o + a + b + c + d + e
  {
    Glue4(o + a + b, c, d, e);
    Glue3(o, a, b, c + d + e);
  }

  lemma GlueRmdir(o: Trace, a: Trace, b: Trace, c: Trace, d: Trace, e: Trace, f: Trace)
    ensures o + (a + (b + (c + (d + (e + f))))) == o + a + b + c + d + e + f
  {
    Glue3(o, a, b, c + (d + (e + f)));
    Glue3(o + a + b, c, d, e + f);
    Glue(o + a + b + c + d, e, f);
  }

  /** The transfers for an entry of the table in block `ind`, if that block is there. */
  function EntryIo(fs: Fs, ind: nat, j: nat): Trace
    requires j < INDIRECT
  {
    if ind >= |fs.data| then [] else TableIo(fs, ind, j)
  }

  /** What the scan for a name does from entry `j` of block `i` on, once the block is read. */
  function ScanRest(fs: Fs, x: Inode, name: CString, i: nat, j: nat): Trace
    requires i < DIRECT && j < PER_BLOCK && x.direct[i] < |fs.data|
  {
    if i * PER_BLOCK + j >= Slots(x) then []
    else
      var r := RecordAt(fs.data[x.direct[i]], j);
      if RecordIno(r) != 0 && RecordName(r) == name then [] else DirFindIo(fs, x, name, i * PER_BLOCK + j + 1)
  }

  lemma Coordinates(i: nat, j: nat)
    requires j < PER_BLOCK
    ensures (i * PER_BLOCK + j) / PER_BLOCK == i && (i * PER_BLOCK + j) % PER_BLOCK == j
  {}

  lemma ScanHole(fs: Fs, x: Inode, name: CString, g: nat)
    requires g < DIR_SLOTS && (x.direct[g / PER_BLOCK] == 0 || x.direct[g / PER_BLOCK] >= |fs.data|)
    ensures DirFindIo(fs, x, name, g) ==
            if x.direct[g / PER_BLOCK] == 0 then DirFindIo(fs, x, name, (g / PER_BLOCK + 1) * PER_BLOCK) else []
  {
    hide RecordAt, RecordIno, RecordName, Slots;
  }

  lemma ScanHere(fs: Fs, x: Inode, name: CString, g: nat)
    requires g < DIR_SLOTS && 0 < x.direct[g / PER_BLOCK] < |fs.data|
    ensures var r := RecordAt(fs.data[x.direct[g / PER_BLOCK]], g % PER_BLOCK);
      DirFindIo(fs, x, name, g) ==
      (if g % PER_BLOCK == 0 then [GetBlock(x.direct[g / PER_BLOCK])] else []) +
      if g >= Slots(x) then []
      else if RecordIno(r) != 0 && RecordName(r) == name then [] else DirFindIo(fs, x, name, g + 1)
  {
    hide RecordAt, RecordIno, RecordName, Slots;
  }

  lemma ScanIo(fs: Fs, x: Inode, name: CString, i: nat, j: nat)
    requires i < DIRECT && j < PER_BLOCK
    ensures var blk := x.direct[i];
      DirFindIo(fs, x, name, i * PER_BLOCK + j) ==
      if blk == 0 then DirFindIo(fs, x, name, (i + 1) * PER_BLOCK)
      else if blk >= |fs.data| then []
      else (if j == 0 then [GetBlock(blk)] else []) + ScanRest(fs, x, name, i, j)
  {
    hide RecordAt, RecordIno, RecordName, Slots, DirFindIo;
    Coordinates(i, j);
    if 0 < x.direct[i] < |fs.data| {
      ScanHere(fs, x, name, i * PER_BLOCK + j);
    } else {
      ScanHole(fs, x, name, i * PER_BLOCK + j);
    }
  }

  lemma ScanIoOver(fs: Fs, x: Inode, name: CString)
    ensures DirFindIo(fs, x, name, DIR_SLOTS) == []
  {}

  /** What the scan finds, and the transfers it makes, from entry `j` of block `i` on, once the block
      is read. */
  function FoundAhead(fs: Fs, x: Inode, name: CString, i: nat, j: nat, empty: int): (int, int) {
    FsDirectory.DirFind(fs, x, name, i * PER_BLOCK + j, empty)
  }

  function Ahead(fs: Fs, x: Inode, name: CString, i: nat, j: nat): Trace
    requires i < DIRECT && j <= PER_BLOCK && x.direct[i] < |fs.data|
  {
    if j == 0 then ScanRest(fs, x, name, i, 0) else DirFindIo(fs, x, name, i * PER_BLOCK + j)
  }

  lemma ScanStart(fs: Fs, x: Inode, name: CString, i: nat, empty: int)
    requires i < DIRECT && 0 < x.direct[i] < |fs.data|
    ensures FoundAhead(fs, x, name, i, 0, empty) == FsDirectory.DirFind(fs, x, name, i * PER_BLOCK, empty)
    ensures DirFindIo(fs, x, name, i * PER_BLOCK) == [GetBlock(x.direct[i])] + Ahead(fs, x, name, i, 0)
  {
    hide RecordAt, RecordIno, RecordName, ScanRest, FsDirectory.DirFind, DirFindIo;
    ScanIo(fs, x, name, i, 0);
  }

  lemma ScanEnd(fs: Fs, x: Inode, name: CString, i: nat, empty: int)
    requires i < DIRECT && 0 < x.direct[i] < |fs.data|
    ensures FoundAhead(fs, x, name, i, PER_BLOCK, empty) == FsDirectory.DirFind(fs, x, name, (i + 1) * PER_BLOCK, empty)
    ensures Ahead(fs, x, name, i, PER_BLOCK) == DirFindIo(fs, x, name, (i + 1) * PER_BLOCK)
  {
    hide DirFindIo, FsDirectory.DirFind;
  }

  lemma ScanEntry(fs: Fs, x: Inode, name: CString, i: nat, j: nat, empty: int)
    requires i < DIRECT && j < PER_BLOCK && 0 < x.direct[i] < |fs.data|
    ensures var (g, r) := (i * PER_BLOCK + j, RecordAt(fs.data[x.direct[i]], j));
      && FoundAhead(fs, x, name, i, j, empty) == (
           if g >= Slots(x) then (NO_SLOT, empty)
           else if RecordIno(r) == 0 then FoundAhead(fs, x, name, i, j + 1, if empty == NO_SLOT then g else empty)
           else if RecordName(r) == name then (g, empty)
           else FoundAhead(fs, x, name, i, j + 1, empty))
      && Ahead(fs, x, name, i, j) ==
           if g >= Slots(x) || (RecordIno(r) != 0 && RecordName(r) == name) then [] else Ahead(fs, x, name, i, j + 1)
  {
    hide RecordAt, RecordIno, RecordName, FsDirectory.DirFind, DirFindIo;
    ScanStep(fs, x, name, i, j, empty);
    ScanIo(fs, x, name, i, j);
  }

  lemma ReadNothing(fs: Fs, i: nat)
    requires i == 0 || i >= |fs.inodes|
    ensures ReadRecordIo(fs, i) == []
  {}

  lemma NoInode(fs: Fs)
    ensures FsTree.AllocInode(fs).1 == 0 ==> AllocInodeIo(fs) == []
  {}

  lemma NoBit(fs: Fs, i: nat)
    requires i <= ROOT
    ensures FreeInodeIo(fs, i) == []
  {}

  /** An entry that cannot be read ends the emptiness scan. */
  lemma NoEntry(fs: Fs, d: nat, g: nat)
    requires d < |fs.inodes|
    ensures g >= DIR_SLOTS ==> DirReadIo(fs, fs.inodes[d], g) == []
  {}

  /** One turn of the scan for an entry in use, and its end. */
  lemma BareTurn(fs: Fs, d: nat, g: nat)
    requires d < |fs.inodes| && g < Slots(fs.inodes[d])
    ensures var (x, rest) := (fs.inodes[d], AllEmptyIo(fs, d, g + 1));
      var bare := g < DIR_SLOTS && 0 < x.direct[g / PER_BLOCK] < |fs.data| && SlotIno(fs, d, g) == 0;
      && FsTree.AllEmpty(fs, d, g) == (bare && FsTree.AllEmpty(fs, d, g + 1))
      && AllEmptyIo(fs, d, g) == if bare then DirReadIo(fs, x, g) + rest else DirReadIo(fs, x, g)
  {
    hide SlotIno;
  }

  lemma BareEnd(fs: Fs, d: nat, g: nat, o: Trace)
    requires d < |fs.inodes| && g >= Slots(fs.inodes[d])
    ensures FsTree.AllEmpty(fs, d, g) && o + AllEmptyIo(fs, d, g) == o
  {}

  lemma SameTable(fs: Fs, gs: Fs, i: nat)
    requires |gs.inodes| == |fs.inodes|
    ensures ReadRecordIo(gs, i) == ReadRecordIo(fs, i)
  {}

  /** One turn of the copy loop of `osfs2_read`, and its end. */
  lemma ReadTurn(fs: Fs, x: Inode, offset: nat, n: nat, got: seq<byte>)
    requires |got| < n
    ensures var pos := offset + |got|;
      var can, pb := FsFile.Chunk(pos, n - |got|), Lookup(fs, x, pos / 4096);
      && |got| + can <= n && pos % 4096 + can <= 4096
      && FsFile.ReadFrom(fs, x, offset, n, got) == (
           if pb == 0 then FsFile.ReadFrom(fs, x, offset, n, got + Zeros(can))
           else if pb >= |fs.data| then if got == [] then FsFile.Bad else FsFile.Got(got)
           else FsFile.ReadFrom(fs, x, offset, n, got + fs.data[pb][pos % 4096..pos % 4096 + can]))
      && ReadFromIo(fs, x, offset, n, |got|) ==
           LookupIo(fs, x, pos / 4096) + (
             if pb == 0 then ReadFromIo(fs, x, offset, n, |got| + can)
             else if pb >= |fs.data| then []
             else [GetBlock(pb)] + ReadFromIo(fs, x, offset, n, |got| + can))
  {
    hide Lookup, LookupIo;
  }

  lemma ReadEnd(fs: Fs, x: Inode, offset: nat, n: nat, got: seq<byte>)
    requires |got| == n
    ensures FsFile.ReadFrom(fs, x, offset, n, got) == FsFile.Got(got) && ReadFromIo(fs, x, offset, n, n) == []
  {}

  lemma SameRecord(fs: Fs, gs: Fs, i: nat, x: Inode)
    requires |gs.inodes| == |fs.inodes|
    ensures WriteRecordIo(gs, i, x) == WriteRecordIo(fs, i, x)
  {}

  lemma WholeBlock(b: Block, at: nat, xs: seq<byte>)
    requires at + |xs| <= 4096
    ensures |xs| == 4096 ==> FsFile.Splice(ZERO, at, xs) == FsFile.Splice(b, at, xs)
  {}

  lemma SameWriteBack(fs: Fs, i: nat, offset: nat, buf: seq<byte>, x: Inode)
    requires 0 < i < |fs.inodes| && buf != [] && offset + |buf| <= MAX_BYTES && fs.inodes[i].typ == File
    requires var (f1, k) := FsFile.WriteFrom(fs, i, offset, buf, 0);
      k != 0 && x == f1.inodes[i].(size := if offset + k > f1.inodes[i].size then offset + k else f1.inodes[i].size)
    ensures FsFile.WriteFile(fs, i, offset, buf).fs.inodes[i] == x
  {
    hide FsFile.WriteFrom;
  }

  lemma SameTrimBack(fs: Fs, i: nat, size: nat, x: Inode)
    requires 0 < i < |fs.inodes| && FsTruncate.Truncate(fs, i, size).fs.inodes[i] == x
    ensures WriteRecordIo(fs, i, FsTruncate.Truncate(fs, i, size).fs.inodes[i]) == WriteRecordIo(fs, i, x)
  {}

  /** The table differs from what it was in an entry that was dropped. */
  ghost predicate Dropped(was: Block, t: Block) {
    exists j: nat :: j < INDIRECT && TableGet(was, j) != 0 && TableGet(t, j) == 0
  }

  lemma DroppedMore(was: Block, t: Block, j: nat, dirty: bool)
    requires j < INDIRECT && TableGet(t, j) != 0 && (if dirty then Dropped(was, t) else t == was)
    ensures Dropped(was, TablePut(t, j, 0))
  {
    hide TableGet, TablePut;
    forall k: nat | k < INDIRECT
      ensures TableGet(TablePut(t, j, 0), k) == if k == j then 0 else TableGet(t, k)
    {
      TableGetPut(t, j, 0, k);
    }
  }

  /** One turn of the scan for a name, at entry `j` of block `i`. */
  lemma ScanStep(fs: Fs, x: Inode, name: CString, i: nat, j: nat, empty: int)
    requires i < DIRECT && j < PER_BLOCK
    ensures var (g, blk) := (i * PER_BLOCK + j, x.direct[i]);
      FsDirectory.DirFind(fs, x, name, g, empty) ==
      if blk == 0 then FsDirectory.DirFind(fs, x, name, (i + 1) * PER_BLOCK, empty)
      else if blk >= |fs.data| || g >= Slots(x) then (NO_SLOT, empty)
      else if RecordIno(RecordAt(fs.data[blk], j)) == 0 then FsDirectory.DirFind(fs, x, name, g + 1, if empty == NO_SLOT then g else empty)
      else if RecordName(RecordAt(fs.data[blk], j)) == name then (g, empty)
      else FsDirectory.DirFind(fs, x, name, g + 1, empty)
  {
    hide RecordAt, RecordIno, RecordName;
    var g := i * PER_BLOCK + j;
    assert g / PER_BLOCK == i && g % PER_BLOCK == j;
  }

  lemma ScanOver(fs: Fs, x: Inode, name: CString, empty: int)
    ensures FsDirectory.DirFind(fs, x, name, DIR_SLOTS, empty) == (NO_SLOT, empty)
  {}

  lemma DropIoStep(fs: Fs, ino: nat, kept: nat, k: nat)
    requires ino < |fs.inodes| && k <= DIRECT
    ensures DropDirectIo(fs, ino, kept, k) ==
            if k == DIRECT then []
            else
              var x := fs.inodes[ino];
              if k >= kept && x.direct[k] != 0 then
                FreeBlockIo(fs, x.direct[k])
                + DropDirectIo(PutInode(FreeBlock(fs, x.direct[k]), ino, x.(direct := x.direct[k := 0])), ino, kept, k + 1)
              else DropDirectIo(fs, ino, kept, k + 1)
  {}

  lemma OneMoreChar(s: CString, p: nat, q: nat)
    requires p <= q < |s|
    ensures s[p..q + 1] == s[p..q] + [s[q]]
  {}

  /** One turn of the copy loop of `osfs2_write`, and its end. */
  lemma WriteTurn(fs: Fs, i: nat, offset: nat, buf: seq<byte>, done: nat)
    requires i < |fs.inodes| && done < |buf|
    ensures var pos := offset + done;
      var n, (f1, pb) := FsFile.Chunk(pos, |buf| - done), Resolve(fs, i, pos / 4096);
      && done + n <= |buf| && pos % 4096 + n <= 4096
      && (pb == 0 || pb >= |fs.data| ==>
            && FsFile.WriteFrom(fs, i, offset, buf, done) == (f1, done)
            && WriteFromIo(fs, i, offset, buf, done) == ResolveIo(fs, i, pos / 4096) + [])
      && (pb != 0 && pb < |fs.data| ==>
            var xs := buf[done..done + n];
            var f2 := PutBlock(f1, pb, FsFile.Splice(f1.data[pb], pos % 4096, xs));
            && FsFile.WriteFrom(fs, i, offset, buf, done) == FsFile.WriteFrom(f2, i, offset, buf, done + n)
            && WriteFromIo(fs, i, offset, buf, done) ==
                 ResolveIo(fs, i, pos / 4096) + (ChunkIo(f1, pb, pos % 4096, xs) + WriteFromIo(f2, i, offset, buf, done + n)))
  {
    hide Resolve, ResolveIo, FsFile.Splice, ChunkIo;
  }

  lemma WriteEnd(fs: Fs, i: nat, offset: nat, buf: seq<byte>)
    requires i < |fs.inodes|
    ensures FsFile.WriteFrom(fs, i, offset, buf, |buf|) == (fs, |buf|) && WriteFromIo(fs, i, offset, buf, |buf|) == []
  {}

  /** One turn of the loop over the direct pointers. */
  lemma DropStep(fs: Fs, ino: nat, kept: nat, k: nat)
    requires ino < |fs.inodes| && k < DIRECT
    ensures var x := fs.inodes[ino];
      FsTruncate.DropDirect(fs, ino, kept, k) ==
      if k >= kept && x.direct[k] != 0 then
        FsTruncate.DropDirect(PutInode(FreeBlock(fs, x.direct[k]), ino, x.(direct := x.direct[k := 0])), ino, kept, k + 1)
      else FsTruncate.DropDirect(fs, ino, kept, k + 1)
  {}

  lemma DropOver(fs: Fs, ino: nat, kept: nat)
    requires ino < |fs.inodes|
    ensures FsTruncate.DropDirect(fs, ino, kept, DIRECT) == fs
  {}

  lemma WalkFromNext(fs: Fs, s: CString, p: nat, cur: nat)
    requires p <= |s|
    ensures var r := PathStrings.NextComponent(s, p);
      WalkFrom(fs, s, p, cur) ==
      if r.None? then cur
      else if cur == 0 || cur >= |fs.inodes| || fs.inodes[cur].typ != Dir then 0
      else WalkFrom(fs, s, r.value.1, FsCreate.Child(fs, cur, r.value.0))
    ensures PathStrings.NextComponent(s, p).Some? ==> p < PathStrings.NextComponent(s, p).value.1 <= |s|
  {}

  lemma WalkFromNowhere(fs: Fs, s: CString, p: nat)
    requires p <= |s|
    ensures WalkFrom(fs, s, p, 0) == 0
  {}

  lemma ZeroSlot(j: nat)
    requires j < PER_BLOCK
    ensures RecordIno(RecordAt(ZERO, j)) == 0
  {
    assert RecordAt(ZERO, j) == Zeros(64);
  }

  /** Nor does freeing. */
  lemma FreeAfterPut(fs: Fs, i: nat, x: Inode, b: nat)
    ensures FreeBlock(PutInode(fs, i, x), b) == PutInode(FreeBlock(fs, b), i, x)
    ensures FreeBlock(fs, b).inodes == fs.inodes
    ensures FreeBlockIo(PutInode(fs, i, x), b) == FreeBlockIo(fs, b)
  {}

  /** Allocation does not look at the inode table. */
  lemma AllocAfterPut(fs: Fs, i: nat, x: Inode)
    ensures AllocBlock(PutInode(fs, i, x)).0 == PutInode(AllocBlock(fs).0, i, x)
    ensures AllocBlock(PutInode(fs, i, x)).1 == AllocBlock(fs).1
    ensures AllocBlock(fs).0 == fs.(data := AllocBlock(fs).0.data, blockMap := AllocBlock(fs).0.blockMap)
    ensures AllocBlockIo(PutInode(fs, i, x)) == AllocBlockIo(fs)
  {}
}

/** The transfers of the OSFS-2 driver add up: reads stay within the file system's blocks, and the
    updates written, one after another, lead from the state before a call to the state after it. */
module DriverRuns {
  import opened Bytes
  import opened CStrings
  import opened Disk
  import opened FsState
  import opened FsBlocks
  import opened FsFile
  import opened FsTruncate
  import opened FsDirectory
  import opened FsTree
  import opened FsCreate
  import opened FsRemove
  import opened FsPaths
  import opened FsView
  import opened StoredFs
  import opened DriverIo
  import FsHandles

  // ---------- following a trace ----------

  predicate FineStep(fs: Fs, e: Io) {
    match e
    case GetRecord(i) => i < |fs.inodes|
    case GetBlock(b) => fs.dataStart <= b < |fs.data|
    case Put(u) => Sensible(fs, u)
  }

  function AfterStep(fs: Fs, e: Io): Fs
    requires FineStep(fs, e)
  {
    if e.Put? then Updated(fs, e.u) else fs
  }

  /** Every transfer names a block that is there, in the state it meets. */
  ghost predicate Fine(fs: Fs, io: Trace)
    decreases |io|, 0
  {
    io == [] || (Fine(fs, io[..|io| - 1]) && FineStep(Played(fs, io[..|io| - 1]), io[|io| - 1]))
  }

  /** The state after the updates of a trace. */
  ghost function Played(fs: Fs, io: Trace): Fs
    requires Fine(fs, io)
    decreases |io|, 1
  {
    if io == [] then fs else AfterStep(Played(fs, io[..|io| - 1]), io[|io| - 1])
  }

  ghost predicate Leads(fs: Fs, io: Trace, gs: Fs) {
    Fine(fs, io) && Played(fs, io) == gs
  }

  lemma Stay(fs: Fs)
    ensures Leads(fs, [], fs)
  {}

  lemma OneStep(fs: Fs, e: Io)
    requires FineStep(fs, e)
    ensures Leads(fs, [e], AfterStep(fs, e))
  {
    assert [e][..0] == [];
    Stay(fs);
  }

  lemma {:induction false} Then(fs: Fs, a: Trace, gs: Fs, b: Trace, hs: Fs)
    requires Leads(fs, a, gs) && Leads(gs, b, hs)
    ensures Leads(fs, a + b, hs)
    decreases |b|
  {
    if b == [] {
      assert a + b == a;
    } else {
      var n := |b| - 1;
      Then(fs, a, gs, b[..n], Played(gs, b[..n]));
      assert (a + b)[..|a + b| - 1] == a + b[..n];
    }
  }

  /** Reads change nothing. */
  lemma ThenStay(fs: Fs, a: Trace, gs: Fs, b: Trace)
    requires Leads(fs, a, gs) && Leads(gs, b, gs)
    ensures Leads(fs, a + b, gs)
  {
    Then(fs, a, gs, b, gs);
  }

  /** The state with another inode table and inode bitmap: while a routine works on a copy of the
      record, the table still holds the old one. */
  function Under(fs: Fs, o: seq<Inode>, m: seq<bool>): Fs {
    fs.(inodes := o, inodeMap := m)
  }

  // ---------- records, bitmaps ----------

  lemma ReadRecordLeads(fs: Fs, i: nat)
    ensures Leads(fs, ReadRecordIo(fs, i), fs)
  {
    hide Leads;
    if 0 < i < |fs.inodes| {
      OneStep(fs, GetRecord(i));
    } else {
      Stay(fs);
    }
  }

  lemma WriteRecordLeads(fs: Fs, i: nat, x: Inode)
    requires 0 < i < |fs.inodes|
    ensures Leads(fs, WriteRecordIo(fs, i, x), PutInode(fs, i, x))
  {
    hide Leads;
    OneStep(fs, GetRecord(i));
    OneStep(fs, Put(SetRecord(i, x)));
    Then(fs, [GetRecord(i)], fs, [Put(SetRecord(i, x))], PutInode(fs, i, x));
    assert [GetRecord(i)] + [Put(SetRecord(i, x))] == WriteRecordIo(fs, i, x);
  }

  lemma SetDataLeads(fs: Fs, b: nat, y: Block)
    requires fs.dataStart <= b < |fs.data|
    ensures Leads(fs, [Put(SetData(b, y))], PutBlock(fs, b, y))
  {
    hide Leads;
    OneStep(fs, Put(SetData(b, y)));
  }

  lemma AllocBlockLeads(fs: Fs, o: seq<Inode>, m: seq<bool>)
    requires |fs.blockMap| == |fs.data|
    ensures Leads(Under(fs, o, m), AllocBlockIo(fs), Under(AllocBlock(fs).0, o, m))
  {
    hide Leads;
    var b := FirstFree(fs.blockMap, fs.dataStart);
    var rs := Under(fs, o, m);
    if b >= |fs.blockMap| || b >= U32 {
      Stay(rs);
    } else {
      var mid := rs.(blockMap := rs.blockMap[b := true]);
      OneStep(rs, Put(SetBlockBit(b, true)));
      SetDataLeads(mid, b, ZERO);
      Then(rs, [Put(SetBlockBit(b, true))], mid, [Put(SetData(b, ZERO))], PutBlock(mid, b, ZERO));
      assert [Put(SetBlockBit(b, true))] + [Put(SetData(b, ZERO))] == AllocBlockIo(fs);
    }
  }

  lemma FreeBlockLeads(fs: Fs, o: seq<Inode>, m: seq<bool>, b: nat)
    ensures Leads(Under(fs, o, m), FreeBlockIo(fs, b), Under(FreeBlock(fs, b), o, m))
  {
    hide Leads;
    if fs.dataStart <= b < |fs.blockMap| {
      OneStep(Under(fs, o, m), Put(SetBlockBit(b, false)));
    } else {
      Stay(Under(fs, o, m));
    }
  }

  lemma AllocInodeLeads(fs: Fs)
    ensures Leads(fs, AllocInodeIo(fs), AllocInode(fs).0)
  {
    hide Leads;
    var i := AllocInode(fs).1;
    if i == 0 {
      Stay(fs);
    } else {
      OneStep(fs, Put(SetInodeBit(i, true)));
    }
  }

  lemma FreeInodeLeads(fs: Fs, i: nat)
    ensures Leads(fs, FreeInodeIo(fs, i), FreeInode(fs, i))
  {
    hide Leads;
    if ROOT < i < |fs.inodeMap| {
      OneStep(fs, Put(SetInodeBit(i, false)));
    } else {
      Stay(fs);
    }
  }

  // ---------- block pointers ----------

  lemma NeedIndirectLeads(fs: Fs, o: seq<Inode>, m: seq<bool>, i: nat)
    requires |fs.blockMap| == |fs.data| && i < |fs.inodes|
    ensures Leads(Under(fs, o, m), NeedIndirectIo(fs, i), Under(NeedIndirect(fs, i).0, o, m))
  {
    hide Leads, AllocBlock, AllocBlockIo;
    if fs.inodes[i].indirect != 0 {
      Stay(Under(fs, o, m));
    } else {
      AllocBlockLeads(fs, o, m);
    }
  }

  /** The state of `Resolve` at its table entry. */
  function Filled(fs: Fs, ind: nat, j: nat): Fs
    requires j < INDIRECT && ind < |fs.data|
  {
    var table := Block_(fs, ind);
    if TableGet(table, j) != 0 then fs
    else
      var (f2, b) := AllocBlock(fs);
      if b == 0 then f2 else PutBlock(f2, ind, TablePut(table, j, b))
  }

  lemma TableLeads(fs: Fs, o: seq<Inode>, m: seq<bool>, ind: nat, j: nat)
    requires |fs.blockMap| == |fs.data| && j < INDIRECT && fs.dataStart <= ind < |fs.data|
    ensures Leads(Under(fs, o, m), TableIo(fs, ind, j), Under(Filled(fs, ind, j), o, m))
  {
    hide Leads, AllocBlockIo;
    var rs := Under(fs, o, m);
    OneStep(rs, GetBlock(ind));
    var table := Block_(fs, ind);
    if TableGet(table, j) != 0 {
      assert TableIo(fs, ind, j) == [GetBlock(ind)];
    } else {
      var (f2, b) := AllocBlock(fs);
      AllocBlockLeads(fs, o, m);
      var start := Under(f2, o, m);
      Then(rs, [GetBlock(ind)], rs, AllocBlockIo(fs), start);
      if b == 0 {
        assert TableIo(fs, ind, j) == [GetBlock(ind)] + AllocBlockIo(fs);
      } else {
        SetDataLeads(start, ind, TablePut(table, j, b));
        Then(rs, [GetBlock(ind)] + AllocBlockIo(fs), start, [Put(SetData(ind, TablePut(table, j, b)))], Under(Filled(fs, ind, j), o, m));
        assert TableIo(fs, ind, j) == [GetBlock(ind)] + AllocBlockIo(fs) + [Put(SetData(ind, TablePut(table, j, b)))];
      }
    }
  }

  lemma OwnedSizes(fs: Fs)
    requires Owned(fs)
    ensures |fs.blockMap| == |fs.data| && |fs.inodeMap| == |fs.inodes|
  {}

  lemma IndirectInData(fs: Fs, i: nat)
    requires Owned(fs) && Live(fs, i) && fs.inodes[i].indirect != 0
    ensures fs.dataStart <= fs.inodes[i].indirect < |fs.data|
  {
    assert PointsTo(fs, i, DIRECT, fs.inodes[i].indirect);
  }

  lemma DirectInData(fs: Fs, i: nat, k: nat)
    requires Owned(fs) && Live(fs, i) && k < DIRECT && fs.inodes[i].direct[k] != 0
    ensures fs.dataStart <= fs.inodes[i].direct[k] < |fs.data|
  {
    assert PointsTo(fs, i, k, fs.inodes[i].direct[k]);
  }

  lemma PointerInData(fs: Fs, i: nat, k: nat, b: nat)
    requires Owned(fs) && PointsTo(fs, i, k, b)
    ensures fs.dataStart <= b < |fs.data|
  {}

  lemma ResolveIsFilled(fs: Fs, i: nat, lbn: nat)
    requires i < |fs.inodes| && DIRECT <= lbn < MAX_BLOCKS
    ensures var (f1, ok) := NeedIndirect(fs, i);
      Resolve(fs, i, lbn).0 == if !ok || f1.inodes[i].indirect >= |f1.data| then f1
                               else Filled(f1, f1.inodes[i].indirect, lbn - DIRECT)
  {
    hide NeedIndirect, AllocBlock, TableGet, TablePut;
  }

  lemma ResolveLeads(fs: Fs, o: seq<Inode>, m: seq<bool>, i: nat, lbn: nat)
    requires Owned(fs) && Live(fs, i)
    ensures Leads(Under(fs, o, m), ResolveIo(fs, i, lbn), Under(Resolve(fs, i, lbn).0, o, m))
  {
    hide Leads, NeedIndirect, NeedIndirectIo, AllocBlockIo, TableIo, Filled, FileBlock;
    OwnedSizes(fs);
    var rs := Under(fs, o, m);
    if lbn >= MAX_BLOCKS {
      Stay(rs);
    } else if lbn < DIRECT {
      if fs.inodes[i].direct[lbn] != 0 {
        Stay(rs);
      } else {
        AllocBlockLeads(fs, o, m);
      }
    } else {
      NeedIndirectKeeps(fs, i);
      NeedIndirectLeads(fs, o, m, i);
      ResolveIsFilled(fs, i, lbn);
      var (f1, ok) := NeedIndirect(fs, i);
      OwnedSizes(f1);
      if ok && f1.inodes[i].indirect < |f1.data| {
        PointerInData(f1, i, DIRECT, f1.inodes[i].indirect);
        TableLeads(f1, o, m, f1.inodes[i].indirect, lbn - DIRECT);
        Then(rs, NeedIndirectIo(fs, i), Under(f1, o, m), TableIo(f1, f1.inodes[i].indirect, lbn - DIRECT), Under(Resolve(fs, i, lbn).0, o, m));
      } else {
        assert ResolveIo(fs, i, lbn) == NeedIndirectIo(fs, i);
      }
    }
  }

  // ---------- reading ----------

  lemma LookupLeads(fs: Fs, m: seq<bool>, i: nat, lbn: nat)
    requires Owned(fs) && Live(fs, i)
    ensures Leads(FsHandles.As(fs, m), LookupIo(fs, fs.inodes[i], lbn), FsHandles.As(fs, m))
  {
    hide Leads, Owned;
    if DIRECT <= lbn < MAX_BLOCKS && 0 < fs.inodes[i].indirect < |fs.data| {
      IndirectInData(fs, i);
      OneStep(FsHandles.As(fs, m), GetBlock(fs.inodes[i].indirect));
    } else {
      Stay(FsHandles.As(fs, m));
    }
  }

  lemma {:induction false} ReadFromLeads(fs: Fs, m: seq<bool>, i: nat, offset: nat, len: nat, done: nat)
    requires Owned(fs) && Live(fs, i) && done <= len
    ensures Leads(FsHandles.As(fs, m), ReadFromIo(fs, fs.inodes[i], offset, len, done), FsHandles.As(fs, m))
    decreases len - done
  {
    hide Leads, Owned, LookupIo, Lookup;
    var rs := FsHandles.As(fs, m);
    if done == len {
      Stay(rs);
    } else {
      var pos := offset + done;
      var n := Chunk(pos, len - done);
      var pb := Lookup(fs, fs.inodes[i], pos / 4096);
      LookupLeads(fs, m, i, pos / 4096);
      var look := LookupIo(fs, fs.inodes[i], pos / 4096);
      if pb == 0 {
        ReadFromLeads(fs, m, i, offset, len, done + n);
        ThenStay(rs, look, rs, ReadFromIo(fs, fs.inodes[i], offset, len, done + n));
      } else if pb >= |fs.data| {
        Stay(rs);
        ThenStay(rs, look, rs, []);
      } else {
        LookupInData(fs, i, pos / 4096);
        OneStep(rs, GetBlock(pb));
        ReadFromLeads(fs, m, i, offset, len, done + n);
        ThenStay(rs, [GetBlock(pb)], rs, ReadFromIo(fs, fs.inodes[i], offset, len, done + n));
        ThenStay(rs, look, rs, [GetBlock(pb)] + ReadFromIo(fs, fs.inodes[i], offset, len, done + n));
      }
    }
  }

  lemma LookupInData(fs: Fs, i: nat, lbn: nat)
    requires Owned(fs) && Live(fs, i) && Lookup(fs, fs.inodes[i], lbn) != 0
    ensures fs.dataStart <= Lookup(fs, fs.inodes[i], lbn) < |fs.data|
  {
    hide PosOf;
    assert PointsTo(fs, i, PosOf(lbn), Lookup(fs, fs.inodes[i], lbn));
  }

  /** `osfs2_read`, by number: it reads, and reads only. */
  lemma ReadLeads(fs: Fs, m: seq<bool>, i: nat, offset: nat, len: nat)
    requires Owned(fs) && (0 < i < |fs.inodes| ==> Live(fs, i))
    ensures Leads(FsHandles.As(fs, m), ReadIo(fs, i, offset, len), FsHandles.As(fs, m))
  {
    hide Leads, Owned, ReadFromIo;
    var rs := FsHandles.As(fs, m);
    ReadRecordLeads(rs, i);
    if i == 0 || i >= |fs.inodes| || fs.inodes[i].typ == Free || offset >= fs.inodes[i].size {
      assert ReadIo(fs, i, offset, len) == ReadRecordIo(rs, i);
    } else {
      var left := fs.inodes[i].size - offset;
      ReadFromLeads(fs, m, i, offset, if len > left then left else len, 0);
      ThenStay(rs, ReadRecordIo(rs, i), rs, ReadFromIo(fs, fs.inodes[i], offset, if len > left then left else len, 0));
    }
  }

  // ---------- writing ----------

  lemma ChunkLeads(fs: Fs, o: seq<Inode>, m: seq<bool>, pb: nat, at: nat, xs: seq<byte>)
    requires fs.dataStart <= pb < |fs.data| && at + |xs| <= 4096
    ensures Leads(Under(fs, o, m), ChunkIo(fs, pb, at, xs), Under(PutBlock(fs, pb, Splice(fs.data[pb], at, xs)), o, m))
  {
    hide Leads, Splice;
    var rs := Under(fs, o, m);
    var y := Splice(fs.data[pb], at, xs);
    SetDataLeads(rs, pb, y);
    if |xs| == 4096 {
      assert ChunkIo(fs, pb, at, xs) == [Put(SetData(pb, y))];
    } else {
      OneStep(rs, GetBlock(pb));
      Then(rs, [GetBlock(pb)], rs, [Put(SetData(pb, y))], PutBlock(rs, pb, y));
    }
  }

  lemma {:induction false} WriteFromLeads(fs: Fs, o: seq<Inode>, m: seq<bool>, i: nat, offset: nat, buf: seq<byte>, done: nat)
    requires Owned(fs) && Live(fs, i) && done <= |buf| && offset + |buf| <= MAX_BYTES
    ensures Leads(Under(fs, o, m), WriteFromIo(fs, i, offset, buf, done), Under(WriteFrom(fs, i, offset, buf, done).0, o, m))
    decreases |buf| - done
  {
    hide Leads, Owned, Resolve, ResolveIo, ChunkIo, Splice, Wrote, PutBlock, Full;
    var rs := Under(fs, o, m);
    if done == |buf| {
      Stay(rs);
    } else {
      var pos := offset + done;
      var n := Chunk(pos, |buf| - done);
      var (f1, pb) := Resolve(fs, i, pos / 4096);
      ResolveLeads(fs, o, m, i, pos / 4096);
      WriteChunk(fs, i, offset, buf, done);
      if pb == 0 {
        assert WriteFromIo(fs, i, offset, buf, done) == ResolveIo(fs, i, pos / 4096);
      } else {
        ResolvedInData(fs, i, pos / 4096);
        var xs := buf[done..done + n];
        var f2 := PutBlock(f1, pb, Splice(f1.data[pb], pos % 4096, xs));
        ChunkLeads(f1, o, m, pb, pos % 4096, xs);
        WriteFromLeads(f2, o, m, i, offset, buf, done + n);
        var end := Under(WriteFrom(f2, i, offset, buf, done + n).0, o, m);
        Then(Under(f1, o, m), ChunkIo(f1, pb, pos % 4096, xs), Under(f2, o, m), WriteFromIo(f2, i, offset, buf, done + n), end);
        Then(rs, ResolveIo(fs, i, pos / 4096), Under(f1, o, m), ChunkIo(f1, pb, pos % 4096, xs) + WriteFromIo(f2, i, offset, buf, done + n), end);
      }
    }
  }

  lemma ResolvedInData(fs: Fs, i: nat, lbn: nat)
    requires Owned(fs) && Live(fs, i) && Resolve(fs, i, lbn).1 != 0
    ensures var (f1, pb) := Resolve(fs, i, lbn); f1.dataStart <= pb < |f1.data|
  {
    hide Resolve, FileBlock;
    ResolveKeeps(fs, i, lbn);
  }

  /** `osfs2_write`, by number. */
  lemma WriteLeads(fs: Fs, m: seq<bool>, i: nat, offset: nat, buf: seq<byte>)
    requires Owned(fs) && (0 < i < |fs.inodes| ==> Live(fs, i))
    ensures Leads(FsHandles.As(fs, m), WriteIo(fs, i, offset, buf), FsHandles.As(WriteFile(fs, i, offset, buf).fs, m))
  {
    hide Leads, Owned, WriteFrom, WriteFromIo;
    var rs := FsHandles.As(fs, m);
    ReadRecordLeads(rs, i);
    if buf == [] || offset + |buf| > MAX_BYTES {
      Stay(rs);
    } else if i == 0 || i >= |fs.inodes| || fs.inodes[i].typ != File {
      assert WriteIo(fs, i, offset, buf) == ReadRecordIo(rs, i);
    } else {
      WriteFileLeads(fs, m, i, offset, buf);
    }
  }

  lemma WriteFileLeads(fs: Fs, m: seq<bool>, i: nat, offset: nat, buf: seq<byte>)
    requires Owned(fs) && Live(fs, i) && fs.inodes[i].typ == File && buf != [] && offset + |buf| <= MAX_BYTES
    ensures Leads(FsHandles.As(fs, m), WriteIo(fs, i, offset, buf), FsHandles.As(WriteFile(fs, i, offset, buf).fs, m))
  {
    hide Leads, Owned, WriteFrom, WriteFromIo, WriteRecordIo, ReadRecordIo, Wrote, Full;
    var rs := FsHandles.As(fs, m);
    assert Under(fs, fs.inodes, m) == rs;
    ReadRecordLeads(rs, i);
    RecordOnly(fs, m, i);
    WriteFromLeads(fs, fs.inodes, m, i, offset, buf, 0);
    WriteFromWrites(fs, i, offset, buf, 0);
    var (f1, k) := WriteFrom(fs, i, offset, buf, 0);
    var mid := Under(f1, fs.inodes, m);
    Then(rs, ReadRecordIo(rs, i), rs, WriteFromIo(fs, i, offset, buf, 0), mid);
    var gs := WriteFile(fs, i, offset, buf).fs;
    if k == 0 {
      assert WriteIo(fs, i, offset, buf) == ReadRecordIo(rs, i) + WriteFromIo(fs, i, offset, buf, 0);
    } else {
      var x := gs.inodes[i];
      WriteRecordLeads(mid, i, x);
      WriteRecordSame(fs, mid, i, x);
      assert PutInode(mid, i, x).inodes == gs.inodes;
      Then(rs, ReadRecordIo(rs, i) + WriteFromIo(fs, i, offset, buf, 0), mid, WriteRecordIo(mid, i, x), FsHandles.As(gs, m));
      assert WriteIo(fs, i, offset, buf) == ReadRecordIo(rs, i) + WriteFromIo(fs, i, offset, buf, 0) + WriteRecordIo(mid, i, x);
    }
  }

  /** The transfers of a record depend on the size of the table only. */
  lemma RecordOnly(fs: Fs, m: seq<bool>, i: nat)
    ensures ReadRecordIo(FsHandles.As(fs, m), i) == ReadRecordIo(fs, i)
  {}

  lemma WriteRecordSame(fs: Fs, gs: Fs, i: nat, x: Inode)
    requires |gs.inodes| == |fs.inodes|
    ensures WriteRecordIo(gs, i, x) == WriteRecordIo(fs, i, x) && ReadRecordIo(gs, i) == ReadRecordIo(fs, i)
  {}

  // ---------- truncating ----------

  lemma {:induction false} DropDirectLeads(fs: Fs, o: seq<Inode>, m: seq<bool>, i: nat, kept: nat, k: nat)
    requires i < |fs.inodes| && k <= DIRECT
    ensures Leads(Under(fs, o, m), DropDirectIo(fs, i, kept, k), Under(DropDirect(fs, i, kept, k), o, m))
    ensures DropDirect(fs, i, kept, k).inodes[i].indirect == fs.inodes[i].indirect
    ensures DropDirect(fs, i, kept, k).dataStart == fs.dataStart
    ensures forall j: nat :: j < |fs.inodes| && j != i ==> DropDirect(fs, i, kept, k).inodes[j] == fs.inodes[j]
    decreases DIRECT - k
  {
    hide Leads, FreeBlockIo;
    var rs := Under(fs, o, m);
    if k == DIRECT {
      Stay(rs);
    } else {
      var x := fs.inodes[i];
      if k >= kept && x.direct[k] != 0 {
        var gs := PutInode(FreeBlock(fs, x.direct[k]), i, x.(direct := x.direct[k := 0]));
        FreeBlockLeads(fs, o, m, x.direct[k]);
        assert Under(gs, o, m) == Under(FreeBlock(fs, x.direct[k]), o, m);
        DropDirectLeads(gs, o, m, i, kept, k + 1);
        Then(rs, FreeBlockIo(fs, x.direct[k]), Under(gs, o, m), DropDirectIo(gs, i, kept, k + 1), Under(DropDirect(gs, i, kept, k + 1), o, m));
      } else {
        DropDirectLeads(fs, o, m, i, kept, k + 1);
      }
    }
  }

  lemma {:induction false} DropTableLeads(fs: Fs, o: seq<Inode>, m: seq<bool>, t: Block, kept: nat, j: nat)
    requires j <= INDIRECT
    ensures Leads(Under(fs, o, m), DropTableIo(fs, t, kept, j), Under(DropTable(fs, t, kept, j).0, o, m))
    ensures DropTable(fs, t, kept, j).0.dataStart == fs.dataStart
    decreases INDIRECT - j
  {
    hide Leads, FreeBlockIo, TableGet, TablePut;
    var rs := Under(fs, o, m);
    if j == INDIRECT {
      Stay(rs);
    } else if DIRECT + j >= kept && TableGet(t, j) != 0 {
      var gs := FreeBlock(fs, TableGet(t, j));
      FreeBlockLeads(fs, o, m, TableGet(t, j));
      DropTableLeads(gs, o, m, TablePut(t, j, 0), kept, j + 1);
      Then(rs, FreeBlockIo(fs, TableGet(t, j)), Under(gs, o, m), DropTableIo(gs, TablePut(t, j, 0), kept, j + 1),
           Under(DropTable(gs, TablePut(t, j, 0), kept, j + 1).0, o, m));
    } else {
      DropTableLeads(fs, o, m, t, kept, j + 1);
    }
  }

  lemma DropIndirectLeads(fs: Fs, o: seq<Inode>, m: seq<bool>, i: nat, kept: nat)
    requires i < |fs.inodes| && 0 < fs.inodes[i].indirect && fs.dataStart <= fs.inodes[i].indirect < |fs.data|
    ensures Leads(Under(fs, o, m), DropIndirectIo(fs, i, kept), Under(DropIndirect(fs, i, kept), o, m))
    ensures forall j: nat :: j < |fs.inodes| && j != i ==> DropIndirect(fs, i, kept).inodes[j] == fs.inodes[j]
  {
    hide Leads, FreeBlockIo, DropTable, DropTableIo;
    var rs := Under(fs, o, m);
    var ind := fs.inodes[i].indirect;
    var (f, t, left) := DropTable(fs, fs.data[ind], kept, 0);
    var mid := Under(f, o, m);
    OneStep(rs, GetBlock(ind));
    DropTableLeads(fs, o, m, fs.data[ind], kept, 0);
    var head := [GetBlock(ind)] + DropTableIo(fs, fs.data[ind], kept, 0);
    Then(rs, [GetBlock(ind)], rs, DropTableIo(fs, fs.data[ind], kept, 0), mid);
    if !left {
      FreeBlockLeads(f, o, m, ind);
      Then(rs, head, mid, FreeBlockIo(f, ind), Under(DropIndirect(fs, i, kept), o, m));
      assert DropIndirectIo(fs, i, kept) == head + FreeBlockIo(f, ind);
    } else if t != fs.data[ind] {
      SetDataLeads(mid, ind, t);
      Then(rs, head, mid, [Put(SetData(ind, t))], Under(DropIndirect(fs, i, kept), o, m));
      assert DropIndirectIo(fs, i, kept) == head + [Put(SetData(ind, t))];
    } else {
      assert f.data[ind := t] == f.data;
      assert DropIndirectIo(fs, i, kept) == head;
    }
  }

  /** `osfs2_truncate`. */
  lemma TruncateLeads(fs: Fs, m: seq<bool>, i: nat, size: nat)
    requires Owned(fs) && (0 < i < |fs.inodes| ==> Live(fs, i))
    ensures Leads(FsHandles.As(fs, m), TruncateIo(fs, i, size), FsHandles.As(Truncate(fs, i, size).fs, m))
  {
    hide Leads, Owned, DropDirect, DropDirectIo, DropIndirect, DropIndirectIo, WriteRecordIo;
    var rs := FsHandles.As(fs, m);
    ReadRecordLeads(rs, i);
    RecordOnly(fs, m, i);
    if i == 0 || i >= |fs.inodes| || fs.inodes[i].typ == Free || size > MAX_BYTES {
      assert TruncateIo(fs, i, size) == ReadRecordIo(fs, i);
    } else {
      assert Under(fs, fs.inodes, m) == rs;
      DropDirectLeads(fs, fs.inodes, m, i, Kept(size), 0);
      if fs.inodes[i].indirect != 0 {
        IndirectInData(fs, i);
      }
      TrimLeads(fs, m, i, size);
      Then(rs, ReadRecordIo(fs, i), rs, TrimIo(fs, i, size), FsHandles.As(Truncate(fs, i, size).fs, m));
      assert TruncateIo(fs, i, size) == ReadRecordIo(fs, i) + TrimIo(fs, i, size);
    }
  }

  /** The transfers of a truncation behind its checks. */
  function TrimIo(fs: Fs, i: nat, size: nat): Trace
    requires i < |fs.inodes|
  {
    var f1 := DropDirect(fs, i, Kept(size), 0);
    DropDirectIo(fs, i, Kept(size), 0)
    + ((if 0 < f1.inodes[i].indirect < |f1.data| then DropIndirectIo(f1, i, Kept(size)) else [])
       + WriteRecordIo(fs, i, Truncate(fs, i, size).fs.inodes[i]))
  }

  lemma TrimLeads(fs: Fs, m: seq<bool>, i: nat, size: nat)
    requires 0 < i < |fs.inodes| && fs.inodes[i].typ != Free && size <= MAX_BYTES
    requires fs.inodes[i].indirect != 0 ==> fs.dataStart <= fs.inodes[i].indirect < |fs.data|
    ensures Leads(FsHandles.As(fs, m), TrimIo(fs, i, size), FsHandles.As(Truncate(fs, i, size).fs, m))
  {
    hide Leads, DropDirect, DropDirectIo, DropIndirect, DropIndirectIo, WriteRecordIo;
    var o := fs.inodes;
    var rs := FsHandles.As(fs, m);
    assert Under(fs, o, m) == rs;
    DropDirectLeads(fs, o, m, i, Kept(size), 0);
    var f1 := DropDirect(fs, i, Kept(size), 0);
    var f2 := if f1.inodes[i].indirect == 0 then f1 else DropIndirect(f1, i, Kept(size));
    var low := if f1.inodes[i].indirect == 0 then [] else DropIndirectIo(f1, i, Kept(size));
    if f1.inodes[i].indirect == 0 {
      Stay(Under(f1, o, m));
    } else {
      DropIndirectLeads(f1, o, m, i, Kept(size));
    }
    var mid := Under(f2, o, m);
    var gs := Truncate(fs, i, size).fs;
    var x := gs.inodes[i];
    WriteRecordLeads(mid, i, x);
    WriteRecordSame(fs, mid, i, x);
    assert PutInode(mid, i, x).inodes == gs.inodes;
    Then(Under(f1, o, m), low, mid, WriteRecordIo(mid, i, x), FsHandles.As(gs, m));
    Then(rs, DropDirectIo(fs, i, Kept(size), 0), Under(f1, o, m), low + WriteRecordIo(mid, i, x), FsHandles.As(gs, m));
  }
}

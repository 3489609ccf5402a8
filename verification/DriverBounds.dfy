/** How many blocks a write of the OSFS-2 driver touches, and what a create leaves if only its first
    write reaches the disk. */
module DriverBounds {
  import opened Bytes
  import opened Disk
  import opened FsState
  import opened FsBlocks
  import opened FsFile
  import opened FsDirectory
  import opened FsTree
  import opened StoredFs
  import opened OnDisk
  import opened DriverIo
  import FsHandles
  import BlockCache

  // ---------- blocks of a trace ----------

  lemma {:induction false} TouchedBoth(sb: Super, a: Trace, b: Trace)
    ensures Touched(sb, a + b) == Touched(sb, a) + Touched(sb, b)
    decreases |b|
  {
    hide Subject;
    if b == [] {
      assert a + b == a;
    } else {
      var n := |b| - 1;
      TouchedBoth(sb, a, b[..n]);
      assert (a + b)[..|a + b| - 1] == a + b[..n];
    }
  }

  lemma TouchedOne(sb: Super, e: Io)
    ensures Touched(sb, [e]) == {Subject(sb, e)}
  {
    assert [e][..0] == [];
  }

  lemma TouchedTwo(sb: Super, e: Io, f: Io)
    ensures Touched(sb, [e, f]) == {Subject(sb, e), Subject(sb, f)}
  {
    TouchedOne(sb, e);
    TouchedOne(sb, f);
    TouchedBoth(sb, [e], [f]);
    assert [e] + [f] == [e, f];
  }

  lemma AllocTouches(sb: Super, fs: Fs)
    requires fs.dataStart > 0
    ensures Touched(sb, AllocBlockIo(fs)) <= {sb.blockBitmap} + Real(AllocBlock(fs).1)
  {
    hide Subject;
    var b := FirstFree(fs.blockMap, fs.dataStart);
    if b < |fs.blockMap| && b < U32 {
      TouchedTwo(sb, Put(SetBlockBit(b, true)), Put(SetData(b, ZERO)));
      BlocksOf(sb, b);
    }
  }

  lemma BlocksOf(sb: Super, b: nat)
    ensures Subject(sb, Put(SetBlockBit(b, true))) == sb.blockBitmap && Subject(sb, GetBlock(b)) == b
    ensures forall y: Block :: Subject(sb, Put(SetData(b, y))) == b
  {
    forall y: Block
      ensures Subject(sb, Put(SetData(b, y))) == b
    {
      assert TargetOf(sb, SetData(b, y)) == b;
    }
  }

  /** Block `b`, where 0 stands for none. */
  function Real(b: nat): set<nat> {
    if b == 0 then {} else {b}
  }

  lemma TableTouches(sb: Super, fs: Fs, ind: nat, j: nat)
    requires j < INDIRECT && ind < |fs.data| && fs.dataStart > 0
    ensures Touched(sb, TableIo(fs, ind, j)) <=
      {ind, sb.blockBitmap} + if TableGet(Block_(fs, ind), j) != 0 then {} else Real(AllocBlock(fs).1)
  {
    hide Subject, AllocBlock, AllocBlockIo, TableGet, TablePut;
    var table := Block_(fs, ind);
    TouchedOne(sb, GetBlock(ind));
    BlocksOf(sb, ind);
    if TableGet(table, j) != 0 {
      assert TableIo(fs, ind, j) == [GetBlock(ind)];
    } else {
      var b := AllocBlock(fs).1;
      AllocTouches(sb, fs);
      TouchedBoth(sb, [GetBlock(ind)], AllocBlockIo(fs));
      if b == 0 {
        assert TableIo(fs, ind, j) == [GetBlock(ind)] + AllocBlockIo(fs);
      } else {
        var put := Put(SetData(ind, TablePut(table, j, b)));
        TouchedOne(sb, put);
        TouchedBoth(sb, [GetBlock(ind)] + AllocBlockIo(fs), [put]);
        assert TableIo(fs, ind, j) == [GetBlock(ind)] + AllocBlockIo(fs) + [put];
      }
    }
  }

  /** Resolving touches the block bitmap, the indirect block the inode then has, and the block found. */
  lemma ResolveTouches(sb: Super, fs: Fs, i: nat, lbn: nat)
    requires i < |fs.inodes| && fs.dataStart > 0
    ensures var (gs, pb) := Resolve(fs, i, lbn);
      && (fs.inodes[i].indirect != 0 ==> gs.inodes[i].indirect == fs.inodes[i].indirect)
      && gs.dataStart == fs.dataStart
      && Touched(sb, ResolveIo(fs, i, lbn)) <= {sb.blockBitmap} + Real(gs.inodes[i].indirect) + Real(pb)
  {
    hide Subject, TableGet, TablePut, AllocBlock, AllocBlockIo, TableIo;
    AllocShape(fs);
    AllocTouches(sb, fs);
    if lbn >= MAX_BLOCKS {
    } else if lbn < DIRECT {
    } else {
      var (f1, ok) := NeedIndirect(fs, i);
      AllocShape(f1);
      if !ok || f1.inodes[i].indirect >= |f1.data| {
        assert ResolveIo(fs, i, lbn) == NeedIndirectIo(fs, i);
      } else {
        var ind := f1.inodes[i].indirect;
        TableTouches(sb, f1, ind, lbn - DIRECT);
        TouchedBoth(sb, NeedIndirectIo(fs, i), TableIo(f1, ind, lbn - DIRECT));
        assert ResolveIo(fs, i, lbn) == NeedIndirectIo(fs, i) + TableIo(f1, ind, lbn - DIRECT);
      }
    }
  }

  lemma AllocShape(fs: Fs)
    ensures AllocBlock(fs).0.inodes == fs.inodes && AllocBlock(fs).0.dataStart == fs.dataStart
  {}

  lemma ChunkTouches(sb: Super, fs: Fs, pb: nat, at: nat, xs: seq<byte>)
    requires pb < |fs.data| && at + |xs| <= 4096
    ensures Touched(sb, ChunkIo(fs, pb, at, xs)) == {pb}
  {
    hide Subject, Splice;
    var put := Put(SetData(pb, Splice(fs.data[pb], at, xs)));
    BlocksOf(sb, pb);
    TouchedOne(sb, put);
    TouchedTwo(sb, GetBlock(pb), put);
    if |xs| == 4096 {
      assert ChunkIo(fs, pb, at, xs) == [put];
    } else {
      assert ChunkIo(fs, pb, at, xs) == [GetBlock(pb), put];
    }
  }

  /** Turns of the copy loop for `left` bytes from `pos`. */
  function Turns(pos: nat, left: nat): nat
    decreases left
  {
    if left == 0 then 0 else 1 + Turns(pos + Chunk(pos, left), left - Chunk(pos, left))
  }

  lemma {:induction false} TurnsAligned(pos: nat, left: nat)
    requires pos % 4096 == 0
    ensures Turns(pos, left) == (left + 4095) / 4096
    decreases left
  {
    if left > 0 {
      var n := Chunk(pos, left);
      assert n == if left < 4096 then left else 4096;
      if n < left {
        TurnsAligned(pos + n, left - n);
      }
    }
  }

  lemma TurnsBound(pos: nat, left: nat)
    ensures Turns(pos, left) <= left / 4096 + 2
  {
    if left > 0 {
      var n := Chunk(pos, left);
      if n < left {
        TurnsAligned(pos + n, left - n);
      }
    }
  }

  lemma {:induction false} WriteFromTouches(sb: Super, fs: Fs, i: nat, offset: nat, buf: seq<byte>, done: nat) returns (blocks: set<nat>)
    requires i < |fs.inodes| && fs.dataStart > 0 && done <= |buf|
    ensures |blocks| <= Turns(offset + done, |buf| - done)
    ensures var gs := WriteFrom(fs, i, offset, buf, done).0;
      && (fs.inodes[i].indirect != 0 ==> gs.inodes[i].indirect == fs.inodes[i].indirect)
      && Touched(sb, WriteFromIo(fs, i, offset, buf, done)) <= blocks + {sb.blockBitmap} + Real(gs.inodes[i].indirect)
    decreases |buf| - done
  {
    hide Subject, Resolve, ResolveIo, ChunkIo, Splice, Touched, Real, Chunk;
    if done == |buf| {
      blocks := {};
      NothingTouched(sb);
    } else {
      var pos := offset + done;
      var n := Chunk(pos, |buf| - done);
      var (f1, pb) := Resolve(fs, i, pos / 4096);
      ResolveTouches(sb, fs, i, pos / 4096);
      if pb == 0 || pb >= |fs.data| {
        blocks := Real(pb);
        RealSize(pb);
        assert WriteFromIo(fs, i, offset, buf, done) == ResolveIo(fs, i, pos / 4096);
      } else {
        var xs := buf[done..done + n];
        var f2 := PutBlock(f1, pb, Splice(f1.data[pb], pos % 4096, xs));
        ChunkTouches(sb, f1, pb, pos % 4096, xs);
        var more := WriteFromTouches(sb, f2, i, offset, buf, done + n);
        var first, chunk, rest := ResolveIo(fs, i, pos / 4096), ChunkIo(f1, pb, pos % 4096, xs), WriteFromIo(f2, i, offset, buf, done + n);
        TouchedBoth(sb, chunk, rest);
        TouchedBoth(sb, first, chunk + rest);
        blocks := more + {pb as nat};
        OneMore(more, pb);
        WriteTurn(sb, Touched(sb, first), Touched(sb, rest), more, pb, f1.inodes[i].indirect, WriteFrom(f2, i, offset, buf, done + n).0.inodes[i].indirect);
      }
    }
  }

  lemma RealSize(b: nat)
    ensures |Real(b)| <= 1
  {}

  lemma OneMore(s: set<nat>, x: nat)
    ensures |s + {x}| <= |s| + 1
  {
    if x in s {
      assert s + {x} == s;
    }
  }

  lemma WriteTurn(sb: Super, first: set<nat>, rest: set<nat>, more: set<nat>, pb: nat, ind: nat, last: nat)
    requires first <= {sb.blockBitmap} + Real(ind) + Real(pb) && rest <= more + {sb.blockBitmap} + Real(last) && pb != 0
    requires ind != 0 ==> last == ind
    ensures first + ({pb} + rest) <= more + {pb} + {sb.blockBitmap} + Real(last)
  {}

  /** A write touches the block of its record, the block bitmap, the indirect block and one block for
      each turn of its loop. */
  lemma WriteTouches(sb: Super, fs: Fs, i: nat, offset: nat, buf: seq<byte>)
    requires fs.dataStart > 0
    ensures |Touched(sb, WriteIo(fs, i, offset, buf))| <= 3 + Turns(offset, |buf|)
  {
    hide Subject, WriteFrom, WriteFromIo, Turns;
    NothingTouched(sb);
    if buf == [] || offset + |buf| > MAX_BYTES || i == 0 || i >= |fs.inodes| {
      assert WriteIo(fs, i, offset, buf) == [];
    } else {
      TouchedOne(sb, GetRecord(i));
      if fs.inodes[i].typ != File {
        assert WriteIo(fs, i, offset, buf) == [GetRecord(i)];
      } else {
        var (f1, k) := WriteFrom(fs, i, offset, buf, 0);
        var x := WriteFile(fs, i, offset, buf).fs.inodes[i];
        var blocks := WriteFromTouches(sb, fs, i, offset, buf, 0);
        var body := WriteFromIo(fs, i, offset, buf, 0);
        TouchedTwo(sb, GetRecord(i), Put(SetRecord(i, x)));
        TouchedBoth(sb, [GetRecord(i)], body);
        var tail := if k == 0 then [] else [GetRecord(i), Put(SetRecord(i, x))];
        TouchedBoth(sb, [GetRecord(i)] + body, tail);
        assert WriteIo(fs, i, offset, buf) == [GetRecord(i)] + body + tail;
        RecordBlock(sb, i, x);
        WriteCount(Touched(sb, WriteIo(fs, i, offset, buf)), blocks, Subject(sb, GetRecord(i)), sb.blockBitmap, f1.inodes[i].indirect);
      }
    }
  }

  lemma NothingTouched(sb: Super)
    ensures Touched(sb, []) == {}
  {}

  lemma RecordBlock(sb: Super, i: nat, x: Inode)
    ensures Subject(sb, GetRecord(i)) == Subject(sb, Put(SetRecord(i, x)))
  {}

  lemma WriteCount(all: set<nat>, blocks: set<nat>, r: nat, bitmap: nat, ind: nat)
    requires all <= {r} + (blocks + {bitmap} + Real(ind))
    ensures |all| <= 3 + |blocks|
  {
    OneMore(blocks, bitmap);
    OneMore(blocks + {bitmap}, ind);
    OneMore(blocks + {bitmap, ind}, r);
    assert blocks + {bitmap} + {ind} == blocks + {bitmap, ind};
    Smaller(all, blocks + {bitmap, ind} + {r});
  }

  lemma Smaller(a: set<nat>, b: set<nat>)
    requires a <= b
    ensures |a| <= |b|
  {
    assert b == a + (b - a);
  }

  /** A single write of at most 27 blocks' worth of bytes, wherever it starts, is within the bound
      between two flushes: after a crash all of it is there or nothing. */
  lemma OneWriteIsSmall(sb: Super, fs: Fs, number: nat, offset: nat, buf: seq<byte>)
    requires fs.dataStart > 0 && |buf| < 28 * 4096
    ensures |Touched(sb, RequestsIo(fs, [Change(FsHandles.Write(number, offset, buf))]))| <= BlockCache.SLOTS
  {
    hide WriteIo, Touched, Turns;
    var q := Change(FsHandles.Write(number, offset, buf));
    var ws := FsHandles.Whole(fs);
    TurnsBound(offset, |buf|);
    WriteTouches(sb, ws, number, offset, buf);
    assert [q][1..] == [];
    assert RequestsIo(Served(fs, q), []) == [];
    assert RequestsIo(fs, [q]) == WriteIo(ws, number, offset, buf) + [];
    assert WriteIo(ws, number, offset, buf) + [] == WriteIo(ws, number, offset, buf);
  }

  // ---------- half a create ----------

  /** If of a create only the first write reaches the disk, the inode bitmap with one more bit, the
      file system is not sound: that inode is in use and has no entry. */
  lemma LoneInodeBit(fs: Fs, i: nat)
    requires Tree(fs) && ROOT < i < |fs.inodes| && i < |fs.inodeMap| && !Live(fs, i)
    ensures !Tree(Updated(fs, SetInodeBit(i, true)))
  {
    hide Owned, SlotIno, SlotName, DirShape;
    var gs := Updated(fs, SetInodeBit(i, true));
    if Tree(gs) {
      assert Live(gs, i) && Named(gs, i);
      var d: nat, g: nat :| d < |gs.inodes| && g < DIR_SLOTS && Names(gs, d, g, i);
      var depth: seq<nat> :| Ranked(gs, depth);
      assert d != i;
      SameEntry(fs, i, d, g);
    }
  }

  lemma SameEntry(fs: Fs, i: nat, d: nat, g: nat)
    requires d < |fs.inodes| && g < DIR_SLOTS && i < |fs.inodeMap|
    ensures d != i && Names(Updated(fs, SetInodeBit(i, true)), d, g, i) ==> Names(fs, d, g, i)
  {}
}

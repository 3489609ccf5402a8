/** Reading and writing files (kernel/core/osfs2.c, `osfs2_read` and `osfs2_write`) as byte
    sequences over direct blocks, indirect blocks and holes. */
module FsFile {
  import opened Bytes
  import opened Disk
  import opened FsState
  import opened FsBlocks

  /** Byte `p` of file `i`; bytes of a hole are zero. */
  function ByteAt(fs: Fs, i: nat, p: nat): byte
    requires i < |fs.inodes| && p < MAX_BYTES
  {
    FileBlock(fs, i, p / 4096)[p % 4096]
  }

  function Window(fs: Fs, i: nat, offset: nat, n: nat): (r: seq<byte>)
    requires i < |fs.inodes| && offset + n <= MAX_BYTES
    ensures |r| == n
  {
    seq<byte>(n, (k: nat) requires k < n => ByteAt(fs, i, offset + k))
  }

  /** How many bytes of a transfer fall into the block of byte `pos`. */
  function Chunk(pos: nat, left: nat): (n: nat)
    requires 0 < left
    ensures 0 < n <= left && pos % 4096 + n <= 4096
    ensures n < left ==> (pos + n) % 4096 == 0
  {
    if 4096 - pos % 4096 > left then left else 4096 - pos % 4096
  }

  // ---------- reading ----------

  datatype ReadResult = Bad | Got(bytes: seq<byte>)

  /** The copy loop of `osfs2_read`, with `got` already produced. */
  function ReadFrom(fs: Fs, x: Inode, offset: nat, len: nat, got: seq<byte>): ReadResult
    requires |got| <= len
    decreases len - |got|
  {
    if |got| == len then Got(got)
    else
      var pos := offset + |got|;
      var n := Chunk(pos, len - |got|);
      var pb := Lookup(fs, x, pos / 4096);
      if pb == 0 then ReadFrom(fs, x, offset, len, got + Zeros(n))
      else if pb >= |fs.data| then (if got == [] then Bad else Got(got))
      else ReadFrom(fs, x, offset, len, got + fs.data[pb][pos % 4096..pos % 4096 + n])
  }

  /** `osfs2_read`. */
  function ReadFile(fs: Fs, i: nat, offset: nat, len: nat): ReadResult {
    if i == 0 || i >= |fs.inodes| || fs.inodes[i].typ == Free then Bad
    else if offset >= fs.inodes[i].size then Got([])
    else
      var left := fs.inodes[i].size - offset;
      ReadFrom(fs, fs.inodes[i], offset, if len > left then left else len, [])
  }

  /** Byte positions of one chunk, seen from the block. */
  lemma ChunkSpan(pos: nat, n: nat, p: nat)
    requires pos % 4096 + n <= 4096
    ensures pos <= p < pos + n <==> p / 4096 == pos / 4096 && pos % 4096 <= p % 4096 < pos % 4096 + n
    ensures pos <= p < pos + n ==> p % 4096 - pos % 4096 == p - pos
  {}

  /** One chunk of a block is the matching window of the file. */
  lemma ChunkIsWindow(fs: Fs, i: nat, pos: nat, n: nat)
    requires i < |fs.inodes| && pos % 4096 + n <= 4096 && pos + n <= MAX_BYTES && 0 < n
    ensures FileBlock(fs, i, pos / 4096)[pos % 4096..pos % 4096 + n] == Window(fs, i, pos, n)
  {
    hide FileBlock;
    var b := FileBlock(fs, i, pos / 4096);
    forall k: nat | k < n
      ensures b[pos % 4096..pos % 4096 + n][k] == Window(fs, i, pos, n)[k]
    {
      ChunkSpan(pos, n, pos + k);
      assert Window(fs, i, pos, n)[k] == ByteAt(fs, i, pos + k);
    }
  }

  lemma WindowAppend(fs: Fs, i: nat, offset: nat, m: nat, n: nat)
    requires i < |fs.inodes| && offset + m + n <= MAX_BYTES
    ensures Window(fs, i, offset, m) + Window(fs, i, offset + m, n) == Window(fs, i, offset, m + n)
  {
    hide ByteAt;
  }

  lemma PointedBlock(fs: Fs, i: nat, lbn: nat, b: nat)
    requires Owned(fs) && lbn < MAX_BLOCKS && PointsTo(fs, i, PosOf(lbn), b)
    ensures b < |fs.data| && FileBlock(fs, i, lbn) == fs.data[b]
  {}

  lemma HoleBlock(fs: Fs, i: nat, lbn: nat)
    requires i < |fs.inodes| && Lookup(fs, fs.inodes[i], lbn) == 0
    ensures FileBlock(fs, i, lbn) == ZERO
  {}

  lemma {:induction false} ReadFromIsWindow(fs: Fs, i: nat, offset: nat, len: nat, got: seq<byte>)
    requires Owned(fs) && Live(fs, i) && |got| <= len && offset + len <= MAX_BYTES
    requires got == Window(fs, i, offset, |got|)
    ensures ReadFrom(fs, fs.inodes[i], offset, len, got) == Got(Window(fs, i, offset, len))
    decreases len - |got|
  {
    hide Window, ByteAt, Owned, FileBlock;
    if |got| < len {
      var pos := offset + |got|;
      var n := Chunk(pos, len - |got|);
      var pb := Lookup(fs, fs.inodes[i], pos / 4096);
      ChunkIsWindow(fs, i, pos, n);
      WindowAppend(fs, i, offset, |got|, n);
      var b := FileBlock(fs, i, pos / 4096);
      if pb == 0 {
        HoleBlock(fs, i, pos / 4096);
        assert Zeros(n) == b[pos % 4096..pos % 4096 + n];
      } else {
        assert PointsTo(fs, i, PosOf(pos / 4096), pb);
        PointedBlock(fs, i, pos / 4096, pb);
      }
      ReadFromIsWindow(fs, i, offset, len, got + b[pos % 4096..pos % 4096 + n]);
    }
  }

  // ---------- writing ----------

  function Splice(b: Block, at: nat, xs: seq<byte>): Block
    requires at + |xs| <= 4096
  {
    b[..at] + xs + b[at + |xs|..]
  }

  /** The copy loop of `osfs2_write`, with `done` bytes already stored: the state and the count
      when it ends or stops for lack of space. */
  function WriteFrom(fs: Fs, i: nat, offset: nat, buf: seq<byte>, done: nat): (r: (Fs, nat))
    requires i < |fs.inodes| && done <= |buf|
    ensures |r.0.inodes| == |fs.inodes| && done <= r.1 <= |buf|
    decreases |buf| - done
  {
    if done == |buf| then (fs, done)
    else
      var pos := offset + done;
      var n := Chunk(pos, |buf| - done);
      var (f1, pb) := Resolve(fs, i, pos / 4096);
      if pb == 0 || pb >= |fs.data| then (f1, done)
      else
        var f2 := PutBlock(f1, pb, Splice(f1.data[pb], pos % 4096, buf[done..done + n]));
        WriteFrom(f2, i, offset, buf, done + n)
  }

  /** The state after an operation and its return code. */
  datatype Done = Done(fs: Fs, rc: int)

  /** `osfs2_write`: the state after, and the count or -1. When nothing was stored the changed
      inode is dropped. */
  function WriteFile(fs: Fs, i: nat, offset: nat, buf: seq<byte>): Done {
    if buf == [] then Done(fs, 0)
    else if offset + |buf| > MAX_BYTES then Done(fs, -1)
    else if i == 0 || i >= |fs.inodes| || fs.inodes[i].typ != File then Done(fs, -1)
    else
      var (f1, k) := WriteFrom(fs, i, offset, buf, 0);
      if k == 0 then Done(f1.(inodes := fs.inodes), -1)
      else
        var x := f1.inodes[i];
        Done(PutInode(f1, i, x.(size := if offset + k > x.size then offset + k else x.size)), k)
  }

  /** Bytes `from..to` of file `i` are now those of `buf` at `from - offset`; all other bytes of
      all files are as before. */
  ghost predicate Wrote(fs: Fs, gs: Fs, i: nat, offset: nat, buf: seq<byte>, from: nat, to: nat)
    requires offset <= from && to <= offset + |buf|
  {
    && |gs.inodes| == |fs.inodes| && gs.inodeMap == fs.inodeMap
    && forall j: nat, p: nat :: Live(fs, j) && p < MAX_BYTES ==>
         ByteAt(gs, j, p) == if j == i && from <= p < to then buf[p - offset] else ByteAt(fs, j, p)
  }

  lemma SpliceByte(b: Block, at: nat, xs: seq<byte>, q: nat)
    requires at + |xs| <= 4096 && q < 4096
    ensures Splice(b, at, xs)[q] == if at <= q < at + |xs| then xs[q - at] else b[q]
  {}

  lemma WriteChunk(fs: Fs, i: nat, offset: nat, buf: seq<byte>, done: nat)
    requires Owned(fs) && Live(fs, i) && done < |buf| && offset + |buf| <= MAX_BYTES
    ensures var pos := offset + done;
      var n := Chunk(pos, |buf| - done);
      var (f1, pb) := Resolve(fs, i, pos / 4096);
      && (pb == 0 ==> Full(f1) && Wrote(fs, f1, i, offset, buf, pos, pos) && Owned(f1) && OnlyPointers(fs, f1, i))
      && (pb != 0 ==> pb < |fs.data|)
      && (pb != 0 ==>
           var f2 := PutBlock(f1, pb, Splice(f1.data[pb], pos % 4096, buf[done..done + n]));
           Owned(f2) && OnlyPointers(fs, f2, i) && Wrote(fs, f2, i, offset, buf, pos, pos + n))
  {
    hide FileBlock, Resolve;
    var pos := offset + done;
    var n := Chunk(pos, |buf| - done);
    var lbn := pos / 4096;
    ResolveKeeps(fs, i, lbn);
    var (f1, pb) := Resolve(fs, i, lbn);
    if pb != 0 {
      var xs := buf[done..done + n];
      var y := Splice(f1.data[pb], pos % 4096, xs);
      PutBlockKeeps(f1, i, lbn, pb, y);
      var f2 := PutBlock(f1, pb, y);
      PointedBlock(f1, i, lbn, pb);
      forall j: nat, p: nat | Live(fs, j) && p < MAX_BYTES
        ensures ByteAt(f2, j, p) == if j == i && pos <= p < pos + n then buf[p - offset] else ByteAt(fs, j, p)
      {
        ChunkSpan(pos, n, p);
        SpliceByte(f1.data[pb], pos % 4096, xs, p % 4096);
        assert FileBlock(f1, j, p / 4096) == FileBlock(fs, j, p / 4096);
      }
    }
  }

  lemma WroteThen(fs: Fs, gs: Fs, hs: Fs, i: nat, offset: nat, buf: seq<byte>, a: nat, b: nat, c: nat)
    requires offset <= a <= b <= c <= offset + |buf|
    requires Wrote(fs, gs, i, offset, buf, a, b) && Wrote(gs, hs, i, offset, buf, b, c)
    ensures Wrote(fs, hs, i, offset, buf, a, c)
  {
    hide ByteAt;
    forall j: nat, p: nat | Live(fs, j) && p < MAX_BYTES
      ensures ByteAt(hs, j, p) == if j == i && a <= p < c then buf[p - offset] else ByteAt(fs, j, p)
    {
      assert Live(gs, j);
    }
  }

  lemma WroteNothing(fs: Fs, i: nat, offset: nat, buf: seq<byte>, at: nat)
    requires offset <= at <= offset + |buf|
    ensures Wrote(fs, fs, i, offset, buf, at, at)
  {}

  lemma {:induction false} WriteFromWrites(fs: Fs, i: nat, offset: nat, buf: seq<byte>, done: nat)
    requires Owned(fs) && Live(fs, i) && done <= |buf| && offset + |buf| <= MAX_BYTES
    ensures var (gs, k) := WriteFrom(fs, i, offset, buf, done);
      && Owned(gs) && OnlyPointers(fs, gs, i) && Wrote(fs, gs, i, offset, buf, offset + done, offset + k)
      && (k < |buf| ==> Full(gs) && ((offset + k) % 4096 == 0 || k == done))
    decreases |buf| - done
  {
    hide ByteAt, Resolve, Owned, Wrote, Splice, PutBlock, Chunk, Full;
    if done < |buf| {
      var pos := offset + done;
      var n := Chunk(pos, |buf| - done);
      var (f1, pb) := Resolve(fs, i, pos / 4096);
      WriteChunk(fs, i, offset, buf, done);
      if pb != 0 {
        var f2 := PutBlock(f1, pb, Splice(f1.data[pb], pos % 4096, buf[done..done + n]));
        WriteFromWrites(f2, i, offset, buf, done + n);
        var (gs, k) := WriteFrom(f2, i, offset, buf, done + n);
        WroteThen(fs, f2, gs, i, offset, buf, pos, pos + n, offset + k);
      }
    } else {
      WroteNothing(fs, i, offset, buf, offset + done);
    }
  }

  // ---------- what a whole call does ----------

  lemma MetaKeepsOwned(fs: Fs, i: nat, x: Inode)
    requires Owned(fs) && i < |fs.inodes| && x.direct == fs.inodes[i].direct && x.indirect == fs.inodes[i].indirect
    ensures Owned(PutInode(fs, i, x))
    ensures forall j: nat, lbn: nat :: Live(fs, j) && lbn < MAX_BLOCKS ==>
      FileBlock(PutInode(fs, i, x), j, lbn) == FileBlock(fs, j, lbn)
  {
    var gs := PutInode(fs, i, x);
    forall j: nat, k: nat | j < |fs.inodes| && k < POSITIONS
      ensures Ptr(gs, j, k) == Ptr(fs, j, k)
    {
    }
    forall j: nat, k: nat, b: nat
      ensures PointsTo(gs, j, k, b) <==> PointsTo(fs, j, k, b)
    {
    }
  }

  /** A resolve that failed only ever allocated the block it then lost. */
  lemma FailedResolve(fs: Fs, i: nat, lbn: nat)
    requires i < |fs.inodes| && Resolve(fs, i, lbn).1 == 0
    ensures var gs := Resolve(fs, i, lbn).0.(inodes := fs.inodes); gs == fs || gs == AllocBlock(fs).0
  {
    assert AllocBlock(fs).0.inodes == fs.inodes;
  }

  lemma FirstChunkFailed(fs: Fs, i: nat, offset: nat, buf: seq<byte>)
    requires Owned(fs) && Live(fs, i) && buf != [] && offset + |buf| <= MAX_BYTES
    requires WriteFrom(fs, i, offset, buf, 0).1 == 0
    ensures Resolve(fs, i, offset / 4096).1 == 0 && WriteFrom(fs, i, offset, buf, 0).0 == Resolve(fs, i, offset / 4096).0
  {
    hide Resolve, Owned, Wrote;
    WriteChunk(fs, i, offset, buf, 0);
  }

  /** The inode table after a write: only the size of `i` can differ, apart from pointers. */
  ghost predicate SizeOnly(fs: Fs, gs: Fs, i: nat, size: nat) {
    && |gs.inodes| == |fs.inodes| && i < |fs.inodes| && size < U32
    && OnlyPointers(fs.(inodes := fs.inodes[i := fs.inodes[i].(size := size)]), gs, i)
  }

  lemma WriteNothingStored(fs: Fs, i: nat, offset: nat, buf: seq<byte>)
    requires Owned(fs) && Live(fs, i) && fs.inodes[i].typ == File && buf != [] && offset + |buf| <= MAX_BYTES
    requires WriteFrom(fs, i, offset, buf, 0).1 == 0
    ensures var (gs, rc) := (WriteFile(fs, i, offset, buf).fs, WriteFile(fs, i, offset, buf).rc);
      rc == -1 && Owned(gs) && SameContent(fs, gs) && gs.inodes == fs.inodes && gs.dataStart == fs.dataStart && Full(gs)
  {
    hide FileBlock, WriteFrom, Resolve, AllocBlock;
    FirstChunkFailed(fs, i, offset, buf);
    FailedResolve(fs, i, offset / 4096);
    ResolveKeeps(fs, i, offset / 4096);
    AllocKeeps(fs);
  }

  lemma WriteSomeStored(fs: Fs, i: nat, offset: nat, buf: seq<byte>)
    requires Owned(fs) && Live(fs, i) && fs.inodes[i].typ == File && buf != [] && offset + |buf| <= MAX_BYTES
    requires WriteFrom(fs, i, offset, buf, 0).1 > 0
    ensures var (gs, rc) := (WriteFile(fs, i, offset, buf).fs, WriteFile(fs, i, offset, buf).rc);
      && Owned(gs) && 0 < rc <= |buf| && Wrote(fs, gs, i, offset, buf, offset, offset + rc)
      && SizeOnly(fs, gs, i, if offset + rc > fs.inodes[i].size then offset + rc else fs.inodes[i].size)
      && (rc < |buf| ==> Full(gs) && (offset + rc) % 4096 == 0)
  {
    hide FileBlock, WriteFrom, Resolve;
    WriteFromWrites(fs, i, offset, buf, 0);
    var (f1, k) := WriteFrom(fs, i, offset, buf, 0);
    var x := f1.inodes[i];
    MetaKeepsOwned(f1, i, x.(size := if offset + k > x.size then offset + k else x.size));
    var gs := WriteFile(fs, i, offset, buf).fs;
    forall j: nat, p: nat | Live(fs, j) && p < MAX_BYTES
      ensures ByteAt(gs, j, p) == if j == i && offset <= p < offset + k then buf[p - offset] else ByteAt(fs, j, p)
    {
      assert FileBlock(gs, j, p / 4096) == FileBlock(f1, j, p / 4096);
      assert ByteAt(f1, j, p) == ByteAt(gs, j, p);
    }
  }

  /** `osfs2_write` of a live file: it keeps ownership; if it returns k >= 0, exactly the bytes
      `offset..offset + k` changed, to those of `buf`, the size is the larger of the old one and
      `offset + k`, and k falls short only when the data area is full, at a block boundary; if it
      returns -1, no inode and no byte of any file changed, and the write was over the size limit
      or the data area is full. */
  lemma WriteSemantics(fs: Fs, i: nat, offset: nat, buf: seq<byte>)
    requires Owned(fs) && Live(fs, i) && fs.inodes[i].typ == File
    ensures var (gs, rc) := (WriteFile(fs, i, offset, buf).fs, WriteFile(fs, i, offset, buf).rc);
      && Owned(gs) && -1 <= rc <= |buf| && (rc == 0 <==> buf == [])
      && (rc > 0 ==> Wrote(fs, gs, i, offset, buf, offset, offset + rc))
      && (rc > 0 ==> SizeOnly(fs, gs, i, if offset + rc > fs.inodes[i].size then offset + rc else fs.inodes[i].size))
      && (0 < rc < |buf| ==> Full(gs) && (offset + rc) % 4096 == 0)
      && (rc == 0 ==> gs == fs)
      && (rc == -1 ==> SameContent(fs, gs) && gs.inodes == fs.inodes && (offset + |buf| > MAX_BYTES || Full(gs)))
  {
    hide FileBlock, WriteFrom;
    if buf != [] && offset + |buf| <= MAX_BYTES {
      if WriteFrom(fs, i, offset, buf, 0).1 == 0 {
        WriteNothingStored(fs, i, offset, buf);
      } else {
        WriteSomeStored(fs, i, offset, buf);
      }
    }
  }

  /** `osfs2_read` of a live file returns exactly its bytes from `offset`, at most `len` of them
      and none past the size. */
  lemma ReadSemantics(fs: Fs, i: nat, offset: nat, len: nat)
    requires Owned(fs) && Live(fs, i) && fs.inodes[i].typ != Free && fs.inodes[i].size <= MAX_BYTES
    ensures var size := fs.inodes[i].size;
      ReadFile(fs, i, offset, len) == Got(
        if offset >= size then [] else Window(fs, i, offset, if len > size - offset then size - offset else len))
  {
    hide Owned, ReadFrom, Window;
    var size := fs.inodes[i].size;
    if offset < size {
      EmptyWindow(fs, i, offset);
      ReadFromIsWindow(fs, i, offset, if len > size - offset then size - offset else len, []);
    }
  }

  lemma EmptyWindow(fs: Fs, i: nat, offset: nat)
    requires i < |fs.inodes| && offset <= MAX_BYTES
    ensures Window(fs, i, offset, 0) == []
  {}

  // ---------- files as byte sequences ----------

  function Contents(fs: Fs, i: nat): (r: seq<byte>)
    requires i < |fs.inodes| && fs.inodes[i].size <= MAX_BYTES
    ensures |r| == fs.inodes[i].size
  {
    Window(fs, i, 0, fs.inodes[i].size)
  }

  /** Bytes past the size are zero, so growing the file shows zeroes. */
  ghost predicate ZeroTail(fs: Fs, i: nat)
    requires i < |fs.inodes|
  {
    forall p: nat :: fs.inodes[i].size <= p < MAX_BYTES ==> ByteAt(fs, i, p) == 0
  }

  /** Overwriting `s` at `offset` with `xs`; a gap before `offset` is filled with zeroes. */
  function WriteAt(s: seq<byte>, offset: nat, xs: seq<byte>): (r: seq<byte>)
    ensures |r| == if offset + |xs| > |s| then offset + |xs| else |s|
  {
    var t := if offset > |s| then s + Zeros(offset - |s|) else s;
    t[..offset] + xs + (if offset + |xs| < |t| then t[offset + |xs|..] else [])
  }

  lemma WriteAtByte(s: seq<byte>, offset: nat, xs: seq<byte>, p: nat)
    requires p < |WriteAt(s, offset, xs)|
    ensures WriteAt(s, offset, xs)[p] == if offset <= p < offset + |xs| then xs[p - offset] else if p < |s| then s[p] else 0
  {}

  /** A write that returned k > 0 is exactly the byte-sequence write of its first k bytes. */
  lemma WriteRefines(fs: Fs, i: nat, offset: nat, buf: seq<byte>)
    requires Owned(fs) && Live(fs, i) && fs.inodes[i].typ == File && fs.inodes[i].size <= MAX_BYTES && ZeroTail(fs, i)
    requires WriteFile(fs, i, offset, buf).rc > 0
    ensures var d := WriteFile(fs, i, offset, buf);
      && |d.fs.inodes| == |fs.inodes| && d.rc <= |buf| && d.fs.inodes[i].size <= MAX_BYTES && ZeroTail(d.fs, i)
      && Contents(d.fs, i) == WriteAt(Contents(fs, i), offset, buf[..d.rc])
  {
    hide ByteAt, WriteFile, WriteAt, Owned;
    var d := WriteFile(fs, i, offset, buf);
    WriteSemantics(fs, i, offset, buf);
    WriteFits(fs, i, offset, buf);
    var s, xs := Contents(fs, i), buf[..d.rc];
    forall p: nat | p < |Contents(d.fs, i)|
      ensures Contents(d.fs, i)[p] == WriteAt(s, offset, xs)[p]
    {
      WriteAtByte(s, offset, xs, p);
      assert Contents(d.fs, i)[p] == ByteAt(d.fs, i, p);
    }
  }

  lemma WriteFits(fs: Fs, i: nat, offset: nat, buf: seq<byte>)
    requires WriteFile(fs, i, offset, buf).rc > 0
    ensures offset + |buf| <= MAX_BYTES
  {}

  /** No write changes another file. */
  lemma WriteElsewhere(fs: Fs, i: nat, j: nat, offset: nat, buf: seq<byte>)
    requires Owned(fs) && Live(fs, i) && fs.inodes[i].typ == File
    requires Live(fs, j) && j != i && fs.inodes[j].size <= MAX_BYTES
    ensures var gs := WriteFile(fs, i, offset, buf).fs;
      && |gs.inodes| == |fs.inodes| && gs.inodes[j] == fs.inodes[j] && Contents(gs, j) == Contents(fs, j)
      && (ZeroTail(fs, j) ==> ZeroTail(gs, j))
  {
    hide FileBlock, WriteFile, Owned;
    WriteSemantics(fs, i, offset, buf);
    var d := WriteFile(fs, i, offset, buf);
    forall p: nat | p < MAX_BYTES
      ensures ByteAt(d.fs, j, p) == ByteAt(fs, j, p)
    {
      if d.rc == -1 {
        assert FileBlock(d.fs, j, p / 4096) == FileBlock(fs, j, p / 4096);
      }
    }
  }
}

/** OSFS-2 by inode number (kernel/core/osfs2.c). Open files keep inode numbers, and `osfs2_read`,
    `osfs2_write` and `osfs2_truncate` look at the record of a number without asking whether the
    number is in use. What they do is proved here for every number, in use or not. */
module FsHandles {
  import opened Bytes
  import opened CStrings
  import opened Disk
  import opened FsState
  import opened FsBlocks
  import opened FsFile
  import opened FsTruncate
  import opened FsDirectory
  import opened FsTree
  import opened FsCreate
  import opened FsRemove
  import opened FsPaths
  import opened FsView
  import FsRuns

  // ---------- all records as if in use ----------

  function AllTrue(n: nat): (m: seq<bool>)
    ensures |m| == n && forall i: nat :: i < n ==> m[i]
  {
    seq(n, _ => true)
  }

  function As(fs: Fs, m: seq<bool>): Fs {
    fs.(inodeMap := m)
  }

  /** The file system with every inode marked: what calls that take a number see. */
  function Whole(fs: Fs): Fs {
    As(fs, AllTrue(|fs.inodeMap|))
  }

  /** Inode number `i` has a record. */
  predicate Numbered(fs: Fs, i: nat) {
    0 < i < |fs.inodes|
  }

  lemma WholeLive(fs: Fs)
    requires |fs.inodeMap| == |fs.inodes|
    ensures forall i: nat :: Live(Whole(fs), i) <==> Numbered(fs, i)
  {}

  lemma SameBlocksAs(fs: Fs, m: seq<bool>)
    ensures forall i: nat, lbn: nat :: i < |fs.inodes| ==> FileBlock(As(fs, m), i, lbn) == FileBlock(fs, i, lbn)
  {}

  lemma SameBytesAs(fs: Fs, m: seq<bool>)
    ensures forall i: nat, p: nat :: i < |fs.inodes| && p < MAX_BYTES ==> ByteAt(As(fs, m), i, p) == ByteAt(fs, i, p)
  {
    SameBlocksAs(fs, m);
    hide FileBlock;
  }

  /** Ownership over all records is ownership over those in use. */
  lemma WholeOwned(fs: Fs)
    requires Owned(Whole(fs)) && |fs.inodeMap| == |fs.inodes|
    ensures Owned(fs)
  {
    forall i: nat, k: nat, b: nat | PointsTo(fs, i, k, b)
      ensures PointsTo(Whole(fs), i, k, b)
    {
      assert Ptr(Whole(fs), i, k) == Ptr(fs, i, k);
    }
  }

  // ---------- calls that do not look at the inode bitmap ----------

  lemma ResolveAs(fs: Fs, m: seq<bool>, i: nat, lbn: nat)
    requires i < |fs.inodes|
    ensures var (gs, pb) := Resolve(fs, i, lbn);
      Resolve(As(fs, m), i, lbn) == (As(gs, m), pb)
  {}

  lemma {:induction false} WriteFromAs(fs: Fs, m: seq<bool>, i: nat, offset: nat, buf: seq<byte>, done: nat)
    requires i < |fs.inodes| && done <= |buf|
    ensures var (gs, k) := WriteFrom(fs, i, offset, buf, done);
      WriteFrom(As(fs, m), i, offset, buf, done) == (As(gs, m), k)
    decreases |buf| - done
  {
    hide Resolve, Splice;
    if done < |buf| {
      var pos := offset + done;
      var n := Chunk(pos, |buf| - done);
      ResolveAs(fs, m, i, pos / 4096);
      var (f1, pb) := Resolve(fs, i, pos / 4096);
      if pb != 0 && pb < |fs.data| {
        WriteFromAs(PutBlock(f1, pb, Splice(f1.data[pb], pos % 4096, buf[done..done + n])), m, i, offset, buf, done + n);
      }
    }
  }

  lemma WriteFileAs(fs: Fs, m: seq<bool>, i: nat, offset: nat, buf: seq<byte>)
    ensures var d := WriteFile(fs, i, offset, buf);
      WriteFile(As(fs, m), i, offset, buf) == Done(As(d.fs, m), d.rc)
  {
    hide WriteFrom;
    if i < |fs.inodes| {
      WriteFromAs(fs, m, i, offset, buf, 0);
    }
  }

  lemma {:induction false} ReadFromAs(fs: Fs, m: seq<bool>, x: Inode, offset: nat, len: nat, got: seq<byte>)
    requires |got| <= len
    ensures ReadFrom(As(fs, m), x, offset, len, got) == ReadFrom(fs, x, offset, len, got)
    decreases len - |got|
  {
    if |got| < len {
      var pos := offset + |got|;
      var n := Chunk(pos, len - |got|);
      var pb := Lookup(fs, x, pos / 4096);
      assert Lookup(As(fs, m), x, pos / 4096) == pb;
      if pb == 0 {
        ReadFromAs(fs, m, x, offset, len, got + Zeros(n));
      } else if pb < |fs.data| {
        ReadFromAs(fs, m, x, offset, len, got + fs.data[pb][pos % 4096..pos % 4096 + n]);
      }
    }
  }

  lemma ReadFileAs(fs: Fs, m: seq<bool>, i: nat, offset: nat, len: nat)
    ensures ReadFile(As(fs, m), i, offset, len) == ReadFile(fs, i, offset, len)
  {
    hide ReadFrom;
    if i < |fs.inodes| && offset < fs.inodes[i].size {
      var left := fs.inodes[i].size - offset;
      ReadFromAs(fs, m, fs.inodes[i], offset, if len > left then left else len, []);
    }
  }

  lemma {:induction false} DropDirectAs(fs: Fs, m: seq<bool>, i: nat, kept: nat, k: nat)
    requires i < |fs.inodes| && k <= DIRECT
    ensures DropDirect(As(fs, m), i, kept, k) == As(DropDirect(fs, i, kept, k), m)
    decreases DIRECT - k
  {
    if k < DIRECT {
      var x := fs.inodes[i];
      if k >= kept && x.direct[k] != 0 {
        DropDirectAs(PutInode(FreeBlock(fs, x.direct[k]), i, x.(direct := x.direct[k := 0])), m, i, kept, k + 1);
      } else {
        DropDirectAs(fs, m, i, kept, k + 1);
      }
    }
  }

  lemma {:induction false} DropTableAs(fs: Fs, m: seq<bool>, t: Block, kept: nat, j: nat)
    requires j <= INDIRECT
    ensures var (f, u, left) := DropTable(fs, t, kept, j);
      DropTable(As(fs, m), t, kept, j) == (As(f, m), u, left)
    decreases INDIRECT - j
  {
    hide TableGet, TablePut;
    if j < INDIRECT {
      if DIRECT + j >= kept && TableGet(t, j) != 0 {
        DropTableAs(FreeBlock(fs, TableGet(t, j)), m, TablePut(t, j, 0), kept, j + 1);
      } else {
        DropTableAs(fs, m, t, kept, j + 1);
      }
    }
  }

  lemma TruncateAs(fs: Fs, m: seq<bool>, i: nat, size: nat)
    ensures var d := Truncate(fs, i, size);
      Truncate(As(fs, m), i, size) == Done(As(d.fs, m), d.rc)
  {
    hide DropDirect, DropTable;
    if i < |fs.inodes| {
      DropDirectAs(fs, m, i, Kept(size), 0);
      var f1 := DropDirect(fs, i, Kept(size), 0);
      var ind := f1.inodes[i].indirect;
      if 0 < ind < |fs.data| {
        DropTableAs(f1, m, f1.data[ind], Kept(size), 0);
      }
    }
  }

  lemma MakeSlotAs(fs: Fs, m: seq<bool>, x: Inode, empty: int)
    ensures var (gs, y, slot) := MakeSlot(fs, x, empty);
      MakeSlot(As(fs, m), x, empty) == (As(gs, m), y, slot)
  {}

  lemma DirWriteAs(fs: Fs, m: seq<bool>, x: Inode, g: nat, r: Record)
    ensures var (gs, ok) := DirWriteAt(fs, x, g, r);
      DirWriteAt(As(fs, m), x, g, r) == (As(gs, m), ok)
  {}

  // ---------- the calls, for any number ----------

  /** Every record is sound, in use or not: sizes in range, zeroes past the end of files. */
  ghost predicate Records(fs: Fs) {
    && |fs.inodeMap| == |fs.inodes| && Owned(Whole(fs))
    && (forall i: nat :: Numbered(fs, i) ==> fs.inodes[i].size <= MAX_BYTES)
    && (forall i: nat :: Numbered(fs, i) && fs.inodes[i].typ == File ==> ZeroTail(fs, i))
  }

  /** What reads of a number can tell. */
  datatype Answer = NoFile | Holds(bytes: seq<byte>)

  function AnswerOf(fs: Fs, i: nat): Answer {
    if !Numbered(fs, i) || fs.inodes[i].typ == Free || fs.inodes[i].size > MAX_BYTES then NoFile
    else Holds(Contents(fs, i))
  }

  /** The stretch of `s` that a read at `offset` of up to `len` bytes returns. */
  function Stretch(s: seq<byte>, offset: nat, len: nat): seq<byte> {
    if offset >= |s| then [] else s[offset..offset + if len > |s| - offset then |s| - offset else len]
  }

  /** `osfs2_read` of any number returns the asked-for stretch of the bytes its record holds, and
      fails exactly if the record is free or there is none. */
  lemma ReadAnswers(fs: Fs, i: nat, offset: nat, len: nat)
    requires Records(fs)
    ensures ReadFile(fs, i, offset, len) ==
      match AnswerOf(fs, i) case NoFile => Bad case Holds(s) => Got(Stretch(s, offset, len))
  {
    hide Owned, ReadFile, Window, ByteAt, ZeroTail;
    ReadFileAs(fs, AllTrue(|fs.inodeMap|), i, offset, len);
    if Numbered(fs, i) && fs.inodes[i].typ != Free {
      WholeLive(fs);
      ReadSemantics(Whole(fs), i, offset, len);
      var size := fs.inodes[i].size;
      if offset < size {
        WindowIsSlice(fs, i, offset, if len > size - offset then size - offset else len);
      }
    } else {
      ReadNothing(fs, i, offset, len);
    }
  }

  lemma ReadNothing(fs: Fs, i: nat, offset: nat, len: nat)
    requires !Numbered(fs, i) || fs.inodes[i].typ == Free
    ensures ReadFile(fs, i, offset, len) == Bad
  {}

  lemma WindowIsSlice(fs: Fs, i: nat, offset: nat, n: nat)
    requires i < |fs.inodes| && fs.inodes[i].size <= MAX_BYTES && offset + n <= fs.inodes[i].size
    ensures Window(Whole(fs), i, offset, n) == Contents(fs, i)[offset..offset + n]
  {
    SameBytesAs(fs, AllTrue(|fs.inodeMap|));
    hide ByteAt;
  }

  /** Two states answer every read of number `i` alike if and only if its bytes are the same. */
  lemma SameAnswers(fs: Fs, gs: Fs, i: nat)
    requires Records(fs) && Records(gs)
    ensures (forall offset: nat, len: nat :: ReadFile(gs, i, offset, len) == ReadFile(fs, i, offset, len))
            <==> AnswerOf(gs, i) == AnswerOf(fs, i)
  {
    hide Records, ReadFile, AnswerOf;
    var a, b := AnswerOf(fs, i), AnswerOf(gs, i);
    forall offset: nat, len: nat
      ensures ReadFile(fs, i, offset, len) == match a case NoFile => Bad case Holds(s) => Got(Stretch(s, offset, len))
      ensures ReadFile(gs, i, offset, len) == match b case NoFile => Bad case Holds(s) => Got(Stretch(s, offset, len))
    {
      ReadAnswers(fs, i, offset, len);
      ReadAnswers(gs, i, offset, len);
    }
    if forall offset: nat, len: nat :: ReadFile(gs, i, offset, len) == ReadFile(fs, i, offset, len) {
      var n: nat := if a.Holds? && b.Holds? then |a.bytes| + |b.bytes| else 0;
      assert ReadFile(gs, i, 0, n) == ReadFile(fs, i, 0, n);
      if a.Holds? {
        WholeStretch(a.bytes, n);
      }
      if b.Holds? {
        WholeStretch(b.bytes, n);
      }
    }
  }

  lemma WholeStretch(s: seq<byte>, n: nat)
    ensures n >= |s| ==> Stretch(s, 0, n) == s
  {}

  /** Record and blocks the same: the same answer. */
  lemma SameBlocksSameAnswer(fs: Fs, gs: Fs, i: nat)
    requires i < |fs.inodes| == |gs.inodes| && gs.inodes[i] == fs.inodes[i]
    requires forall lbn: nat :: lbn < MAX_BLOCKS ==> FileBlock(gs, i, lbn) == FileBlock(fs, i, lbn)
    ensures AnswerOf(gs, i) == AnswerOf(fs, i)
    ensures ZeroTail(fs, i) ==> ZeroTail(gs, i)
  {
    SameFile(fs, gs, i);
    hide FileBlock, ZeroTail, Contents;
    SameContents(fs, gs, i);
  }

  lemma SameContents(fs: Fs, gs: Fs, i: nat)
    requires i < |fs.inodes| == |gs.inodes| && gs.inodes[i] == fs.inodes[i]
    requires forall lbn: nat :: lbn < MAX_BLOCKS ==> FileBlock(gs, i, lbn) == FileBlock(fs, i, lbn)
    ensures fs.inodes[i].size <= MAX_BYTES ==> Contents(gs, i) == Contents(fs, i)
  {
    hide FileBlock;
    forall p: nat | p < MAX_BYTES
      ensures ByteAt(gs, i, p) == ByteAt(fs, i, p)
    {
      assert FileBlock(gs, i, p / 4096) == FileBlock(fs, i, p / 4096);
    }
  }

  /** `osfs2_write` to any number whose record says file: it returns k >= 0 and exactly the first k
      bytes of `buf` are written into its byte sequence, or -1 and nothing changes; it falls short
      only at a block boundary when the data area is full, and no other number answers differently. */
  lemma WriteNumber(fs: Fs, i: nat, offset: nat, buf: seq<byte>)
    requires Records(fs) && Numbered(fs, i) && fs.inodes[i].typ == File
    ensures var (gs, rc) := (WriteFile(fs, i, offset, buf).fs, WriteFile(fs, i, offset, buf).rc);
      && Records(gs) && -1 <= rc <= |buf| && (rc == 0 <==> buf == [])
      && |gs.inodes| == |fs.inodes| && gs.inodeMap == fs.inodeMap
      && AnswerOf(gs, i) == (if rc > 0 then Holds(WriteAt(AnswerOf(fs, i).bytes, offset, buf[..rc])) else AnswerOf(fs, i))
      && (forall j: nat :: j != i ==> AnswerOf(gs, j) == AnswerOf(fs, j))
      && (0 < rc < |buf| ==> Full(gs) && (offset + rc) % 4096 == 0)
      && (rc == -1 ==> gs.inodes == fs.inodes && (offset + |buf| > MAX_BYTES || Full(gs)))
      && OnlyNumber(fs, gs, i)
  {
    hide Owned, WriteFile, ByteAt, WriteAt, ZeroTail, Contents, FileBlock;
    var m := AllTrue(|fs.inodeMap|);
    WriteFileAs(fs, m, i, offset, buf);
    WriteFileAs(fs, fs.inodeMap, i, offset, buf);
    SameMapAs(fs);
    WholeLive(fs);
    var ws, vs := Whole(fs), WriteFile(Whole(fs), i, offset, buf).fs;
    var gs, rc := WriteFile(fs, i, offset, buf).fs, WriteFile(fs, i, offset, buf).rc;
    WriteSemantics(ws, i, offset, buf);
    assert vs == Whole(gs);
    SameZeroTails(fs);
    if rc > 0 {
      WriteRefines(ws, i, offset, buf);
    }
    forall j: nat | j != i && Numbered(fs, j)
      ensures gs.inodes[j] == fs.inodes[j] && AnswerOf(gs, j) == AnswerOf(fs, j) && (ZeroTail(fs, j) ==> ZeroTail(gs, j))
    {
      WriteElsewhere(ws, i, j, offset, buf);
      WholeContents(fs, j);
      WholeContents(gs, j);
    }
    WriteElsewhereBlocks(ws, i, offset, buf);
    SameBlocksAs(fs, m);
    SameBlocksAs(gs, m);
    WholeContents(fs, i);
    WholeContents(gs, i);
    WriteHere(ws, i, offset, buf);
  }

  /** Every number but `i` has the record and blocks it had. */
  ghost predicate OnlyNumber(fs: Fs, gs: Fs, i: nat) {
    && |gs.inodes| == |fs.inodes| && i < |fs.inodes| && gs.inodes[i].typ == fs.inodes[i].typ
    && (forall j: nat :: Numbered(fs, j) && j != i ==> gs.inodes[j] == fs.inodes[j])
    && (forall j: nat, lbn: nat :: Numbered(fs, j) && j != i && lbn < MAX_BLOCKS ==> FileBlock(gs, j, lbn) == FileBlock(fs, j, lbn))
  }

  lemma SameMapAs(fs: Fs)
    ensures As(fs, fs.inodeMap) == fs
  {}

  lemma SameZeroTails(fs: Fs)
    ensures forall j: nat :: j < |fs.inodes| && ZeroTail(fs, j) ==> ZeroTail(Whole(fs), j)
  {
    SameBytesAs(fs, AllTrue(|fs.inodeMap|));
    hide ByteAt;
  }

  lemma WholeContents(fs: Fs, j: nat)
    requires j < |fs.inodes|
    ensures ZeroTail(Whole(fs), j) <==> ZeroTail(fs, j)
    ensures fs.inodes[j].size <= MAX_BYTES ==> Contents(Whole(fs), j) == Contents(fs, j)
  {
    SameBytesAs(fs, AllTrue(|fs.inodeMap|));
    hide ByteAt;
  }

  lemma WriteElsewhereBlocks(ws: Fs, i: nat, offset: nat, buf: seq<byte>)
    requires Owned(ws) && Live(ws, i) && ws.inodes[i].typ == File
    ensures var gs := WriteFile(ws, i, offset, buf).fs;
      && |gs.inodes| == |ws.inodes|
      && forall j: nat, lbn: nat :: Live(ws, j) && j != i && lbn < MAX_BLOCKS ==> FileBlock(gs, j, lbn) == FileBlock(ws, j, lbn)
  {
    hide Owned, WriteFile, ByteAt, FileBlock;
    WriteSemantics(ws, i, offset, buf);
    var gs, rc := WriteFile(ws, i, offset, buf).fs, WriteFile(ws, i, offset, buf).rc;
    forall j: nat, lbn: nat | Live(ws, j) && j != i && lbn < MAX_BLOCKS
      ensures FileBlock(gs, j, lbn) == FileBlock(ws, j, lbn)
    {
      if rc > 0 {
        BytesMakeBlock(ws, gs, j, lbn);
      }
    }
  }

  /** A write that stores nothing leaves the file's own bytes too. */
  lemma WriteHere(ws: Fs, i: nat, offset: nat, buf: seq<byte>)
    requires Owned(ws) && Live(ws, i) && ws.inodes[i].typ == File && ws.inodes[i].size <= MAX_BYTES
    ensures var d := WriteFile(ws, i, offset, buf);
      && |d.fs.inodes| == |ws.inodes| && d.fs.inodes[i].typ == File
      && (d.rc <= 0 ==> d.fs.inodes[i] == ws.inodes[i] && Contents(d.fs, i) == Contents(ws, i) && (ZeroTail(ws, i) ==> ZeroTail(d.fs, i)))
  {
    hide Owned, WriteFile, ByteAt, FileBlock;
    WriteSemantics(ws, i, offset, buf);
    var d := WriteFile(ws, i, offset, buf);
    if d.rc <= 0 {
      SameBlocksSameAnswer(ws, d.fs, i);
    }
  }

  /** `osfs2_truncate` of any number whose record is not free, to any size: kept blocks keep their
      content, the rest reads as zeroes and hangs nowhere, exactly the blocks that lost their place
      become free, and no other number changes. */
  lemma TruncateAnyNumber(fs: Fs, i: nat, size: nat)
    requires |fs.inodeMap| == |fs.inodes| && Owned(Whole(fs)) && Numbered(fs, i) && fs.inodes[i].typ != Free && size <= MAX_BYTES
    ensures var (gs, rc) := (Truncate(fs, i, size).fs, Truncate(fs, i, size).rc);
      && rc == 0 && gs.inodeMap == fs.inodeMap && Owned(Whole(gs)) && SizeOnly(Whole(fs), Whole(gs), i, size)
      && (forall j: nat, lbn: nat :: Numbered(fs, j) && lbn < MAX_BLOCKS ==>
            FileBlock(gs, j, lbn) == if j == i && lbn >= Kept(size) then ZERO else FileBlock(fs, j, lbn))
      && (forall b: nat :: b < |fs.blockMap| ==> gs.blockMap[b] == (fs.blockMap[b] && !Released(Whole(fs), Whole(gs), i, b)))
      && (gs.inodes[i].indirect != 0 ==> TableUsed(gs, i))
      && (forall lbn: nat :: Kept(size) <= lbn < MAX_BLOCKS ==> Ptr(gs, i, PosOf(lbn)) == 0)
  {
    hide Owned, Truncate, FileBlock, Released;
    var m := AllTrue(|fs.inodeMap|);
    TruncateAs(fs, m, i, size);
    TruncateAs(fs, fs.inodeMap, i, size);
    SameMapAs(fs);
    WholeLive(fs);
    var gs := Truncate(fs, i, size).fs;
    TruncateSemantics(Whole(fs), i, size);
    assert Truncate(Whole(fs), i, size).fs == Whole(gs);
    SameBlocksAs(fs, m);
    SameBlocksAs(gs, m);
    SamePtrsAs(gs, i);
  }

  /** `osfs2_truncate` to 0 of any number whose record is not free. */
  lemma TruncateNumber(fs: Fs, i: nat)
    requires Records(fs) && Numbered(fs, i) && fs.inodes[i].typ != Free
    ensures var (gs, rc) := (Truncate(fs, i, 0).fs, Truncate(fs, i, 0).rc);
      && rc == 0 && Records(gs) && |gs.inodes| == |fs.inodes| && gs.inodeMap == fs.inodeMap
      && AnswerOf(gs, i) == Holds([])
      && (forall j: nat :: j != i ==> AnswerOf(gs, j) == AnswerOf(fs, j))
      && OnlyNumber(fs, gs, i)
      && (forall k: nat :: k < POSITIONS ==> Ptr(gs, i, k) == 0)
  {
    hide Owned, Truncate, ByteAt, Contents, FileBlock, Released;
    var gs := Truncate(fs, i, 0).fs;
    TruncateAnyNumber(fs, i, 0);
    NoPointers(gs, i);
    assert forall lbn: nat :: lbn < MAX_BLOCKS ==> FileBlock(gs, i, lbn) == ZERO;
    ZeroFile(gs, i);
    EmptyContents(gs, i);
    forall j: nat | j != i && Numbered(fs, j)
      ensures gs.inodes[j] == fs.inodes[j] && AnswerOf(gs, j) == AnswerOf(fs, j) && (ZeroTail(fs, j) ==> ZeroTail(gs, j))
    {
      SameBlocksSameAnswer(fs, gs, j);
    }
  }

  lemma SamePtrsAs(fs: Fs, i: nat)
    requires i < |fs.inodes|
    ensures forall k: nat :: k < POSITIONS ==> Ptr(Whole(fs), i, k) == Ptr(fs, i, k)
  {}

  lemma EmptyContents(fs: Fs, i: nat)
    requires i < |fs.inodes| && fs.inodes[i].size == 0
    ensures Contents(fs, i) == []
  {}

  // ---------- the tree meanwhile ----------

  /** A sound tree over sound records. */
  ghost predicate Sound(fs: Fs) {
    Tree(fs) && Records(fs)
  }

  lemma SoundGood(fs: Fs)
    requires Sound(fs)
    ensures Good(fs)
  {
    hide Owned, Shapes, Entries, Ranked, ZeroTail;
  }

  /** A change to one number that is no directory concerns no entry, whether it is in use or not. */
  lemma OnlyNumberTree(fs: Fs, gs: Fs, i: nat)
    requires Tree(fs) && Records(fs) && Records(gs) && OnlyNumber(fs, gs, i) && gs.inodeMap == fs.inodeMap
    requires fs.inodes[i].typ != Dir
    ensures Tree(gs)
  {
    hide FileBlock, RecordAt, RecordIno, RecordName, DirShape, ZeroTail, Entries, Ranked, Owned;
    WholeOwned(gs);
    assert forall j: nat :: Live(fs, j) ==> Numbered(fs, j);
    forall e: nat, h: nat | IsDir(fs, e) && h < DIR_SLOTS
      ensures Slot(gs, e, h) == Slot(fs, e, h)
    {
      assert FileBlock(gs, e, h / PER_BLOCK) == FileBlock(fs, e, h / PER_BLOCK);
    }
    hide Slot;
    SameSlotsKeep(fs, gs);
  }

  // ---------- creating ----------

  /** A record without pointers takes the place of another; what hung on that one hangs nowhere. */
  lemma Overwritten(ws: Fs, i: nat, x: Inode)
    requires Owned(ws) && Live(ws, i) && x.direct == NO_POINTERS && x.indirect == 0
    ensures var vs := PutInode(ws, i, x);
      && Owned(vs) && (forall j: nat, lbn: nat :: Live(ws, j) && j != i && lbn < MAX_BLOCKS ==> FileBlock(vs, j, lbn) == FileBlock(ws, j, lbn))
      && (forall lbn: nat :: lbn < MAX_BLOCKS ==> FileBlock(vs, i, lbn) == ZERO)
  {
    var vs := PutInode(ws, i, x);
    forall j: nat, k: nat | Live(ws, j) && k < POSITIONS
      ensures Ptr(vs, j, k) == if j == i then 0 else Ptr(ws, j, k)
    {
    }
    forall j: nat, k: nat, b: nat
      ensures PointsTo(vs, j, k, b) <==> PointsTo(ws, j, k, b) && j != i
    {
    }
  }

  /** The number a create would take, tried only for a good new name. */
  ghost predicate Tried(fs: Fs, d: nat, name: CString) {
    d < |fs.inodes| && GoodName(name) && Child(fs, d, name) == 0 && AllocInode(fs).1 != 0
  }

  function NextNumber(fs: Fs): nat {
    AllocInode(fs).1
  }

  lemma BornRecords(fs: Fs, i: nat, typ: Type)
    requires Records(fs) && ROOT < i < |fs.inodes| && typ != Free
    ensures var gs := Born(fs, i, typ);
      && Records(gs) && AnswerOf(gs, i) == Holds([])
      && (forall j: nat :: Numbered(fs, j) && j != i ==> AnswerOf(gs, j) == AnswerOf(fs, j))
      && (forall j: nat, lbn: nat :: Numbered(fs, j) && j != i && lbn < MAX_BLOCKS ==> FileBlock(gs, j, lbn) == FileBlock(fs, j, lbn))
  {
    hide Owned, FileBlock, ZeroTail, Contents;
    NewInodeIs(typ);
    WholeLive(fs);
    var gs := Born(fs, i, typ);
    var m := AllTrue(|fs.inodeMap|);
    Overwritten(Whole(fs), i, NewInode(typ));
    assert Whole(gs) == PutInode(Whole(fs), i, NewInode(typ));
    SameBlocksAs(fs, m);
    SameBlocksAs(gs, m);
    ZeroFile(gs, i);
    EmptyContents(gs, i);
    forall j: nat | j != i && Numbered(fs, j)
      ensures AnswerOf(gs, j) == AnswerOf(fs, j) && (ZeroTail(fs, j) ==> ZeroTail(gs, j))
    {
      SameBlocksSameAnswer(fs, gs, j);
    }
  }

  lemma UnmarkedRecords(fs: Fs, m: seq<bool>)
    requires Records(fs) && |m| == |fs.inodeMap|
    ensures Records(As(fs, m)) && forall j: nat :: AnswerOf(As(fs, m), j) == AnswerOf(fs, j)
  {
    SameBytesAs(fs, m);
    hide Owned, ByteAt;
    assert Whole(As(fs, m)) == Whole(fs);
    forall j: nat
      ensures AnswerOf(As(fs, m), j) == AnswerOf(fs, j)
    {
      if Numbered(fs, j) && fs.inodes[j].size <= MAX_BYTES {
        assert Contents(As(fs, m), j) == Contents(fs, j);
      }
    }
  }

  /** Entering a name in a directory changes no record but the directory's, and no other block. */
  lemma EnterRecords(fs: Fs, d: nat, empty: int, i: u32, name: CString)
    requires Records(fs) && Numbered(fs, d) && fs.inodes[d].typ == Dir && DirShape(fs.inodes[d]) && GoodName(name)
    requires empty == NO_SLOT || 0 <= empty < Slots(fs.inodes[d])
    requires MakeSlot(fs, fs.inodes[d], empty).2 >= 0
    ensures var (f3, y, slot) := MakeSlot(fs, fs.inodes[d], empty);
      var gs := PutInode(DirWriteAt(f3, y, slot, Entry(i, name)).0, d, y);
      Records(gs) && |gs.inodes| == |fs.inodes| && gs.inodeMap == fs.inodeMap
      && forall j: nat :: j != d ==> AnswerOf(gs, j) == AnswerOf(fs, j)
  {
    hide Owned, FileBlock, ZeroTail, Contents, Entry, MakeSlot, DirWriteAt, Slot, DirShape;
    var m := AllTrue(|fs.inodeMap|);
    WholeLive(fs);
    var ws := Whole(fs);
    MakeSlotKeeps(ws, d, empty);
    MakeSlotAs(fs, m, fs.inodes[d], empty);
    MakeSlotAs(fs, fs.inodeMap, fs.inodes[d], empty);
    SameMapAs(fs);
    var (f3, y, slot) := MakeSlot(fs, fs.inodes[d], empty);
    var hs := PutInode(f3, d, y);
    assert Whole(hs) == PutInode(As(f3, m), d, y);
    DirWriteKeeps(Whole(hs), d, slot, Entry(i, name));
    DirWriteAs(hs, m, y, slot, Entry(i, name));
    DirWriteAs(hs, hs.inodeMap, y, slot, Entry(i, name));
    SameMapAs(hs);
    WriteThenPut(f3, d, y, slot, Entry(i, name));
    var gs := DirWriteAt(hs, y, slot, Entry(i, name)).0;
    SameBlocksAs(fs, m);
    SameBlocksAs(hs, m);
    SameBlocksAs(gs, m);
    assert Whole(gs) == DirWriteAt(Whole(hs), y, slot, Entry(i, name)).0;
    forall j: nat | j != d && Numbered(fs, j)
      ensures gs.inodes[j] == fs.inodes[j] && AnswerOf(gs, j) == AnswerOf(fs, j) && (ZeroTail(fs, j) ==> ZeroTail(gs, j))
    {
      SameBlocksSameAnswer(fs, gs, j);
    }
  }

  /** `dir_create_in`, number by number. It tries a number only for a good new name while one is
      unmarked; from then on, created or not, that number answers as an empty file or directory.
      When it fails no other number answers differently; when it succeeds only the parent does. */
  lemma CreateNumber(fs: Fs, d: nat, name: CString, typ: Type)
    requires Sound(fs) && IsDir(fs, d) && typ != Free
    ensures var (gs, rc, i) := (Create(fs, d, name, typ).fs, Create(fs, d, name, typ).rc, NextNumber(fs));
      && Sound(gs) && |gs.inodes| == |fs.inodes|
      && (!Tried(fs, d, name) ==> gs == fs)
      && (Tried(fs, d, name) ==> !Live(fs, i) && ROOT < i < |fs.inodes| && AnswerOf(gs, i) == Holds([]) && (rc == 0 || rc == i))
      && (Tried(fs, d, name) ==> forall j: nat :: j != i && (rc == 0 || j != d) ==> AnswerOf(gs, j) == AnswerOf(fs, j))
  {
    hide Owned, FileBlock, ZeroTail, Contents, Entry, SlotIno, SlotName, MakeSlot, DirWriteAt, NewInode, Slot, DirShape, Names, DirFind, Full, Entries, Ranked;
    CreateSemantics(fs, d, name, typ);
    ScanNames(fs, d, name);
    var (hit, empty) := DirFind(fs, fs.inodes[d], name, 0, NO_SLOT);
    AllocInodeIs(fs);
    var i := NextNumber(fs);
    if GoodName(name) && hit != NO_SLOT {
      assert Names(fs, d, hit, SlotIno(fs, d, hit));
      NamesNonzero(fs, d, hit);
    } else if GoodName(name) && i != 0 {
      var f2 := Born(fs, i, typ);
      BornRecords(fs, i, typ);
      EnterNew(fs, d, name, typ, i, empty);
      if MakeSlot(f2, fs.inodes[d], empty).2 < 0 {
        UnmarkedRecords(f2, f2.inodeMap[i := false]);
      } else {
        EnterRecords(f2, d, empty, i, name);
      }
      forall j: nat | j != i
        ensures AnswerOf(f2, j) == AnswerOf(fs, j)
      {
      }
    }
  }

  /** A create that fails changes the answer for a number if and only if it got as far as trying
      that number and the number's record was free or had content. No path leads to the number. */
  lemma FailedCreate(fs: Fs, d: nat, name: CString, typ: Type, j: nat)
    requires Sound(fs) && IsDir(fs, d) && typ != Free && Create(fs, d, name, typ).rc == 0
    ensures var gs := Create(fs, d, name, typ).fs;
      (exists offset: nat, len: nat :: ReadFile(gs, j, offset, len) != ReadFile(fs, j, offset, len)) <==>
      Tried(fs, d, name) && j == NextNumber(fs) && j < |fs.inodes| && (fs.inodes[j].typ == Free || fs.inodes[j].size > 0)
  {
    hide Owned, Shapes, Entries, Ranked, ReadFile, Create, Tried, NextNumber, ZeroTail;
    CreateNumber(fs, d, name, typ);
    SameAnswers(fs, Create(fs, d, name, typ).fs, j);
    if Tried(fs, d, name) && j == NextNumber(fs) {
      assert Numbered(fs, j) && fs.inodes[j].size <= MAX_BYTES;
      assert AnswerOf(fs, j) == Holds([]) <==> fs.inodes[j].typ != Free && fs.inodes[j].size == 0;
    }
  }

  /** Such a change: with an empty root and every block marked, creating a file fails, and number 2,
      which no read could reach before, then reads as an empty file. */
  lemma FailedCreateSeen(fs: Fs, name: CString)
    requires Sound(fs) && FsRuns.Blank(fs) && GoodName(name) && fs.inodes[ROOT].direct[0] == 0
    requires |fs.inodes| > 2 && fs.inodes[2].typ == Free
    requires forall b: nat :: b < |fs.blockMap| ==> fs.blockMap[b]
    ensures Create(fs, ROOT, name, File).rc == 0
    ensures ReadFile(fs, 2, 0, 1) == Bad && ReadFile(Create(fs, ROOT, name, File).fs, 2, 0, 1) == Got([])
  {
    hide Owned, Shapes, Entries, Ranked, ReadFile, ZeroTail, Child, DirFind, Records;
    ScanEnds(fs, fs.inodes[ROOT], name, 0, NO_SLOT);
    FsRuns.BlankStep(fs, name);
    SoundMap(fs);
    assert !Live(fs, 2);
    assert NextNumber(fs) == 2;
    NoBlock(Born(fs, 2, File));
    CreateNumber(fs, ROOT, name, File);
    ReadAnswers(fs, 2, 0, 1);
    ReadAnswers(Create(fs, ROOT, name, File).fs, 2, 0, 1);
  }

  lemma SoundMap(fs: Fs)
    requires Sound(fs)
    ensures |fs.inodeMap| == |fs.inodes|
  {}

  lemma NoBlock(fs: Fs)
    requires forall b: nat :: b < |fs.blockMap| ==> fs.blockMap[b]
    ensures AllocBlock(fs) == (fs, 0)
  {}

  // ---------- removing ----------

  /** The end of unlink and rmdir: a slot cleared, a record without pointers set free. */
  lemma DetachRecords(fs: Fs, d: nat, g: nat, i: nat)
    requires Records(fs) && Numbered(fs, d) && fs.inodes[d].typ == Dir && g < DIR_SLOTS
    requires fs.inodes[d].direct[g / PER_BLOCK] != 0
    requires ROOT < i < |fs.inodes| && i != d
    ensures var gs := Detach(fs, d, g, i).fs;
      && Records(gs) && |gs.inodes| == |fs.inodes| && AnswerOf(gs, i) == NoFile
      && (forall j: nat :: j != i && j != d ==> AnswerOf(gs, j) == AnswerOf(fs, j))
  {
    hide Owned, FileBlock, ZeroTail, Contents, DirWriteAt, Slot;
    var m := AllTrue(|fs.inodeMap|);
    WholeLive(fs);
    DirWriteKeeps(Whole(fs), d, g, Zeros(64));
    DirWriteAs(fs, m, fs.inodes[d], g, Zeros(64));
    DirWriteAs(fs, fs.inodeMap, fs.inodes[d], g, Zeros(64));
    SameMapAs(fs);
    var f1 := DirWriteAt(fs, fs.inodes[d], g, Zeros(64)).0;
    var x := fs.inodes[i].(typ := Free, size := 0, nlink := 0);
    MetaKeepsOwned(Whole(f1), i, x);
    var gs := Detach(fs, d, g, i).fs;
    SameBlocksAs(fs, m);
    SameBlocksAs(f1, m);
    SameBlocksAs(gs, m);
    assert Whole(gs) == PutInode(Whole(f1), i, x);
    forall j: nat | j != i && j != d && Numbered(fs, j)
      ensures gs.inodes[j] == fs.inodes[j] && AnswerOf(gs, j) == AnswerOf(fs, j) && (ZeroTail(fs, j) ==> ZeroTail(gs, j))
    {
      SameBlocksSameAnswer(fs, gs, j);
    }
  }

  /** What both removals do once they have found the entry, number by number. */
  lemma EmptyThenDetachNumber(fs: Fs, d: nat, g: nat, i: nat)
    requires Sound(fs) && Names(fs, d, g, i)
    ensures var gs := Detach(Truncate(fs, i, 0).fs, d, g, i).fs;
      && Records(gs) && |gs.inodes| == |fs.inodes| && AnswerOf(gs, i) == NoFile
      && (forall j: nat :: j != i && j != d ==> AnswerOf(gs, j) == AnswerOf(fs, j))
  {
    hide Owned, FileBlock, ZeroTail, Contents, Detach, Truncate, Names, DirShape, Entries;
    NamedInUse(fs, d, g, i);
    NamesShape(fs, d, g, i);
    NamesDir(fs, d, g, i);
    TruncateNumber(fs, i);
    DetachRecords(Truncate(fs, i, 0).fs, d, g, i);
  }

  /** Unlink and rmdir, number by number: the number they remove reads as no file afterwards; of all
      others only the parent's answers may change; and a failure changes nothing. */
  lemma UnlinkNumber(fs: Fs, d: nat, name: CString)
    requires Sound(fs) && IsDir(fs, d)
    ensures var (gs, rc, c) := (Unlink(fs, d, name).fs, Unlink(fs, d, name).rc, Child(fs, d, name));
      && Sound(gs) && |gs.inodes| == |fs.inodes| && (rc == 0 || rc == -1)
      && (rc == -1 ==> gs == fs)
      && (rc == 0 ==> AnswerOf(gs, c) == NoFile)
      && (forall j: nat :: j != c && j != d ==> AnswerOf(gs, j) == AnswerOf(fs, j))
  {
    hide Owned, SlotIno, SlotName, DirFind, Truncate, Detach, Unlinked, Names, Shapes, Entries, Ranked, Records, AnswerOf;
    UnlinkSemantics(fs, d, name);
    HitIsEntry(fs, d, name);
    var hit := DirFind(fs, fs.inodes[d], name, 0, NO_SLOT).0;
    var c := Child(fs, d, name);
    if c != 0 && fs.inodes[c].typ == File {
      EmptyThenDetachNumber(fs, d, hit, c);
    }
  }

  lemma RmdirNumber(fs: Fs, d: nat, name: CString)
    requires Sound(fs) && IsDir(fs, d)
    ensures var (gs, rc, c) := (Rmdir(fs, d, name).fs, Rmdir(fs, d, name).rc, Child(fs, d, name));
      && Sound(gs) && |gs.inodes| == |fs.inodes| && (rc == 0 || rc == -1)
      && (rc == -1 ==> gs == fs)
      && (rc == 0 ==> AnswerOf(gs, c) == NoFile)
      && (forall j: nat :: j != c && j != d ==> AnswerOf(gs, j) == AnswerOf(fs, j))
  {
    hide Owned, SlotIno, SlotName, DirFind, Truncate, Detach, Unlinked, Names, Shapes, Entries, Ranked, Records, AnswerOf, AllEmpty;
    RmdirSemantics(fs, d, name);
    HitIsEntry(fs, d, name);
    var hit := DirFind(fs, fs.inodes[d], name, 0, NO_SLOT).0;
    var c := Child(fs, d, name);
    if Rmdir(fs, d, name).rc == 0 {
      EmptyThenDetachNumber(fs, d, hit, c);
    }
  }

  // ---------- runs ----------

  /** Names are looked up when a file is made, opened, or removed; reads, writes and truncation go
      by a number kept since then, whatever has become of it. */
  datatype Call =
    | Make(path: Path, typ: Type)
    | Remove(path: Path)
    | RemoveDir(path: Path)
    | Write(number: nat, offset: nat, buf: seq<byte>)
    | Clear(number: nat)

  /** The directory a call by path works in, or 0. */
  function Parent(fs: Fs, path: Path): nat {
    if path == [] then 0 else Walk(fs, ROOT, path[..|path| - 1])
  }

  function Last(fs: Fs, path: Path): nat {
    Walk(fs, ROOT, path)
  }

  function Perform(fs: Fs, call: Call): Fs {
    match call
    case Make(path, typ) => if typ == Free then fs else CreateAt(fs, path, typ).fs
    case Remove(path) => UnlinkAt(fs, path).fs
    case RemoveDir(path) => RmdirAt(fs, path).fs
    case Write(number, offset, buf) => WriteFile(fs, number, offset, buf).fs
    case Clear(number) =>
      if Numbered(fs, number) && fs.inodes[number].typ == File then Truncate(fs, number, 0).fs else fs
  }

  /** The numbers whose answers a call may change: the number it was given, or the directory it
      works in with the number it makes, tries or removes there. */
  predicate About(fs: Fs, call: Call, j: nat) {
    match call
    case Make(path, typ) => j == Parent(fs, path) || j == NextNumber(fs)
    case Remove(path) => j == Parent(fs, path) || j == Last(fs, path)
    case RemoveDir(path) => j == Parent(fs, path) || j == Last(fs, path)
    case Write(number, offset, buf) => j == number
    case Clear(number) => j == number
  }

  function PerformAll(fs: Fs, calls: seq<Call>): Fs
    decreases |calls|
  {
    if calls == [] then fs else PerformAll(Perform(fs, calls[0]), calls[1..])
  }

  /** Some call of the run was about number `j` in the state it met. */
  predicate EverAbout(fs: Fs, calls: seq<Call>, j: nat)
    decreases |calls|
  {
    calls != [] && (About(fs, calls[0], j) || EverAbout(Perform(fs, calls[0]), calls[1..], j))
  }

  lemma ParentDir(fs: Fs, path: Path)
    requires Tree(fs) && path != []
    ensures var (d, name) := (Parent(fs, path), path[|path| - 1]);
      && (d != 0 ==> Live(fs, d))
      && Last(fs, path) == if d != 0 && fs.inodes[d].typ == Dir then Child(fs, d, name) else 0
  {
    hide Tree, Walk, Child;
    var p, name := path[..|path| - 1], path[|path| - 1];
    assert path == p + [name];
    WalkLast(fs, ROOT, p, name);
    if Walk(fs, ROOT, p) != 0 {
      WalkLive(fs, p);
    }
  }

  lemma WriteNoFile(fs: Fs, i: nat, offset: nat, buf: seq<byte>)
    requires !Numbered(fs, i) || fs.inodes[i].typ != File
    ensures WriteFile(fs, i, offset, buf).fs == fs
  {}

  lemma PerformSound(fs: Fs, call: Call)
    requires Sound(fs)
    ensures Sound(Perform(fs, call))
    ensures forall j: nat :: !About(fs, call, j) ==> AnswerOf(Perform(fs, call), j) == AnswerOf(fs, j)
  {
    hide Owned, Shapes, Entries, Ranked, Records, AnswerOf, Create, Unlink, Rmdir, WriteFile, Truncate, Walk, Child, NextNumber, Tried, OnlyNumber;
    match call
    case Make(path, typ) =>
      if path != [] && typ != Free {
        ParentDir(fs, path);
        var d := Parent(fs, path);
        if d != 0 && fs.inodes[d].typ == Dir {
          CreateNumber(fs, d, path[|path| - 1], typ);
        }
      }
    case Remove(path) =>
      if path != [] {
        ParentDir(fs, path);
        var d := Parent(fs, path);
        if d != 0 && fs.inodes[d].typ == Dir {
          UnlinkNumber(fs, d, path[|path| - 1]);
        }
      }
    case RemoveDir(path) =>
      if path != [] {
        ParentDir(fs, path);
        var d := Parent(fs, path);
        if d != 0 && fs.inodes[d].typ == Dir {
          RmdirNumber(fs, d, path[|path| - 1]);
        }
      }
    case Write(number, offset, buf) =>
      if Numbered(fs, number) && fs.inodes[number].typ == File {
        WriteNumber(fs, number, offset, buf);
        OnlyNumberTree(fs, WriteFile(fs, number, offset, buf).fs, number);
      } else {
        WriteNoFile(fs, number, offset, buf);
      }
    case Clear(number) =>
      if Numbered(fs, number) && fs.inodes[number].typ == File {
        TruncateNumber(fs, number);
        OnlyNumberTree(fs, Truncate(fs, number, 0).fs, number);
      }
  }

  /** After any run, with numbers kept as long as callers like, the tree is sound, every record is
      sound, and a number no call was about answers every read as it did at the start. */
  lemma {:induction false} HandlesRun(fs: Fs, calls: seq<Call>)
    requires Sound(fs)
    ensures Sound(PerformAll(fs, calls))
    ensures forall j: nat, offset: nat, len: nat :: !EverAbout(fs, calls, j) ==>
      ReadFile(PerformAll(fs, calls), j, offset, len) == ReadFile(fs, j, offset, len)
    decreases |calls|
  {
    hide Sound, Perform, About, ReadFile, Records, AnswerOf;
    if calls != [] {
      PerformSound(fs, calls[0]);
      var gs := Perform(fs, calls[0]);
      HandlesRun(gs, calls[1..]);
      forall j: nat, offset: nat, len: nat | !About(fs, calls[0], j)
        ensures ReadFile(gs, j, offset, len) == ReadFile(fs, j, offset, len)
      {
        SoundRecords(fs);
        SoundRecords(gs);
        ReadAnswers(fs, j, offset, len);
        ReadAnswers(gs, j, offset, len);
      }
    }
  }

  lemma SoundRecords(fs: Fs)
    requires Sound(fs)
    ensures Records(fs)
  {}

  /** A sound file system whose unused records have no pointers is a start for such runs. */
  lemma FreshRecords(fs: Fs)
    requires Good(fs)
    requires forall i: nat :: Numbered(fs, i) && !Live(fs, i) ==>
      fs.inodes[i].direct == NO_POINTERS && fs.inodes[i].indirect == 0 && fs.inodes[i].size <= MAX_BYTES
    ensures Sound(fs)
  {
    hide Entries, Ranked;
    var ws := Whole(fs);
    forall i: nat, k: nat, b: nat
      ensures PointsTo(ws, i, k, b) <==> PointsTo(fs, i, k, b)
    {
      if Numbered(fs, i) && k < POSITIONS {
        assert Ptr(ws, i, k) == Ptr(fs, i, k);
      }
    }
    forall i: nat | Numbered(fs, i) && fs.inodes[i].typ == File
      ensures ZeroTail(fs, i)
    {
      if !Live(fs, i) {
        forall lbn: nat | lbn < MAX_BLOCKS
          ensures FileBlock(fs, i, lbn) == ZERO
        {
        }
        ZeroFile(fs, i);
      }
    }
  }
}

/** Who owns which block: every block reachable from a live inode is a marked data block reached
    from exactly one position. Allocation, linking and block writes keep this, and change no byte
    of any file but the one written. */
module FsBlocks {
  import opened Bytes
  import opened Disk
  import opened FsState

  predicate Live(fs: Fs, i: nat) {
    0 < i < |fs.inodes| && i < |fs.inodeMap| && fs.inodeMap[i]
  }

  predicate DataBlock(fs: Fs, b: nat) {
    fs.dataStart <= b < |fs.data| && b < |fs.blockMap|
  }

  /** Position `k` of live inode `i` points to block `b`. */
  predicate PointsTo(fs: Fs, i: nat, k: nat, b: nat) {
    Live(fs, i) && k < POSITIONS && b != 0 && Ptr(fs, i, k) == b
  }

  ghost predicate Sized(fs: Fs) {
    && 0 < fs.dataStart <= |fs.data| == |fs.blockMap| <= U32
    && |fs.inodeMap| == |fs.inodes|
  }

  ghost predicate Owned(fs: Fs) {
    && Sized(fs)
    && (forall i: nat, k: nat, b: nat :: PointsTo(fs, i, k, b) ==> DataBlock(fs, b) && fs.blockMap[b])
    && (forall i: nat, k: nat, j: nat, l: nat, b: nat :: PointsTo(fs, i, k, b) && PointsTo(fs, j, l, b) ==> i == j && k == l)
  }

  // ---------- file contents ----------

  /** The content of logical block `lbn` as inode `i` sees it; a hole is zeroes. */
  function FileBlock(fs: Fs, i: nat, lbn: nat): Block
    requires i < |fs.inodes|
  {
    var b := Lookup(fs, fs.inodes[i], lbn);
    if b == 0 then ZERO else Block_(fs, b)
  }

  /** Every live inode has the same content, block by block. */
  ghost predicate SameContent(fs: Fs, gs: Fs) {
    && |gs.inodes| == |fs.inodes| && gs.inodeMap == fs.inodeMap
    && forall i: nat, lbn: nat :: Live(fs, i) && lbn < MAX_BLOCKS ==> FileBlock(gs, i, lbn) == FileBlock(fs, i, lbn)
  }

  predicate SameMeta(x: Inode, y: Inode) {
    x.typ == y.typ && x.size == y.size && x.nlink == y.nlink && x.mode == y.mode
  }

  /** Inode `i` may have new pointers; everything else in the table is as before. */
  ghost predicate OnlyPointers(fs: Fs, gs: Fs, i: nat) {
    && |gs.inodes| == |fs.inodes| && i < |fs.inodes|
    && SameMeta(fs.inodes[i], gs.inodes[i])
    && (forall j: nat :: 0 <= j < |fs.inodes| && j != i ==> gs.inodes[j] == fs.inodes[j])
    && gs.inodeMap == fs.inodeMap && gs.dataStart == fs.dataStart
    && |gs.data| == |fs.data| && |gs.blockMap| == |fs.blockMap|
  }

  // ---------- allocation ----------

  /** A marked data block that nothing points to. */
  ghost predicate Spare(fs: Fs, b: nat) {
    && DataBlock(fs, b) && fs.blockMap[b] && b != 0 && b < U32
    && (forall i: nat, k: nat :: !PointsTo(fs, i, k, b))
  }

  /** Pointers depend only on the inodes and on the contents of their indirect blocks. */
  lemma SamePointers(fs: Fs, gs: Fs)
    requires gs.inodes == fs.inodes && gs.inodeMap == fs.inodeMap
    requires forall i: nat, b: nat :: PointsTo(fs, i, DIRECT, b) ==> Block_(gs, b) == Block_(fs, b)
    ensures forall i: nat, k: nat, b: nat :: PointsTo(gs, i, k, b) <==> PointsTo(fs, i, k, b)
    ensures forall i: nat, k: nat :: Live(fs, i) && k < POSITIONS ==> Ptr(gs, i, k) == Ptr(fs, i, k)
  {
    forall i: nat, k: nat | Live(fs, i) && k < POSITIONS
      ensures Ptr(gs, i, k) == Ptr(fs, i, k)
    {
      var x := fs.inodes[i];
      if k > DIRECT && x.indirect != 0 {
        assert PointsTo(fs, i, DIRECT, x.indirect);
      }
    }
    forall i: nat, k: nat, b: nat
      ensures PointsTo(gs, i, k, b) <==> PointsTo(fs, i, k, b)
    {
    }
  }

  /** If pointers are the same and no pointed-to block changed, no content changed. */
  lemma ContentCarries(fs: Fs, gs: Fs)
    requires |gs.inodes| == |fs.inodes| && gs.inodeMap == fs.inodeMap
    requires forall i: nat, k: nat :: Live(fs, i) && k < POSITIONS ==> Ptr(gs, i, k) == Ptr(fs, i, k)
    requires forall i: nat, k: nat, b: nat :: PointsTo(fs, i, k, b) ==> Block_(gs, b) == Block_(fs, b)
    ensures SameContent(fs, gs)
  {
    forall i: nat, lbn: nat | Live(fs, i) && lbn < MAX_BLOCKS
      ensures FileBlock(gs, i, lbn) == FileBlock(fs, i, lbn)
    {
      var k := PosOf(lbn);
      assert Ptr(gs, i, k) == Ptr(fs, i, k);
      if Ptr(fs, i, k) != 0 {
        assert PointsTo(fs, i, k, Ptr(fs, i, k));
      }
    }
  }

  /** A block handed out is zeroed, marked and nobody's; 0 means the data area is full. */
  lemma AllocKeeps(fs: Fs)
    requires Owned(fs)
    ensures var (gs, b) := AllocBlock(fs);
      && Owned(gs) && SameContent(fs, gs)
      && gs.inodes == fs.inodes && gs.inodeMap == fs.inodeMap && gs.dataStart == fs.dataStart
      && (forall i: nat, k: nat :: Live(fs, i) && k < POSITIONS ==> Ptr(gs, i, k) == Ptr(fs, i, k))
      && (b != 0 ==> Spare(gs, b) && Block_(gs, b) == ZERO)
      && (b == 0 ==> gs == fs && forall c: nat :: DataBlock(fs, c) ==> fs.blockMap[c])
  {
    var (gs, b) := AllocBlock(fs);
    if b != 0 {
      forall i: nat, k: nat, c: nat | PointsTo(fs, i, k, c)
        ensures c != b && Block_(gs, c) == Block_(fs, c)
      {
      }
      SamePointers(fs, gs);
      ContentCarries(fs, gs);
    } else {
      forall c: nat | DataBlock(fs, c)
        ensures fs.blockMap[c]
      {
      }
    }
  }

  // ---------- linking a new block ----------

  /** Position `k` of inode `i` was empty and now points to `b`; every other pointer is as it was. */
  ghost predicate Linked(fs: Fs, gs: Fs, i: nat, k: nat, b: nat) {
    && OnlyPointers(fs, gs, i) && gs.blockMap == fs.blockMap && Live(fs, i) && k < POSITIONS
    && Ptr(fs, i, k) == 0 && Ptr(gs, i, k) == b
    && (forall j: nat, l: nat :: Live(fs, j) && l < POSITIONS && (j != i || l != k) ==> Ptr(gs, j, l) == Ptr(fs, j, l))
  }

  lemma LinkedOwned(fs: Fs, gs: Fs, i: nat, k: nat, b: nat)
    requires Owned(fs) && Spare(fs, b) && Linked(fs, gs, i, k, b)
    ensures Owned(gs)
    ensures forall j: nat, l: nat, c: nat :: PointsTo(gs, j, l, c) <==> if j == i && l == k then c == b else PointsTo(fs, j, l, c)
  {
    forall j: nat, l: nat, c: nat
      ensures PointsTo(gs, j, l, c) <==> if j == i && l == k then c == b else PointsTo(fs, j, l, c)
    {
      if Live(fs, j) && l < POSITIONS && (j != i || l != k) {
        assert Ptr(gs, j, l) == Ptr(fs, j, l);
      }
    }
  }

  /** Linking a zeroed block fills a hole with the zeroes it already showed. */
  lemma LinkedContent(fs: Fs, gs: Fs, i: nat, k: nat, b: nat)
    requires Owned(fs) && Spare(fs, b) && Linked(fs, gs, i, k, b) && Block_(gs, b) == ZERO
    requires forall j: nat, l: nat, c: nat :: PointsTo(fs, j, l, c) && l != DIRECT ==> Block_(gs, c) == Block_(fs, c)
    ensures SameContent(fs, gs)
  {
    forall j: nat, lbn: nat | Live(fs, j) && lbn < MAX_BLOCKS
      ensures FileBlock(gs, j, lbn) == FileBlock(fs, j, lbn)
    {
      var l := PosOf(lbn);
      if j == i && l == k {
      } else {
        assert Ptr(gs, j, l) == Ptr(fs, j, l);
        if Ptr(fs, j, l) != 0 {
          assert PointsTo(fs, j, l, Ptr(fs, j, l));
        }
      }
    }
  }

  lemma LinkDirect(fs: Fs, i: nat, k: nat, b: u32)
    requires Owned(fs) && Live(fs, i) && k < DIRECT && fs.inodes[i].direct[k] == 0
    requires Spare(fs, b) && Block_(fs, b) == ZERO
    ensures var gs := PutInode(fs, i, fs.inodes[i].(direct := fs.inodes[i].direct[k := b]));
      Owned(gs) && SameContent(fs, gs) && OnlyPointers(fs, gs, i) && PointsTo(gs, i, k, b)
  {
    var gs := PutInode(fs, i, fs.inodes[i].(direct := fs.inodes[i].direct[k := b]));
    assert Linked(fs, gs, i, k, b);
    LinkedOwned(fs, gs, i, k, b);
    LinkedContent(fs, gs, i, k, b);
  }

  lemma LinkIndirect(fs: Fs, i: nat, b: u32)
    requires Owned(fs) && Live(fs, i) && fs.inodes[i].indirect == 0
    requires Spare(fs, b) && Block_(fs, b) == ZERO
    ensures var gs := PutInode(fs, i, fs.inodes[i].(indirect := b));
      Owned(gs) && SameContent(fs, gs) && OnlyPointers(fs, gs, i) && PointsTo(gs, i, DIRECT, b)
  {
    var gs := PutInode(fs, i, fs.inodes[i].(indirect := b));
    forall j: nat, l: nat | Live(fs, j) && l < POSITIONS && (j != i || l != DIRECT)
      ensures Ptr(gs, j, l) == Ptr(fs, j, l)
    {
      if j == i && l > DIRECT {
        ZeroTable(l - DIRECT - 1);
      }
    }
    LinkedOwned(fs, gs, i, DIRECT, b);
    LinkedContent(fs, gs, i, DIRECT, b);
  }

  lemma LinkVia(fs: Fs, i: nat, j: nat, b: u32)
    requires Owned(fs) && Live(fs, i) && j < INDIRECT && fs.inodes[i].indirect != 0
    requires TableGet(Block_(fs, fs.inodes[i].indirect), j) == 0
    requires Spare(fs, b) && Block_(fs, b) == ZERO
    ensures var ind := fs.inodes[i].indirect;
      var gs := PutBlock(fs, ind, TablePut(Block_(fs, ind), j, b));
      Owned(gs) && SameContent(fs, gs) && OnlyPointers(fs, gs, i) && PointsTo(gs, i, DIRECT + 1 + j, b)
  {
    var ind := fs.inodes[i].indirect;
    var table := Block_(fs, ind);
    var gs := PutBlock(fs, ind, TablePut(table, j, b));
    var k := DIRECT + 1 + j;
    assert PointsTo(fs, i, DIRECT, ind);
    forall c: nat | c != ind
      ensures Block_(gs, c) == Block_(fs, c)
    {
    }
    forall l: nat, m: nat | Live(fs, l) && m < POSITIONS
      ensures Ptr(gs, l, m) == if l == i && m == k then b else Ptr(fs, l, m)
    {
      var x := fs.inodes[l];
      if m > DIRECT && x.indirect != 0 {
        assert PointsTo(fs, l, DIRECT, x.indirect);
        if l == i {
          TableGetPut(table, j, b, m - DIRECT - 1);
        }
      }
    }
    assert Linked(fs, gs, i, k, b);
    LinkedOwned(fs, gs, i, k, b);
    LinkedContent(fs, gs, i, k, b);
  }

  /** What resolving a block with allocation keeps, and what it returns. */
  ghost predicate Resolved(fs: Fs, gs: Fs, i: nat, lbn: nat, pb: u32) {
    && Owned(gs) && SameContent(fs, gs) && OnlyPointers(fs, gs, i)
    && (pb != 0 ==> lbn < MAX_BLOCKS && PointsTo(gs, i, PosOf(lbn), pb))
    && (pb == 0 && lbn < MAX_BLOCKS ==> Full(gs))
  }

  /** No data block is left to allocate. */
  ghost predicate Full(fs: Fs) {
    forall b: nat :: DataBlock(fs, b) ==> fs.blockMap[b]
  }

  lemma SameContentTrans(fs: Fs, gs: Fs, hs: Fs)
    requires SameContent(fs, gs) && SameContent(gs, hs)
    ensures SameContent(fs, hs)
  {
    hide FileBlock;
    forall i: nat, lbn: nat | Live(fs, i) && lbn < MAX_BLOCKS
      ensures FileBlock(hs, i, lbn) == FileBlock(fs, i, lbn)
    {
      assert Live(gs, i);
    }
  }

  lemma NeedIndirectKeeps(fs: Fs, i: nat)
    requires Owned(fs) && Live(fs, i)
    ensures var (gs, ok) := NeedIndirect(fs, i);
      && Owned(gs) && SameContent(fs, gs) && OnlyPointers(fs, gs, i)
      && (ok ==> PointsTo(gs, i, DIRECT, gs.inodes[i].indirect))
      && (!ok ==> gs == fs && Full(fs))
  {
    hide FileBlock;
    var x := fs.inodes[i];
    if x.indirect == 0 {
      AllocKeeps(fs);
      var (f1, b) := AllocBlock(fs);
      if b != 0 {
        LinkIndirect(f1, i, b);
        SameContentTrans(fs, f1, NeedIndirect(fs, i).0);
      }
    }
  }

  lemma ResolveDirectKeeps(fs: Fs, i: nat, lbn: nat)
    requires Owned(fs) && Live(fs, i) && lbn < DIRECT
    ensures Resolved(fs, Resolve(fs, i, lbn).0, i, lbn, Resolve(fs, i, lbn).1)
  {
    hide FileBlock;
    AllocKeeps(fs);
    var x := fs.inodes[i];
    var (f1, b) := AllocBlock(fs);
    if x.direct[lbn] == 0 && b != 0 {
      LinkDirect(f1, i, lbn, b);
      SameContentTrans(fs, f1, Resolve(fs, i, lbn).0);
    }
  }

  lemma ResolveTableKeeps(fs: Fs, i: nat, lbn: nat)
    requires Owned(fs) && Live(fs, i) && DIRECT <= lbn < MAX_BLOCKS
    requires fs.inodes[i].indirect != 0
    ensures Resolved(fs, Resolve(fs, i, lbn).0, i, lbn, Resolve(fs, i, lbn).1)
  {
    hide FileBlock;
    AllocKeeps(fs);
    var ind := fs.inodes[i].indirect;
    var (f2, b) := AllocBlock(fs);
    assert PointsTo(fs, i, DIRECT, ind);
    if TableGet(Block_(fs, ind), lbn - DIRECT) == 0 && b != 0 {
      LinkVia(f2, i, lbn - DIRECT, b);
      SameContentTrans(fs, f2, Resolve(fs, i, lbn).0);
    }
  }

  /** `resolve_block` keeps ownership and every byte of every file, and either yields the block
      now at the position or finds the data area full. */
  lemma ResolveKeeps(fs: Fs, i: nat, lbn: nat)
    requires Owned(fs) && Live(fs, i)
    ensures Resolved(fs, Resolve(fs, i, lbn).0, i, lbn, Resolve(fs, i, lbn).1)
  {
    hide FileBlock;
    if lbn < DIRECT {
      ResolveDirectKeeps(fs, i, lbn);
    } else if lbn < MAX_BLOCKS {
      NeedIndirectKeeps(fs, i);
      var (f1, ok) := NeedIndirect(fs, i);
      if ok {
        ResolveTableKeeps(f1, i, lbn);
        SameContentTrans(fs, f1, Resolve(fs, i, lbn).0);
      }
    }
  }

  // ---------- writing a block ----------

  /** Writing a data block of one file changes that block of that file and nothing else. */
  lemma PutBlockKeeps(fs: Fs, i: nat, lbn: nat, b: nat, y: Block)
    requires Owned(fs) && lbn < MAX_BLOCKS && PointsTo(fs, i, PosOf(lbn), b)
    ensures Owned(PutBlock(fs, b, y))
    ensures forall j: nat, l: nat :: Live(fs, j) && l < MAX_BLOCKS ==>
      FileBlock(PutBlock(fs, b, y), j, l) == if j == i && l == lbn then y else FileBlock(fs, j, l)
  {
    var gs := PutBlock(fs, b, y);
    SamePointers(fs, gs);
    forall j: nat, l: nat | Live(fs, j) && l < MAX_BLOCKS
      ensures FileBlock(gs, j, l) == if j == i && l == lbn then y else FileBlock(fs, j, l)
    {
      assert Ptr(gs, j, PosOf(l)) == Ptr(fs, j, PosOf(l));
      if Ptr(fs, j, PosOf(l)) != 0 {
        assert PointsTo(fs, j, PosOf(l), Ptr(fs, j, PosOf(l)));
      }
    }
  }
}

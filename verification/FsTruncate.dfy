/** `osfs2_truncate` (kernel/core/osfs2.c): frees the blocks past the new size and exactly those. */
module FsTruncate {
  import opened Bytes
  import opened Disk
  import opened FsState
  import opened FsBlocks
  import opened FsFile

  /** The direct-pointer loop, from index `k` on. */
  function DropDirect(fs: Fs, i: nat, kept: nat, k: nat): (r: Fs)
    requires i < |fs.inodes| && k <= DIRECT
    ensures |r.inodes| == |fs.inodes| && r.data == fs.data && |r.blockMap| == |fs.blockMap|
    decreases DIRECT - k
  {
    if k == DIRECT then fs
    else
      var x := fs.inodes[i];
      if k >= kept && x.direct[k] != 0 then
        DropDirect(PutInode(FreeBlock(fs, x.direct[k]), i, x.(direct := x.direct[k := 0])), i, kept, k + 1)
      else DropDirect(fs, i, kept, k + 1)
  }

  /** The loop over the table in the indirect block, from entry `j` on: the freed bits, the table
      as it then stands in memory, and whether a live entry remains. */
  function DropTable(fs: Fs, t: Block, kept: nat, j: nat): (r: (Fs, Block, bool))
    requires j <= INDIRECT
    ensures r.0.inodes == fs.inodes && r.0.data == fs.data && |r.0.blockMap| == |fs.blockMap|
    decreases INDIRECT - j
  {
    if j == INDIRECT then (fs, t, false)
    else if DIRECT + j >= kept && TableGet(t, j) != 0 then
      DropTable(FreeBlock(fs, TableGet(t, j)), TablePut(t, j, 0), kept, j + 1)
    else
      var (f, u, left) := DropTable(fs, t, kept, j + 1);
      (f, u, left || TableGet(t, j) != 0)
  }

  /** Number of blocks that hold `size` bytes. */
  function Kept(size: nat): nat {
    (size + 4095) / 4096
  }

  /** The indirect part: the indirect block itself goes when no entry is left. */
  function DropIndirect(fs: Fs, i: nat, kept: nat): (r: Fs)
    requires i < |fs.inodes| && 0 < fs.inodes[i].indirect < |fs.data|
    ensures |r.inodes| == |fs.inodes|
  {
    var x := fs.inodes[i];
    var (f, t, left) := DropTable(fs, fs.data[x.indirect], kept, 0);
    if left then PutBlock(f, x.indirect, t)
    else PutInode(FreeBlock(f, x.indirect), i, x.(indirect := 0))
  }

  function Truncate(fs: Fs, i: nat, size: nat): (r: Done)
    ensures |r.fs.inodes| == |fs.inodes|
  {
    if i == 0 || i >= |fs.inodes| || fs.inodes[i].typ == Free || size > MAX_BYTES then Done(fs, -1)
    else
      var f1 := DropDirect(fs, i, Kept(size), 0);
      var x := f1.inodes[i];
      if x.indirect != 0 && x.indirect >= |fs.data| then Done(f1.(inodes := fs.inodes), -1)
      else
        var f2 := if x.indirect == 0 then f1 else DropIndirect(f1, i, Kept(size));
        Done(PutInode(f2, i, f2.inodes[i].(size := size)), 0)
  }

  // ---------- shedding pointers ----------

  /** Block `b` hung at one of the positions `ks` of inode `i`. */
  ghost predicate HungAt(fs: Fs, i: nat, ks: set<nat>, b: nat) {
    exists k :: k in ks && PointsTo(fs, i, k, b)
  }

  /** `gs` is `fs` without the pointers of inode `i` at positions `ks`, and with exactly the
      blocks that hung there unmarked. */
  ghost predicate Shed(fs: Fs, gs: Fs, i: nat, ks: set<nat>) {
    && OnlyPointers(fs, gs, i)
    && (forall j: nat, l: nat :: Live(fs, j) && l < POSITIONS ==>
          Ptr(gs, j, l) == if j == i && l in ks then 0 else Ptr(fs, j, l))
    && (forall b: nat :: b < |fs.blockMap| ==> gs.blockMap[b] == (fs.blockMap[b] && !HungAt(fs, i, ks, b)))
    && (forall b: nat :: b != fs.inodes[i].indirect ==> Block_(gs, b) == Block_(fs, b))
  }

  lemma ShedPointers(fs: Fs, gs: Fs, i: nat, ks: set<nat>)
    requires Live(fs, i) && Shed(fs, gs, i, ks)
    ensures forall j: nat, l: nat, b: nat :: PointsTo(gs, j, l, b) <==> PointsTo(fs, j, l, b) && !(j == i && l in ks)
  {
    forall j: nat, l: nat, b: nat
      ensures PointsTo(gs, j, l, b) <==> PointsTo(fs, j, l, b) && !(j == i && l in ks)
    {
      if Live(fs, j) && l < POSITIONS {
        assert Ptr(gs, j, l) == if j == i && l in ks then 0 else Ptr(fs, j, l);
      }
    }
  }

  lemma ShedOwned(fs: Fs, gs: Fs, i: nat, ks: set<nat>)
    requires Owned(fs) && Live(fs, i) && Shed(fs, gs, i, ks)
    ensures Owned(gs)
  {
    ShedPointers(fs, gs, i, ks);
    forall j: nat, l: nat, b: nat | PointsTo(gs, j, l, b)
      ensures DataBlock(gs, b) && gs.blockMap[b]
    {
      assert PointsTo(fs, j, l, b);
      assert !HungAt(fs, i, ks, b);
    }
  }

  /** A shed data position reads as zeroes; nothing else changes. */
  lemma ShedContent(fs: Fs, gs: Fs, i: nat, ks: set<nat>)
    requires Owned(fs) && Live(fs, i) && Shed(fs, gs, i, ks)
    ensures forall j: nat, lbn: nat :: Live(fs, j) && lbn < MAX_BLOCKS ==>
      FileBlock(gs, j, lbn) == if j == i && PosOf(lbn) in ks then ZERO else FileBlock(fs, j, lbn)
  {
    forall j: nat, lbn: nat | Live(fs, j) && lbn < MAX_BLOCKS
      ensures FileBlock(gs, j, lbn) == if j == i && PosOf(lbn) in ks then ZERO else FileBlock(fs, j, lbn)
    {
      var l := PosOf(lbn);
      assert Ptr(gs, j, l) == if j == i && l in ks then 0 else Ptr(fs, j, l);
      var b := Ptr(fs, j, l);
      if b != 0 && fs.inodes[i].indirect != 0 {
        assert PointsTo(fs, j, l, b) && PointsTo(fs, i, DIRECT, fs.inodes[i].indirect);
        assert b != fs.inodes[i].indirect;
      }
    }
  }

  lemma ShedNone(fs: Fs, i: nat)
    requires Live(fs, i)
    ensures Shed(fs, fs, i, {})
  {
    forall b: nat
      ensures !HungAt(fs, i, {}, b)
    {
    }
  }

  /** An empty position can be counted as shed. */
  lemma ShedEmpty(fs: Fs, gs: Fs, i: nat, ks: set<nat>, k: nat)
    requires Live(fs, i) && Shed(fs, gs, i, ks) && k < POSITIONS && Ptr(gs, i, k) == 0
    ensures Shed(fs, gs, i, ks + {k})
  {
    forall b: nat
      ensures HungAt(fs, i, ks + {k}, b) == HungAt(fs, i, ks, b)
    {
      if PointsTo(fs, i, k, b) {
        assert k in ks;
      }
      if HungAt(fs, i, ks, b) {
        var l :| l in ks && PointsTo(fs, i, l, b);
        assert l in ks + {k} && PointsTo(fs, i, l, b);
      }
    }
  }

  /** One more position is cleared and its block unmarked. */
  lemma ShedOne(fs: Fs, gs: Fs, hs: Fs, i: nat, ks: set<nat>, k: nat, b: nat)
    requires Owned(fs) && Live(fs, i) && Shed(fs, gs, i, ks) && PointsTo(gs, i, k, b)
    requires OnlyPointers(gs, hs, i) && hs.blockMap == FreeBlock(gs, b).blockMap
    requires forall j: nat, l: nat :: Live(fs, j) && l < POSITIONS ==>
      Ptr(hs, j, l) == if j == i && l == k then 0 else Ptr(gs, j, l)
    requires forall c: nat :: c != fs.inodes[i].indirect ==> Block_(hs, c) == Block_(gs, c)
    ensures Shed(fs, hs, i, ks + {k})
  {
    var ls := ks + {k};
    ShedPointers(fs, gs, i, ks);
    assert PointsTo(fs, i, k, b);
    forall c: nat | c < |fs.blockMap|
      ensures hs.blockMap[c] == (fs.blockMap[c] && !HungAt(fs, i, ls, c))
    {
      HungOneMore(fs, i, ks, k, c);
    }
    forall j: nat, l: nat | Live(fs, j) && l < POSITIONS
      ensures Ptr(hs, j, l) == if j == i && l in ls then 0 else Ptr(fs, j, l)
    {
      assert Ptr(gs, j, l) == if j == i && l in ks then 0 else Ptr(fs, j, l);
    }
  }

  lemma HungOneMore(fs: Fs, i: nat, ks: set<nat>, k: nat, c: nat)
    ensures HungAt(fs, i, ks + {k}, c) <==> HungAt(fs, i, ks, c) || PointsTo(fs, i, k, c)
  {
    if HungAt(fs, i, ks, c) {
      var l :| l in ks && PointsTo(fs, i, l, c);
      assert l in ks + {k};
    }
    if PointsTo(fs, i, k, c) {
      assert k in ks + {k};
    }
  }

  // ---------- the loops ----------

  predicate InDirect(kept: nat, k: nat, l: nat) {
    k <= l < DIRECT && kept <= l
  }

  predicate InTable(kept: nat, j: nat, l: nat) {
    DIRECT + 1 + j <= l < POSITIONS && kept < l
  }

  /** The direct positions from `k` on that the new size does not need. */
  function DirectTail(kept: nat, k: nat): set<nat> {
    set l: nat | l < POSITIONS && InDirect(kept, k, l)
  }

  /** The positions from table entry `j` on that the new size does not need. */
  function TableTail(kept: nat, j: nat): set<nat> {
    set l: nat | l < POSITIONS && InTable(kept, j, l)
  }

  lemma DropOneDirect(fs: Fs, gs: Fs, i: nat, ks: set<nat>, k: nat)
    requires Owned(fs) && Live(fs, i) && Shed(fs, gs, i, ks) && k < DIRECT && gs.inodes[i].direct[k] != 0
    ensures var x := gs.inodes[i];
      Shed(fs, PutInode(FreeBlock(gs, x.direct[k]), i, x.(direct := x.direct[k := 0])), i, ks + {k})
  {
    hide Shed;
    ShedShape(fs, gs, i, ks);
    var x := gs.inodes[i];
    var b := x.direct[k];
    var hs := PutInode(FreeBlock(gs, b), i, x.(direct := x.direct[k := 0]));
    assert PointsTo(gs, i, k, b);
    forall j: nat, l: nat | Live(fs, j) && l < POSITIONS
      ensures Ptr(hs, j, l) == if j == i && l == k then 0 else Ptr(gs, j, l)
    {
    }
    ShedOne(fs, gs, hs, i, ks, k, b);
  }

  lemma ShedShape(fs: Fs, gs: Fs, i: nat, ks: set<nat>)
    requires Shed(fs, gs, i, ks)
    ensures OnlyPointers(fs, gs, i)
  {}

  lemma {:induction false} DropDirectSheds(fs: Fs, gs: Fs, i: nat, kept: nat, k: nat, ks: set<nat>)
    requires Owned(fs) && Live(fs, i) && Shed(fs, gs, i, ks) && k <= DIRECT
    requires gs.inodes[i].indirect == fs.inodes[i].indirect
    ensures var hs := DropDirect(gs, i, kept, k);
      Shed(fs, hs, i, ks + DirectTail(kept, k)) && hs.inodes[i].indirect == fs.inodes[i].indirect
    decreases DIRECT - k
  {
    hide Owned, Shed;
    ShedShape(fs, gs, i, ks);
    if k == DIRECT {
      assert ks + DirectTail(kept, k) == ks;
    } else if k < kept {
      assert DirectTail(kept, k) == DirectTail(kept, k + 1);
      DropDirectSheds(fs, gs, i, kept, k + 1, ks);
    } else {
      assert ks + DirectTail(kept, k) == (ks + {k}) + DirectTail(kept, k + 1);
      var x := gs.inodes[i];
      if x.direct[k] != 0 {
        DropOneDirect(fs, gs, i, ks, k);
        DropDirectSheds(fs, PutInode(FreeBlock(gs, x.direct[k]), i, x.(direct := x.direct[k := 0])), i, kept, k + 1, ks + {k});
      } else {
        ShedEmpty(fs, gs, i, ks, k);
        DropDirectSheds(fs, gs, i, kept, k + 1, ks + {k});
      }
    }
  }

  lemma DropOneEntry(fs: Fs, f: Fs, i: nat, ks: set<nat>, t: Block, j: nat)
    requires Owned(fs) && Live(fs, i) && |f.inodes| == |fs.inodes| && j < INDIRECT
    requires var ind := fs.inodes[i].indirect; 0 < ind < |f.data| && f.inodes[i].indirect == ind
    requires Shed(fs, PutBlock(f, fs.inodes[i].indirect, t), i, ks) && TableGet(t, j) != 0
    ensures Shed(fs, PutBlock(FreeBlock(f, TableGet(t, j)), fs.inodes[i].indirect, TablePut(t, j, 0)), i, ks + {DIRECT + 1 + j})
  {
    hide Shed, TablePut;
    var ind := fs.inodes[i].indirect;
    var gs := PutBlock(f, ind, t);
    ShedShape(fs, gs, i, ks);
    ShedOwned(fs, gs, i, ks);
    var b, k := TableGet(t, j), DIRECT + 1 + j;
    var hs := PutBlock(FreeBlock(f, b), ind, TablePut(t, j, 0));
    assert PointsTo(gs, i, DIRECT, ind) && PointsTo(gs, i, k, b);
    forall l: nat, m: nat | Live(fs, l) && m < POSITIONS
      ensures Ptr(hs, l, m) == if l == i && m == k then 0 else Ptr(gs, l, m)
    {
      var x := gs.inodes[l];
      if m > DIRECT && x.indirect != 0 {
        assert PointsTo(gs, l, DIRECT, x.indirect);
        if l == i {
          TableGetPut(t, j, 0, m - DIRECT - 1);
        }
      }
    }
    ShedOne(fs, gs, hs, i, ks, k, b);
  }

  lemma {:induction false} DropTableSheds(fs: Fs, f: Fs, i: nat, kept: nat, ks: set<nat>, t: Block, j: nat)
    requires Owned(fs) && Live(fs, i) && |f.inodes| == |fs.inodes| && j <= INDIRECT
    requires var ind := fs.inodes[i].indirect; 0 < ind < |f.data| && f.inodes[i].indirect == ind
    requires Shed(fs, PutBlock(f, fs.inodes[i].indirect, t), i, ks)
    ensures var (g, u, left) := DropTable(f, t, kept, j);
      && Shed(fs, PutBlock(g, fs.inodes[i].indirect, u), i, ks + TableTail(kept, j))
      && (forall m: nat :: m < j ==> TableGet(u, m) == TableGet(t, m))
      && (!left ==> forall m: nat :: j <= m < INDIRECT ==> TableGet(u, m) == 0)
      && (left ==> exists m: nat :: j <= m < INDIRECT && TableGet(u, m) != 0)
    decreases INDIRECT - j
  {
    hide Owned, Shed, TableGet, TablePut, PutBlock;
    if j == INDIRECT {
      assert ks + TableTail(kept, j) == ks;
    } else if DIRECT + j >= kept {
      var k := DIRECT + 1 + j;
      assert ks + TableTail(kept, j) == (ks + {k}) + TableTail(kept, j + 1);
      if TableGet(t, j) != 0 {
        DropOneEntry(fs, f, i, ks, t, j);
        var t1 := TablePut(t, j, 0);
        forall m: nat | m < INDIRECT
          ensures TableGet(t1, m) == if m == j then 0 else TableGet(t, m)
        {
          TableGetPut(t, j, 0, m);
        }
        DropTableSheds(fs, FreeBlock(f, TableGet(t, j)), i, kept, ks + {k}, t1, j + 1);
      } else {
        EmptyEntry(fs, f, i, ks, t, j);
        DropTableSheds(fs, f, i, kept, ks + {k}, t, j + 1);
      }
    } else {
      assert TableTail(kept, j) == TableTail(kept, j + 1);
      DropTableSheds(fs, f, i, kept, ks, t, j + 1);
    }
  }

  lemma EmptyEntry(fs: Fs, f: Fs, i: nat, ks: set<nat>, t: Block, j: nat)
    requires Owned(fs) && Live(fs, i) && |f.inodes| == |fs.inodes| && j < INDIRECT
    requires var ind := fs.inodes[i].indirect; 0 < ind < |f.data| && f.inodes[i].indirect == ind
    requires Shed(fs, PutBlock(f, fs.inodes[i].indirect, t), i, ks) && TableGet(t, j) == 0
    ensures Shed(fs, PutBlock(f, fs.inodes[i].indirect, t), i, ks + {DIRECT + 1 + j})
  {
    hide Shed, TableGet;
    ShedEmpty(fs, PutBlock(f, fs.inodes[i].indirect, t), i, ks, DIRECT + 1 + j);
  }

  lemma DropIndirectBlock(fs: Fs, f: Fs, i: nat, ks: set<nat>, u: Block)
    requires Owned(fs) && Live(fs, i) && |f.inodes| == |fs.inodes|
    requires var ind := fs.inodes[i].indirect; 0 < ind < |f.data| && f.inodes[i].indirect == ind
    requires Shed(fs, PutBlock(f, fs.inodes[i].indirect, u), i, ks)
    requires forall m: nat :: m < INDIRECT ==> TableGet(u, m) == 0
    ensures Shed(fs, PutInode(FreeBlock(f, f.inodes[i].indirect), i, f.inodes[i].(indirect := 0)), i, ks + {DIRECT})
  {
    hide Shed, TableGet;
    var ind := fs.inodes[i].indirect;
    var gs := PutBlock(f, ind, u);
    ShedShape(fs, gs, i, ks);
    ShedOwned(fs, gs, i, ks);
    assert PointsTo(gs, i, DIRECT, ind);
    var hs := PutInode(FreeBlock(f, ind), i, f.inodes[i].(indirect := 0));
    forall l: nat, m: nat | Live(fs, l) && m < POSITIONS
      ensures Ptr(hs, l, m) == if l == i && m == DIRECT then 0 else Ptr(gs, l, m)
    {
      var x := gs.inodes[l];
      if m > DIRECT && x.indirect != 0 && l != i {
        assert PointsTo(gs, l, DIRECT, x.indirect);
      }
    }
    ShedOne(fs, gs, hs, i, ks, DIRECT, ind);
  }

  /** The positions of blocks `kept` and up. */
  function Beyond(kept: nat): set<nat> {
    DirectTail(kept, 0) + TableTail(kept, 0)
  }

  lemma BeyondIs(kept: nat, lbn: nat)
    requires lbn < MAX_BLOCKS
    ensures PosOf(lbn) in Beyond(kept) <==> kept <= lbn
    ensures DIRECT !in Beyond(kept)
  {}

  lemma DropIndirectSheds(fs: Fs, f: Fs, i: nat, kept: nat, ks: set<nat>)
    requires Owned(fs) && Live(fs, i) && |f.inodes| == |fs.inodes|
    requires var ind := fs.inodes[i].indirect; 0 < ind < |f.data| && f.inodes[i].indirect == ind
    requires Shed(fs, f, i, ks)
    ensures var gs := DropIndirect(f, i, kept);
      var ls := ks + TableTail(kept, 0);
      if gs.inodes[i].indirect == 0 then Shed(fs, gs, i, ls + {DIRECT}) else Shed(fs, gs, i, ls) && TableUsed(gs, i)
  {
    hide Owned, Shed, TableTail;
    var ind := fs.inodes[i].indirect;
    var t := f.data[ind];
    assert PutBlock(f, ind, t) == f by { assert f.data[ind := t] == f.data; }
    DropTableSheds(fs, f, i, kept, ks, t, 0);
    var (g, u, left) := DropTable(f, t, kept, 0);
    if left {
      assert Block_(PutBlock(g, ind, u), ind) == u;
    } else {
      DropIndirectBlock(fs, g, i, ks + TableTail(kept, 0), u);
    }
  }

  /** Some entry of the indirect table of inode `i` is in use. */
  ghost predicate TableUsed(fs: Fs, i: nat) {
    i < |fs.inodes| && AnyEntry(Block_(fs, fs.inodes[i].indirect))
  }

  ghost predicate AnyEntry(t: Block) {
    exists m: nat :: m < INDIRECT && TableGet(t, m) != 0
  }

  /** The blocks part of `osfs2_truncate`: the state before the new size is stored. */
  function Trimmed(fs: Fs, i: nat, size: nat): Fs
    requires i < |fs.inodes|
  {
    var f1 := DropDirect(fs, i, Kept(size), 0);
    if 0 < f1.inodes[i].indirect < |fs.data| then DropIndirect(f1, i, Kept(size)) else f1
  }

  lemma NoTable(fs: Fs, gs: Fs, i: nat, kept: nat, ks: set<nat>)
    requires Live(fs, i) && Shed(fs, gs, i, ks) && gs.inodes[i].indirect == 0
    ensures Shed(fs, gs, i, ks + TableTail(kept, 0) + {DIRECT})
  {
    var ls := ks + TableTail(kept, 0) + {DIRECT};
    ShedPointers(fs, gs, i, ks);
    forall b: nat
      ensures HungAt(fs, i, ls, b) == HungAt(fs, i, ks, b)
    {
      if HungAt(fs, i, ks, b) {
        var l :| l in ks && PointsTo(fs, i, l, b);
        assert l in ls;
      }
      if HungAt(fs, i, ls, b) {
        var l :| l in ls && PointsTo(fs, i, l, b);
        assert Ptr(gs, i, l) == 0;
      }
    }
  }

  lemma TrimmedSheds(fs: Fs, i: nat, size: nat)
    requires Owned(fs) && Live(fs, i)
    ensures var gs, ls := Trimmed(fs, i, size), Beyond(Kept(size));
      && DropDirect(fs, i, Kept(size), 0).inodes[i].indirect < |fs.data|
      && |gs.inodes| == |fs.inodes|
      && if gs.inodes[i].indirect == 0 then Shed(fs, gs, i, ls + {DIRECT}) else Shed(fs, gs, i, ls) && TableUsed(gs, i)
  {
    hide Shed, DirectTail, TableTail, DropDirect, DropIndirect;
    var kept := Kept(size);
    ShedNone(fs, i);
    DropDirectSheds(fs, fs, i, kept, 0, {});
    var f1 := DropDirect(fs, i, kept, 0);
    assert {} + DirectTail(kept, 0) == DirectTail(kept, 0);
    var ind := fs.inodes[i].indirect;
    if ind == 0 {
      NoTable(fs, f1, i, kept, DirectTail(kept, 0));
    } else {
      assert PointsTo(fs, i, DIRECT, ind);
      DropIndirectSheds(fs, f1, i, kept, DirectTail(kept, 0));
    }
  }

  // ---------- what a whole call does ----------

  /** Block `b` hung on inode `i` before and does not any more. */
  ghost predicate Released(fs: Fs, gs: Fs, i: nat, b: nat) {
    exists k: nat :: PointsTo(fs, i, k, b) && !PointsTo(gs, i, k, b)
  }

  lemma ShedReleases(fs: Fs, gs: Fs, i: nat, ks: set<nat>)
    requires Live(fs, i) && Shed(fs, gs, i, ks)
    ensures forall b: nat :: b < |fs.blockMap| ==> gs.blockMap[b] == (fs.blockMap[b] && !Released(fs, gs, i, b))
  {
    ShedPointers(fs, gs, i, ks);
    forall b: nat
      ensures Released(fs, gs, i, b) == HungAt(fs, i, ks, b)
    {
      if HungAt(fs, i, ks, b) {
        var l :| l in ks && PointsTo(fs, i, l, b);
        assert !PointsTo(gs, i, l, b);
      }
    }
  }

  lemma TrimmedSemantics(fs: Fs, i: nat, size: nat)
    requires Owned(fs) && Live(fs, i)
    ensures var gs := Trimmed(fs, i, size);
      && Owned(gs) && OnlyPointers(fs, gs, i)
      && (forall j: nat, lbn: nat :: Live(fs, j) && lbn < MAX_BLOCKS ==>
            FileBlock(gs, j, lbn) == if j == i && lbn >= Kept(size) then ZERO else FileBlock(fs, j, lbn))
      && (forall b: nat :: b < |fs.blockMap| ==> gs.blockMap[b] == (fs.blockMap[b] && !Released(fs, gs, i, b)))
      && (gs.inodes[i].indirect != 0 ==> TableUsed(gs, i))
      && (forall lbn: nat :: Kept(size) <= lbn < MAX_BLOCKS ==> Ptr(gs, i, PosOf(lbn)) == 0)
  {
    hide Trimmed, Owned, Beyond, FileBlock;
    TrimmedSheds(fs, i, size);
    var gs := Trimmed(fs, i, size);
    var ls := if gs.inodes[i].indirect == 0 then Beyond(Kept(size)) + {DIRECT} else Beyond(Kept(size));
    TrimmedBy(fs, gs, i, Kept(size), ls);
  }

  lemma TrimmedBy(fs: Fs, gs: Fs, i: nat, kept: nat, ls: set<nat>)
    requires Owned(fs) && Live(fs, i) && Shed(fs, gs, i, ls)
    requires ls == Beyond(kept) || ls == Beyond(kept) + {DIRECT}
    ensures Owned(gs) && OnlyPointers(fs, gs, i)
    ensures forall j: nat, lbn: nat :: Live(fs, j) && lbn < MAX_BLOCKS ==>
      FileBlock(gs, j, lbn) == if j == i && lbn >= kept then ZERO else FileBlock(fs, j, lbn)
    ensures forall b: nat :: b < |fs.blockMap| ==> gs.blockMap[b] == (fs.blockMap[b] && !Released(fs, gs, i, b))
    ensures forall lbn: nat :: kept <= lbn < MAX_BLOCKS ==> Ptr(gs, i, PosOf(lbn)) == 0
  {
    hide Owned, Beyond, FileBlock, Released;
    ShedOwned(fs, gs, i, ls);
    ShedContent(fs, gs, i, ls);
    ShedReleases(fs, gs, i, ls);
    forall lbn: nat | lbn < MAX_BLOCKS
      ensures PosOf(lbn) in ls <==> kept <= lbn
    {
      BeyondIs(kept, lbn);
    }
  }

  /** `osfs2_truncate` of a live file or directory: blocks below the new size keep their content,
      everything above reads as zeroes and hangs nowhere, exactly the blocks that lost their place
      become free, the indirect block goes exactly when nothing hangs from it, and no other inode
      or file changes. */
  lemma TruncateSemantics(fs: Fs, i: nat, size: nat)
    requires Owned(fs) && Live(fs, i) && fs.inodes[i].typ != Free && size <= MAX_BYTES
    ensures var (gs, rc) := (Truncate(fs, i, size).fs, Truncate(fs, i, size).rc);
      && rc == 0 && Owned(gs) && SizeOnly(fs, gs, i, size)
      && (forall j: nat, lbn: nat :: Live(fs, j) && lbn < MAX_BLOCKS ==>
            FileBlock(gs, j, lbn) == if j == i && lbn >= Kept(size) then ZERO else FileBlock(fs, j, lbn))
      && (forall b: nat :: b < |fs.blockMap| ==> gs.blockMap[b] == (fs.blockMap[b] && !Released(fs, gs, i, b)))
      && (gs.inodes[i].indirect != 0 ==> TableUsed(gs, i))
      && (forall lbn: nat :: Kept(size) <= lbn < MAX_BLOCKS ==> Ptr(gs, i, PosOf(lbn)) == 0)
  {
    hide DropDirect, DropIndirect, FileBlock, Released, Owned;
    TrimmedSemantics(fs, i, size);
    TrimmedSheds(fs, i, size);
    var f := Trimmed(fs, i, size);
    MetaKeepsOwned(f, i, f.inodes[i].(size := size));
    var gs := Truncate(fs, i, size).fs;
    assert gs == PutInode(f, i, f.inodes[i].(size := size));
    ResizedPointers(f, i, size);
    forall b: nat
      ensures Released(fs, gs, i, b) == Released(fs, f, i, b)
    {
      SameReleased(fs, f, gs, i, b);
    }
  }

  lemma ResizedPointers(fs: Fs, i: nat, size: u32)
    requires Live(fs, i)
    ensures var gs := PutInode(fs, i, fs.inodes[i].(size := size));
      && (forall j: nat, k: nat :: Live(fs, j) && k < POSITIONS ==> Ptr(gs, j, k) == Ptr(fs, j, k))
      && (forall j: nat, k: nat, b: nat :: PointsTo(gs, j, k, b) <==> PointsTo(fs, j, k, b))
      && (TableUsed(gs, i) <==> TableUsed(fs, i))
  {
    var gs := PutInode(fs, i, fs.inodes[i].(size := size));
    forall j: nat, k: nat | Live(fs, j) && k < POSITIONS
      ensures Ptr(gs, j, k) == Ptr(fs, j, k)
    {
    }
  }

  lemma SameReleased(fs: Fs, f: Fs, gs: Fs, i: nat, b: nat)
    requires forall j: nat, k: nat, c: nat :: PointsTo(gs, j, k, c) <==> PointsTo(f, j, k, c)
    ensures Released(fs, gs, i, b) == Released(fs, f, i, b)
  {
    if Released(fs, f, i, b) {
      var k: nat :| PointsTo(fs, i, k, b) && !PointsTo(f, i, k, b);
      assert !PointsTo(gs, i, k, b);
    }
    if Released(fs, gs, i, b) {
      var k: nat :| PointsTo(fs, i, k, b) && !PointsTo(gs, i, k, b);
      assert !PointsTo(f, i, k, b);
    }
  }

  // ---------- as a byte sequence ----------

  /** Keeps the first `size` bytes of `s`, or pads with zeroes. */
  function Resize(s: seq<byte>, size: nat): (r: seq<byte>)
    ensures |r| == size
  {
    if size <= |s| then s[..size] else s + Zeros(size - |s|)
  }

  lemma TruncatedByte(fs: Fs, i: nat, size: nat, j: nat, p: nat)
    requires Owned(fs) && Live(fs, i) && fs.inodes[i].typ != Free && size <= MAX_BYTES
    requires Live(fs, j) && p < MAX_BYTES
    ensures var gs := Truncate(fs, i, size).fs;
      && |gs.inodes| == |fs.inodes|
      && ByteAt(gs, j, p) == if j == i && p >= 4096 * Kept(size) then 0 else ByteAt(fs, j, p)
  {
    hide FileBlock, Truncate, Owned, Released;
    TruncateSemantics(fs, i, size);
    var gs := Truncate(fs, i, size).fs;
    assert FileBlock(gs, j, p / 4096) == if j == i && p / 4096 >= Kept(size) then ZERO else FileBlock(fs, j, p / 4096);
    assert p / 4096 >= Kept(size) <==> p >= 4096 * Kept(size);
  }

  /** Truncation to any size resizes the byte sequence; the bytes cut off inside the last kept
      block stay on disk, so the file can later grow with zeroes if and only if they were zero. */
  lemma TruncateRefines(fs: Fs, i: nat, size: nat)
    requires Owned(fs) && Live(fs, i) && fs.inodes[i].typ != Free && size <= MAX_BYTES
    requires fs.inodes[i].size <= MAX_BYTES && ZeroTail(fs, i)
    ensures var gs := Truncate(fs, i, size).fs;
      && |gs.inodes| == |fs.inodes| && gs.inodes[i].size == size
      && Contents(gs, i) == Resize(Contents(fs, i), size)
      && (ZeroTail(gs, i) <==> forall p: nat :: size <= p < 4096 * Kept(size) && p < |Contents(fs, i)| ==> Contents(fs, i)[p] == 0)
  {
    hide ByteAt, Truncate, Owned, Released;
    TruncateSemantics(fs, i, size);
    var gs := Truncate(fs, i, size).fs;
    var s := Contents(fs, i);
    forall p: nat | p < MAX_BYTES
      ensures ByteAt(gs, i, p) == if p >= 4096 * Kept(size) || p >= |s| then 0 else s[p]
    {
      TruncatedByte(fs, i, size, i, p);
      assert p < |s| ==> s[p] == ByteAt(fs, i, p);
    }
    forall p: nat | p < size
      ensures Contents(gs, i)[p] == Resize(s, size)[p]
    {
      assert Contents(gs, i)[p] == ByteAt(gs, i, p);
    }
  }

  /** A block-aligned size, 0 in particular, leaves nothing behind. */
  lemma AlignedTruncate(fs: Fs, i: nat, size: nat)
    requires Owned(fs) && Live(fs, i) && fs.inodes[i].typ != Free && size <= MAX_BYTES
    requires fs.inodes[i].size <= MAX_BYTES && ZeroTail(fs, i) && size % 4096 == 0
    ensures |Truncate(fs, i, size).fs.inodes| == |fs.inodes| && ZeroTail(Truncate(fs, i, size).fs, i)
  {
    hide ByteAt, Truncate, Owned, ZeroTail;
    TruncateRefines(fs, i, size);
  }

  /** Truncating one file leaves every other file's bytes alone. */
  lemma TruncateElsewhere(fs: Fs, i: nat, j: nat, size: nat)
    requires Owned(fs) && Live(fs, i) && fs.inodes[i].typ != Free && size <= MAX_BYTES
    requires Live(fs, j) && j != i && fs.inodes[j].size <= MAX_BYTES
    ensures var gs := Truncate(fs, i, size).fs;
      && |gs.inodes| == |fs.inodes| && gs.inodes[j] == fs.inodes[j] && Contents(gs, j) == Contents(fs, j)
      && (ZeroTail(fs, j) ==> ZeroTail(gs, j))
  {
    hide ByteAt, Truncate, Owned, Released;
    TruncateSemantics(fs, i, size);
    forall p: nat | p < MAX_BYTES
      ensures ByteAt(Truncate(fs, i, size).fs, j, p) == ByteAt(fs, j, p)
    {
      TruncatedByte(fs, i, size, j, p);
    }
  }
}

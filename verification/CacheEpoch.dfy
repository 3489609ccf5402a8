/** From one flush to the next: LRU and the journal together make a flush all-or-nothing as long
    as at most 32 distinct blocks are used in between. No transfer fails here; power may. */
module CacheEpoch {
  import opened Bytes
  import opened Disk
  import opened Journal
  import opened JournalCrash
  import opened BlockCache
  import opened CacheTransparency

  datatype Op = Load(blk: u32) | Store(blk: u32, buf: Block)

  function AfterOp(g: Geometry, s: State, op: Op): State
    requires |s.slots| == SLOTS
  {
    match op
    case Load(blk) => AfterRead(g, s, blk)
    case Store(blk, buf) => AfterWrite(g, s, blk, buf)
  }

  function AfterOps(g: Geometry, s: State, ops: seq<Op>): (t: State)
    requires |s.slots| == SLOTS
    ensures |t.slots| == SLOTS
    decreases |ops|
  {
    if ops == [] then s else AfterOp(g, AfterOps(g, s, ops[..|ops| - 1]), ops[|ops| - 1])
  }

  /** Every sector write the operations cause. */
  function OpsWrites(g: Geometry, s: State, ops: seq<Op>): seq<Disk.Write>
    requires |s.slots| == SLOTS
    decreases |ops|
  {
    if ops == [] then []
    else OpsWrites(g, s, ops[..|ops| - 1]) + MissWrites(g, AfterOps(g, s, ops[..|ops| - 1]), ops[|ops| - 1].blk)
  }

  function Used(ops: seq<Op>): set<u32>
    decreases |ops|
  {
    if ops == [] then {} else Used(ops[..|ops| - 1]) + {ops[|ops| - 1].blk}
  }

  /** What block `b` holds after the operations, if it held `init` before. */
  function LastStored(ops: seq<Op>, b: u32, init: Block): Block
    decreases |ops|
  {
    if ops == [] then init
    else
      var op := ops[|ops| - 1];
      if op.Store? && op.blk == b then op.buf else LastStored(ops[..|ops| - 1], b, init)
  }

  // ---------- the epoch invariant ----------

  predicate CachedSince(s: State, b: u32, c: nat) {
    var i := Find(s.slots, b);
    i >= 0 && s.slots[i].lastUsed > c
  }

  /** The blocks `used` since clock `c` are all still cached and stamped after `c`; every other
      cached block is clean and stamped no later than `c`. */
  ghost predicate Epoch(s: State, c: nat, used: set<u32>) {
    && c <= s.clock
    && (forall b :: b in used ==> CachedSince(s, b, c))
    && (forall i :: 0 <= i < |s.slots| && s.slots[i].valid && s.slots[i].blk !in used ==>
          !s.slots[i].dirty && s.slots[i].lastUsed <= c)
  }

  lemma {:induction false} Pigeonhole(slots: seq<Slot>, used: set<u32>)
    requires Distinct(slots)
    requires forall i :: 0 <= i < |slots| ==> slots[i].valid && slots[i].blk in used
    ensures |used| >= |slots|
    decreases |slots|
  {
    if slots != [] {
      var n := |slots| - 1;
      Pigeonhole(slots[..n], used - {slots[n].blk});
    }
  }

  /** On a miss within the bound, the victim holds no block of the epoch, so it is not dirty. */
  lemma VictimIsClean(g: Geometry, s: State, c: nat, used: set<u32>, b: u32)
    requires Inv(g, s) && Epoch(s, c, used) && Find(s.slots, b) < 0 && |used + {b}| <= SLOTS
    ensures b !in used
    ensures var v := s.slots[Victim(s.slots)]; v.valid ==> v.blk !in used && !v.dirty
  {
    hide BlockAt, FindFrom;
    var v := Victim(s.slots);
    assert b !in used && |used + {b}| == |used| + 1;
    if s.slots[v].valid && s.slots[v].blk in used {
      FindIs(s.slots, s.slots[v].blk, v);
      assert s.slots[v].lastUsed > c;
      AllValid(s.slots);
      forall i | 0 <= i < SLOTS
        ensures s.slots[i].valid && s.slots[i].blk in used
      {
        assert s.slots[v].lastUsed <= s.slots[i].lastUsed;
      }
      Pigeonhole(s.slots, used);
      assert false;
    }
  }

  lemma AllValid(slots: seq<Slot>)
    requires |slots| > 0 && slots[Victim(slots)].valid
    ensures forall i :: 0 <= i < |slots| ==> slots[i].valid
    ensures forall i :: 0 <= i < |slots| ==> slots[Victim(slots)].lastUsed <= slots[i].lastUsed
  {}

  /** Conversely the bound is tight: with every slot dirty, a miss commits one block by itself. */
  lemma FullCacheEvicts(g: Geometry, s: State, b: u32)
    requires |s.slots| == SLOTS && Find(s.slots, b) < 0
    requires forall i :: 0 <= i < SLOTS ==> s.slots[i].valid && s.slots[i].dirty
    ensures MissWrites(g, s, b) == EvictWrites(g, s, Victim(s.slots)) != []
  {
    var x := s.slots[Victim(s.slots)];
    assert |CommitWrites(g, s.txn, [x.blk], [x.data])| > 0;
  }

  /** One operation inside the bound: no disk write, and the epoch goes on. */
  lemma OpStaysInCache(g: Geometry, s: State, c: nat, used: set<u32>, op: Op)
    requires Inv(g, s) && Epoch(s, c, used) && Cacheable(g, s.disk, op.blk)
    requires |used + {op.blk}| <= SLOTS && s.clock + 1 < U64
    ensures MissWrites(g, s, op.blk) == []
    ensures var t := AfterOp(g, s, op);
      && Inv(g, t) && t.disk == s.disk && t.txn == s.txn && t.clock == s.clock + 1
      && Epoch(t, c, used + {op.blk})
      && forall b: u32 :: Cacheable(g, s.disk, b) ==>
           View(t, b) == if op.Store? && op.blk == b then op.buf else View(s, b)
  {
    hide BlockAt, FindFrom, CommitWrites, Apply, View;
    var t := AfterOp(g, s, op);
    var i := Find(s.slots, op.blk);
    var v := if i >= 0 then i else Victim(s.slots);
    if i < 0 {
      VictimIsClean(g, s, c, used, op.blk);
      if op.Store? {
        ReplaceTransparent(g, s, v, t.slots[v], t);
      } else {
        ReplaceTransparent(g, s, v, t.slots[v], t);
        UncachedView(s, op.blk);
      }
    } else if op.Store? {
      OverwriteTransparent(g, s, i, t.slots[i], t);
    } else {
      TouchTransparent(g, s, i);
    }
    EpochGoesOn(g, s, c, used, op.blk, v, t);
  }

  lemma UncachedView(s: State, b: u32)
    requires Find(s.slots, b) < 0
    ensures View(s, b) == BlockAt(s.disk, b)
  {}

  lemma EpochGoesOn(g: Geometry, s: State, c: nat, used: set<u32>, b: u32, v: nat, t: State)
    requires Inv(g, s) && Inv(g, t) && Epoch(s, c, used) && v < SLOTS
    requires t.slots == s.slots[v := t.slots[v]] && t.clock == s.clock + 1
    requires t.slots[v].valid && t.slots[v].blk == b && t.slots[v].lastUsed == t.clock
    requires s.slots[v].valid ==> s.slots[v].blk == b || s.slots[v].blk !in used
    ensures Epoch(t, c, used + {b})
  {
    hide BlockAt, FindFrom;
    forall x | x in used + {b}
      ensures CachedSince(t, x, c)
    {
      if x == b {
        FindIs(t.slots, b, v);
      } else {
        var j := Find(s.slots, x);
        assert Holds(t.slots[j], x);
        FindIs(t.slots, x, j);
      }
    }
  }

  lemma {:induction false} EpochRuns(g: Geometry, s: State, ops: seq<Op>)
    requires |s.slots| == SLOTS && Inv(g, s) && Epoch(s, s.clock, {})
    requires forall i :: 0 <= i < |ops| ==> Cacheable(g, s.disk, ops[i].blk)
    requires |Used(ops)| <= SLOTS && s.clock + |ops| < U64
    ensures OpsWrites(g, s, ops) == []
    ensures var t := AfterOps(g, s, ops);
      && Inv(g, t) && t.disk == s.disk && t.txn == s.txn && t.clock == s.clock + |ops|
      && Epoch(t, s.clock, Used(ops))
      && forall b: u32 :: Cacheable(g, s.disk, b) ==> View(t, b) == LastStored(ops, b, View(s, b))
    decreases |ops|
  {
    hide View, Inv, Epoch, AfterOp, MissWrites;
    if ops != [] {
      var n := |ops| - 1;
      SubsetSmaller(Used(ops[..n]), Used(ops));
      EpochRuns(g, s, ops[..n]);
      OpStaysInCache(g, AfterOps(g, s, ops[..n]), s.clock, Used(ops[..n]), ops[n]);
    }
  }

  lemma SubsetSmaller(a: set<u32>, b: set<u32>)
    requires a <= b
    ensures |a| <= |b|
  {
    assert b == a + (b - a);
  }

  // ---------- the flush at the end ----------

  /** All cached data is clean and no stamp lies in the future, as after a successful flush. */
  ghost predicate FreshlyFlushed(s: State) {
    forall i :: 0 <= i < |s.slots| && s.slots[i].valid ==> !s.slots[i].dirty && s.slots[i].lastUsed <= s.clock
  }

  lemma FlushedDisk(g: Geometry, s: State, b: u32)
    requires Inv(g, s) && FreshlyFlushed(s)
    ensures View(s, b) == BlockAt(s.disk, b)
  {}

  /** The blocks a flush would write show their new view; all others already do on disk. */
  lemma DirtyOrOnDisk(g: Geometry, t: State, b: u32)
    requires Inv(g, t)
    ensures b !in Targets(DirtyBlocks(t.slots)) ==> View(t, b) == BlockAt(t.disk, b)
    ensures forall k :: 0 <= k < |DirtyBlocks(t.slots)| && DirtyBlocks(t.slots)[k] == b ==>
              View(t, b) == DirtyData(t.slots)[k]
  {
    hide BlockAt, FindFrom, DirtyBlocks, DirtyData;
    var i := Find(t.slots, b);
    if b !in Targets(DirtyBlocks(t.slots)) && i >= 0 && t.slots[i].dirty {
      var k := DirtyEntry(t.slots, i);
      assert false;
    }
    forall k | 0 <= k < |DirtyBlocks(t.slots)| && DirtyBlocks(t.slots)[k] == b
      ensures View(t, b) == DirtyData(t.slots)[k]
    {
      var j := DirtySource(t.slots, k);
      FindIs(t.slots, b, j);
    }
  }

  /** Start from a flushed cache and a journal with nothing pending. Run any loads and stores that
      use at most 32 distinct blocks, then flush. Cut the power anywhere: after all the sector
      writes of the operations and `k` of those of the flush. Let any number of replays be cut
      short too, and then one finish. The operations write nothing, and every block the file
      system can see shows its content at the start of the epoch, or every one shows its content
      at the end. */
  lemma EpochAtomicity(g: Geometry, s: State, ops: seq<Op>, k: nat, cuts: seq<nat>)
    requires g.slots == DATA_BLOCKS && Inv(g, s) && FreshlyFlushed(s) && !Committed(g, HeaderOn(g, s.disk))
    requires forall i :: 0 <= i < |ops| ==> Cacheable(g, s.disk, ops[i].blk)
    requires |Used(ops)| <= SLOTS && s.clock + |ops| < U64
    requires k <= |FlushWrites(g, AfterOps(g, s, ops))|
    ensures OpsWrites(g, s, ops) == []
    ensures var t := AfterOps(g, s, ops);
      var r := Replayed(g, CrashedReplays(g, Apply(s.disk, FlushWrites(g, t)[..k]), cuts));
      && !Committed(g, HeaderOn(g, r))
      && forall b: u32 :: Cacheable(g, s.disk, b) ==>
           BlockAt(r, b) == if k <= 8 * |DirtyBlocks(t.slots)| then View(s, b) else View(t, b)
    ensures forall b: u32 :: Cacheable(g, s.disk, b) ==>
              View(AfterOps(g, s, ops), b) == LastStored(ops, b, View(s, b))
  {
    hide View, BlockAt, ParseHeader, AfterOps, CommitWrites, Apply, DirtyBlocks, DirtyData, ReplayWrites;
    EpochRuns(g, s, ops);
    var t := AfterOps(g, s, ops);
    FlushCrash(g, t, k, cuts);
    forall b: u32 | Cacheable(g, s.disk, b)
      ensures BlockAt(s.disk, b) == View(s, b)
    {
      FlushedDisk(g, s, b);
    }
  }

  lemma FlushCrash(g: Geometry, t: State, k: nat, cuts: seq<nat>)
    requires g.slots == DATA_BLOCKS && Inv(g, t) && !Committed(g, HeaderOn(g, t.disk))
    requires k <= |FlushWrites(g, t)|
    ensures var r := Replayed(g, CrashedReplays(g, Apply(t.disk, FlushWrites(g, t)[..k]), cuts));
      && !Committed(g, HeaderOn(g, r))
      && forall b: u32 :: Cacheable(g, t.disk, b) ==>
           BlockAt(r, b) == if k <= 8 * |DirtyBlocks(t.slots)| then BlockAt(t.disk, b) else View(t, b)
  {
    hide View, BlockAt, ParseHeader, CommitWrites, Apply, DirtyBlocks, DirtyData, ReplayWrites, CrashedReplays, Replayed;
    var dest, data := DirtyBlocks(t.slots), DirtyData(t.slots);
    if dest == [] {
      QuietDisk(g, t, cuts);
      assert FlushWrites(g, t)[..k] == [];
      ApplyNothing(t.disk);
    } else {
      DirtyIsBatch(g, t);
      CrashAtomicityOfBlocks(g, t.disk, t.txn, dest, data, k, cuts);
      var r := Replayed(g, CrashedReplays(g, Apply(t.disk, FlushWrites(g, t)[..k]), cuts));
      forall b: u32 | Cacheable(g, t.disk, b)
        ensures BlockAt(r, b) == if k <= 8 * |dest| then BlockAt(t.disk, b) else View(t, b)
      {
        DirtyOrOnDisk(g, t, b);
        if b in Targets(dest) {
          var j :| 0 <= j < |dest| && dest[j] == b;
        }
      }
    }
  }

  lemma QuietDisk(g: Geometry, t: State, cuts: seq<nat>)
    requires Inv(g, t) && !Committed(g, HeaderOn(g, t.disk))
    ensures Replayed(g, CrashedReplays(g, t.disk, cuts)) == t.disk
  {
    hide ReplayWrites, ParseHeader, BlockAt, CrashedReplays, Replayed;
    QuietSurvives(g, t.disk, t.disk, cuts);
  }

  /** A flush that completes starts the next epoch: same views, all clean, nothing pending. */
  lemma FlushStartsEpoch(g: Geometry, t: State)
    requires g.slots == DATA_BLOCKS && Inv(g, t) && !Committed(g, HeaderOn(g, t.disk))
    requires forall i :: 0 <= i < SLOTS && t.slots[i].valid ==> t.slots[i].lastUsed <= t.clock
    ensures var u := AfterFlush(g, t);
      && Inv(g, u) && FreshlyFlushed(u) && !Committed(g, HeaderOn(g, u.disk))
      && forall b: u32 :: Cacheable(g, t.disk, b) ==> View(u, b) == View(t, b) == BlockAt(u.disk, b)
  {
    hide View, BlockAt, ParseHeader, CommitWrites, Apply, DirtyBlocks, DirtyData, Quiet;
    var u := AfterFlush(g, t);
    var dest, data := DirtyBlocks(t.slots), DirtyData(t.slots);
    FlushEffectHolds(g, t);
    FlushTransparent(g, t, u, true);
    if dest != [] {
      DirtyIsBatch(g, t);
      AfterCommitQuiet(g, t, dest, data);
    }
  }

  lemma FlushEffectHolds(g: Geometry, t: State)
    requires g.slots == DATA_BLOCKS && |t.slots| == SLOTS
    ensures FlushEffect(g, t, AfterFlush(g, t), true)
  {}

  lemma AfterCommitQuiet(g: Geometry, t: State, dest: seq<u32>, data: seq<Block>)
    requires Laid(g, t.disk) && !Committed(g, HeaderOn(g, t.disk)) && ValidBatch(g, t.disk, dest, data)
    ensures !Committed(g, HeaderOn(g, Apply(t.disk, CommitWrites(g, t.txn, dest, data))))
  {
    hide CommitWrites, Apply, ParseHeader, BlockAt;
    var w := CommitWrites(g, t.txn, dest, data);
    DuringCommit(g, t.disk, t.disk, t.txn, dest, data, |w|);
    assert w[..|w|] == w;
  }
}

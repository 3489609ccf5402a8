/** Any number of epochs, each ended by a flush, and power cut in the last of them. */
module CacheEpochs {
  import opened Bytes
  import opened Disk
  import opened Journal
  import opened JournalCrash
  import opened BlockCache
  import opened CacheTransparency
  import opened CacheEpoch

  /** No stamp lies in the future. */
  ghost predicate Stamped(s: State) {
    forall i :: 0 <= i < |s.slots| && s.slots[i].valid ==> s.slots[i].lastUsed <= s.clock
  }

  lemma OpStamped(g: Geometry, s: State, op: Op)
    requires |s.slots| == SLOTS && Stamped(s) && s.clock + 1 < U64
    ensures Stamped(AfterOp(g, s, op))
  {
    hide BlockAt, FindFrom, CommitWrites, Apply;
  }

  lemma {:induction false} OpsStamped(g: Geometry, s: State, ops: seq<Op>)
    requires |s.slots| == SLOTS && Inv(g, s) && Epoch(s, s.clock, {}) && Stamped(s)
    requires forall i :: 0 <= i < |ops| ==> Cacheable(g, s.disk, ops[i].blk)
    requires |Used(ops)| <= SLOTS && s.clock + |ops| < U64
    ensures Stamped(AfterOps(g, s, ops))
    decreases |ops|
  {
    hide Inv, Epoch, AfterOp, Stamped, View, MissWrites;
    if ops != [] {
      var n := |ops| - 1;
      SubsetSmaller(Used(ops[..n]), Used(ops));
      EpochRuns(g, s, ops[..n]);
      OpsStamped(g, s, ops[..n]);
      OpStamped(g, AfterOps(g, s, ops[..n]), ops[n]);
    }
  }

  /** The cache holds what is on disk, and nothing is pending in the journal: after a flush. */
  ghost predicate AtRest(g: Geometry, s: State) {
    g.slots == DATA_BLOCKS && Inv(g, s) && FreshlyFlushed(s) && !Committed(g, HeaderOn(g, s.disk))
  }

  /** Operations on at most 32 distinct blocks of the file system. */
  ghost predicate Fits(g: Geometry, d: Sectors, ops: seq<Op>) {
    (forall i :: 0 <= i < |ops| ==> Cacheable(g, d, ops[i].blk)) && |Used(ops)| <= SLOTS
  }

  /** One epoch: its operations, then a flush. */
  function AfterEpoch(g: Geometry, s: State, ops: seq<Op>): (t: State)
    requires |s.slots| == SLOTS
    ensures |t.slots| == SLOTS
  {
    AfterFlush(g, AfterOps(g, s, ops))
  }

  /** A whole epoch leads from rest to rest; nothing is written before its flush, and afterwards
      disk and views hold what was last stored. */
  lemma EpochToRest(g: Geometry, s: State, ops: seq<Op>)
    requires AtRest(g, s) && Fits(g, s.disk, ops) && s.clock + |ops| < U64
    ensures OpsWrites(g, s, ops) == []
    ensures var u := AfterEpoch(g, s, ops);
      && AtRest(g, u) && |u.disk| == |s.disk| && u.clock == s.clock + |ops|
      && forall b: u32 :: Cacheable(g, s.disk, b) ==> View(u, b) == BlockAt(u.disk, b) == LastStored(ops, b, View(s, b))
  {
    hide View, BlockAt, ParseHeader, CommitWrites, Apply, DirtyBlocks, DirtyData, LastStored, OpsWrites, AfterOps, Used, Inv, FreshlyFlushed;
    RestIsEpoch(g, s);
    RestSlots(g, s);
    FitsParts(g, s.disk, ops);
    EpochRuns(g, s, ops);
    OpsStamped(g, s, ops);
    FlushStartsEpoch(g, AfterOps(g, s, ops));
    FlushShape(g, AfterOps(g, s, ops));
  }

  lemma RestIsEpoch(g: Geometry, s: State)
    requires AtRest(g, s)
    ensures Epoch(s, s.clock, {}) && Stamped(s)
  {}

  lemma FlushShape(g: Geometry, t: State)
    requires |t.slots| == SLOTS
    ensures |AfterFlush(g, t).disk| == |t.disk| && AfterFlush(g, t).clock == t.clock && |AfterFlush(g, t).slots| == SLOTS
  {
    hide Apply, CommitWrites, DirtyBlocks, DirtyData;
  }

  function AfterEpochs(g: Geometry, s: State, epochs: seq<seq<Op>>): (t: State)
    requires |s.slots| == SLOTS
    ensures |t.slots| == SLOTS
    decreases |epochs|
  {
    if epochs == [] then s else AfterEpochs(g, AfterEpoch(g, s, epochs[0]), epochs[1..])
  }

  /** What block `b` holds after all epochs, if it held `init` before. */
  function LastStoredAll(epochs: seq<seq<Op>>, b: u32, init: Block): Block
    decreases |epochs|
  {
    if epochs == [] then init else LastStoredAll(epochs[1..], b, LastStored(epochs[0], b, init))
  }

  function Length(epochs: seq<seq<Op>>): nat
    decreases |epochs|
  {
    if epochs == [] then 0 else |epochs[0]| + Length(epochs[1..])
  }

  lemma FitsOn(g: Geometry, d: Sectors, e: Sectors, ops: seq<Op>)
    requires |e| == |d|
    ensures Fits(g, e, ops) == Fits(g, d, ops)
    ensures forall b: nat :: Cacheable(g, e, b) == Cacheable(g, d, b)
  {}

  /** Epoch follows epoch: each one starts at rest, so the next may rely on it. */
  lemma {:induction false} EpochsToRest(g: Geometry, s: State, epochs: seq<seq<Op>>)
    requires AtRest(g, s) && (forall e :: 0 <= e < |epochs| ==> Fits(g, s.disk, epochs[e])) && s.clock + Length(epochs) < U64
    ensures var u := AfterEpochs(g, s, epochs);
      && AtRest(g, u) && |u.disk| == |s.disk| && u.clock == s.clock + Length(epochs)
      && forall b: u32 :: Cacheable(g, s.disk, b) ==> View(u, b) == BlockAt(u.disk, b) == LastStoredAll(epochs, b, View(s, b))
    decreases |epochs|
  {
    hide View, BlockAt, AtRest, Fits, AfterEpoch, LastStored, Cacheable;
    if epochs == [] {
      RestShows(g, s);
    } else {
      RestSlots(g, s);
      EpochToRest(g, s, epochs[0]);
      var u := AfterEpoch(g, s, epochs[0]);
      forall e | 0 <= e < |epochs[1..]|
        ensures Fits(g, u.disk, epochs[1..][e])
      {
        FitsOn(g, s.disk, u.disk, epochs[e + 1]);
      }
      EpochsToRest(g, u, epochs[1..]);
      FitsOn(g, s.disk, u.disk, epochs[0]);
    }
  }

  lemma RestSlots(g: Geometry, s: State)
    requires AtRest(g, s)
    ensures |s.slots| == SLOTS
  {}

  lemma RestShows(g: Geometry, s: State)
    requires AtRest(g, s)
    ensures forall b: u32 :: View(s, b) == BlockAt(s.disk, b)
  {
    hide View, BlockAt, ParseHeader;
    forall b: u32
      ensures View(s, b) == BlockAt(s.disk, b)
    {
      FlushedDisk(g, s, b);
    }
  }

  /** Any number of epochs, each using at most 32 distinct blocks, and power cut in the last one,
      after its operations and any part of its flush, with any number of replays cut short: every
      block shows what it held after the last epoch before, or every one what it holds at the end
      of the last. */
  lemma CrashAfterEpochs(g: Geometry, s: State, epochs: seq<seq<Op>>, ops: seq<Op>, k: nat, cuts: seq<nat>)
    requires AtRest(g, s) && (forall e :: 0 <= e < |epochs| ==> Fits(g, s.disk, epochs[e])) && Fits(g, s.disk, ops)
    requires s.clock + Length(epochs) + |ops| < U64
    requires k <= |FlushWrites(g, AfterOps(g, AfterEpochs(g, s, epochs), ops))|
    ensures var u := AfterEpochs(g, s, epochs);
      var t := AfterOps(g, u, ops);
      var r := Replayed(g, CrashedReplays(g, Apply(u.disk, FlushWrites(g, t)[..k]), cuts));
      && OpsWrites(g, u, ops) == [] && !Committed(g, HeaderOn(g, r))
      && forall b: u32 :: Cacheable(g, s.disk, b) ==>
           var before := LastStoredAll(epochs, b, View(s, b));
           BlockAt(r, b) == if k <= 8 * |DirtyBlocks(t.slots)| then before else LastStored(ops, b, before)
  {
    hide View, BlockAt, ParseHeader, AfterOps, AfterEpochs, CommitWrites, Apply, DirtyBlocks, DirtyData, ReplayWrites, LastStored,
         LastStoredAll, OpsWrites, Replayed, CrashedReplays, FlushWrites, Fits, Cacheable, Inv, FreshlyFlushed;
    RestSlots(g, s);
    EpochsToRest(g, s, epochs);
    var u := AfterEpochs(g, s, epochs);
    FitsOn(g, s.disk, u.disk, ops);
    FitsParts(g, u.disk, ops);
    EpochAtomicity(g, u, ops, k, cuts);
  }

  lemma FitsParts(g: Geometry, d: Sectors, ops: seq<Op>)
    requires Fits(g, d, ops)
    ensures (forall i :: 0 <= i < |ops| ==> Cacheable(g, d, ops[i].blk)) && |Used(ops)| <= SLOTS
  {}

  /** A freshly mounted cache is at rest: empty, with the journal replayed. */
  lemma EmptyAtRest(g: Geometry, s: State)
    requires g.slots == DATA_BLOCKS && |s.slots| == SLOTS && Laid(g, s.disk) && !Committed(g, HeaderOn(g, s.disk))
    requires forall i :: 0 <= i < SLOTS ==> !s.slots[i].valid
    ensures AtRest(g, s) && forall b: u32 :: View(s, b) == BlockAt(s.disk, b)
  {
    hide BlockAt, ParseHeader;
    RestShows(g, s);
  }

  // ---------- the bound counts reads ----------

  function LoadsOf(bs: seq<u32>): (ops: seq<Op>)
    ensures |ops| == |bs| && forall i :: 0 <= i < |bs| ==> ops[i] == Load(bs[i])
  {
    seq(|bs|, (i: nat) requires i < |bs| => Load(bs[i]))
  }

  /** Block `a` is stored, and then distinct other blocks are only read. */
  predicate OneStoreThenReads(a: u32, bs: seq<u32>) {
    && (forall i, j :: 0 <= i < j < |bs| ==> bs[i] != bs[j])
    && a !in bs
  }

  ghost predicate AllCacheable(g: Geometry, d: Sectors, a: u32, bs: seq<u32>) {
    Cacheable(g, d, a) && forall i :: 0 <= i < |bs| ==> Cacheable(g, d, bs[i])
  }

  function StoreThenReads(a: u32, y: Block, bs: seq<u32>): (ops: seq<Op>) {
    [Store(a, y)] + LoadsOf(bs)
  }

  function Elements(bs: seq<u32>): set<u32> {
    set b | b in bs
  }

  lemma ElementsSnoc(bs: seq<u32>, b: u32)
    ensures Elements(bs + [b]) == Elements(bs) + {b}
  {}

  lemma UsedSnoc(ops: seq<Op>, op: Op)
    ensures Used(ops + [op]) == Used(ops) + {op.blk}
  {
    assert (ops + [op])[..|ops|] == ops;
  }

  lemma ReadsSnoc(a: u32, y: Block, bs: seq<u32>, b: u32)
    ensures StoreThenReads(a, y, bs + [b]) == StoreThenReads(a, y, bs) + [Load(b)]
  {
    assert LoadsOf(bs + [b]) == LoadsOf(bs) + [Load(b)];
  }

  lemma {:induction false} UsedByReads(a: u32, y: Block, bs: seq<u32>)
    requires OneStoreThenReads(a, bs)
    ensures Used(StoreThenReads(a, y, bs)) == {a} + Elements(bs)
    ensures |Used(StoreThenReads(a, y, bs))| == |bs| + 1
    decreases |bs|
  {
    hide Used, Elements;
    if bs == [] {
      assert StoreThenReads(a, y, bs) == [] + [Store(a, y)];
      UsedSnoc([], Store(a, y));
      NothingUsed();
      assert {} + {a} == {a};
    } else {
      var n := |bs| - 1;
      assert bs == bs[..n] + [bs[n]];
      UsedByReads(a, y, bs[..n]);
      ReadsSnoc(a, y, bs[..n], bs[n]);
      UsedSnoc(StoreThenReads(a, y, bs[..n]), Load(bs[n]));
      ElementsSnoc(bs[..n], bs[n]);
      LastIsNew(a, bs);
    }
  }

  lemma NothingUsed()
    ensures Used([]) == {} && Elements([]) == {}
  {}

  lemma LastIsNew(a: u32, bs: seq<u32>)
    requires OneStoreThenReads(a, bs) && bs != []
    ensures bs[|bs| - 1] !in {a} + Elements(bs[..|bs| - 1])
  {}

  /** While reads go on, the stored block stays dirty in its slot with the oldest stamp of all. */
  ghost predicate StillDirty(t: State, c: nat, a: u32, y: Block, bs: seq<u32>) {
    var i := Find(t.slots, a);
    && 0 <= i < |t.slots| && t.slots[i] == Slot(a, true, true, c + 1, y)
    && forall j :: 0 <= j < |t.slots| && t.slots[j].valid && t.slots[j].blk in bs ==> t.slots[j].lastUsed > c + 1
  }

  lemma StoreDirties(g: Geometry, s: State, a: u32, y: Block)
    requires AtRest(g, s) && s.clock + 1 < U64 && Cacheable(g, s.disk, a)
    ensures StillDirty(AfterOp(g, s, Store(a, y)), s.clock, a, y, [])
  {
    hide BlockAt, ParseHeader, CommitWrites, Apply;
    var i := Find(s.slots, a);
    var v := if i >= 0 then i else Victim(s.slots);
    var t := AfterOp(g, s, Store(a, y));
    RestIsEpoch(g, s);
    OpStaysInCache(g, s, s.clock, {}, Store(a, y));
    FindIs(t.slots, a, v);
  }

  lemma ReadKeepsDirty(g: Geometry, t: State, c: nat, used: set<u32>, a: u32, y: Block, bs: seq<u32>, b: u32)
    requires Inv(g, t) && Epoch(t, c, used) && a in used && StillDirty(t, c, a, y, bs) && b != a && b !in bs
    requires Cacheable(g, t.disk, b) && |used + {b}| <= SLOTS && t.clock + 1 < U64 && t.clock > c
    ensures StillDirty(AfterOp(g, t, Load(b)), c, a, y, bs + [b])
  {
    hide BlockAt, CommitWrites, Apply, FindFrom;
    var i := Find(t.slots, a);
    var h := Find(t.slots, b);
    var u := AfterOp(g, t, Load(b));
    OpStaysInCache(g, t, c, used, Load(b));
    if h < 0 {
      VictimIsClean(g, t, c, used, b);
    }
    var v := if h >= 0 then h else Victim(t.slots);
    assert v != i;
    FindIs(u.slots, a, i);
    forall j | 0 <= j < |u.slots| && u.slots[j].valid && u.slots[j].blk in bs + [b]
      ensures u.slots[j].lastUsed > c + 1
    {
      if j != v {
        assert u.slots[j] == t.slots[j];
        HeldOnce(t.slots, b, j, v);
      }
    }
  }

  lemma HeldOnce(slots: seq<Slot>, b: u32, j: nat, v: nat)
    requires Distinct(slots) && j < |slots| && slots[j].valid && j != v && (Find(slots, b) < 0 || Find(slots, b) == v)
    ensures slots[j].blk != b
  {}

  lemma {:induction false} ReadsKeepDirty(g: Geometry, s: State, a: u32, y: Block, bs: seq<u32>)
    requires AtRest(g, s) && OneStoreThenReads(a, bs) && AllCacheable(g, s.disk, a, bs)
    requires |bs| < SLOTS && s.clock + |bs| + 1 < U64
    ensures var t := AfterOps(g, s, StoreThenReads(a, y, bs));
      && Inv(g, t) && Epoch(t, s.clock, Used(StoreThenReads(a, y, bs))) && t.clock == s.clock + |bs| + 1
      && t.disk == s.disk && t.txn == s.txn && StillDirty(t, s.clock, a, y, bs)
    decreases |bs|
  {
    hide Inv, Epoch, AfterOp, AfterOps, View, StillDirty, Cacheable, OpsWrites, LastStored, AtRest, Used, Elements;
    RestParts(g, s);
    var ops := StoreThenReads(a, y, bs);
    UsedByReads(a, y, bs);
    forall i | 0 <= i < |ops|
      ensures Cacheable(g, s.disk, ops[i].blk)
    {
    }
    EpochRuns(g, s, ops);
    if bs == [] {
      assert ops == [] + [Store(a, y)];
      NoOps(g, s);
      OneMoreOp(g, s, [], Store(a, y));
      StoreDirties(g, s, a, y);
    } else {
      var n := |bs| - 1;
      assert bs == bs[..n] + [bs[n]];
      ReadsKeepDirty(g, s, a, y, bs[..n]);
      UsedByReads(a, y, bs[..n]);
      var few := StoreThenReads(a, y, bs[..n]);
      ReadsSnoc(a, y, bs[..n], bs[n]);
      OneMoreOp(g, s, few, Load(bs[n]));
      UsedSnoc(few, Load(bs[n]));
      LastIsNew(a, bs);
      ReadKeepsDirty(g, AfterOps(g, s, few), s.clock, Used(few), a, y, bs[..n], bs[n]);
    }
  }

  lemma NoOps(g: Geometry, s: State)
    requires |s.slots| == SLOTS
    ensures AfterOps(g, s, []) == s
  {}

  lemma OneMoreOp(g: Geometry, s: State, ops: seq<Op>, op: Op)
    requires |s.slots| == SLOTS
    ensures AfterOps(g, s, ops + [op]) == AfterOp(g, AfterOps(g, s, ops), op)
  {
    hide AfterOp;
    assert (ops + [op])[..|ops|] == ops;
  }

  lemma RestParts(g: Geometry, s: State)
    requires AtRest(g, s)
    ensures |s.slots| == SLOTS && Inv(g, s) && Epoch(s, s.clock, {})
  {}

  /** A block held nowhere but in the other slots. */
  lemma {:induction false} HeldBy(slots: seq<Slot>, used: set<u32>)
    requires forall b :: b in used ==> exists j :: 0 <= j < |slots| && slots[j].blk == b
    ensures |used| <= |slots|
    decreases |slots|
  {
    if slots == [] {
      assert used == {};
    } else {
      var n := |slots| - 1;
      forall b | b in used - {slots[n].blk}
        ensures exists j :: 0 <= j < |slots[..n]| && slots[..n][j].blk == b
      {
        var j :| 0 <= j < |slots| && slots[j].blk == b;
        assert slots[..n][j].blk == b;
      }
      HeldBy(slots[..n], used - {slots[n].blk});
    }
  }

  /** With 32 blocks in use every slot holds one of them. */
  lemma FullHouse(s: State, c: nat, used: set<u32>, k: nat)
    requires Epoch(s, c, used) && |used| == SLOTS == |s.slots| && k < SLOTS
    ensures s.slots[k].valid && s.slots[k].blk in used
  {
    if !(s.slots[k].valid && s.slots[k].blk in used) {
      var others := s.slots[..k] + s.slots[k + 1..];
      forall b | b in used
        ensures exists j :: 0 <= j < |others| && others[j].blk == b
      {
        assert CachedSince(s, b, c);
        var j := Find(s.slots, b);
        var o := if j < k then j else j - 1;
        assert others[o].blk == b;
      }
      HeldBy(others, used);
    }
  }

  /** One store and then reads of 32 other blocks: the last read finds the stored block's slot the
      oldest and commits that block by itself, before any flush. So it is the blocks read or written
      that must stay within 32, not the blocks written. */
  lemma ReadsEvict(g: Geometry, s: State, a: u32, y: Block, bs: seq<u32>)
    requires AtRest(g, s) && OneStoreThenReads(a, bs) && AllCacheable(g, s.disk, a, bs)
    requires |bs| == SLOTS && s.clock + SLOTS + 1 < U64
    ensures var t := AfterOps(g, s, StoreThenReads(a, y, bs[..SLOTS - 1]));
      |t.slots| == SLOTS && MissWrites(g, t, bs[SLOTS - 1]) == CommitWrites(g, s.txn, [a], [y]) != []
  {
    hide Inv, AfterOp, AfterOps, View, Cacheable, CommitWrites, BlockAt, LoadsOf, StoreThenReads, Used, Epoch, AtRest, StillDirty, FindFrom;
    var few := bs[..SLOTS - 1];
    RestParts(g, s);
    var t := AfterOps(g, s, StoreThenReads(a, y, few));
    ReadsKeepDirty(g, s, a, y, few);
    UsedByReads(a, y, few);
    InvSlots(g, t);
    var used := Used(StoreThenReads(a, y, few));
    var b := bs[SLOTS - 1];
    LastIsNew(a, bs);
    forall k | 0 <= k < SLOTS
      ensures t.slots[k].valid && t.slots[k].blk in used
    {
      FullHouse(t, s.clock, used, k);
    }
    NotHeld(t.slots, used, b);
    OldestIsDirty(g, t, s.clock, a, y, few);
    MissEvicts(g, t, a, y, b, s.clock + 1);
  }

  lemma NotHeld(slots: seq<Slot>, used: set<u32>, b: u32)
    requires b !in used && forall k :: 0 <= k < |slots| ==> slots[k].blk in used
    ensures Find(slots, b) < 0
  {}

  lemma MissEvicts(g: Geometry, t: State, a: u32, y: Block, b: u32, stamp: nat)
    requires |t.slots| == SLOTS && Find(t.slots, b) < 0 && t.slots[Victim(t.slots)] == Slot(a, true, true, stamp, y)
    ensures MissWrites(g, t, b) == CommitWrites(g, t.txn, [a], [y]) != []
  {
    assert |CommitWrites(g, t.txn, [a], [y])| > 0;
  }

  lemma InvSlots(g: Geometry, t: State)
    requires Inv(g, t)
    ensures |t.slots| == SLOTS && Distinct(t.slots)
  {}

  lemma OldestIsDirty(g: Geometry, t: State, c: nat, a: u32, y: Block, bs: seq<u32>)
    requires |t.slots| == SLOTS && Distinct(t.slots) && StillDirty(t, c, a, y, bs)
    requires forall k :: 0 <= k < SLOTS ==> t.slots[k].valid && (t.slots[k].blk == a || t.slots[k].blk in bs)
    ensures t.slots[Victim(t.slots)] == Slot(a, true, true, c + 1, y)
  {
    AllValid(t.slots);
    var i, v := Find(t.slots, a), Victim(t.slots);
    assert t.slots[v].lastUsed <= t.slots[i].lastUsed;
  }
}

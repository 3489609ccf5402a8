/** Power loss seen from above: file-system calls between two flushes, power cut at any sector, the
    journal replayed, the disk mounted. What is mounted is the file system of the last flush or of
    the one in flight. */
module CrashMount {
  import opened Bytes
  import opened Options
  import opened Disk
  import opened FsState
  import opened OnDisk
  import opened StoredFs
  import opened Journal
  import opened JournalCrash
  import opened CacheEpoch
  import opened CacheEpochs
  import BlockCache
  import CacheTransparency
  import FsPaths
  import FsView
  import FsHandles
  import opened DriverIo
  import opened DriverRuns
  import opened DriverCalls

  type Cached = BlockCache.State

  /** The first `n` blocks as the file system sees them through the cache. */
  function Seen(s: Cached, n: nat): (r: seq<Block>)
    requires n <= U32
    ensures |r| == n && forall b: nat :: b < n ==> r[b] == CacheTransparency.View(s, b)
  {
    seq<Block>(n, (b: nat) requires b < n => CacheTransparency.View(s, b))
  }

  /** The first `n` blocks of the disk. */
  function OnPlatter(d: Sectors, n: nat): (r: seq<Block>)
    ensures |r| == n && forall b: nat :: b < n ==> r[b] == BlockAt(d, b)
  {
    seq<Block>(n, (b: nat) requires b < n => BlockAt(d, b))
  }

  /** `osfs2_journal_init` with the fields of the superblock, on a disk of at least `n` blocks. */
  predicate Arranged(g: Geometry, sb: Super, d: Sectors, n: nat) {
    && g.header == sb.journalHeader && g.data0 == sb.journalHeader + 1 && g.slots == sb.journalBlocks == DATA_BLOCKS
    && n <= U32 && 8 * n <= |d|
  }

  lemma MeaningfulCacheable(g: Geometry, sb: Super, d: Sectors, n: nat, b: nat)
    requires Coherent(sb, n) && Arranged(g, sb, d, n) && Meaningful(sb, b)
    ensures b < n && CacheTransparency.Cacheable(g, d, b)
  {
    if b in JournalBlocks(g) {
      assert InLog(sb, b);
    }
  }

  /** Start at rest with file system `before` in the cache and on disk; run cache operations on at
      most 32 distinct blocks after which the cache shows file system `after`; cut the power after
      any sector write up to the end of the flush; cut any number of replays short. Once a replay
      finishes, the disk mounts, the file system is sound, and by path it shows what `before`
      showed, or what `after` showed, everywhere. */
  lemma CrashThenMount(g: Geometry, sb: Super, n: nat, s: Cached, ops: seq<CacheEpoch.Op>, before: Fs, after: Fs, k: nat, cuts: seq<nat>)
    requires AtRest(g, s) && Fits(g, s.disk, ops) && s.clock + |ops| < U64 && Arranged(g, sb, s.disk, n)
    requires k <= |BlockCache.FlushWrites(g, AfterOps(g, s, ops))|
    requires Stored(Seen(s, n), sb, before) && FsView.Good(before)
    requires Stored(Seen(AfterOps(g, s, ops), n), sb, after) && FsView.Good(after)
    ensures var t := AfterOps(g, s, ops);
      var r := Replayed(g, CrashedReplays(g, Apply(s.disk, BlockCache.FlushWrites(g, t)[..k]), cuts));
      var m := Mount(OnPlatter(r, n));
      && OpsWrites(g, s, ops) == []
      && m.Some? && FsView.Good(m.value)
      && forall q: FsPaths.Path ::
           FsView.View(m.value, q) == FsView.View(if k <= 8 * |BlockCache.DirtyBlocks(t.slots)| then before else after, q)
  {
    hide AfterOps, BlockCache.FlushWrites, BlockCache.DirtyBlocks, Replayed, CrashedReplays, Apply, BlockAt, CacheTransparency.View,
         Stored, Mount, FsView.Good, FsView.View, OpsWrites, LastStored, CacheTransparency.Cacheable;
    FitsParts(g, s.disk, ops);
    RestParts(g, s);
    EpochAtomicity(g, s, ops, k, cuts);
    var t := AfterOps(g, s, ops);
    var r := Replayed(g, CrashedReplays(g, Apply(s.disk, BlockCache.FlushWrites(g, t)[..k]), cuts));
    var early := k <= 8 * |BlockCache.DirtyBlocks(t.slots)|;
    var blocks := if early then Seen(s, n) else Seen(t, n);
    var fs := if early then before else after;
    StoredSizes(blocks, sb, fs);
    forall b: nat | b < n && Meaningful(sb, b)
      ensures OnPlatter(r, n)[b] == blocks[b]
    {
      MeaningfulCacheable(g, sb, s.disk, n, b);
    }
    StoredOn(blocks, OnPlatter(r, n), sb, fs);
    MountShows(OnPlatter(r, n), sb, fs);
  }

  lemma RestParts(g: Geometry, s: Cached)
    requires AtRest(g, s)
    ensures g.slots == DATA_BLOCKS && CacheTransparency.Inv(g, s) && FreshlyFlushed(s) && !Committed(g, HeaderOn(g, s.disk))
    ensures |s.slots| == BlockCache.SLOTS
  {}

  // ---------- requests as cache operations ----------

  lemma StepMeaningful(blocks: seq<Block>, sb: Super, fs: Fs, e: Io)
    requires Stored(blocks, sb, fs) && FineStep(fs, e)
    ensures Meaningful(sb, Subject(sb, e)) && Subject(sb, e) < |blocks|
  {
    hide SuperIn, InodesIn, BitsIn, DataIn;
    StoredSizes(blocks, sb, fs);
    if e.Put? {
      TargetInRange(blocks, sb, fs, e.u);
    }
  }

  /** The cache operations of a trace, and the blocks they leave: a read loads its block, a write
      stores its block with the one change. */
  ghost function OpsOf(blocks: seq<Block>, sb: Super, fs: Fs, io: Trace): (r: (seq<CacheEpoch.Op>, seq<Block>))
    requires Stored(blocks, sb, fs) && Fine(fs, io) && |blocks| <= U32
    ensures |r.0| == |io| && |r.1| == |blocks| && Stored(r.1, sb, Played(fs, io))
    decreases |io|
  {
    if io == [] then ([], blocks)
    else
      var n := |io| - 1;
      var (ops, now) := OpsOf(blocks, sb, fs, io[..n]);
      var e := io[n];
      StepMeaningful(now, sb, Played(fs, io[..n]), e);
      if e.Put? then
        UpdateStored(now, sb, Played(fs, io[..n]), e.u);
        (ops + [CacheEpoch.Store(TargetOf(sb, e.u), NewContent(e.u, now[TargetOf(sb, e.u)]))], Written(now, sb, e.u))
      else (ops + [CacheEpoch.Load(Subject(sb, e))], now)
  }

  /** What was last stored is what the blocks hold. */
  lemma {:induction false} OpsLand(blocks: seq<Block>, sb: Super, fs: Fs, io: Trace, b: u32)
    requires Stored(blocks, sb, fs) && Fine(fs, io) && |blocks| <= U32 && b < |blocks|
    ensures LastStored(OpsOf(blocks, sb, fs, io).0, b, blocks[b]) == OpsOf(blocks, sb, fs, io).1[b]
    decreases |io|
  {
    hide Stored, NewContent, FineStep, AfterStep;
    if io != [] {
      var n := |io| - 1;
      OpsLand(blocks, sb, fs, io[..n], b);
      var ops := OpsOf(blocks, sb, fs, io).0;
      assert ops[..n] == OpsOf(blocks, sb, fs, io[..n]).0;
    }
  }

  /** The operations use exactly the blocks the trace touches, all of them part of the file system. */
  lemma {:induction false} OpsTouch(blocks: seq<Block>, sb: Super, fs: Fs, io: Trace)
    requires Stored(blocks, sb, fs) && Fine(fs, io) && |blocks| <= U32
    ensures var ops := OpsOf(blocks, sb, fs, io).0;
      && (forall i :: 0 <= i < |ops| ==> Meaningful(sb, ops[i].blk))
      && Used(ops) == Touched(sb, io)
    decreases |io|
  {
    hide Stored, NewContent, FineStep, AfterStep, Meaningful;
    if io != [] {
      var n := |io| - 1;
      OpsTouch(blocks, sb, fs, io[..n]);
      var ops := OpsOf(blocks, sb, fs, io).0;
      var was := OpsOf(blocks, sb, fs, io[..n]);
      StepMeaningful(was.1, sb, Played(fs, io[..n]), io[n]);
      assert ops[..n] == was.0 && ops[n].blk == Subject(sb, io[n]);
    }
  }

  // ---------- a crash between flushes ----------

  /** The cache is at rest and, like the disk, holds the sound file system `fs`. */
  ghost predicate Ready(g: Geometry, sb: Super, n: nat, s: Cached, fs: Fs) {
    AtRest(g, s) && Arranged(g, sb, s.disk, n) && Stored(Seen(s, n), sb, fs) && FsHandles.Sound(fs)
  }

  /** The cache operations of a sequence of requests. */
  ghost function RequestOps(n: nat, sb: Super, s: Cached, fs: Fs, qs: seq<Request>): (ops: seq<CacheEpoch.Op>)
    requires n <= U32 && Stored(Seen(s, n), sb, fs) && FsHandles.Sound(fs)
    ensures |ops| == |RequestsIo(fs, qs)|
  {
    RequestsLead(fs, qs);
    OpsOf(Seen(s, n), sb, fs, RequestsIo(fs, qs)).0
  }

  /** The requests read or write at most 32 distinct blocks; this can be computed before the first. */
  predicate Small(sb: Super, fs: Fs, qs: seq<Request>) {
    |Touched(sb, RequestsIo(fs, qs))| <= BlockCache.SLOTS
  }

  /** Within the bound nothing is written before the flush, and the cache then shows the file system
      after the requests. */
  lemma RequestsInCache(g: Geometry, sb: Super, n: nat, s: Cached, fs: Fs, qs: seq<Request>)
    requires Ready(g, sb, n, s, fs) && Small(sb, fs, qs) && s.clock + |RequestsIo(fs, qs)| < U64
    ensures var ops := RequestOps(n, sb, s, fs, qs);
      && Fits(g, s.disk, ops) && OpsWrites(g, s, ops) == [] && |s.slots| == BlockCache.SLOTS
      && Stored(Seen(AfterOps(g, s, ops), n), sb, ServedAll(fs, qs)) && FsHandles.Sound(ServedAll(fs, qs))
  {
    hide AfterOps, BlockCache.FlushWrites, BlockCache.DirtyBlocks, Replayed, CrashedReplays, Apply, BlockAt, CacheTransparency.View,
         Stored, OpsWrites, LastStored, CacheTransparency.Cacheable, OpsOf, Used, Meaningful, Touched, RequestsIo, ServedAll, FsHandles.Sound, Fine;
    var io := RequestsIo(fs, qs);
    var blocks := Seen(s, n);
    RequestsLead(fs, qs);
    var (ops, now) := OpsOf(blocks, sb, fs, io);
    StoredSizes(blocks, sb, fs);
    OpsTouch(blocks, sb, fs, io);
    forall i | 0 <= i < |ops|
      ensures CacheTransparency.Cacheable(g, s.disk, ops[i].blk)
    {
      MeaningfulCacheable(g, sb, s.disk, n, ops[i].blk);
    }
    RestParts(g, s);
    EpochAtomicity(g, s, ops, 0, []);
    var t := AfterOps(g, s, ops);
    forall b: nat | b < n && Meaningful(sb, b)
      ensures Seen(t, n)[b] == now[b]
    {
      MeaningfulCacheable(g, sb, s.disk, n, b);
      OpsLand(blocks, sb, fs, io, b);
    }
    StoredOn(now, Seen(t, n), sb, ServedAll(fs, qs));
  }

  /** Requests between two flushes that read or write at most 32 distinct blocks, and a crash: what
      is mounted shows the file system before the requests or the one after all of them. The bound
      counts every block the driver reads on the way; `CacheEpochs.ReadsEvict` shows that reads alone
      can break it. */
  lemma RequestsThenCrash(g: Geometry, sb: Super, n: nat, s: Cached, fs: Fs, qs: seq<Request>, k: nat, cuts: seq<nat>)
    requires Ready(g, sb, n, s, fs) && Small(sb, fs, qs) && s.clock + |RequestsIo(fs, qs)| < U64
    requires k <= |BlockCache.FlushWrites(g, AfterOps(g, s, RequestOps(n, sb, s, fs, qs)))|
    ensures var t := AfterOps(g, s, RequestOps(n, sb, s, fs, qs));
      var r := Replayed(g, CrashedReplays(g, Apply(s.disk, BlockCache.FlushWrites(g, t)[..k]), cuts));
      var m := Mount(OnPlatter(r, n));
      && OpsWrites(g, s, RequestOps(n, sb, s, fs, qs)) == []
      && m.Some? && FsView.Good(m.value)
      && forall q: FsPaths.Path :: FsView.View(m.value, q) ==
           FsView.View(if k <= 8 * |BlockCache.DirtyBlocks(t.slots)| then fs else ServedAll(fs, qs), q)
  {
    hide AfterOps, BlockCache.FlushWrites, BlockCache.DirtyBlocks, Replayed, CrashedReplays, Apply, BlockAt, CacheTransparency.View,
         Stored, Mount, FsView.Good, FsView.View, OpsWrites, RequestOps, RequestsIo, ServedAll, FsHandles.Sound, Small, Fits, AtRest;
    RequestsInCache(g, sb, n, s, fs, qs);
    FsHandles.SoundGood(fs);
    FsHandles.SoundGood(ServedAll(fs, qs));
    OpsLength(n, sb, s, fs, qs);
    CrashThenMount(g, sb, n, s, RequestOps(n, sb, s, fs, qs), fs, ServedAll(fs, qs), k, cuts);
  }

  lemma OpsLength(n: nat, sb: Super, s: Cached, fs: Fs, qs: seq<Request>)
    requires n <= U32 && Stored(Seen(s, n), sb, fs) && FsHandles.Sound(fs)
    ensures |RequestOps(n, sb, s, fs, qs)| == |RequestsIo(fs, qs)|
  {}

  // ---------- any number of flushes ----------

  /** A finished flush makes ready for the next requests. */
  lemma FlushedReady(g: Geometry, sb: Super, n: nat, s: Cached, fs: Fs, qs: seq<Request>)
    requires Ready(g, sb, n, s, fs) && Small(sb, fs, qs) && s.clock + |RequestsIo(fs, qs)| < U64
    ensures |s.slots| == BlockCache.SLOTS
    ensures var u := AfterEpoch(g, s, RequestOps(n, sb, s, fs, qs));
      Ready(g, sb, n, u, ServedAll(fs, qs)) && u.clock == s.clock + |RequestsIo(fs, qs)|
  {
    hide AfterOps, BlockAt, CacheTransparency.View, Stored, OpsWrites, RequestOps, RequestsIo, ServedAll, FsHandles.Sound, Small, Fits,
         AtRest, LastStored, AfterEpoch, CacheTransparency.Cacheable, Meaningful;
    RequestsInCache(g, sb, n, s, fs, qs);
    OpsLength(n, sb, s, fs, qs);
    var ops := RequestOps(n, sb, s, fs, qs);
    var t, u := AfterOps(g, s, ops), AfterEpoch(g, s, ops);
    EpochToRest(g, s, ops);
    FitsParts(g, s.disk, ops);
    RestParts(g, s);
    EpochAtomicity(g, s, ops, 0, []);
    StoredSizes(Seen(t, n), sb, ServedAll(fs, qs));
    forall b: nat | b < n && Meaningful(sb, b)
      ensures Seen(u, n)[b] == Seen(t, n)[b]
    {
      MeaningfulCacheable(g, sb, s.disk, n, b);
    }
    StoredOn(Seen(t, n), Seen(u, n), sb, ServedAll(fs, qs));
  }

  /** Every interval between two flushes is within the bound, in the state it meets. */
  predicate AllSmall(sb: Super, fs: Fs, epochs: seq<seq<Request>>)
    decreases |epochs|
  {
    epochs == [] || (Small(sb, fs, epochs[0]) && AllSmall(sb, ServedAll(fs, epochs[0]), epochs[1..]))
  }

  function Transfers(fs: Fs, epochs: seq<seq<Request>>): nat
    decreases |epochs|
  {
    if epochs == [] then 0 else |RequestsIo(fs, epochs[0])| + Transfers(ServedAll(fs, epochs[0]), epochs[1..])
  }

  function ServedEpochs(fs: Fs, epochs: seq<seq<Request>>): Fs
    decreases |epochs|
  {
    if epochs == [] then fs else ServedEpochs(ServedAll(fs, epochs[0]), epochs[1..])
  }

  /** The cache after any number of intervals, each ended by a flush. */
  ghost function AfterSessions(g: Geometry, sb: Super, n: nat, s: Cached, fs: Fs, epochs: seq<seq<Request>>): (u: Cached)
    requires Ready(g, sb, n, s, fs) && AllSmall(sb, fs, epochs) && s.clock + Transfers(fs, epochs) < U64
    ensures Ready(g, sb, n, u, ServedEpochs(fs, epochs)) && u.clock == s.clock + Transfers(fs, epochs)
    decreases |epochs|
  {
    if epochs == [] then s
    else
      FlushedReady(g, sb, n, s, fs, epochs[0]);
      AfterSessions(g, sb, n, AfterEpoch(g, s, RequestOps(n, sb, s, fs, epochs[0])), ServedAll(fs, epochs[0]), epochs[1..])
  }

  /** From a ready cache: any number of intervals of requests, each ended by a flush, then more
      requests and power lost before their flush is done. What is mounted is sound and shows the file
      system of the last flush, or that of the one in flight. */
  lemma SessionsThenCrash(g: Geometry, sb: Super, n: nat, s: Cached, fs: Fs, epochs: seq<seq<Request>>, qs: seq<Request>,
                          k: nat, cuts: seq<nat>)
    requires Ready(g, sb, n, s, fs) && AllSmall(sb, fs, epochs) && Small(sb, ServedEpochs(fs, epochs), qs)
    requires s.clock + Transfers(fs, epochs) + |RequestsIo(ServedEpochs(fs, epochs), qs)| < U64
    requires var u, last := AfterSessions(g, sb, n, s, fs, epochs), ServedEpochs(fs, epochs);
      k <= |BlockCache.FlushWrites(g, AfterOps(g, u, RequestOps(n, sb, u, last, qs)))|
    ensures var u, last := AfterSessions(g, sb, n, s, fs, epochs), ServedEpochs(fs, epochs);
      var t := AfterOps(g, u, RequestOps(n, sb, u, last, qs));
      var r := Replayed(g, CrashedReplays(g, Apply(u.disk, BlockCache.FlushWrites(g, t)[..k]), cuts));
      var m := Mount(OnPlatter(r, n));
      && m.Some? && FsView.Good(m.value)
      && forall q: FsPaths.Path :: FsView.View(m.value, q) ==
           FsView.View(if k <= 8 * |BlockCache.DirtyBlocks(t.slots)| then last else ServedAll(last, qs), q)
  {
    hide AfterOps, BlockCache.FlushWrites, BlockCache.DirtyBlocks, Replayed, CrashedReplays, Apply, Stored, Mount, FsView.Good, FsView.View,
         OpsWrites, RequestOps, RequestsIo, ServedAll, FsHandles.Sound, Small, AtRest;
    RequestsThenCrash(g, sb, n, AfterSessions(g, sb, n, s, fs, epochs), ServedEpochs(fs, epochs), qs, k, cuts);
  }
}

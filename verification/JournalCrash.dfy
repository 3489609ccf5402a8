/** Power loss at any sector write of a commit or of a replay, any number of times. Transfers do
    not fail here: a crash stops the list of sector writes after some prefix. */
module JournalCrash {
  import opened Bytes
  import opened Disk
  import opened Journal

  // ---------- setting ----------

  predicate InJournal(g: Geometry, b: nat) {
    g.header <= b <= g.header + g.slots
  }

  ghost function JournalBlocks(g: Geometry): set<nat> {
    set b: nat | b <= g.header + g.slots && InJournal(g, b)
  }

  /** The journal region fits on the device and its block numbers do not wrap. */
  ghost predicate Laid(g: Geometry, d: Sectors) {
    && g.slots <= DATA_BLOCKS
    && g.data0 == g.header + 1
    && g.header + g.slots < U32
    && OnDevice(d, g.header + g.slots)
  }

  /** What the cache hands to commit: distinct destinations on the device, outside the journal. */
  ghost predicate ValidBatch(g: Geometry, d: Sectors, dest: seq<u32>, data: seq<Block>) {
    && 0 < |dest| == |data| <= g.slots
    && (forall i, j :: 0 <= i < j < |dest| ==> dest[i] != dest[j])
    && (forall i :: 0 <= i < |dest| ==> OnDevice(d, dest[i]) && dest[i] !in JournalBlocks(g))
  }

  /** The disk once a batch is in place. */
  function After(base: Sectors, dest: seq<u32>, data: seq<Block>): Sectors
    requires |dest| == |data|
  {
    Apply(base, BatchWrites(dest, data))
  }

  /** No commit pending; outside the journal the disk is `base`. */
  ghost predicate Quiet(g: Geometry, d: Sectors, base: Sectors) {
    !Committed(g, HeaderOn(g, d)) && SameOutside(base, d, JournalBlocks(g))
  }

  /** The batch is committed: the header names it, the slots hold it, the checksum matches, and
      outside the journal and its destinations the disk is `base`. */
  ghost predicate Pending(g: Geometry, d: Sectors, base: Sectors, dest: seq<u32>, data: seq<Block>) {
    var h := HeaderOn(g, d);
    && |dest| == |data|
    && Committed(g, h) && h.count == |dest| <= DATA_BLOCKS && h.dest[..h.count] == dest
    && h.crc == BatchCrc(dest, data)
    && SlotData(g, d, |data|) == data
    && SameOutside(base, d, JournalBlocks(g) + Targets(dest))
  }

  // ---------- reading the header ----------

  lemma {:induction false} JoinHead(s: seq<Sector>)
    requires |s| > 0
    ensures |Join(s)| >= 512 && Join(s)[..512] == s[0]
    decreases |s|
  {
    var n := |s| - 1;
    if n > 0 {
      JoinHead(s[..n]);
    }
  }

  /** The first sector alone decides what the header says. */
  lemma HeaderIs(g: Geometry, d: Sectors, b: Block)
    requires OnDevice(d, g.header) && d[8 * g.header] == SectorOf(b, 0)
    ensures HeaderOn(g, d) == ParseHeader(b)
  {
    var s := d[8 * g.header..8 * g.header + 8];
    JoinHead(s);
    var c := BlockAt(d, g.header);
    assert c[..152] == c[..512][..152] == SectorOf(b, 0)[..152] == b[..152];
    ParseDependsOnPrefix(c, b);
  }

  lemma HeaderSame(g: Geometry, d: Sectors, e: Sectors)
    requires |d| == |e| && OnDevice(d, g.header) && d[8 * g.header] == e[8 * g.header]
    ensures HeaderOn(g, d) == HeaderOn(g, e)
  {
    var b := BlockAt(e, g.header);
    var s := e[8 * g.header..8 * g.header + 8];
    JoinHead(s);
    HeaderIs(g, e, b);
    HeaderIs(g, d, b);
  }

  lemma HeaderUntouched(g: Geometry, d: Sectors, e: Sectors, s: set<nat>)
    requires SameOutside(d, e, s) && g.header !in s && OnDevice(d, g.header)
    ensures HeaderOn(g, d) == HeaderOn(g, e)
  {
    assert BlockOf(8 * g.header) == g.header;
    HeaderSame(g, d, e);
  }

  // ---------- effects of prefixes ----------

  lemma WithinPrefix(ws: seq<Write>, s: set<nat>, k: nat)
    requires Within(ws, s) && k <= |ws|
    ensures Within(ws[..k], s)
  {}

  lemma BatchPrefixSameOutside(d: Sectors, dest: seq<u32>, data: seq<Block>, k: nat)
    requires |dest| == |data| && k <= 8 * |dest|
    ensures SameOutside(d, Apply(d, BatchWrites(dest, data)[..k]), Targets(dest))
  {
    BatchWithin(dest, data, Targets(dest));
    WithinPrefix(BatchWrites(dest, data), Targets(dest), k);
    ApplyWithin(d, BatchWrites(dest, data)[..k], Targets(dest));
  }

  lemma BlockPrefixSameOutside(d: Sectors, blk: nat, data: Block, k: nat)
    requires k <= 8
    ensures SameOutside(d, Apply(d, BlockWrites(blk, data)[..k]), {blk})
  {
    BlockWritesWithin(blk, data);
    WithinPrefix(BlockWrites(blk, data), {blk}, k);
    ApplyWithin(d, BlockWrites(blk, data)[..k], {blk});
  }

  /** Writing a whole block erases any difference it had. */
  lemma BlockOverwrites(d: Sectors, e: Sectors, s: set<nat>, blk: nat, data: Block)
    requires OnDevice(d, blk) && SameOutside(d, e, s + {blk})
    ensures SameOutside(Apply(d, BlockWrites(blk, data)), Apply(e, BlockWrites(blk, data)), s)
  {
    var ws := BlockWrites(blk, data);
    assert ws[..8] == ws;
    ApplyPrefixOfBlock(d, blk, data, 8);
    ApplyPrefixOfBlock(e, blk, data, 8);
    var d', e' := Apply(d, ws), Apply(e, ws);
    forall i | 0 <= i < |d| && BlockOf(i) !in s
      ensures d'[i] == e'[i]
    {
      if BlockOf(i) == blk {
        var j := i - 8 * blk;
        assert d'[8 * blk + j] == SectorOf(data, j) == e'[8 * blk + j];
      } else {
        assert d[i] == e[i];
      }
    }
  }

  lemma {:induction false} BatchOverwrites(d: Sectors, e: Sectors, s: set<nat>, dest: seq<u32>, data: seq<Block>)
    requires |dest| == |data| && SameOutside(d, e, s + Targets(dest))
    requires forall i :: 0 <= i < |dest| ==> OnDevice(d, dest[i])
    ensures SameOutside(Apply(d, BatchWrites(dest, data)), Apply(e, BatchWrites(dest, data)), s)
    decreases |dest|
  {
    if dest == [] {
      assert s + Targets(dest) == s;
    } else {
      var n := |dest| - 1;
      var init, blk := dest[..n], dest[n];
      assert s + Targets(dest) == (s + {blk}) + Targets(init);
      BatchOverwrites(d, e, s + {blk}, init, data[..n]);
      var d1, e1 := Apply(d, BatchWrites(init, data[..n])), Apply(e, BatchWrites(init, data[..n]));
      BlockOverwrites(d1, e1, s, blk, data[n]);
      ApplyAppend(d, BatchWrites(init, data[..n]), BlockWrites(blk, data[n]));
      ApplyAppend(e, BatchWrites(init, data[..n]), BlockWrites(blk, data[n]));
    }
  }

  /** After a batch, every destination holds its payload. */
  lemma {:induction false} BatchLands(d: Sectors, dest: seq<u32>, data: seq<Block>, i: nat)
    requires i < |dest| == |data|
    requires forall i, j :: 0 <= i < j < |dest| ==> dest[i] != dest[j]
    requires forall i :: 0 <= i < |dest| ==> OnDevice(d, dest[i])
    ensures BlockAt(Apply(d, BatchWrites(dest, data)), dest[i]) == data[i]
    decreases |dest|
  {
    var n := |dest| - 1;
    var d1 := Apply(d, BatchWrites(dest[..n], data[..n]));
    ApplyAppend(d, BatchWrites(dest[..n], data[..n]), BlockWrites(dest[n], data[n]));
    if i == n {
      WrittenBlock(d1, dest[n], data[n]);
    } else {
      BatchLands(d, dest[..n], data[..n], i);
      BlockSameOutside(d1, dest[n], data[n]);
      SameBlock(d1, Apply(d1, BlockWrites(dest[n], data[n])), {dest[n]}, dest[i]);
    }
  }

  // ---------- the four steps of a commit ----------

  lemma SlotsInJournal(g: Geometry, d: Sectors, n: nat)
    requires Laid(g, d) && n <= g.slots
    ensures forall i :: 0 <= i < n ==> Slot(g, i) == g.header + 1 + i
    ensures Targets(SlotDests(g, n)) <= JournalBlocks(g) && g.header !in Targets(SlotDests(g, n))
  {}

  /** Step 1, at any point: still quiet. */
  lemma DuringStep1(g: Geometry, d: Sectors, base: Sectors, dest: seq<u32>, data: seq<Block>, k: nat)
    requires Laid(g, d) && Quiet(g, d, base) && ValidBatch(g, d, dest, data) && k <= 8 * |dest|
    ensures Quiet(g, Apply(d, BatchWrites(SlotDests(g, |data|), data)[..k]), base)
  {
    var slots := SlotDests(g, |data|);
    SlotsInJournal(g, d, |data|);
    BatchPrefixSameOutside(d, slots, data, k);
    var e := Apply(d, BatchWrites(slots, data)[..k]);
    HeaderUntouched(g, d, e, Targets(slots));
    SameOutsideTrans(base, d, e, JournalBlocks(g), Targets(slots));
    assert JournalBlocks(g) + Targets(slots) == JournalBlocks(g);
  }

  /** Once step 1 is complete the slots hold the payloads. */
  lemma SlotsFilled(g: Geometry, d: Sectors, e: Sectors, data: seq<Block>)
    requires Laid(g, d) && |data| <= g.slots
    requires SameOutside(Apply(d, BatchWrites(SlotDests(g, |data|), data)), e, {g.header})
    ensures SlotData(g, e, |data|) == data
  {
    hide BatchWrites, Apply, BlockAt;
    var slots := SlotDests(g, |data|);
    SlotsInJournal(g, d, |data|);
    var d1 := Apply(d, BatchWrites(slots, data));
    forall i | 0 <= i < |data|
      ensures SlotData(g, e, |data|)[i] == data[i]
    {
      BatchLands(d, slots, data, i);
      SameBlock(d1, e, {g.header}, slots[i]);
    }
  }

  /** Step 2: the first header sector is the commit point. */
  lemma DuringStep2(g: Geometry, d: Sectors, base: Sectors, txn: u32, dest: seq<u32>, data: seq<Block>, k: nat)
    requires Laid(g, d) && Quiet(g, d, base) && ValidBatch(g, d, dest, data) && 0 < k <= 8
    ensures var hdr := BlockWrites(g.header, EncodeHeader(txn, dest, BatchCrc(dest, data)));
      Pending(g, Apply(Apply(d, BatchWrites(SlotDests(g, |data|), data)), hdr[..k]), base, dest, data)
  {
    hide BatchCrc, BatchWrites, EncodeHeader, ParseHeader, Apply;
    var b := EncodeHeader(txn, dest, BatchCrc(dest, data));
    var slots := SlotDests(g, |data|);
    var d1 := Apply(d, BatchWrites(slots, data));
    DuringStep1(g, d, base, dest, data, 8 * |dest|);
    assert BatchWrites(slots, data)[..8 * |dest|] == BatchWrites(slots, data);
    var e := Apply(d1, BlockWrites(g.header, b)[..k]);
    ApplyPrefixOfBlock(d1, g.header, b, k);
    assert e[8 * g.header + 0] == SectorOf(b, 0);
    HeaderIs(g, e, b);
    HeaderRoundTrip(txn, dest, BatchCrc(dest, data));
    BlockPrefixSameOutside(d1, g.header, b, k);
    SlotsFilled(g, d, e, data);
    SameOutsideTrans(base, d1, e, JournalBlocks(g), {g.header});
    SameOutsideGrows(base, e, JournalBlocks(g) + {g.header}, JournalBlocks(g) + Targets(dest));
  }

  /** Step 3, at any point, in a commit or in a replay: still pending. */
  lemma DuringStep3(g: Geometry, d: Sectors, base: Sectors, dest: seq<u32>, data: seq<Block>, k: nat)
    requires Laid(g, d) && Pending(g, d, base, dest, data) && ValidBatch(g, d, dest, data) && k <= 8 * |dest|
    ensures Pending(g, Apply(d, BatchWrites(dest, data)[..k]), base, dest, data)
  {
    hide BatchCrc, BatchWrites, ParseHeader, Apply;
    var e := Apply(d, BatchWrites(dest, data)[..k]);
    var t := Targets(dest);
    BatchPrefixSameOutside(d, dest, data, k);
    HeaderUntouched(g, d, e, t);
    SlotsInJournal(g, d, |data|);
    forall i | 0 <= i < |data|
      ensures SlotData(g, e, |data|)[i] == SlotData(g, d, |data|)[i]
    {
      SameBlock(d, e, t, Slot(g, i));
    }
    SameOutsideTrans(base, d, e, JournalBlocks(g) + t, t);
    assert (JournalBlocks(g) + t) + t == JournalBlocks(g) + t;
  }

  /** Step 4: the first zeroed sector retires the batch. */
  lemma DuringStep4(g: Geometry, d: Sectors, base: Sectors, dest: seq<u32>, data: seq<Block>, k: nat)
    requires Laid(g, d) && Pending(g, d, base, dest, data) && ValidBatch(g, d, dest, data) && 0 < k <= 8
    ensures Quiet(g, Apply(Apply(d, BatchWrites(dest, data)), BlockWrites(g.header, ZERO_BLOCK)[..k]),
                  After(base, dest, data))
  {
    hide BatchCrc, BatchWrites, ParseHeader, Apply;
    var d1 := Apply(d, BatchWrites(dest, data));
    var e := Apply(d1, BlockWrites(g.header, ZERO_BLOCK)[..k]);
    ApplyPrefixOfBlock(d1, g.header, ZERO_BLOCK, k);
    assert e[8 * g.header + 0] == SectorOf(ZERO_BLOCK, 0);
    HeaderIs(g, e, ZERO_BLOCK);
    ZeroIsUncommitted(g, ZERO_BLOCK);
    BatchOverwrites(base, d, JournalBlocks(g), dest, data);
    BlockPrefixSameOutside(d1, g.header, ZERO_BLOCK, k);
    SameOutsideTrans(After(base, dest, data), d1, e, JournalBlocks(g), {g.header});
    assert JournalBlocks(g) + {g.header} == JournalBlocks(g);
  }

  // ---------- replay ----------

  /** The tail that commit and replay share: payloads home, then the zeroed header. */
  function Finish(g: Geometry, dest: seq<u32>, data: seq<Block>): (ws: seq<Write>)
    requires |dest| == |data|
    ensures |ws| == 8 * |dest| + 8
  {
    BatchWrites(dest, data) + BlockWrites(g.header, ZERO_BLOCK)
  }

  lemma DuringFinish(g: Geometry, d: Sectors, base: Sectors, dest: seq<u32>, data: seq<Block>, k: nat)
    requires Laid(g, d) && Pending(g, d, base, dest, data) && ValidBatch(g, d, dest, data)
    requires k <= 8 * |dest| + 8
    ensures k <= 8 * |dest| ==> Pending(g, Apply(d, Finish(g, dest, data)[..k]), base, dest, data)
    ensures k > 8 * |dest| ==> Quiet(g, Apply(d, Finish(g, dest, data)[..k]), After(base, dest, data))
  {
    hide BatchCrc, BatchWrites, BlockWrites, ParseHeader, Apply, Pending, Quiet;
    var c, z := BatchWrites(dest, data), BlockWrites(g.header, ZERO_BLOCK);
    if k <= 8 * |dest| {
      assert (c + z)[..k] == c[..k];
      DuringStep3(g, d, base, dest, data, k);
    } else {
      var j := k - 8 * |dest|;
      assert (c + z)[..k] == c + z[..j];
      ApplyAppend(d, c, z[..j]);
      DuringStep4(g, d, base, dest, data, j);
    }
  }

  lemma QuietReplaysNothing(g: Geometry, d: Sectors, base: Sectors)
    requires Laid(g, d) && Quiet(g, d, base)
    ensures ReplayWrites(g, d) == []
  {}

  /** The checksum of a pending batch always matches, so replay applies it. */
  lemma PendingReplays(g: Geometry, d: Sectors, base: Sectors, dest: seq<u32>, data: seq<Block>)
    requires Laid(g, d) && Pending(g, d, base, dest, data)
    ensures ReplayWrites(g, d) == Finish(g, dest, data)
  {
    hide BatchCrc, BatchWrites, ParseHeader;
  }

  /** Replays cut short after `cuts[0]`, `cuts[1]`, ... sector writes, each from a fresh boot. */
  function CrashedReplays(g: Geometry, d: Sectors, cuts: seq<nat>): (e: Sectors)
    requires g.slots <= DATA_BLOCKS
    ensures |e| == |d|
    decreases |cuts|
  {
    if cuts == [] then d
    else
      var ws := ReplayWrites(g, d);
      CrashedReplays(g, Apply(d, if cuts[0] < |ws| then ws[..cuts[0]] else ws), cuts[1..])
  }

  /** One replay that runs to the end. */
  function Replayed(g: Geometry, d: Sectors): Sectors
    requires g.slots <= DATA_BLOCKS
  {
    Apply(d, ReplayWrites(g, d))
  }

  lemma {:induction false} QuietSurvives(g: Geometry, d: Sectors, base: Sectors, cuts: seq<nat>)
    requires Laid(g, d) && Quiet(g, d, base)
    ensures CrashedReplays(g, d, cuts) == d && Replayed(g, d) == d
    decreases |cuts|
  {
    hide Quiet, ReplayWrites;
    QuietReplaysNothing(g, d, base);
    if cuts != [] {
      QuietSurvives(g, d, base, cuts[1..]);
    }
  }

  lemma {:induction false} PendingSurvives(g: Geometry, d: Sectors, base: Sectors,
                                           dest: seq<u32>, data: seq<Block>, cuts: seq<nat>)
    requires Laid(g, d) && Pending(g, d, base, dest, data) && ValidBatch(g, d, dest, data)
    ensures var e := CrashedReplays(g, d, cuts);
      || Pending(g, e, base, dest, data)
      || Quiet(g, e, After(base, dest, data))
    ensures Quiet(g, Replayed(g, CrashedReplays(g, d, cuts)), After(base, dest, data))
    decreases |cuts|
  {
    hide Pending, Quiet, ReplayWrites, After, Apply, BatchWrites;
    PendingReplays(g, d, base, dest, data);
    var ws := ReplayWrites(g, d);
    if cuts == [] {
      assert ws[..|ws|] == ws;
      DuringFinish(g, d, base, dest, data, |ws|);
    } else {
      var k := if cuts[0] < |ws| then cuts[0] else |ws|;
      assert ws[..|ws|] == ws;
      var d1 := Apply(d, ws[..k]);
      DuringFinish(g, d, base, dest, data, k);
      if k <= 8 * |dest| {
        PendingSurvives(g, d1, base, dest, data, cuts[1..]);
      } else {
        QuietSurvives(g, d1, After(base, dest, data), cuts[1..]);
      }
    }
  }

  // ---------- a crash during a commit ----------

  /** A commit's writes are 8n payload sectors, 8 header sectors, then the finish. */
  lemma CommitPrefix(g: Geometry, txn: u32, d: Sectors, dest: seq<u32>, data: seq<Block>, k: nat)
    requires |dest| == |data| <= DATA_BLOCKS && k <= 16 * |dest| + 16
    ensures var n := 8 * |dest|;
      var a := BatchWrites(SlotDests(g, |data|), data);
      var b := BlockWrites(g.header, EncodeHeader(txn, dest, BatchCrc(dest, data)));
      Apply(d, CommitWrites(g, txn, dest, data)[..k]) ==
      if k <= n then Apply(d, a[..k])
      else if k <= n + 8 then Apply(Apply(d, a), b[..k - n])
      else Apply(Apply(Apply(d, a), b[..8]), Finish(g, dest, data)[..k - n - 8])
  {
    hide BatchWrites, BlockWrites, EncodeHeader, BatchCrc, Apply;
    var n := 8 * |dest|;
    var a := BatchWrites(SlotDests(g, |data|), data);
    var b := BlockWrites(g.header, EncodeHeader(txn, dest, BatchCrc(dest, data)));
    var f := Finish(g, dest, data);
    var w := CommitWrites(g, txn, dest, data);
    Regroup(a + b, BatchWrites(dest, data), BlockWrites(g.header, ZERO_BLOCK), [], []);
    assert w == a + b + f;
    if k <= n {
      assert w[..k] == a[..k];
    } else if k <= n + 8 {
      assert w[..k] == a + b[..k - n];
      ApplyAppend(d, a, b[..k - n]);
    } else {
      assert w[..k] == a + b + f[..k - n - 8];
      assert b[..8] == b;
      ApplyAppend(d, a + b, f[..k - n - 8]);
      ApplyAppend(d, a, b);
    }
  }

  lemma DuringCommit(g: Geometry, d: Sectors, base: Sectors, txn: u32, dest: seq<u32>, data: seq<Block>, k: nat)
    requires Laid(g, d) && Quiet(g, d, base) && ValidBatch(g, d, dest, data) && k <= 16 * |dest| + 16
    ensures var e := Apply(d, CommitWrites(g, txn, dest, data)[..k]);
      if k <= 8 * |dest| then Quiet(g, e, base)
      else if k <= 16 * |dest| + 8 then Pending(g, e, base, dest, data)
      else Quiet(g, e, After(base, dest, data))
  {
    hide BatchWrites, BlockWrites, EncodeHeader, BatchCrc, Apply, CommitWrites, Finish, Quiet, Pending, After;
    CommitPrefix(g, txn, d, dest, data, k);
    var n := 8 * |dest|;
    if k <= n {
      DuringStep1(g, d, base, dest, data, k);
    } else if k <= n + 8 {
      DuringStep2(g, d, base, txn, dest, data, k - n);
    } else {
      DuringStep2(g, d, base, txn, dest, data, 8);
      var a := BatchWrites(SlotDests(g, |data|), data);
      var b := BlockWrites(g.header, EncodeHeader(txn, dest, BatchCrc(dest, data)));
      DuringFinish(g, Apply(Apply(d, a), b[..8]), base, dest, data, k - n - 8);
    }
  }

  /** Where the commit point lies decides the outcome. */
  function Outcome(base: Sectors, dest: seq<u32>, data: seq<Block>, k: nat): Sectors
    requires |dest| == |data|
  {
    if k <= 8 * |dest| then base else After(base, dest, data)
  }

  /** Crash after any `k` sector writes of a commit, then any number of crashed replays, then one
      that finishes: outside the journal the disk is the old one if the first header sector had
      not been written, the new one if it had; and nothing is left pending. */
  lemma CrashAtomicity(g: Geometry, d: Sectors, base: Sectors, txn: u32, dest: seq<u32>, data: seq<Block>,
                       k: nat, cuts: seq<nat>)
    requires Laid(g, d) && Quiet(g, d, base) && ValidBatch(g, d, dest, data) && k <= 16 * |dest| + 16
    ensures Quiet(g, Replayed(g, CrashedReplays(g, Apply(d, CommitWrites(g, txn, dest, data)[..k]), cuts)),
                  Outcome(base, dest, data, k))
  {
    hide Quiet, Pending, After, CommitWrites, Apply, ReplayWrites;
    var e := Apply(d, CommitWrites(g, txn, dest, data)[..k]);
    DuringCommit(g, d, base, txn, dest, data, k);
    if k <= 8 * |dest| {
      QuietSurvives(g, e, base, cuts);
    } else if k <= 16 * |dest| + 8 {
      PendingSurvives(g, e, base, dest, data, cuts);
    } else {
      QuietSurvives(g, e, After(base, dest, data), cuts);
    }
  }

  /** The same, block by block: all destinations change together or not at all, and nothing else
      outside the journal changes. */
  lemma CrashAtomicityOfBlocks(g: Geometry, d: Sectors, txn: u32, dest: seq<u32>, data: seq<Block>,
                               k: nat, cuts: seq<nat>)
    requires Laid(g, d) && !Committed(g, HeaderOn(g, d)) && ValidBatch(g, d, dest, data) && k <= 16 * |dest| + 16
    ensures var r := Replayed(g, CrashedReplays(g, Apply(d, CommitWrites(g, txn, dest, data)[..k]), cuts));
      && !Committed(g, HeaderOn(g, r))
      && (forall b: nat :: b !in JournalBlocks(g) && b !in Targets(dest) ==> BlockAt(r, b) == BlockAt(d, b))
      && (forall i :: 0 <= i < |dest| ==>
            BlockAt(r, dest[i]) == if k <= 8 * |dest| then BlockAt(d, dest[i]) else data[i])
  {
    hide CommitWrites, Apply, ReplayWrites, BlockAt, ParseHeader;
    CrashAtomicity(g, d, d, txn, dest, data, k, cuts);
    var r := Replayed(g, CrashedReplays(g, Apply(d, CommitWrites(g, txn, dest, data)[..k]), cuts));
    var o := Outcome(d, dest, data, k);
    BatchSameOutside(d, dest, data);
    forall b: nat | b !in JournalBlocks(g) && b !in Targets(dest)
      ensures BlockAt(r, b) == BlockAt(d, b)
    {
      SameBlock(o, r, JournalBlocks(g), b);
      SameBlock(d, o, Targets(dest), b);
    }
    forall i | 0 <= i < |dest|
      ensures BlockAt(r, dest[i]) == if k <= 8 * |dest| then BlockAt(d, dest[i]) else data[i]
    {
      SameBlock(o, r, JournalBlocks(g), dest[i]);
      if k > 8 * |dest| {
        BatchLands(d, dest, data, i);
      }
    }
  }

  /** At every boot along the way, a header that claims a batch has the right checksum: the
      discard branch of replay is never taken. */
  lemma ChecksumNeverFails(g: Geometry, d: Sectors, txn: u32, dest: seq<u32>, data: seq<Block>,
                           k: nat, cuts: seq<nat>)
    requires Laid(g, d) && !Committed(g, HeaderOn(g, d)) && ValidBatch(g, d, dest, data) && k <= 16 * |dest| + 16
    ensures var e := CrashedReplays(g, Apply(d, CommitWrites(g, txn, dest, data)[..k]), cuts);
      var h := HeaderOn(g, e);
      Committed(g, h) ==> BatchCrc(h.dest[..h.count], SlotData(g, e, h.count)) == h.crc
  {
    hide CommitWrites, Apply, ReplayWrites, BlockAt, ParseHeader, BatchCrc;
    var e := Apply(d, CommitWrites(g, txn, dest, data)[..k]);
    DuringCommit(g, d, d, txn, dest, data, k);
    if k <= 8 * |dest| {
      QuietSurvives(g, e, d, cuts);
    } else if k <= 16 * |dest| + 8 {
      PendingSurvives(g, e, d, dest, data, cuts);
    } else {
      QuietSurvives(g, e, After(d, dest, data), cuts);
    }
  }

  // ---------- a whole session ----------

  datatype Batch = Batch(dest: seq<u32>, data: seq<Block>)

  ghost predicate ValidBatches(g: Geometry, d: Sectors, bs: seq<Batch>) {
    forall i :: 0 <= i < |bs| ==> ValidBatch(g, d, bs[i].dest, bs[i].data)
  }

  /** Everything a session writes: one commit after another, transaction ids counting up. */
  function SessionWrites(g: Geometry, txn: u32, bs: seq<Batch>): seq<Write>
    requires forall i :: 0 <= i < |bs| ==> |bs[i].dest| == |bs[i].data| <= DATA_BLOCKS
    decreases |bs|
  {
    if bs == [] then []
    else CommitWrites(g, txn, bs[0].dest, bs[0].data) + SessionWrites(g, (txn + 1) % U32, bs[1..])
  }

  function AfterAll(base: Sectors, bs: seq<Batch>): (r: Sectors)
    requires forall i :: 0 <= i < |bs| ==> |bs[i].dest| == |bs[i].data|
    ensures |r| == |base|
    decreases |bs|
  {
    if bs == [] then base else AfterAll(After(base, bs[0].dest, bs[0].data), bs[1..])
  }

  /** How many batches had their first header sector written within the first `k` writes. */
  function Landed(bs: seq<Batch>, k: nat): (n: nat)
    ensures n <= |bs|
    decreases |bs|
  {
    if bs == [] || k <= 8 * |bs[0].dest| then 0
    else if k <= 16 * |bs[0].dest| + 16 then 1
    else 1 + Landed(bs[1..], k - (16 * |bs[0].dest| + 16))
  }

  /** Power loss anywhere in a session, then any number of crashed replays: recovery shows the
      disk after exactly the batches whose commit point had been reached, a prefix of the session. */
  lemma {:induction false} SessionCrash(g: Geometry, d: Sectors, base: Sectors, txn: u32, bs: seq<Batch>,
                                        k: nat, cuts: seq<nat>)
    requires Laid(g, d) && Quiet(g, d, base) && ValidBatches(g, d, bs)
    requires k <= |SessionWrites(g, txn, bs)|
    ensures Quiet(g, Replayed(g, CrashedReplays(g, Apply(d, SessionWrites(g, txn, bs)[..k]), cuts)),
                  AfterAll(base, bs[..Landed(bs, k)]))
    decreases |bs|
  {
    hide Quiet, CommitWrites, After, Apply, ReplayWrites, Replayed, CrashedReplays, Outcome, Laid, ValidBatch, AfterAll, Landed;
    if bs == [] {
      NothingRun(g, d, base, txn, bs, cuts);
    } else {
      var dest, data := bs[0].dest, bs[0].data;
      Shapes(g, d, bs);
      var w0, ws := CommitWrites(g, txn, dest, data), SessionWrites(g, (txn + 1) % U32, bs[1..]);
      TakeOfTwo(w0, ws, k);
      if k <= |w0| {
        CrashAtomicity(g, d, base, txn, dest, data, k, cuts);
        LandedFirst(base, bs, k);
      } else {
        ApplyAppend(d, w0, ws[..k - |w0|]);
        Onward(g, d, base, txn, bs);
        SessionCrash(g, Apply(d, w0), After(base, dest, data), (txn + 1) % U32, bs[1..], k - |w0|, cuts);
        LandedMore(base, bs, k);
      }
    }
  }

  lemma Shapes(g: Geometry, d: Sectors, bs: seq<Batch>)
    requires Laid(g, d) && ValidBatches(g, d, bs)
    ensures forall i :: 0 <= i < |bs| ==> |bs[i].dest| == |bs[i].data| <= DATA_BLOCKS
  {}

  /** After the first commit of a session the rest of it starts from a quiet disk. */
  lemma Onward(g: Geometry, d: Sectors, base: Sectors, txn: u32, bs: seq<Batch>)
    requires Laid(g, d) && Quiet(g, d, base) && ValidBatches(g, d, bs) && bs != []
    ensures |bs[0].dest| == |bs[0].data| <= DATA_BLOCKS
    ensures var e := Apply(d, CommitWrites(g, txn, bs[0].dest, bs[0].data));
      Laid(g, e) && Quiet(g, e, After(base, bs[0].dest, bs[0].data)) && ValidBatches(g, e, bs[1..])
  {
    hide Quiet, Pending, CommitWrites, After, Apply;
    var w0 := CommitWrites(g, txn, bs[0].dest, bs[0].data);
    assert w0[..|w0|] == w0;
    DuringCommit(g, d, base, txn, bs[0].dest, bs[0].data, |w0|);
    assert |Apply(d, w0)| == |d|;
  }

  lemma TakeOfTwo(a: seq<Write>, b: seq<Write>, k: nat)
    requires k <= |a| + |b|
    ensures (a + b)[..k] == if k <= |a| then a[..k] else a + b[..k - |a|]
  {}

  lemma NothingRun(g: Geometry, d: Sectors, base: Sectors, txn: u32, bs: seq<Batch>, cuts: seq<nat>)
    requires Laid(g, d) && Quiet(g, d, base) && bs == []
    ensures SessionWrites(g, txn, bs) == []
    ensures Quiet(g, Replayed(g, CrashedReplays(g, Apply(d, []), cuts)), AfterAll(base, bs[..Landed(bs, 0)]))
  {
    hide Quiet, Apply, ReplayWrites, Replayed, CrashedReplays;
    ApplyNothing(d);
    QuietSurvives(g, d, base, cuts);
    ReplayedOfCrashed(g, d, cuts);
  }

  lemma ReplayedOfCrashed(g: Geometry, d: Sectors, cuts: seq<nat>)
    requires g.slots <= DATA_BLOCKS && CrashedReplays(g, d, cuts) == d && Replayed(g, d) == d
    ensures Replayed(g, CrashedReplays(g, d, cuts)) == d
  {}

  lemma LandedFirst(base: Sectors, bs: seq<Batch>, k: nat)
    requires bs != [] && forall i :: 0 <= i < |bs| ==> |bs[i].dest| == |bs[i].data|
    requires k <= 16 * |bs[0].dest| + 16
    ensures AfterAll(base, bs[..Landed(bs, k)]) == Outcome(base, bs[0].dest, bs[0].data, k)
  {
    if k > 8 * |bs[0].dest| {
      assert bs[..1][1..] == [];
    }
  }

  lemma LandedMore(base: Sectors, bs: seq<Batch>, k: nat)
    requires bs != [] && forall i :: 0 <= i < |bs| ==> |bs[i].dest| == |bs[i].data|
    requires k > 16 * |bs[0].dest| + 16
    ensures AfterAll(base, bs[..Landed(bs, k)]) ==
            AfterAll(After(base, bs[0].dest, bs[0].data), bs[1..][..Landed(bs[1..], k - (16 * |bs[0].dest| + 16))])
  {
    var m := Landed(bs[1..], k - (16 * |bs[0].dest| + 16));
    assert bs[..1 + m][1..] == bs[1..][..m];
  }
}

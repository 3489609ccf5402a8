/** The cache is invisible: whatever fails below it, every block reads as last written. */
module CacheTransparency {
  import opened Bytes
  import opened Disk
  import opened Journal
  import opened JournalCrash
  import opened BlockCache

  /** A block the file system may ask the cache for. */
  ghost predicate Cacheable(g: Geometry, d: Sectors, b: nat) {
    b < U32 && OnDevice(d, b) && b !in JournalBlocks(g)
  }

  ghost predicate Distinct(slots: seq<Slot>) {
    forall i, j :: 0 <= i < j < |slots| && slots[i].valid && slots[j].valid ==> slots[i].blk != slots[j].blk
  }

  /** Valid slots hold distinct file-system blocks, and clean ones agree with the disk. */
  ghost predicate Inv(g: Geometry, s: State) {
    && |s.slots| == SLOTS
    && Laid(g, s.disk)
    && Distinct(s.slots)
    && (forall i :: 0 <= i < SLOTS && s.slots[i].valid ==> Cacheable(g, s.disk, s.slots[i].blk))
    && (forall i :: 0 <= i < SLOTS && s.slots[i].valid && !s.slots[i].dirty ==>
          s.slots[i].data == BlockAt(s.disk, s.slots[i].blk))
  }

  /** What block `b` reads as. */
  function View(s: State, b: u32): Block {
    var i := Find(s.slots, b);
    if i >= 0 then s.slots[i].data else BlockAt(s.disk, b)
  }

  lemma FindIs(slots: seq<Slot>, b: u32, i: nat)
    requires Distinct(slots) && i < |slots| && Holds(slots[i], b)
    ensures Find(slots, b) == i
  {}

  // ---------- what a commit does to blocks ----------

  /** A commit, whatever it reports, changes only its destinations; when it reports success they
      all hold their payloads. */
  lemma CommitOnBlocks(g: Geometry, txn: u32, dest: seq<u32>, data: seq<Block>, d: Sectors, e: Sectors, ok: bool)
    requires Laid(g, d) && |dest| == |data| && CommitEffect(g, txn, dest, data, d, e, ok)
    requires forall i, j :: 0 <= i < j < |dest| ==> dest[i] != dest[j]
    requires forall i :: 0 <= i < |dest| ==> Cacheable(g, d, dest[i])
    ensures |e| == |d|
    ensures forall b: nat :: b !in JournalBlocks(g) && b !in Targets(dest) ==> BlockAt(e, b) == BlockAt(d, b)
    ensures ok ==> forall i :: 0 <= i < |dest| ==> BlockAt(e, dest[i]) == data[i]
  {
    hide CommitWrites, Apply, BlockAt, BatchWrites, EncodeHeader, BatchCrc;
    if |dest| == 0 || |dest| > g.slots {
    } else {
      SlotsInJournal(g, d, |dest|);
      var foot := Footprint(g, dest);
      if ok {
        SuccessfulCommit(g, txn, dest, data, d, e);
      }
      assert SameOutside(d, e, foot);
      forall b: nat | b !in JournalBlocks(g) && b !in Targets(dest)
        ensures BlockAt(e, b) == BlockAt(d, b)
      {
        SameBlock(d, e, foot, b);
      }
    }
  }

  lemma SuccessfulCommit(g: Geometry, txn: u32, dest: seq<u32>, data: seq<Block>, d: Sectors, e: Sectors)
    requires Laid(g, d) && 0 < |dest| == |data| <= g.slots
    requires SameOutside(Apply(d, CommitWrites(g, txn, dest, data)), e, {g.header})
    requires forall i, j :: 0 <= i < j < |dest| ==> dest[i] != dest[j]
    requires forall i :: 0 <= i < |dest| ==> Cacheable(g, d, dest[i])
    ensures SameOutside(d, e, Footprint(g, dest))
    ensures forall i :: 0 <= i < |dest| ==> BlockAt(e, dest[i]) == data[i]
  {
    hide CommitWrites, Apply, BlockAt, BatchWrites, EncodeHeader, BatchCrc;
    var d1 := Apply(d, BatchWrites(SlotDests(g, |dest|), data));
    var d2 := Staged(g, txn, d, dest, data);
    var d3 := Apply(d2, BatchWrites(dest, data));
    var d4 := Apply(d3, BlockWrites(g.header, ZERO_BLOCK));
    CommitInSteps(g, txn, dest, data, d);
    BatchSameOutside(d2, dest, data);
    StoppedInStep3(g, txn, d, d3, dest, data);
    BlockSameOutside(d3, g.header, ZERO_BLOCK);
    SameOutsideTrans(d3, d4, e, {g.header}, {g.header});
    assert {g.header} + {g.header} == {g.header};
    SameOutsideTrans(d, d3, e, Footprint(g, dest), {g.header});
    assert Footprint(g, dest) + {g.header} == Footprint(g, dest);
    assert |d2| == |d|;
    forall i | 0 <= i < |dest|
      ensures BlockAt(e, dest[i]) == data[i]
    {
      BatchLands(d2, dest, data, i);
      SameBlock(d3, e, {g.header}, dest[i]);
    }
  }

  // ---------- one call at a time ----------

  /** Same invariant, same views. */
  ghost predicate SameView(g: Geometry, s: State, t: State) {
    Inv(g, t) && |t.disk| == |s.disk| && forall b: u32 :: Cacheable(g, s.disk, b) ==> View(t, b) == View(s, b)
  }

  lemma FlushSlotTransparent(g: Geometry, s: State, i: nat, t: State, ok: bool)
    requires Inv(g, s) && i < SLOTS && FlushSlotEffect(g, s, i, t, ok)
    ensures SameView(g, s, t)
    ensures ok ==> t.slots == s.slots[i := Cleaned(s.slots[i])]
  {
    hide CommitEffect, BlockAt, FindFrom;
    var x := s.slots[i];
    if x.valid && x.dirty {
      CommitOnBlocks(g, s.txn, [x.blk], [x.data], s.disk, t.disk, ok);
      assert [x.blk][0] == x.blk;
      forall j | 0 <= j < SLOTS && t.slots[j].valid && !t.slots[j].dirty
        ensures t.slots[j].data == BlockAt(t.disk, t.slots[j].blk)
      {
        if j != i {
          assert s.slots[j].blk != x.blk;
        }
      }
      forall b: u32 | Cacheable(g, s.disk, b)
        ensures View(t, b) == View(s, b)
      {
        SameSlotsView(s.slots, t.slots, b);
        var f := Find(s.slots, b);
        if f < 0 {
          assert !Holds(x, b);
        }
      }
    }
  }

  /** Two tables that hold the same blocks in the same places find the same slots. */
  lemma SameSlotsView(a: seq<Slot>, c: seq<Slot>, b: u32)
    requires |a| == |c| && forall i :: 0 <= i < |a| ==> a[i].valid == c[i].valid && a[i].blk == c[i].blk
    ensures Find(a, b) == Find(c, b)
  {
    assert forall i :: 0 <= i < |a| ==> Holds(a[i], b) == Holds(c[i], b);
  }

  /** Dropping a clean slot, or reusing it for a block nobody holds, is invisible. */
  lemma ReplaceTransparent(g: Geometry, s: State, v: nat, x: Slot, t: State)
    requires Inv(g, s) && v < SLOTS && (!s.slots[v].valid || !s.slots[v].dirty)
    requires t.disk == s.disk && t.slots == s.slots[v := x]
    requires x.valid ==> Find(s.slots, x.blk) < 0 && Cacheable(g, s.disk, x.blk)
    requires x.valid && !x.dirty ==> x.data == BlockAt(s.disk, x.blk)
    ensures Inv(g, t)
    ensures forall b: u32 :: Cacheable(g, s.disk, b) && !(x.valid && b == x.blk) ==> View(t, b) == View(s, b)
    ensures x.valid ==> View(t, x.blk) == x.data
  {
    hide BlockAt, FindFrom;
    forall i, j | 0 <= i < j < SLOTS && t.slots[i].valid && t.slots[j].valid
      ensures t.slots[i].blk != t.slots[j].blk
    {
      if i == v {
        assert !Holds(s.slots[j], x.blk);
      } else if j == v {
        assert !Holds(s.slots[i], x.blk);
      }
    }
    if x.valid {
      assert Holds(t.slots[v], x.blk);
      FindIs(t.slots, x.blk, v);
    }
    forall b: u32 | Cacheable(g, s.disk, b) && !(x.valid && b == x.blk)
      ensures View(t, b) == View(s, b)
    {
      var f := Find(s.slots, b);
      if f >= 0 && f != v {
        assert Holds(t.slots[f], b);
        FindIs(t.slots, b, f);
      } else {
        forall j | 0 <= j < SLOTS
          ensures !Holds(t.slots[j], b)
        {
          assert j != v ==> t.slots[j] == s.slots[j];
        }
      }
    }
  }

  lemma TouchTransparent(g: Geometry, s: State, i: nat)
    requires Inv(g, s) && i < SLOTS
    ensures SameView(g, s, Touched(s, i))
  {
    hide BlockAt, FindFrom;
    forall b: u32
      ensures View(Touched(s, i), b) == View(s, b)
    {
      SameSlotsView(s.slots, Touched(s, i).slots, b);
    }
  }

  /** The state between eviction and refill. */
  function Between(s: State, v: nat, t: State): State
    requires v < |s.slots|
  {
    State(s.slots[v := Cleaned(s.slots[v])], s.clock, t.disk, t.txn)
  }

  /** A read changes no view, and a successful one returns the view of its block. */
  lemma ReadTransparent(g: Geometry, s: State, blk: u32, t: State, ok: bool, buf: Block)
    requires Inv(g, s) && Cacheable(g, s.disk, blk) && ReadEffect(g, s, blk, t, ok, buf)
    ensures SameView(g, s, t)
    ensures ok ==> buf == View(s, blk)
  {
    hide BlockAt, FindFrom, CommitEffect, FlushSlotEffect;
    var i := Find(s.slots, blk);
    if i >= 0 {
      TouchTransparent(g, s, i);
    } else {
      var v := Victim(s.slots);
      if FlushSlotEffect(g, s, v, t, false) && !ok {
        FlushSlotTransparent(g, s, v, t, false);
      } else {
        var m := Between(s, v, t);
        FlushSlotTransparent(g, s, v, m, true);
        SameSlotsView(s.slots, m.slots, blk);
        ReplaceTransparent(g, m, v, t.slots[v], t);
        assert View(m, blk) == View(s, blk);
      }
    }
  }

  /** A successful write changes the view of its block to what was written and no other view; a
      failed one changes none. */
  lemma WriteTransparent(g: Geometry, s: State, blk: u32, buf: Block, t: State, ok: bool)
    requires Inv(g, s) && Cacheable(g, s.disk, blk) && WriteEffect(g, s, blk, buf, t, ok)
    ensures Inv(g, t) && |t.disk| == |s.disk|
    ensures forall b: u32 :: Cacheable(g, s.disk, b) ==> View(t, b) == if ok && b == blk then buf else View(s, b)
  {
    hide BlockAt, FindFrom, CommitEffect, FlushSlotEffect;
    var i := Find(s.slots, blk);
    if i >= 0 {
      OverwriteTransparent(g, s, i, t.slots[i], t);
    } else {
      var v := Victim(s.slots);
      if FlushSlotEffect(g, s, v, t, false) && !ok {
        FlushSlotTransparent(g, s, v, t, false);
      } else {
        var m := Between(s, v, t);
        FlushSlotTransparent(g, s, v, m, true);
        SameSlotsView(s.slots, m.slots, blk);
        ReplaceTransparent(g, m, v, t.slots[v], t);
      }
    }
  }

  lemma OverwriteTransparent(g: Geometry, s: State, i: nat, x: Slot, t: State)
    requires Inv(g, s) && i < SLOTS && s.slots[i].valid && x.valid && x.dirty && x.blk == s.slots[i].blk
    requires t.disk == s.disk && t.slots == s.slots[i := x]
    ensures Inv(g, t)
    ensures forall b: u32 :: Cacheable(g, s.disk, b) ==> View(t, b) == if b == x.blk then x.data else View(s, b)
  {
    hide BlockAt, FindFrom;
    assert Holds(s.slots[i], x.blk);
    FindIs(s.slots, x.blk, i);
    forall b: u32 | Cacheable(g, s.disk, b)
      ensures View(t, b) == if b == x.blk then x.data else View(s, b)
    {
      SameSlotsView(s.slots, t.slots, b);
      if b != x.blk {
        assert !Holds(s.slots[i], b);
      }
    }
  }

  // ---------- flushing everything ----------

  /** Entry `k` of the dirty list comes from slot `i`. */
  predicate ListedAt(slots: seq<Slot>, i: nat, k: nat) {
    && i < |slots| && slots[i].valid && slots[i].dirty
    && k < |DirtyBlocks(slots)|
    && DirtyBlocks(slots)[k] == slots[i].blk && DirtyData(slots)[k] == slots[i].data
  }

  lemma {:induction false} DirtySource(slots: seq<Slot>, k: nat) returns (i: nat)
    requires k < |DirtyBlocks(slots)|
    ensures ListedAt(slots, i, k)
    decreases |slots|
  {
    var n := |slots| - 1;
    if k < |DirtyBlocks(slots[..n])| {
      i := DirtySource(slots[..n], k);
    } else {
      i := n;
    }
  }

  lemma {:induction false} DirtyEntry(slots: seq<Slot>, i: nat) returns (k: nat)
    requires i < |slots| && slots[i].valid && slots[i].dirty
    ensures ListedAt(slots, i, k)
    decreases |slots|
  {
    var n := |slots| - 1;
    if i < n {
      k := DirtyEntry(slots[..n], i);
    } else {
      k := |DirtyBlocks(slots[..n])|;
    }
  }

  lemma {:induction false} DirtyDistinct(slots: seq<Slot>)
    requires Distinct(slots)
    ensures forall i, j :: 0 <= i < j < |DirtyBlocks(slots)| ==> DirtyBlocks(slots)[i] != DirtyBlocks(slots)[j]
    decreases |slots|
  {
    if slots != [] {
      var n := |slots| - 1;
      DirtyDistinct(slots[..n]);
      forall k | 0 <= k < |DirtyBlocks(slots[..n])| && slots[n].valid && slots[n].dirty
        ensures DirtyBlocks(slots[..n])[k] != slots[n].blk
      {
        var i := DirtySource(slots[..n], k);
      }
    }
  }

  /** The dirty list is a batch the journal can take. */
  lemma DirtyIsBatch(g: Geometry, s: State)
    requires Inv(g, s)
    ensures forall i, j :: 0 <= i < j < |DirtyBlocks(s.slots)| ==> DirtyBlocks(s.slots)[i] != DirtyBlocks(s.slots)[j]
    ensures forall k :: 0 <= k < |DirtyBlocks(s.slots)| ==> Cacheable(g, s.disk, DirtyBlocks(s.slots)[k])
  {
    hide DirtyBlocks, DirtyData;
    DirtyDistinct(s.slots);
    forall k | 0 <= k < |DirtyBlocks(s.slots)|
      ensures Cacheable(g, s.disk, DirtyBlocks(s.slots)[k])
    {
      var i := DirtySource(s.slots, k);
    }
  }

  /** A flush changes no view; a successful one leaves every slot clean and the disk equal to
      the view. */
  lemma FlushTransparent(g: Geometry, s: State, t: State, ok: bool)
    requires Inv(g, s) && FlushEffect(g, s, t, ok)
    ensures SameView(g, s, t)
    ensures ok ==> forall i :: 0 <= i < SLOTS && t.slots[i].valid ==> !t.slots[i].dirty
    ensures ok ==> forall b: u32 :: Cacheable(g, s.disk, b) ==> BlockAt(t.disk, b) == View(s, b)
  {
    hide BlockAt, FindFrom, CommitEffect, DirtyBlocks, DirtyData;
    var dest, data := DirtyBlocks(s.slots), DirtyData(s.slots);
    if dest == [] {
      NoneDirty(s.slots);
    } else {
      DirtyIsBatch(g, s);
      CommitOnBlocks(g, s.txn, dest, data, s.disk, t.disk, ok);
    }
    forall i | 0 <= i < SLOTS && s.slots[i].valid && (ok || !s.slots[i].dirty)
      ensures s.slots[i].data == BlockAt(t.disk, s.slots[i].blk)
    {
      FlushedSlot(g, s, t, ok, i);
    }
    forall b: u32 | Cacheable(g, s.disk, b)
      ensures View(t, b) == View(s, b)
      ensures ok ==> BlockAt(t.disk, b) == View(s, b)
    {
      SameSlotsView(s.slots, t.slots, b);
      if Find(s.slots, b) < 0 && b in Targets(dest) {
        var k :| 0 <= k < |dest| && dest[k] == b;
        var i := DirtySource(s.slots, k);
        assert false;
      }
    }
  }

  lemma NoneDirty(slots: seq<Slot>)
    requires DirtyBlocks(slots) == []
    ensures forall i :: 0 <= i < |slots| && slots[i].valid ==> !slots[i].dirty
  {
    forall i | 0 <= i < |slots| && slots[i].valid && slots[i].dirty
      ensures false
    {
      var k := DirtyEntry(slots, i);
    }
  }

  lemma FlushedSlot(g: Geometry, s: State, t: State, ok: bool, i: nat)
    requires Inv(g, s) && FlushEffect(g, s, t, ok)
    requires i < SLOTS && s.slots[i].valid && (ok || !s.slots[i].dirty)
    ensures s.slots[i].data == BlockAt(t.disk, s.slots[i].blk)
  {
    hide BlockAt, CommitEffect, DirtyBlocks, DirtyData;
    var dest, data := DirtyBlocks(s.slots), DirtyData(s.slots);
    if dest == [] {
      NoneDirty(s.slots);
    } else {
      DirtyIsBatch(g, s);
      CommitOnBlocks(g, s.txn, dest, data, s.disk, t.disk, ok);
      if s.slots[i].dirty {
        var k := DirtyEntry(s.slots, i);
        assert dest[k] == s.slots[i].blk;
      } else if s.slots[i].blk in Targets(dest) {
        var k :| 0 <= k < |dest| && dest[k] == s.slots[i].blk;
        var j := DirtySource(s.slots, k);
        assert false;
      }
    }
  }

  // ---------- whole runs ----------

  /** One call of the cache and what it reported. */
  datatype Event =
    | Read(blk: u32, ok: bool, buf: Block)
    | Write(blk: u32, buf: Block, ok: bool)
    | Flush(ok: bool)

  ghost predicate Step(g: Geometry, s: State, e: Event, t: State) {
    g.slots <= DATA_BLOCKS && |s.slots| == SLOTS &&
    match e
    case Read(blk, ok, buf) => Cacheable(g, s.disk, blk) && ReadEffect(g, s, blk, t, ok, buf)
    case Write(blk, buf, ok) => Cacheable(g, s.disk, blk) && WriteEffect(g, s, blk, buf, t, ok)
    case Flush(ok) => FlushEffect(g, s, t, ok)
  }

  /** A run: each state follows from the one before by the event between them. */
  ghost predicate Run(g: Geometry, ss: seq<State>, es: seq<Event>) {
    |ss| == |es| + 1 && forall i :: 0 <= i < |es| ==> Step(g, ss[i], es[i], ss[i + 1])
  }

  /** What block `b` holds after the events `es`, if it held `init` before: the last successful
      write to it decides. */
  function LastWritten(es: seq<Event>, b: u32, init: Block): Block
    decreases |es|
  {
    if es == [] then init
    else
      var e := es[|es| - 1];
      if e.Write? && e.ok && e.blk == b then e.buf else LastWritten(es[..|es| - 1], b, init)
  }

  lemma StepTransparent(g: Geometry, s: State, e: Event, t: State)
    requires Inv(g, s) && Step(g, s, e, t)
    ensures Inv(g, t) && |t.disk| == |s.disk|
    ensures forall b: u32 :: Cacheable(g, s.disk, b) ==>
              View(t, b) == if e.Write? && e.ok && e.blk == b then e.buf else View(s, b)
    ensures e.Read? && e.ok ==> e.buf == View(s, e.blk)
    ensures e.Flush? && e.ok ==> forall b: u32 :: Cacheable(g, s.disk, b) ==> BlockAt(t.disk, b) == View(s, b)
  {
    hide View, BlockAt, ReadEffect, WriteEffect, FlushEffect;
    match e
    case Read(blk, ok, buf) => ReadTransparent(g, s, blk, t, ok, buf);
    case Write(blk, buf, ok) => WriteTransparent(g, s, blk, buf, t, ok);
    case Flush(ok) => FlushTransparent(g, s, t, ok);
  }

  /** At every point of every run the invariant holds and every block's view is what was last
      successfully written to it. */
  lemma {:induction false} RunTransparent(g: Geometry, ss: seq<State>, es: seq<Event>, n: nat)
    requires Run(g, ss, es) && Inv(g, ss[0]) && n <= |es|
    ensures Inv(g, ss[n]) && |ss[n].disk| == |ss[0].disk|
    ensures forall b: u32 :: Cacheable(g, ss[0].disk, b) ==>
              View(ss[n], b) == LastWritten(es[..n], b, View(ss[0], b))
  {
    hide View, BlockAt, Inv, Step;
    if n > 0 {
      RunTransparent(g, ss, es, n - 1);
      assert Step(g, ss[n - 1], es[n - 1], ss[n - 1 + 1]);
      StepTransparent(g, ss[n - 1], es[n - 1], ss[n]);
      assert es[..n][..n - 1] == es[..n - 1];
    }
  }

  /** In any run, with the device failing however it likes, a successful read returns the last
      successful write to its block, or else what the disk held when the cache started empty;
      and after a successful flush the disk itself holds that. */
  lemma ReadsSeeWrites(g: Geometry, ss: seq<State>, es: seq<Event>, n: nat)
    requires Run(g, ss, es) && Inv(g, ss[0]) && n < |es|
    requires forall i :: 0 <= i < |ss[0].slots| ==> !ss[0].slots[i].valid
    ensures es[n].Read? && es[n].ok ==>
              es[n].buf == LastWritten(es[..n], es[n].blk, BlockAt(ss[0].disk, es[n].blk))
    ensures es[n].Flush? && es[n].ok ==> forall b: u32 :: Cacheable(g, ss[0].disk, b) ==>
              BlockAt(ss[n + 1].disk, b) == LastWritten(es[..n], b, BlockAt(ss[0].disk, b))
  {
    hide View, BlockAt, Inv, LastWritten;
    RunTransparent(g, ss, es, n);
    var s, t := ss[n], ss[n + 1];
    assert Step(g, s, es[n], t);
    StepTransparent(g, s, es[n], t);
    forall b: u32
      ensures View(ss[0], b) == BlockAt(ss[0].disk, b)
    {
      EmptyView(g, ss[0], b);
    }
  }

  lemma EmptyView(g: Geometry, s: State, b: u32)
    requires Inv(g, s) && forall i :: 0 <= i < |s.slots| ==> !s.slots[i].valid
    ensures View(s, b) == BlockAt(s.disk, b)
  {}
}

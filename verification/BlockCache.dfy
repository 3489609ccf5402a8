/** The 32-slot write-back block cache (kernel/core/osfs2_cache.c) on top of the journal. */
module BlockCache {
  import opened Bytes
  import opened Disk
  import opened Journal

  const SLOTS: nat := 32

  datatype Slot = Slot(blk: u32, valid: bool, dirty: bool, lastUsed: nat, data: Block)

  /** The cache, the disk under it and the journal's next transaction id. */
  datatype State = State(slots: seq<Slot>, clock: nat, disk: Sectors, txn: u32)

  function Tick(clock: nat): nat {
    (clock + 1) % U64
  }

  // ---------- finding and choosing slots ----------

  predicate Holds(s: Slot, blk: u32) {
    s.valid && s.blk == blk
  }

  /** Index of the first slot from `i` on that holds `blk`, or -1. */
  function FindFrom(slots: seq<Slot>, blk: u32, i: nat): (r: int)
    requires i <= |slots|
    ensures -1 <= r < |slots|
    ensures r >= 0 ==> i <= r && Holds(slots[r], blk)
    ensures forall j :: i <= j < (if r < 0 then |slots| else r) ==> !Holds(slots[j], blk)
    decreases |slots| - i
  {
    if i == |slots| then -1 else if Holds(slots[i], blk) then i else FindFrom(slots, blk, i + 1)
  }

  function Find(slots: seq<Slot>, blk: u32): int {
    FindFrom(slots, blk, 0)
  }

  /** Index of the first invalid slot from `i` on, or the number of slots. */
  function FirstInvalid(slots: seq<Slot>, i: nat): (r: nat)
    requires i <= |slots|
    ensures i <= r <= |slots|
    ensures r < |slots| ==> !slots[r].valid
    ensures forall j :: i <= j < r ==> slots[j].valid
    decreases |slots| - i
  {
    if i == |slots| || !slots[i].valid then i else FirstInvalid(slots, i + 1)
  }

  /** First of the least recently used among the first `n` slots. */
  function Oldest(slots: seq<Slot>, n: nat): (r: nat)
    requires 0 < n <= |slots|
    ensures r < n
    ensures forall j :: 0 <= j < n ==> slots[r].lastUsed <= slots[j].lastUsed
    ensures forall j :: 0 <= j < r ==> slots[r].lastUsed < slots[j].lastUsed
  {
    if n == 1 then 0
    else
      var m := Oldest(slots, n - 1);
      if slots[n - 1].lastUsed < slots[m].lastUsed then n - 1 else m
  }

  /** The first invalid slot; if all are valid, the first of those used least recently. */
  function Victim(slots: seq<Slot>): (r: nat)
    requires |slots| > 0
    ensures r < |slots|
    ensures (exists i :: 0 <= i < |slots| && !slots[i].valid) ==>
              !slots[r].valid && forall j :: 0 <= j < r ==> slots[j].valid
    ensures (forall i :: 0 <= i < |slots| ==> slots[i].valid) ==>
              && (forall j :: 0 <= j < |slots| ==> slots[r].lastUsed <= slots[j].lastUsed)
              && (forall j :: 0 <= j < r ==> slots[r].lastUsed < slots[j].lastUsed)
  {
    var i := FirstInvalid(slots, 0);
    if i < |slots| then i else Oldest(slots, |slots|)
  }

  // ---------- the dirty slots, in slot order ----------

  function DirtyBlocks(slots: seq<Slot>): (d: seq<u32>)
    ensures |d| <= |slots|
    decreases |slots|
  {
    if slots == [] then []
    else
      var n := |slots| - 1;
      DirtyBlocks(slots[..n]) + if slots[n].valid && slots[n].dirty then [slots[n].blk] else []
  }

  function DirtyData(slots: seq<Slot>): (d: seq<Block>)
    ensures |d| == |DirtyBlocks(slots)|
    decreases |slots|
  {
    if slots == [] then []
    else
      var n := |slots| - 1;
      DirtyData(slots[..n]) + if slots[n].valid && slots[n].dirty then [slots[n].data] else []
  }

  function Cleaned(s: Slot): Slot {
    if s.valid && s.dirty then s.(dirty := false) else s
  }

  function AllCleaned(slots: seq<Slot>): (r: seq<Slot>)
    ensures |r| == |slots|
    ensures forall i :: 0 <= i < |r| ==> r[i] == Cleaned(slots[i])
  {
    seq(|slots|, (i: nat) requires i < |slots| => Cleaned(slots[i]))
  }

  // ---------- what each call may do, whatever the device does ----------

  function Touched(s: State, i: nat): State
    requires i < |s.slots|
  {
    s.(slots := s.slots[i := s.slots[i].(lastUsed := Tick(s.clock))], clock := Tick(s.clock))
  }

  /** `flush_slot` took `s` to `t`. */
  ghost predicate FlushSlotEffect(g: Geometry, s: State, i: nat, t: State, ok: bool)
    requires g.slots <= DATA_BLOCKS && i < |s.slots|
  {
    var x := s.slots[i];
    t.clock == s.clock &&
    if !x.valid || !x.dirty then ok && t == s
    else
      CommitEffect(g, s.txn, [x.blk], [x.data], s.disk, t.disk, ok)
      && t.slots == if ok then s.slots[i := Cleaned(x)] else s.slots
  }

  /** The fill after a miss, into slot `v`. */
  ghost predicate FillEffect(s: State, v: nat, blk: u32, t: State, ok: bool, buf: Block)
    requires v < |s.slots|
  {
    if ok then
      && t.clock == Tick(s.clock)
      && buf == BlockAt(t.disk, blk)
      && t.slots == s.slots[v := Slot(blk, true, false, Tick(s.clock), buf)]
    else
      t.clock == s.clock && |t.slots| == |s.slots| && !t.slots[v].valid && t.slots == s.slots[v := t.slots[v]]
  }

  ghost predicate ReadEffect(g: Geometry, s: State, blk: u32, t: State, ok: bool, buf: Block)
    requires g.slots <= DATA_BLOCKS && |s.slots| == SLOTS
  {
    var i := Find(s.slots, blk);
    if i >= 0 then ok && buf == s.slots[i].data && t == Touched(s, i)
    else
      var v := Victim(s.slots);
      || (FlushSlotEffect(g, s, v, t, false) && !ok)
      || (FlushSlotEffect(g, s, v, State(s.slots[v := Cleaned(s.slots[v])], s.clock, t.disk, t.txn), true)
          && FillEffect(s, v, blk, t, ok, buf))
  }

  ghost predicate WriteEffect(g: Geometry, s: State, blk: u32, buf: Block, t: State, ok: bool)
    requires g.slots <= DATA_BLOCKS && |s.slots| == SLOTS
  {
    var i := Find(s.slots, blk);
    var v := if i >= 0 then i else Victim(s.slots);
    var written := s.slots[v := Slot(blk, true, true, Tick(s.clock), buf)];
    if i >= 0 then ok && t == State(written, Tick(s.clock), s.disk, s.txn)
    else
      || (FlushSlotEffect(g, s, v, t, false) && !ok)
      || (FlushSlotEffect(g, s, v, State(s.slots[v := Cleaned(s.slots[v])], s.clock, t.disk, t.txn), true)
          && ok && t.slots == written && t.clock == Tick(s.clock))
  }

  ghost predicate FlushEffect(g: Geometry, s: State, t: State, ok: bool)
    requires g.slots <= DATA_BLOCKS
  {
    var dest, data := DirtyBlocks(s.slots), DirtyData(s.slots);
    t.clock == s.clock &&
    if dest == [] then ok && t == s
    else
      CommitEffect(g, s.txn, dest, data, s.disk, t.disk, ok)
      && t.slots == if ok then AllCleaned(s.slots) else s.slots
  }

  // ---------- what each call does when no transfer fails ----------

  function EvictWrites(g: Geometry, s: State, v: nat): seq<Write>
    requires v < |s.slots|
  {
    var x := s.slots[v];
    if x.valid && x.dirty then CommitWrites(g, s.txn, [x.blk], [x.data]) else []
  }

  function Evicted(g: Geometry, s: State, v: nat): State
    requires v < |s.slots|
  {
    var x := s.slots[v];
    if x.valid && x.dirty then
      State(s.slots[v := Cleaned(x)], s.clock, Apply(s.disk, EvictWrites(g, s, v)), (s.txn + 1) % U32)
    else s
  }

  function AfterRead(g: Geometry, s: State, blk: u32): State
    requires |s.slots| == SLOTS
  {
    var i := Find(s.slots, blk);
    if i >= 0 then Touched(s, i)
    else
      var v := Victim(s.slots);
      var e := Evicted(g, s, v);
      State(e.slots[v := Slot(blk, true, false, Tick(e.clock), BlockAt(e.disk, blk))], Tick(e.clock), e.disk, e.txn)
  }

  function AfterWrite(g: Geometry, s: State, blk: u32, buf: Block): State
    requires |s.slots| == SLOTS
  {
    var i := Find(s.slots, blk);
    var v := if i >= 0 then i else Victim(s.slots);
    var e := if i >= 0 then s else Evicted(g, s, v);
    State(e.slots[v := Slot(blk, true, true, Tick(e.clock), buf)], Tick(e.clock), e.disk, e.txn)
  }

  /** The sector writes of one read or write: those of evicting a dirty victim on a miss. */
  function MissWrites(g: Geometry, s: State, blk: u32): seq<Write>
    requires |s.slots| == SLOTS
  {
    if Find(s.slots, blk) >= 0 then [] else EvictWrites(g, s, Victim(s.slots))
  }

  function FlushWrites(g: Geometry, s: State): seq<Write>
    requires |s.slots| == SLOTS
  {
    if DirtyBlocks(s.slots) == [] then []
    else CommitWrites(g, s.txn, DirtyBlocks(s.slots), DirtyData(s.slots))
  }

  function AfterFlush(g: Geometry, s: State): State
    requires |s.slots| == SLOTS
  {
    if DirtyBlocks(s.slots) == [] then s
    else State(AllCleaned(s.slots), s.clock, Apply(s.disk, FlushWrites(g, s)), (s.txn + 1) % U32)
  }

  // ---------- the cache ----------

  class Cache {
    const dev: VirtioBlk
    const log: Log
    const slots: array<Slot>
    var clock: nat

    ghost predicate Valid()
      reads this, log, slots
    {
      && log.dev == dev && log.Valid()
      && slots.Length == SLOTS
      && clock < U64 && forall i :: 0 <= i < SLOTS ==> slots[i].lastUsed < U64
    }

    ghost function Now(): State
      reads this, dev, log, slots
    {
      State(slots[..], clock, dev.sectors, log.nextTxn)
    }

    /** The device has not failed and the journal has one slot per cache slot, as mkosfs2.py lays it out. */
    ghost predicate Sound()
      reads dev, log
    {
      dev.faultless && log.geometry.slots == DATA_BLOCKS
    }

    /** `osfs2_cache_init`: every slot starts out empty. */
    constructor (log: Log)
      requires log.Valid()
      ensures Valid() && this.log == log && dev == log.dev && fresh(slots)
      ensures clock == 0 && forall i :: 0 <= i < SLOTS ==> slots[i] == Slot(0, false, false, 0, ZERO_BLOCK)
    {
      this.log := log;
      dev := log.dev;
      slots := new Slot[SLOTS](_ => Slot(0, false, false, 0, ZERO_BLOCK));
      clock := 0;
    }

    method FindSlot(blk: u32) returns (idx: int)
      requires Valid()
      ensures idx == Find(slots[..], blk)
    {
      for i := 0 to SLOTS
        invariant FindFrom(slots[..], blk, 0) == FindFrom(slots[..], blk, i)
      {
        if slots[i].valid && slots[i].blk == blk {
          return i;
        }
      }
      return -1;
    }

    method PickVictim() returns (victim: nat)
      requires Valid()
      ensures victim == Victim(slots[..])
    {
      victim := 0;
      var oldest := U64 - 1;
      for i := 0 to SLOTS
        invariant FirstInvalid(slots[..], 0) == FirstInvalid(slots[..], i)
        invariant i == 0 ==> victim == 0 && oldest == U64 - 1
        invariant i > 0 ==> victim == Oldest(slots[..], i) && oldest == slots[victim].lastUsed
      {
        if !slots[i].valid {
          return i;
        }
        if slots[i].lastUsed < oldest {
          oldest := slots[i].lastUsed;
          victim := i;
        } else if i == 0 {
          assert slots[0].lastUsed == oldest;
        }
      }
    }

    method FlushSlot(idx: nat) returns (ok: bool)
      requires Valid() && idx < SLOTS
      modifies slots, log`nextTxn, log`commits, log`journalled, dev
      ensures Valid()
      ensures FlushSlotEffect(log.geometry, old(Now()), idx, Now(), ok)
      ensures dev.faultless ==> old(dev.faultless)
      ensures Sound() ==> ok && Now() == Evicted(log.geometry, old(Now()), idx)
                          && dev.log == old(dev.log) + EvictWrites(log.geometry, old(Now()), idx)
    {
      hide CommitWrites, Apply;
      var x := slots[idx];
      if !x.valid || !x.dirty {
        return true;
      }
      ok := log.Commit([x.blk], [x.data]);
      if !ok {
        return;
      }
      slots[idx] := x.(dirty := false);
    }

    /** `osfs2_cache_read`. */
    method Read(blk: u32) returns (ok: bool, buf: Block)
      requires Valid()
      modifies this`clock, slots, log`nextTxn, log`commits, log`journalled, dev
      ensures Valid()
      ensures ReadEffect(log.geometry, old(Now()), blk, Now(), ok, buf)
      ensures Sound() ==> ok && Now() == AfterRead(log.geometry, old(Now()), blk)
                          && dev.log == old(dev.log) + MissWrites(log.geometry, old(Now()), blk)
    {
      hide CommitWrites, Apply, BlockAt, FindFrom, CommitEffect;
      var idx := FindSlot(blk);
      if idx >= 0 {
        clock := (clock + 1) % U64;
        slots[idx] := slots[idx].(lastUsed := clock);
        return true, slots[idx].data;
      }
      var v := PickVictim();
      if slots[v].valid && slots[v].dirty {
        var flushed := FlushSlot(v);
        if !flushed {
          buf := *;
          return false, buf;
        }
      }
      ok, buf := dev.RawRead(blk);
      if !ok {
        // The slot's buffer may be partly overwritten; the slot is dropped.
        var partial: Block := *;
        slots[v] := slots[v].(data := partial, valid := false);
        return;
      }
      clock := (clock + 1) % U64;
      slots[v] := Slot(blk, true, false, clock, buf);
    }

    /** `osfs2_cache_write`: the caller supplies the whole block, so nothing is read. */
    method Write(blk: u32, buf: Block) returns (ok: bool)
      requires Valid()
      modifies this`clock, slots, log`nextTxn, log`commits, log`journalled, dev
      ensures Valid()
      ensures WriteEffect(log.geometry, old(Now()), blk, buf, Now(), ok)
      ensures Sound() ==> ok && Now() == AfterWrite(log.geometry, old(Now()), blk, buf)
                          && dev.log == old(dev.log) + MissWrites(log.geometry, old(Now()), blk)
    {
      hide CommitWrites, Apply, BlockAt, FindFrom, CommitEffect;
      var idx := FindSlot(blk);
      if idx < 0 {
        idx := PickVictim();
        if slots[idx].valid && slots[idx].dirty {
          ok := FlushSlot(idx);
          if !ok {
            return;
          }
        }
        slots[idx] := slots[idx].(blk := blk, valid := true);
      }
      clock := (clock + 1) % U64;
      slots[idx] := slots[idx].(data := buf, dirty := true, lastUsed := clock);
      ok := true;
    }

    /** The scan at the head of `osfs2_cache_flush`. */
    method CollectDirty() returns (dest: seq<u32>, data: seq<Block>, picks: seq<nat>)
      requires Valid()
      ensures dest == DirtyBlocks(slots[..]) && data == DirtyData(slots[..])
      ensures Picked(slots[..], picks)
    {
      dest, data, picks := [], [], [];
      for i := 0 to SLOTS
        invariant dest == DirtyBlocks(slots[..i]) && data == DirtyData(slots[..i])
        invariant Picked(slots[..i], picks)
      {
        assert slots[..i + 1][..i] == slots[..i];
        if slots[i].valid && slots[i].dirty {
          dest, data, picks := dest + [slots[i].blk], data + [slots[i].data], picks + [i];
        }
      }
      assert slots[..SLOTS] == slots[..];
    }

    /** `osfs2_cache_flush`: every dirty slot in one transaction. */
    method Flush() returns (ok: bool)
      requires Valid()
      modifies slots, log`nextTxn, log`commits, log`journalled, dev
      ensures Valid()
      ensures FlushEffect(log.geometry, old(Now()), Now(), ok)
      ensures Sound() ==> ok && Now() == AfterFlush(log.geometry, old(Now()))
                          && dev.log == old(dev.log) + FlushWrites(log.geometry, old(Now()))
    {
      hide CommitWrites, Apply, CommitEffect, DirtyBlocks, DirtyData;
      var dest, data, picks := CollectDirty();
      if |dest| == 0 {
        assert dev.log + [] == dev.log;
        return true;
      }
      ok := log.Commit(dest, data);
      if !ok {
        return;
      }
      ghost var before := slots[..];
      for k := 0 to |picks|
        modifies slots
        invariant PartlyCleaned(before, slots[..], picks[..k])
        invariant Picked(before, picks)
      {
        slots[picks[k]] := slots[picks[k]].(dirty := false);
      }
      assert picks[..|picks|] == picks;
      PickedCleansAll(before, slots[..], picks);
    }
  }

  /** `picks` lists exactly the dirty slots. */
  ghost predicate Picked(slots: seq<Slot>, picks: seq<nat>) {
    && (forall k :: 0 <= k < |picks| ==> picks[k] < |slots| && slots[picks[k]].valid && slots[picks[k]].dirty)
    && (forall i :: 0 <= i < |slots| && slots[i].valid && slots[i].dirty ==> i in picks)
  }

  ghost predicate PartlyCleaned(slots: seq<Slot>, now: seq<Slot>, picks: seq<nat>) {
    |now| == |slots| &&
    forall i :: 0 <= i < |slots| ==> now[i] == if i in picks then slots[i].(dirty := false) else slots[i]
  }

  lemma PickedCleansAll(slots: seq<Slot>, now: seq<Slot>, picks: seq<nat>)
    requires Picked(slots, picks) && PartlyCleaned(slots, now, picks)
    ensures now == AllCleaned(slots)
  {}
}

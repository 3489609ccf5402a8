/** The slot table of the page cache as it runs (kernel/core/page_cache.c), one call at a time. */
module PageCacheTable {
  import opened Bytes
  import opened PageCache

  class Table {
    const slots: array<Slot>
    var clock: nat
    var free: seq<nat>                       // the frame allocator's list
    var mem: map<nat, Page>
    ghost const others: set<nat>
    ghost var maps: map<(nat, nat), Mapping>

    ghost function State(): State
      reads this, slots
    {
      PageCache.State(slots[..], clock, free, others, mem, maps)
    }

    /** `page_cache_init`. */
    constructor (free: seq<nat>, mem: map<nat, Page>, ghost others: set<nat>)
      ensures fresh(slots)
      ensures State() == PageCache.State(seq(SLOTS, (_: nat) => Slot(false, 0, 0, 0, 0, 0)), 1, free, others, mem, map[])
    {
      slots := new Slot[SLOTS](_ => Slot(false, 0, 0, 0, 0, 0));
      clock, this.free, this.mem, this.others, maps := 1, free, mem, others, map[];
      new;
      assert slots[..] == seq(SLOTS, (_: nat) => Slot(false, 0, 0, 0, 0, 0));
    }

    /** `find_slot_locked`. */
    method FindSlot(id: nat, offset: nat) returns (i: int)
      ensures i == FindKey(slots[..], id, offset, 0)
    {
      i := 0;
      while i < slots.Length && !(slots[i].used && slots[i].id == id && slots[i].offset == offset)
        invariant 0 <= i <= slots.Length
        invariant FindKey(slots[..], id, offset, 0) == FindKey(slots[..], id, offset, i)
      {
        i := i + 1;
      }
      if i == slots.Length {
        i := -1;
      }
    }

    /** `find_slot_by_pa_locked`. */
    method FindByPa(pa: nat) returns (i: int)
      ensures i == FindPa(slots[..], pa, 0)
    {
      i := 0;
      while i < slots.Length && !(slots[i].used && slots[i].pa == pa)
        invariant 0 <= i <= slots.Length
        invariant FindPa(slots[..], pa, 0) == FindPa(slots[..], pa, i)
      {
        i := i + 1;
      }
      if i == slots.Length {
        i := -1;
      }
    }

    /** `pick_victim_locked`. */
    method PickVictim() returns (best: int)
      ensures best == Victim(slots[..], 0, -1, NEVER)
    {
      best := -1;
      var bestClock := NEVER;
      for i := 0 to slots.Length
        invariant Victim(slots[..], 0, -1, NEVER) == Victim(slots[..], i, best, bestClock)
      {
        if !slots[i].used {
          return i;
        }
        if slots[i].refcount == 0 && slots[i].lastUsed < bestClock {
          best, bestClock := i, slots[i].lastUsed;
        }
      }
    }

    /** One more user of a slot that holds the page already. */
    method Hit(i: nat) returns (pa: nat)
      requires i < slots.Length
      modifies `clock, slots
      ensures State() == Touch(old(State()), i) && pa == old(slots[i]).pa
    {
      clock := Tick(clock);
      slots[i] := slots[i].(refcount := slots[i].refcount + 1, lastUsed := clock);
      return slots[i].pa;
    }

    /** `page_cache_get_or_load`. The victim's frame is freed first; the key and the victim are then
        looked up a second time, as the code does because it let go of its lock. */
    method GetOrLoad(files: seq<seq<byte>>, id: nat, offset: nat) returns (pa: nat)
      modifies `clock, `free, `mem, slots
      ensures (State(), pa) == PageCache.GetOrLoad(old(State()), files, id, offset)
    {
      hide FindKey, Victim, FilePage;
      if offset % PAGE_SIZE != 0 {
        return 0;
      }
      FindKeyIs(slots[..], id, offset, 0);
      var idx := FindSlot(id, offset);
      if idx >= 0 {
        pa := Hit(idx);
        return;
      }
      VictimIs(slots[..]);
      var victim := PickVictim();
      if victim < 0 {
        return 0;
      }
      if slots[victim].used {
        free := [slots[victim].pa] + free;
      }
      idx := FindSlot(id, offset);
      if idx >= 0 {
        assert false;
      }
      victim := PickVictim();
      pa := Fill(files, id, offset, victim);
    }

    /** Reserving the slot, allocating a zeroed frame and running the loader. */
    method Fill(files: seq<seq<byte>>, id: nat, offset: nat, v: nat) returns (pa: nat)
      requires v < slots.Length
      modifies `clock, `free, `mem, slots
      ensures (State(), pa) == LoadInto(old(State()), files, id, offset, v)
    {
      clock := Tick(clock);
      slots[v] := Slot(true, id, offset, 0, 1, clock);
      if free == [] {
        slots[v] := slots[v].(used := false, refcount := 0);
        assert slots[..] == old(slots[..])[v := slots[v]];
        return 0;
      }
      pa, free := free[0], free[1..];
      mem := mem[pa := Zeros(4096)];
      if id >= |files| {
        free := [pa] + free;
        slots[v] := slots[v].(used := false, refcount := 0);
        assert slots[..] == old(slots[..])[v := slots[v]] && free == old(free);
        return 0;
      }
      var page := CopyIn(files[id], offset);
      mem := mem[pa := page];
      slots[v] := slots[v].(pa := pa);
      assert slots[..] == old(slots[..])[v := slots[v]] && mem == old(mem)[pa := page];
    }

    /** `ramfs_loader` in kernel/arch/address_space.c: the bytes there are, into a zeroed page. */
    method CopyIn(blob: seq<byte>, offset: nat) returns (page: Page)
      ensures page == FilePage(blob, offset)
    {
      var n := if offset >= |blob| then 0 else if |blob| - offset < PAGE_SIZE then |blob| - offset else PAGE_SIZE;
      page := Zeros(4096);
      for k := 0 to n
        invariant forall j: nat :: j < 4096 ==> page[j] == if j < k then blob[offset + j] else 0
      {
        page := page[k := blob[offset + k]];
      }
    }

    /** `page_cache_release`. */
    method Release(pa: nat)
      modifies slots
      ensures State() == PageCache.Release(old(State()), pa)
    {
      hide FindPa;
      if pa == 0 {
        return;
      }
      FindPaBound(slots[..], pa, 0);
      var i := FindByPa(pa);
      if i < 0 {
        return;
      }
      if slots[i].refcount > 0 {
        slots[i] := slots[i].(refcount := slots[i].refcount - 1);
      }
    }
  }

  lemma {:induction false} FindPaBound(slots: seq<Slot>, pa: nat, i: nat)
    ensures -1 <= FindPa(slots, pa, i) < |slots|
    decreases |slots| - i
  {
    if i < |slots| && !(slots[i].used && slots[i].pa == pa) {
      FindPaBound(slots, pa, i + 1);
    }
  }
}

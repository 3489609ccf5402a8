/** The cache of file pages behind mmap (kernel/core/page_cache.c and the file half of
    `address_space_handle_mmap_fault` in kernel/arch/address_space.c), one call at a time. */
module PageCache {
  import opened Bytes

  const SLOTS: nat := 32              // PAGE_CACHE_SLOTS
  const PAGE_SIZE: nat := 4096

  type Page = p: seq<byte> | |p| == 4096 witness Zeros(4096)

  datatype Slot = Slot(used: bool, id: nat, offset: nat, pa: nat, refcount: nat, lastUsed: nat)

  /** A page-cache descriptor: the frame it maps, and what it was mapped for. */
  datatype Mapping = Mapping(pa: nat, id: nat, offset: nat)

  /** The slots, the clock, the free frames (most recently freed first), the frames in use
      elsewhere, the memory, and all page-cache descriptors of all address spaces. */
  datatype State = State(slots: seq<Slot>, clock: nat, free: seq<nat>, others: set<nat>,
                         mem: map<nat, Page>, maps: map<(nat, nat), Mapping>)

  /** The page of a file at `offset`: its bytes, and zeroes past its end. */
  function FilePage(blob: seq<byte>, offset: nat): (p: Page) {
    seq<byte>(4096, (k: nat) => if offset + k < |blob| then blob[offset + k] else 0)
  }

  // ---------- the scans ----------

  function FindKey(slots: seq<Slot>, id: nat, offset: nat, i: nat): int
    decreases |slots| - i
  {
    if i >= |slots| then -1
    else if slots[i].used && slots[i].id == id && slots[i].offset == offset then i
    else FindKey(slots, id, offset, i + 1)
  }

  function FindPa(slots: seq<Slot>, pa: nat, i: nat): int
    decreases |slots| - i
  {
    if i >= |slots| then -1
    else if slots[i].used && slots[i].pa == pa then i
    else FindPa(slots, pa, i + 1)
  }

  /** `pick_victim_locked` from slot `i` on: a free slot, else the idle one used longest ago. */
  function Victim(slots: seq<Slot>, i: nat, best: int, bestClock: nat): int
    decreases |slots| - i
  {
    if i >= |slots| then best
    else if !slots[i].used then i
    else if slots[i].refcount == 0 && slots[i].lastUsed < bestClock then Victim(slots, i + 1, i, slots[i].lastUsed)
    else Victim(slots, i + 1, best, bestClock)
  }

  const NEVER: nat := 0xFFFF_FFFF

  // ---------- the operations ----------

  function Tick(clock: nat): nat {
    (clock + 1) % U32
  }

  function Touch(s: State, i: nat): State
    requires i < |s.slots|
  {
    var x := s.slots[i];
    s.(clock := Tick(s.clock), slots := s.slots[i := x.(refcount := x.refcount + 1, lastUsed := Tick(s.clock))])
  }

  /** `page_cache_get_or_load`: the frame, or 0. The loader of file `id` copies from `files[id]`. */
  function GetOrLoad(s: State, files: seq<seq<byte>>, id: nat, offset: nat): (State, nat) {
    if offset % PAGE_SIZE != 0 then (s, 0)
    else
      var hit := FindKey(s.slots, id, offset, 0);
      if 0 <= hit < |s.slots| then (Touch(s, hit), s.slots[hit].pa)
      else
        var v := Victim(s.slots, 0, -1, NEVER);
        if !(0 <= v < |s.slots|) then (s, 0) else Load(s, files, id, offset, v)
  }

  /** The miss path, into slot `v`: its frame, if any, goes back to the allocator. */
  function Load(s: State, files: seq<seq<byte>>, id: nat, offset: nat, v: nat): (State, nat)
    requires v < |s.slots|
  {
    LoadInto(if s.slots[v].used then s.(free := [s.slots[v].pa] + s.free) else s, files, id, offset, v)
  }

  /** Reserve the slot, allocate a frame, load it; on failure the slot is given up. */
  function LoadInto(s: State, files: seq<seq<byte>>, id: nat, offset: nat, v: nat): (State, nat)
    requires v < |s.slots|
  {
    var x := Slot(true, id, offset, 0, 1, Tick(s.clock));
    var t := s.(clock := Tick(s.clock));
    if s.free == [] then (t.(slots := s.slots[v := x.(used := false, refcount := 0)]), 0)
    else
      var pa := s.free[0];
      if id >= |files| then
        (t.(slots := s.slots[v := x.(used := false, refcount := 0)], mem := s.mem[pa := Zeros(4096)]), 0)
      else
        (t.(slots := s.slots[v := x.(pa := pa)], free := s.free[1..], mem := s.mem[pa := FilePage(files[id], offset)]), pa)
  }

  /** `page_cache_release`. */
  function Release(s: State, pa: nat): State {
    var i := FindPa(s.slots, pa, 0);
    if pa == 0 || !(0 <= i < |s.slots|) || s.slots[i].refcount == 0 then s
    else s.(slots := s.slots[i := s.slots[i].(refcount := s.slots[i].refcount - 1)])
  }

  /** A fault on page `va` of a file mapping; `tableOk` tells whether a table page could be had. */
  function Fault(s: State, files: seq<seq<byte>>, va: (nat, nat), id: nat, offset: nat, tableOk: bool): (State, bool) {
    if va in s.maps then (s, false)
    else
      var (t, pa) := GetOrLoad(s, files, id, offset);
      if pa == 0 then (t, false)
      else if !tableOk then (Release(t, pa), false)
      else (t.(maps := t.maps[va := Mapping(pa, id, offset)]), true)
  }

  /** One page of munmap or teardown: the descriptor goes, then the reference. */
  function Unmap(s: State, va: (nat, nat)): State {
    if va !in s.maps then s else Release(s.(maps := s.maps - {va}), s.maps[va].pa)
  }

  datatype Op =
    | FaultIn(va: (nat, nat), id: nat, offset: nat, tableOk: bool)
    | Drop(va: (nat, nat))
    | TakeFrame                         // someone else allocates a frame
    | GiveFrame(frame: nat)             // and frees it
    | WriteFrame(frame: nat, data: Page)

  function Step(s: State, files: seq<seq<byte>>, op: Op): State {
    match op
    case FaultIn(va, id, offset, tableOk) => Fault(s, files, va, id, offset, tableOk).0
    case Drop(va) => Unmap(s, va)
    case TakeFrame =>
      if s.free == [] then s
      else s.(free := s.free[1..], others := s.others + {s.free[0]}, mem := s.mem[s.free[0] := Zeros(4096)])
    case GiveFrame(f) => if f in s.others then s.(free := [f] + s.free, others := s.others - {f}) else s
    case WriteFrame(f, data) => if f in s.others then s.(mem := s.mem[f := data]) else s
  }

  // ---------- the invariant ----------

  /** The descriptors on frame `pa`. */
  function Holders(maps: map<(nat, nat), Mapping>, pa: nat): set<(nat, nat)> {
    set va | va in maps && maps[va].pa == pa
  }

  /** A slot in use keeps the file's bytes in a frame of its own and counts its descriptors. */
  ghost predicate SlotOk(s: State, files: seq<seq<byte>>, x: Slot) {
    && x.pa != 0 && x.pa !in s.free && x.pa !in s.others && x.pa in s.mem
    && x.id < |files| && s.mem[x.pa] == FilePage(files[x.id], x.offset)
    && x.refcount == |Holders(s.maps, x.pa)|
  }

  predicate SlotFor(x: Slot, m: Mapping) {
    x.used && x.pa == m.pa && x.id == m.id && x.offset == m.offset
  }

  predicate HasSlot(slots: seq<Slot>, m: Mapping) {
    exists i :: 0 <= i < |slots| && SlotFor(slots[i], m)
  }

  predicate Clash(x: Slot, y: Slot) {
    x.used && y.used && (x.pa == y.pa || (x.id == y.id && x.offset == y.offset))
  }

  ghost predicate Frames(s: State) {
    && (forall f :: f in s.free ==> f != 0 && f in s.mem && f !in s.others)
    && (forall i, j :: 0 <= i < j < |s.free| ==> s.free[i] != s.free[j])
    && (forall f :: f in s.others ==> f != 0 && f in s.mem)
  }

  ghost predicate Inv(s: State, files: seq<seq<byte>>) {
    && Frames(s)
    && (forall i :: 0 <= i < |s.slots| && s.slots[i].used ==> SlotOk(s, files, s.slots[i]))
    && (forall i, j :: 0 <= i < j < |s.slots| ==> !Clash(s.slots[i], s.slots[j]))
    && (forall va :: va in s.maps ==> HasSlot(s.slots, s.maps[va]))
  }

  /** `page_cache_init`, with some frames free and some in use elsewhere. */
  lemma InitialInv(free: seq<nat>, others: set<nat>, mem: map<nat, Page>, files: seq<seq<byte>>)
    requires Frames(State([], 0, free, others, mem, map[]))
    ensures Inv(State(seq(SLOTS, (_: nat) => Slot(false, 0, 0, 0, 0, 0)), 1, free, others, mem, map[]), files)
  {}

  // ---------- the scans find what they look for ----------

  lemma {:induction false} FindKeyIs(slots: seq<Slot>, id: nat, offset: nat, i: nat)
    requires i <= |slots| && forall j :: 0 <= j < i ==> !(slots[j].used && slots[j].id == id && slots[j].offset == offset)
    ensures var k := FindKey(slots, id, offset, i);
      && -1 <= k < |slots|
      && (k >= 0 ==> slots[k].used && slots[k].id == id && slots[k].offset == offset)
      && (k < 0 ==> forall j :: 0 <= j < |slots| ==> !(slots[j].used && slots[j].id == id && slots[j].offset == offset))
    decreases |slots| - i
  {
    if i < |slots| && !(slots[i].used && slots[i].id == id && slots[i].offset == offset) {
      FindKeyIs(slots, id, offset, i + 1);
    }
  }

  lemma {:induction false} FindPaIs(slots: seq<Slot>, i: nat, k: nat)
    requires i <= k < |slots| && slots[k].used
    requires forall j :: 0 <= j < |slots| && j != k ==> !(slots[j].used && slots[j].pa == slots[k].pa)
    ensures FindPa(slots, slots[k].pa, i) == k
    decreases |slots| - i
  {
    if i < k {
      FindPaIs(slots, i + 1, k);
    }
  }

  /** Slot `v` is the first empty one. */
  predicate FirstEmpty(slots: seq<Slot>, v: nat) {
    v < |slots| && !slots[v].used && forall j :: 0 <= j < v ==> slots[j].used
  }

  /** Slot `v` has count 0, and of the slots with count 0 it is the first with the smallest stamp,
      which is not the largest `uint32_t`. */
  predicate FirstIdle(slots: seq<Slot>, v: nat) {
    && v < |slots| && slots[v].refcount == 0 && slots[v].lastUsed < 0xFFFF_FFFF
    && (forall j :: 0 <= j < |slots| && slots[j].refcount == 0 ==> slots[v].lastUsed <= slots[j].lastUsed)
    && (forall j :: 0 <= j < v && slots[j].refcount == 0 ==> slots[v].lastUsed < slots[j].lastUsed)
  }

  predicate AllUsed(slots: seq<Slot>) {
    forall j :: 0 <= j < |slots| ==> slots[j].used
  }

  /** There is no victim if and only if every slot is in use and each with count 0 carries the
      largest stamp. Otherwise it is the first empty slot, or, if none is empty, the first idle one
      of smallest stamp. */
  lemma VictimIs(slots: seq<Slot>)
    ensures var v := Victim(slots, 0, -1, NEVER);
      && -1 <= v < |slots|
      && (v == -1 <==> AllUsed(slots) && forall j :: 0 <= j < |slots| && slots[j].refcount == 0 ==> slots[j].lastUsed >= 0xFFFF_FFFF)
      && (v >= 0 ==> if AllUsed(slots) then FirstIdle(slots, v) else FirstEmpty(slots, v))
  {
    VictimFrom(slots, 0, -1, NEVER);
  }

  /** What the scan knows at slot `i`: the best so far is the first idle slot of smallest stamp
      before `i`. */
  lemma {:induction false} VictimFrom(slots: seq<Slot>, i: nat, best: int, bestClock: nat)
    requires i <= |slots| && -1 <= best < i && bestClock <= NEVER
    requires if best < 0 then bestClock == NEVER else slots[best].refcount == 0 && slots[best].lastUsed == bestClock < NEVER
    requires forall j :: 0 <= j < i ==> slots[j].used
    requires forall j :: 0 <= j < i && slots[j].refcount == 0 ==> bestClock <= slots[j].lastUsed
    requires forall j :: 0 <= j < best && slots[j].refcount == 0 ==> bestClock < slots[j].lastUsed
    ensures var v := Victim(slots, i, best, bestClock);
      && -1 <= v < |slots|
      && (v == -1 <==> AllUsed(slots) && forall j :: 0 <= j < |slots| && slots[j].refcount == 0 ==> slots[j].lastUsed >= NEVER)
      && (v >= 0 ==> if AllUsed(slots) then FirstIdle(slots, v) else FirstEmpty(slots, v))
    decreases |slots| - i
  {
    if i < |slots| && slots[i].used {
      if slots[i].refcount == 0 && slots[i].lastUsed < bestClock {
        VictimFrom(slots, i + 1, i, slots[i].lastUsed);
      } else {
        VictimFrom(slots, i + 1, best, bestClock);
      }
    }
  }

  // ---------- counting descriptors ----------

  lemma HoldersAdd(maps: map<(nat, nat), Mapping>, va: (nat, nat), m: Mapping, pa: nat)
    requires va !in maps
    ensures |Holders(maps[va := m], pa)| == |Holders(maps, pa)| + if m.pa == pa then 1 else 0
  {
    var hs, ks := Holders(maps, pa), Holders(maps[va := m], pa);
    assert ks == if m.pa == pa then hs + {va} else hs;
  }

  lemma HoldersRemove(maps: map<(nat, nat), Mapping>, va: (nat, nat), pa: nat)
    requires va in maps
    ensures |Holders(maps, pa)| == |Holders(maps - {va}, pa)| + if maps[va].pa == pa then 1 else 0
  {
    var hs, ks := Holders(maps, pa), Holders(maps - {va}, pa);
    assert hs == if maps[va].pa == pa then ks + {va} else ks;
  }

  lemma NoHolders(maps: map<(nat, nat), Mapping>, pa: nat)
    ensures |Holders(maps, pa)| == 0 <==> forall va :: va in maps ==> maps[va].pa != pa
  {
    if |Holders(maps, pa)| == 0 {
      forall va | va in maps
        ensures maps[va].pa != pa
      {
        assert va !in Holders(maps, pa);
      }
    } else {
      var va :| va in Holders(maps, pa);
    }
  }

  // ---------- only counts and stamps change ----------

  predicate SameUse(x: Slot, y: Slot) {
    y.used == x.used && y.id == x.id && y.offset == x.offset && y.pa == x.pa
  }

  /** Slot `i` has a new count or stamp; all slots hold what they held. */
  predicate Recounted(slots: seq<Slot>, ts: seq<Slot>, i: nat) {
    i < |slots| && |ts| == |slots| && ts == slots[i := ts[i]] && SameUse(slots[i], ts[i])
  }

  lemma RecountedShape(s: State, files: seq<seq<byte>>, ts: seq<Slot>, i: nat)
    requires Inv(s, files) && Recounted(s.slots, ts, i)
    ensures forall a, b :: 0 <= a < b < |ts| ==> !Clash(ts[a], ts[b])
    ensures forall m :: HasSlot(s.slots, m) ==> HasSlot(ts, m)
  {
    forall m | HasSlot(s.slots, m)
      ensures HasSlot(ts, m)
    {
      var k :| 0 <= k < |s.slots| && SlotFor(s.slots[k], m);
      assert SlotFor(ts[k], m);
    }
    forall a, b | 0 <= a < b < |ts|
      ensures !Clash(ts[a], ts[b])
    {
      assert !Clash(s.slots[a], s.slots[b]);
    }
  }

  /** A mapping is added on slot `i` and its count goes up. */
  lemma MapOn(s: State, files: seq<seq<byte>>, t: State, va: (nat, nat), i: nat)
    requires Inv(s, files) && va !in s.maps && i < |s.slots| && s.slots[i].used && Recounted(s.slots, t.slots, i)
    requires t == s.(slots := t.slots, clock := t.clock, maps := t.maps)
    requires t.slots[i].refcount == s.slots[i].refcount + 1
    requires t.maps == s.maps[va := Mapping(s.slots[i].pa, s.slots[i].id, s.slots[i].offset)]
    ensures Inv(t, files)
  {
    RecountedShape(s, files, t.slots, i);
    forall j | 0 <= j < |t.slots| && t.slots[j].used
      ensures SlotOk(t, files, t.slots[j])
    {
      HoldersAdd(s.maps, va, t.maps[va], t.slots[j].pa);
      assert SlotOk(s, files, s.slots[j]);
      if j != i {
        PaDiffers(s, files, i, j);
      }
    }
    forall w | w in t.maps
      ensures HasSlot(t.slots, t.maps[w])
    {
      if w == va {
        assert SlotFor(t.slots[i], t.maps[va]);
      } else {
        assert HasSlot(s.slots, s.maps[w]);
      }
    }
  }

  lemma PaDiffers(s: State, files: seq<seq<byte>>, i: nat, j: nat)
    requires Inv(s, files) && i < |s.slots| && j < |s.slots| && i != j && s.slots[i].used && s.slots[j].used
    ensures s.slots[i].pa != s.slots[j].pa
  {
    assert i < j ==> !Clash(s.slots[i], s.slots[j]);
    assert j < i ==> !Clash(s.slots[j], s.slots[i]);
  }

  lemma FindPaUnique(s: State, files: seq<seq<byte>>, i: nat)
    requires Inv(s, files) && i < |s.slots| && s.slots[i].used
    ensures FindPa(s.slots, s.slots[i].pa, 0) == i
  {
    forall j: nat | j < |s.slots| && j != i && s.slots[j].used
      ensures s.slots[j].pa != s.slots[i].pa
    {
      PaDiffers(s, files, i, j);
    }
    FindPaIs(s.slots, 0, i);
  }

  /** Dropping a descriptor lowers the count of its slot. */
  lemma UnmapKeeps(s: State, files: seq<seq<byte>>, va: (nat, nat))
    requires Inv(s, files)
    ensures Inv(Unmap(s, va), files)
    ensures Unmap(s, va).maps == s.maps - {va} && Unmap(s, va).free == s.free && Unmap(s, va).mem == s.mem
  {
    if va in s.maps {
      var m := s.maps[va];
      assert HasSlot(s.slots, m);
      var i :| 0 <= i < |s.slots| && SlotFor(s.slots[i], m);
      FindPaUnique(s, files, i);
      var t := Unmap(s, va);
      assert SlotOk(s, files, s.slots[i]);
      HoldersRemove(s.maps, va, m.pa);
      assert Recounted(s.slots, t.slots, i);
      MapOff(s, files, t, va, i);
    }
  }

  lemma MapOff(s: State, files: seq<seq<byte>>, t: State, va: (nat, nat), i: nat)
    requires Inv(s, files) && va in s.maps && i < |s.slots| && SlotFor(s.slots[i], s.maps[va]) && Recounted(s.slots, t.slots, i)
    requires t == s.(slots := t.slots, maps := s.maps - {va})
    requires t.slots[i].refcount + 1 == s.slots[i].refcount
    ensures Inv(t, files)
  {
    RecountedShape(s, files, t.slots, i);
    forall j | 0 <= j < |t.slots| && t.slots[j].used
      ensures SlotOk(t, files, t.slots[j])
    {
      HoldersRemove(s.maps, va, t.slots[j].pa);
      assert SlotOk(s, files, s.slots[j]);
      if j != i {
        PaDiffers(s, files, i, j);
      }
    }
    forall w | w in t.maps
      ensures HasSlot(t.slots, t.maps[w])
    {
      assert HasSlot(s.slots, s.maps[w]);
    }
  }

  // ---------- loading ----------

  /** The state once slot `v`, which nobody uses, is emptied and its frame freed. */
  function Evicted(s: State, v: nat): State
    requires v < |s.slots|
  {
    s.(slots := s.slots[v := s.slots[v].(used := false, refcount := 0)],
       free := if s.slots[v].used then [s.slots[v].pa] + s.free else s.free)
  }

  lemma EvictKeeps(s: State, files: seq<seq<byte>>, v: nat)
    requires Inv(s, files) && v < |s.slots| && (s.slots[v].used ==> s.slots[v].refcount == 0)
    ensures Inv(Evicted(s, v), files)
  {
    var t := Evicted(s, v);
    var pa := s.slots[v].pa;
    if s.slots[v].used {
      assert SlotOk(s, files, s.slots[v]);
      NoHolders(s.maps, pa);
    }
    forall j: nat | j < |t.slots| && t.slots[j].used
      ensures SlotOk(t, files, t.slots[j])
    {
      assert j != v && SlotOk(s, files, s.slots[j]);
      if s.slots[v].used { PaDiffers(s, files, v, j); }
    }
    forall a, b | 0 <= a < b < |t.slots|
      ensures !Clash(t.slots[a], t.slots[b])
    {
      assert !Clash(s.slots[a], s.slots[b]);
    }
    forall w | w in t.maps
      ensures HasSlot(t.slots, t.maps[w])
    {
      assert HasSlot(s.slots, s.maps[w]);
      var k :| 0 <= k < |s.slots| && SlotFor(s.slots[k], s.maps[w]);
      assert k != v;
      assert SlotFor(t.slots[k], t.maps[w]);
    }
    assert Frames(t) by { FreeOne(s, pa, s.slots[v].used, files, v); }
  }

  lemma FreeOne(s: State, pa: nat, wasUsed: bool, files: seq<seq<byte>>, v: nat)
    requires Inv(s, files) && v < |s.slots| && pa == s.slots[v].pa && wasUsed == s.slots[v].used
    ensures Frames(s.(free := if wasUsed then [pa] + s.free else s.free))
  {
    if wasUsed {
      assert SlotOk(s, files, s.slots[v]);
      var free := [pa] + s.free;
      forall i, j | 0 <= i < j < |free|
        ensures free[i] != free[j]
      {
        assert free[j] == s.free[j - 1] && s.free[j - 1] in s.free;
        if i > 0 { assert free[i] == s.free[i - 1]; }
      }
    }
  }

  /** A slot out of use may hold any stale values, and a free frame any bytes. */
  lemma StaleKeeps(s: State, files: seq<seq<byte>>, t: State, v: nat)
    requires Inv(s, files) && v < |s.slots| && !s.slots[v].used && |t.slots| == |s.slots| && !t.slots[v].used
    requires t == s.(slots := s.slots[v := t.slots[v]], clock := t.clock, mem := t.mem)
    requires t.mem.Keys == s.mem.Keys && forall f :: f in s.mem && f !in s.free ==> t.mem[f] == s.mem[f]
    ensures Inv(t, files)
  {
    forall j: nat | j < |t.slots| && t.slots[j].used
      ensures SlotOk(t, files, t.slots[j])
    {
      assert j != v && SlotOk(s, files, s.slots[j]);
    }
    OtherSlots(s, files, t, v);
  }

  lemma OtherSlots(s: State, files: seq<seq<byte>>, t: State, v: nat)
    requires Inv(s, files) && v < |s.slots| && !s.slots[v].used && |t.slots| == |s.slots| && !t.slots[v].used
    requires t.slots == s.slots[v := t.slots[v]] && t.maps == s.maps
    ensures forall a, b :: 0 <= a < b < |t.slots| ==> !Clash(t.slots[a], t.slots[b])
    ensures forall w :: w in t.maps ==> HasSlot(t.slots, t.maps[w])
  {
    forall a, b | 0 <= a < b < |t.slots|
      ensures !Clash(t.slots[a], t.slots[b])
    {
      assert !Clash(s.slots[a], s.slots[b]);
    }
    forall w | w in t.maps
      ensures HasSlot(t.slots, t.maps[w])
    {
      assert HasSlot(s.slots, s.maps[w]);
      var k :| 0 <= k < |s.slots| && SlotFor(s.slots[k], s.maps[w]);
      assert SlotFor(t.slots[k], t.maps[w]);
    }
  }

  /** No slot holds this page. */
  predicate KeyFree(slots: seq<Slot>, id: nat, offset: nat) {
    forall j :: 0 <= j < |slots| ==> !(slots[j].used && slots[j].id == id && slots[j].offset == offset)
  }

  /** The page read into the first free frame and put into slot `v`, mapped by nobody yet. */
  function Filled(e: State, files: seq<seq<byte>>, id: nat, offset: nat, v: nat, clock: nat): State
    requires v < |e.slots| && e.free != [] && id < |files|
  {
    var pa := e.free[0];
    e.(slots := e.slots[v := Slot(true, id, offset, pa, 0, clock)], clock := clock, free := e.free[1..],
       mem := e.mem[pa := FilePage(files[id], offset)])
  }

  lemma FilledKeeps(e: State, files: seq<seq<byte>>, id: nat, offset: nat, v: nat, clock: nat)
    requires Inv(e, files) && v < |e.slots| && !e.slots[v].used && e.free != [] && id < |files| && KeyFree(e.slots, id, offset)
    ensures Inv(Filled(e, files, id, offset, v, clock), files)
  {
    hide FilePage;
    var t := Filled(e, files, id, offset, v, clock);
    var pa := e.free[0];
    NobodyMapsFree(e, files, pa);
    NoHolders(e.maps, pa);
    HeadOnce(e);
    forall j: nat | j < |t.slots| && t.slots[j].used
      ensures SlotOk(t, files, t.slots[j])
    {
      if j != v {
        assert SlotOk(e, files, e.slots[j]);
      }
    }
    forall a, b | 0 <= a < b < |t.slots|
      ensures !Clash(t.slots[a], t.slots[b])
    {
      assert !Clash(e.slots[a], e.slots[b]);
      assert a != v && e.slots[a].used ==> SlotOk(e, files, e.slots[a]);
      assert b != v && e.slots[b].used ==> SlotOk(e, files, e.slots[b]);
    }
    forall w | w in t.maps
      ensures HasSlot(t.slots, t.maps[w])
    {
      assert HasSlot(e.slots, e.maps[w]);
      var k :| 0 <= k < |e.slots| && SlotFor(e.slots[k], e.maps[w]);
      assert SlotFor(t.slots[k], t.maps[w]);
    }
  }

  lemma HeadOnce(e: State)
    requires Frames(e) && e.free != []
    ensures e.free[0] !in e.free[1..] && Frames(e.(free := e.free[1..]))
  {
    forall j | 0 <= j < |e.free[1..]|
      ensures e.free[1..][j] != e.free[0] && e.free[1..][j] in e.free
    {
      assert e.free[1..][j] == e.free[j + 1];
    }
    forall i, j | 0 <= i < j < |e.free[1..]|
      ensures e.free[1..][i] != e.free[1..][j]
    {
      assert e.free[1..][i] == e.free[i + 1] && e.free[1..][j] == e.free[j + 1];
    }
  }

  lemma NobodyMapsFree(e: State, files: seq<seq<byte>>, pa: nat)
    requires Inv(e, files) && pa in e.free
    ensures forall va :: va in e.maps ==> e.maps[va].pa != pa
  {
    forall va | va in e.maps
      ensures e.maps[va].pa != pa
    {
      assert HasSlot(e.slots, e.maps[va]);
      var k :| 0 <= k < |e.slots| && SlotFor(e.slots[k], e.maps[va]);
      assert SlotOk(e, files, e.slots[k]);
    }
  }

  // ---------- one fault ----------

  /** The miss path, seen as evicting and then filling. */
  lemma LoadIs(s: State, files: seq<seq<byte>>, id: nat, offset: nat, v: nat)
    requires v < |s.slots|
    ensures var e := Evicted(s, v);
      var (t, pa) := Load(s, files, id, offset, v);
      if e.free == [] || id >= |files| then
        && pa == 0
        && t == e.(slots := e.slots[v := t.slots[v]], clock := t.clock, mem := t.mem) && !t.slots[v].used
        && (e.free == [] ==> t.mem == e.mem) && (e.free != [] ==> t.mem == e.mem[e.free[0] := Zeros(4096)])
      else
        var f := Filled(e, files, id, offset, v, Tick(s.clock));
        pa == e.free[0] && t == f.(slots := f.slots[v := f.slots[v].(refcount := 1)])
  {
    hide FilePage;
    var e := Evicted(s, v);
    var t := Load(s, files, id, offset, v).0;
    assert e.slots[v := t.slots[v]] == s.slots[v := t.slots[v]];
    if e.free != [] && id < |files| {
      var f := Filled(e, files, id, offset, v, Tick(s.clock));
      assert f.slots[v := t.slots[v]] == s.slots[v := t.slots[v]];
    }
  }

  lemma EvictedKeyFree(s: State, v: nat, id: nat, offset: nat)
    requires v < |s.slots| && KeyFree(s.slots, id, offset)
    ensures KeyFree(Evicted(s, v).slots, id, offset)
  {}

  lemma MissKeeps(s: State, files: seq<seq<byte>>, va: (nat, nat), id: nat, offset: nat, tableOk: bool, v: nat)
    requires Inv(s, files) && va !in s.maps && v < |s.slots| && (s.slots[v].used ==> s.slots[v].refcount == 0)
    requires KeyFree(s.slots, id, offset)
    ensures var (t, pa) := Load(s, files, id, offset, v);
      if pa == 0 then Inv(t, files) && t.maps == s.maps
      else if tableOk then Inv(t.(maps := t.maps[va := Mapping(pa, id, offset)]), files) && t.maps == s.maps
      else Inv(Release(t, pa), files) && Release(t, pa).maps == s.maps
  {
    hide FilePage, Inv, Load, Evicted;
    var e := Evicted(s, v);
    EvictKeeps(s, files, v);
    LoadIs(s, files, id, offset, v);
    EvictedSlot(s, v);
    var (t, pa) := Load(s, files, id, offset, v);
    if e.free == [] || id >= |files| {
      FreeInMem(e, files);
      StaleKeeps(e, files, t, v);
    } else {
      EvictedKeyFree(s, v, id, offset);
      var f := Filled(e, files, id, offset, v, Tick(s.clock));
      FilledKeeps(e, files, id, offset, v, Tick(s.clock));
      FreeNonzero(e, files);
      if tableOk {
        var u := t.(maps := t.maps[va := Mapping(pa, id, offset)]);
        assert Recounted(f.slots, u.slots, v);
        MapOn(f, files, u, va, v);
      } else {
        ReleaseFresh(f, files, t, v);
      }
    }
  }

  lemma EvictedSlot(s: State, v: nat)
    requires v < |s.slots|
    ensures !Evicted(s, v).slots[v].used && |Evicted(s, v).slots| == |s.slots| && Evicted(s, v).maps == s.maps
  {}

  lemma FreeInMem(e: State, files: seq<seq<byte>>)
    requires Inv(e, files)
    ensures e.free != [] ==> e.free[0] in e.mem
  {
    if e.free != [] {
      assert e.free[0] in e.free;
    }
  }

  lemma FreeNonzero(e: State, files: seq<seq<byte>>)
    requires Inv(e, files) && e.free != []
    ensures e.free[0] != 0
  {
    assert e.free[0] in e.free;
  }

  /** Giving up a frame just loaded leaves it cached and idle. */
  lemma ReleaseFresh(f: State, files: seq<seq<byte>>, t: State, v: nat)
    requires Inv(f, files) && v < |f.slots| && f.slots[v].used && f.slots[v].refcount == 0 && f.slots[v].pa != 0
    requires t == f.(slots := f.slots[v := f.slots[v].(refcount := 1)])
    ensures Release(t, f.slots[v].pa) == f
  {
    forall j: nat | j < |t.slots| && j != v && t.slots[j].used
      ensures t.slots[j].pa != t.slots[v].pa
    {
      PaDiffers(f, files, v, j);
    }
    FindPaIs(t.slots, 0, v);
    assert t.slots[v := f.slots[v]] == f.slots;
  }

  lemma HitKeeps(s: State, files: seq<seq<byte>>, va: (nat, nat), i: nat, tableOk: bool)
    requires Inv(s, files) && va !in s.maps && i < |s.slots| && s.slots[i].used
    ensures var t, x := Touch(s, i), s.slots[i];
      if tableOk then Inv(t.(maps := t.maps[va := Mapping(x.pa, x.id, x.offset)]), files)
      else Inv(Release(t, x.pa), files) && Release(t, x.pa).maps == s.maps
    ensures s.slots[i].pa != 0
  {
    var t, x := Touch(s, i), s.slots[i];
    assert SlotOk(s, files, x);
    if tableOk {
      var u := t.(maps := t.maps[va := Mapping(x.pa, x.id, x.offset)]);
      assert Recounted(s.slots, u.slots, i);
      MapOn(s, files, u, va, i);
    } else {
      var f := s.(slots := s.slots[i := x.(lastUsed := Tick(s.clock))], clock := Tick(s.clock));
      StampKeeps(s, files, f, i);
      ReleaseTouched(f, files, t, i);
    }
  }

  lemma StampKeeps(s: State, files: seq<seq<byte>>, f: State, i: nat)
    requires Inv(s, files) && i < |s.slots| && s.slots[i].used && Recounted(s.slots, f.slots, i)
    requires f == s.(slots := f.slots, clock := f.clock) && f.slots[i].refcount == s.slots[i].refcount
    ensures Inv(f, files)
  {
    RecountedShape(s, files, f.slots, i);
    forall j: nat | j < |f.slots| && f.slots[j].used
      ensures SlotOk(f, files, f.slots[j])
    {
      assert SlotOk(s, files, s.slots[j]);
    }
  }

  lemma ReleaseTouched(f: State, files: seq<seq<byte>>, t: State, i: nat)
    requires Inv(f, files) && i < |f.slots| && f.slots[i].used && f.slots[i].pa != 0
    requires |t.slots| == |f.slots| && t == f.(slots := f.slots[i := f.slots[i].(refcount := f.slots[i].refcount + 1)])
    ensures Release(t, f.slots[i].pa) == f
  {
    forall j: nat | j < |t.slots| && j != i && t.slots[j].used
      ensures t.slots[j].pa != t.slots[i].pa
    {
      PaDiffers(f, files, i, j);
    }
    FindPaIs(t.slots, 0, i);
    assert t.slots[i := f.slots[i]] == f.slots;
  }

  /** A fault maps a frame that holds the file's page at that offset, or changes no mapping. */
  lemma FaultKeeps(s: State, files: seq<seq<byte>>, va: (nat, nat), id: nat, offset: nat, tableOk: bool)
    requires Inv(s, files)
    ensures var (t, ok) := Fault(s, files, va, id, offset, tableOk);
      && Inv(t, files)
      && (ok ==> va !in s.maps && exists pa :: t.maps == s.maps[va := Mapping(pa, id, offset)])
      && (!ok ==> t.maps == s.maps)
  {
    hide Inv, Load, Touch, Release;
    if va !in s.maps && offset % PAGE_SIZE == 0 {
      FindKeyIs(s.slots, id, offset, 0);
      var hit := FindKey(s.slots, id, offset, 0);
      var (t, pa) := GetOrLoad(s, files, id, offset);
      assert pa != 0 && tableOk ==> Fault(s, files, va, id, offset, tableOk).0.maps == t.maps[va := Mapping(pa, id, offset)];
      if hit >= 0 {
        HitKeeps(s, files, va, hit, tableOk);
        TouchMaps(s, hit);
      } else {
        VictimIs(s.slots);
        var v := Victim(s.slots, 0, -1, NEVER);
        if v >= 0 {
          MissKeeps(s, files, va, id, offset, tableOk, v);
        }
      }
    }
  }

  /** Some slot holds the page. */
  predicate Cached(slots: seq<Slot>, id: nat, offset: nat) {
    exists i :: 0 <= i < |slots| && slots[i].used && slots[i].id == id && slots[i].offset == offset
  }

  /** A slot can be had and a frame for it: an empty slot and a free frame, or, with every slot in
      use, one that nobody maps, whose own frame will do. */
  predicate RoomFor(s: State) {
    if AllUsed(s.slots) then exists i :: 0 <= i < |s.slots| && s.slots[i].refcount == 0 && s.slots[i].lastUsed < 0xFFFF_FFFF
    else s.free != []
  }

  /** A fault succeeds if and only if the page is not mapped yet, the offset is that of a page, a
      table page can be had, and the page is in the cache or there is such a file and room. */
  lemma FaultSucceeds(s: State, files: seq<seq<byte>>, va: (nat, nat), id: nat, offset: nat, tableOk: bool)
    requires Inv(s, files)
    ensures Fault(s, files, va, id, offset, tableOk).1 <==>
              && va !in s.maps && offset % 4096 == 0 && tableOk
              && (Cached(s.slots, id, offset) || (id < |files| && RoomFor(s)))
  {
    hide FilePage, Touch, Victim, Inv;
    if va !in s.maps && offset % PAGE_SIZE == 0 {
      FindKeyIs(s.slots, id, offset, 0);
      var hit := FindKey(s.slots, id, offset, 0);
      if hit >= 0 {
        HitKeeps(s, files, va, hit, tableOk);
      } else {
        VictimIs(s.slots);
        var v := Victim(s.slots, 0, -1, NEVER);
        if v >= 0 {
          EvictKeeps(s, files, v);
          LoadIs(s, files, id, offset, v);
          if Evicted(s, v).free != [] {
            FreeNonzero(Evicted(s, v), files);
          }
        }
      }
    }
  }

  /** A page in the cache is mapped where it lies, with no frame taken, freed or written. One that
      is not goes into the victim's slot and frame; the others keep theirs. */
  lemma FaultPlaces(s: State, files: seq<seq<byte>>, va: (nat, nat), id: nat, offset: nat)
    requires Inv(s, files) && Fault(s, files, va, id, offset, true).1
    ensures var t := Fault(s, files, va, id, offset, true).0;
      && va in t.maps
      && if Cached(s.slots, id, offset) then
           t.free == s.free && t.mem == s.mem && HasSlot(s.slots, t.maps[va])
         else
           exists v :: && 0 <= v < |s.slots| == |t.slots|
                       && (if AllUsed(s.slots) then FirstIdle(s.slots, v) else FirstEmpty(s.slots, v))
                       && SlotFor(t.slots[v], t.maps[va]) && t.slots == s.slots[v := t.slots[v]]
                       && (if s.slots[v].used then t.maps[va].pa == s.slots[v].pa && t.free == s.free
                           else [t.maps[va].pa] + t.free == s.free)
  {
    hide FilePage, Victim, Inv;
    FindKeyIs(s.slots, id, offset, 0);
    var hit := FindKey(s.slots, id, offset, 0);
    var t := Fault(s, files, va, id, offset, true).0;
    if hit >= 0 {
      assert SlotFor(s.slots[hit], t.maps[va]);
    } else {
      VictimIs(s.slots);
      assert SlotFor(t.slots[Victim(s.slots, 0, -1, NEVER)], t.maps[va]);
    }
  }

  ghost predicate Stamped(s: State) {
    forall i :: 0 <= i < |s.slots| ==> s.slots[i].lastUsed <= s.clock
  }

  /** Until the clock wraps, a fault that succeeds gives its slot the largest stamp of all, so the
      smallest stamp is on the page faulted in longest ago. */
  lemma FaultIsNewest(s: State, files: seq<seq<byte>>, va: (nat, nat), id: nat, offset: nat)
    requires Inv(s, files) && Stamped(s) && s.clock < 0xFFFF_FFFF && Fault(s, files, va, id, offset, true).1
    ensures var t := Fault(s, files, va, id, offset, true).0;
      && Stamped(t) && va in t.maps
      && exists v :: 0 <= v < |t.slots| && SlotFor(t.slots[v], t.maps[va])
                     && forall j :: 0 <= j < |t.slots| && j != v ==> t.slots[j].lastUsed < t.slots[v].lastUsed
  {
    hide FilePage, Victim, Inv;
    FindKeyIs(s.slots, id, offset, 0);
    var hit := FindKey(s.slots, id, offset, 0);
    var t := Fault(s, files, va, id, offset, true).0;
    if hit >= 0 {
      assert SlotFor(t.slots[hit], t.maps[va]);
    } else {
      VictimIs(s.slots);
      assert SlotFor(t.slots[Victim(s.slots, 0, -1, NEVER)], t.maps[va]);
    }
  }

  lemma TouchMaps(s: State, i: nat)
    requires i < |s.slots|
    ensures Touch(s, i).maps == s.maps
  {}

  // ---------- runs ----------

  lemma StepKeeps(s: State, files: seq<seq<byte>>, op: Op)
    requires Inv(s, files)
    ensures Inv(Step(s, files, op), files)
  {
    hide Fault, Unmap;
    match op
    case FaultIn(va, id, offset, tableOk) => FaultKeeps(s, files, va, id, offset, tableOk);
    case Drop(va) => UnmapKeeps(s, files, va);
    case TakeFrame | GiveFrame(_) | WriteFrame(_, _) => OutsideKeeps(s, files, op);
  }

  /** What others do with frames of their own does not reach the cache. */
  lemma OutsideKeeps(s: State, files: seq<seq<byte>>, op: Op)
    requires Inv(s, files) && (op.TakeFrame? || op.GiveFrame? || op.WriteFrame?)
    ensures Inv(Step(s, files, op), files)
  {
    var t := Step(s, files, op);
    if op.TakeFrame? && s.free != [] {
      HeadOnce(s);
      assert s.free[0] in s.free;
    }
    if op.GiveFrame? && op.frame in s.others {
      assert t.free == [op.frame] + s.free;
      forall i, j | 0 <= i < j < |t.free|
        ensures t.free[i] != t.free[j]
      {
        assert t.free[j] == s.free[j - 1] && s.free[j - 1] in s.free;
        if i > 0 { assert t.free[i] == s.free[i - 1]; }
      }
    }
    forall j: nat | j < |t.slots| && t.slots[j].used
      ensures SlotOk(t, files, t.slots[j])
    {
      assert SlotOk(s, files, s.slots[j]);
    }
    assert Frames(t);
  }

  function Run(s: State, files: seq<seq<byte>>, ops: seq<Op>): State
    decreases |ops|
  {
    if ops == [] then s else Run(Step(s, files, ops[0]), files, ops[1..])
  }

  /** Over any run, every mapped file page shows the file's bytes at its offset, zeroes past its
      end, and its frame is neither free nor in use for anything else; and each count is the number
      of descriptors on the frame, so an idle slot is exactly one that nobody maps. */
  lemma {:induction false} MappedPagesAgree(s: State, files: seq<seq<byte>>, ops: seq<Op>)
    requires Inv(s, files)
    ensures var t := Run(s, files, ops);
      && Inv(t, files)
      && (forall va :: va in t.maps ==> PageOk(t, files, t.maps[va]))
      && (forall i :: 0 <= i < |t.slots| && t.slots[i].used ==> t.slots[i].refcount == |Holders(t.maps, t.slots[i].pa)|)
    decreases |ops|
  {
    hide Step, PageOk, Holders;
    if ops == [] {
      PagesOk(s, files);
    } else {
      hide Inv;
      StepKeeps(s, files, ops[0]);
      MappedPagesAgree(Step(s, files, ops[0]), files, ops[1..]);
    }
  }

  /** The mapped frame holds the file's bytes from the offset on, and zeroes past the file's end. */
  ghost predicate PageOk(t: State, files: seq<seq<byte>>, m: Mapping) {
    && m.id < |files| && m.pa in t.mem
    && (forall k :: 0 <= k < 4096 ==>
          t.mem[m.pa][k] == if m.offset + k < |files[m.id]| then files[m.id][m.offset + k] else 0)
    && m.pa !in t.free && m.pa !in t.others
  }

  lemma FilePageBytes(blob: seq<byte>, offset: nat)
    ensures forall k :: 0 <= k < 4096 ==> FilePage(blob, offset)[k] == if offset + k < |blob| then blob[offset + k] else 0
  {}

  lemma PagesOk(t: State, files: seq<seq<byte>>)
    requires Inv(t, files)
    ensures forall va :: va in t.maps ==> PageOk(t, files, t.maps[va])
    ensures forall i :: 0 <= i < |t.slots| && t.slots[i].used ==> t.slots[i].refcount == |Holders(t.maps, t.slots[i].pa)|
  {
    hide FilePage;
    forall va | va in t.maps
      ensures PageOk(t, files, t.maps[va])
    {
      assert HasSlot(t.slots, t.maps[va]);
      var k :| 0 <= k < |t.slots| && SlotFor(t.slots[k], t.maps[va]);
      assert SlotOk(t, files, t.slots[k]);
      FilePageBytes(files[t.maps[va].id], t.maps[va].offset);
    }
    forall i | 0 <= i < |t.slots| && t.slots[i].used
      ensures t.slots[i].refcount == |Holders(t.maps, t.slots[i].pa)|
    {
      assert SlotOk(t, files, t.slots[i]);
    }
  }
}

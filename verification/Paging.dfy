/** Physical frames, reference counts and page tables as one machine state, and what each kernel
    routine does to it (kernel/core/pmem.c, kernel/core/pmem_refcount.c,
    kernel/arch/address_space.c). A physical address is its frame number; 0 is the null address. */
module Paging {
  const WORDS: nat := 512          // 64-bit words in a page
  const PER_TABLE: nat := 512      // entries in a page table
  const RC_LIMIT: nat := 0x1_0000  // the count is a uint16_t

  // Byte addresses of the user range and of the heap in it; elsewhere a page is its number in the range.
  const USER_VA_BASE: nat := 0x10_0000_0000
  const USER_HEAP_BASE: nat := 0x10_1000_0000
  const USER_HEAP_MAX: nat := 0x10_3000_0000

  type Page = p: seq<nat> | |p| == 512 witness ZeroPage()

  function ZeroPage(): (p: seq<nat>)
    ensures |p| == 512
  {
    seq(512, _ => 0)
  }

  datatype Owner = Space | PageCache | Window

  /** A nonzero L3 entry: a guard marker, or a mapping with its permission and software bits. */
  datatype Desc = Guard | Map(frame: nat, rw: bool, cow: bool, exec: bool, owner: Owner)

  /** The table pages of an address space: its L1, its L2, and an L3 per used L2 entry. */
  datatype TableSlot = L1 | L2 | L3(index: nat)

  /** `struct address_space`: table pages, L3 entries by page number (zero entries absent), the
      heap break as a page number and the number of threads running in it. */
  datatype AddrSpace = AddrSpace(tables: map<TableSlot, nat>, pt: map<nat, Desc>, brk: nat, users: nat)

  /** Frames `base`, `base + 1`, ... with their contents and counts, the free list from its head,
      the live address spaces by pointer, and the next pointer the kernel heap will hand out. */
  datatype Machine = Machine(base: nat, mem: seq<Page>, rc: seq<nat>, free: seq<nat>,
                             spaces: map<nat, AddrSpace>, next: nat)

  predicate InPool(m: Machine, f: nat) {
    m.base <= f < m.base + |m.mem|
  }

  function Frame(m: Machine, f: nat): Page {
    if InPool(m, f) then m.mem[f - m.base] else ZeroPage()
  }

  /** Memory, counts and page tables differ at most in content. */
  ghost predicate SameShape(m: Machine, n: Machine) {
    n.base == m.base && |n.mem| == |m.mem| && |n.rc| == |m.rc| && n.next == m.next
  }

  function PutFrame(m: Machine, f: nat, p: Page): (n: Machine)
    ensures SameShape(m, n) && n.spaces == m.spaces && n.rc == m.rc && n.free == m.free
  {
    if InPool(m, f) then m.(mem := m.mem[f - m.base := p]) else m
  }

  // ---------- pmem.c ----------

  function Head(free: seq<nat>): nat {
    if free == [] then 0 else free[0]
  }

  /** `pmem_alloc_page`: the head frame, zeroed; 0 when there is none. */
  function Alloc(m: Machine): (r: (Machine, nat))
    ensures SameShape(m, r.0) && r.0.spaces == m.spaces && r.0.rc == m.rc
  {
    if m.free == [] then (m, 0)
    else (PutFrame(m.(free := m.free[1..]), m.free[0], ZeroPage()), m.free[0])
  }

  /** `pmem_free_page`: the link to the old head is stored in the frame's own first word. */
  function Release(m: Machine, f: nat): (n: Machine)
    ensures SameShape(m, n) && n.spaces == m.spaces && n.rc == m.rc
  {
    if f == 0 then m
    else PutFrame(m, f, Frame(m, f)[0 := 4096 * Head(m.free)]).(free := [f] + m.free)
  }

  // ---------- pmem_refcount.c ----------

  predicate Tracked(m: Machine, f: nat) {
    m.base <= f < m.base + |m.rc|
  }

  function Rc(m: Machine, f: nat): nat {
    if Tracked(m, f) then m.rc[f - m.base] else 0
  }

  function SetRc(m: Machine, f: nat, v: nat): (n: Machine)
    ensures SameShape(m, n) && n.spaces == m.spaces && n.mem == m.mem && n.free == m.free
    ensures forall g :: Rc(n, g) == if g == f && Tracked(m, f) then v else Rc(m, g)
  {
    if Tracked(m, f) then m.(rc := m.rc[f - m.base := v]) else m
  }

  /** `pmem_refcount_share`: an untracked frame had one holder and now has two. */
  function Share(m: Machine, f: nat): Machine {
    SetRc(m, f, if Rc(m, f) == 0 then 2 else (Rc(m, f) + 1) % RC_LIMIT)
  }

  /** `pmem_refcount_dec`. */
  function Dec(m: Machine, f: nat): Machine {
    if Rc(m, f) == 0 then m else SetRc(m, f, Rc(m, f) - 1)
  }

  /** `pmem_dec_and_free`. */
  function DecAndFree(m: Machine, f: nat): (n: Machine)
    ensures SameShape(m, n) && n.spaces == m.spaces
  {
    if f == 0 then m
    else if Rc(m, f) >= 2 then Dec(m, f)
    else Release(if Rc(m, f) == 1 then SetRc(m, f, 0) else m, f)
  }

  // ---------- page tables ----------

  function PutSpace(m: Machine, a: nat, s: AddrSpace): Machine {
    m.(spaces := m.spaces[a := s])
  }

  function SetEntry(m: Machine, a: nat, v: nat, d: Desc): Machine
    requires a in m.spaces
  {
    PutSpace(m, a, m.spaces[a].(pt := m.spaces[a].pt[v := d]))
  }

  function ClearEntry(m: Machine, a: nat, v: nat): Machine
    requires a in m.spaces
  {
    PutSpace(m, a, m.spaces[a].(pt := m.spaces[a].pt - {v}))
  }

  function PageOf(va: nat): nat
    requires va >= USER_VA_BASE
  {
    (va - USER_VA_BASE) / 4096
  }

  function TableFor(v: nat): TableSlot {
    L3(v / PER_TABLE)
  }

  /** `l3_for`: get or create the L3 table that covers page `v`. */
  function NeedTable(m: Machine, a: nat, v: nat): (r: (Machine, bool))
    requires a in m.spaces
    ensures SameShape(m, r.0) && r.0.spaces.Keys == m.spaces.Keys
    ensures forall b :: b in m.spaces ==> r.0.spaces[b].pt == m.spaces[b].pt
  {
    var t := TableFor(v);
    if t in m.spaces[a].tables then (m, true)
    else
      var (n, f) := Alloc(m);
      if f == 0 then (n, false)
      else (PutSpace(n, a, m.spaces[a].(tables := m.spaces[a].tables[t := f])), true)
  }

  /** `address_space_create`; `heapOk` says whether kmalloc succeeds. When only the L2 cannot be
      allocated the L1 frame is lost, as in the code. */
  function Create(m: Machine, heapOk: bool): (r: (Machine, nat))
    ensures r.1 != 0 ==> r.1 in r.0.spaces
    ensures forall a :: a in m.spaces ==> a in r.0.spaces
  {
    if !heapOk then (m, 0)
    else
      var (m1, l1) := Alloc(m);
      if l1 == 0 then (m1, 0)
      else
        var (m2, l2) := Alloc(m1);
        if l2 == 0 then (m2, 0)
        else (PutSpace(m2, m.next, AddrSpace(map[L1 := l1, L2 := l2], map[], PageOf(USER_HEAP_BASE), 1)).(next := m.next + 1), m.next)
  }

  // ---------- mapping and unmapping one page ----------

  /** A fresh zero page at `v`: one page of brk growth, or an anonymous mmap fault. */
  function MapFresh(m: Machine, a: nat, v: nat, rw: bool, exec: bool): (Machine, bool)
    requires a in m.spaces
  {
    var (n, f) := Alloc(m);
    if f == 0 then (n, false)
    else
      var (n', ok) := NeedTable(n, a, v);
      if ok then (SetEntry(n', a, v, Map(f, rw, false, exec, Space)), true)
      else (Release(n', f), false)
  }

  /** A page that the page cache or the window manager owns. */
  function MapForeign(m: Machine, a: nat, v: nat, f: nat, owner: Owner): (Machine, bool)
    requires a in m.spaces
  {
    var (n, ok) := NeedTable(m, a, v);
    if ok then (SetEntry(n, a, v, Map(f, owner.Window?, false, false, owner)), true) else (n, false)
  }

  /** `address_space_install_guard`: page `v` faults, and is known as a guard. */
  function InstallGuard(m: Machine, a: nat, v: nat): (Machine, bool)
    requires a in m.spaces
  {
    var (n, ok) := NeedTable(m, a, v);
    if ok then (SetEntry(n, a, v, Guard), true) else (n, false)
  }

  /** Drops entry `v` and, when the space owns the frame, its share of the frame. */
  function Drop(m: Machine, a: nat, v: nat): (n: Machine)
    requires a in m.spaces
    ensures SameShape(m, n) && n.spaces.Keys == m.spaces.Keys
  {
    var pt := m.spaces[a].pt;
    if v !in pt then m
    else if pt[v].Map? && pt[v].owner.Space? then DecAndFree(ClearEntry(m, a, v), pt[v].frame)
    else ClearEntry(m, a, v)
  }

  /** One page of brk shrinkage or munmap; invalid entries stay as they are. */
  function Unmap(m: Machine, a: nat, v: nat): Machine
    requires a in m.spaces
  {
    if v in m.spaces[a].pt && m.spaces[a].pt[v].Map? then Drop(m, a, v) else m
  }

  // ---------- the heap break ----------

  /** A requested break in bytes: rounded up to a page in 64 bits, and not below the heap. */
  function Rounded(bytes: nat): (va: nat)
    ensures va >= USER_HEAP_BASE
  {
    var up := (bytes + 4095) % 0x1_0000_0000_0000_0000 / 4096 * 4096;
    if up < USER_HEAP_BASE then USER_HEAP_BASE else up
  }

  /** Fresh pages at `v`, `v + 1`, ... below `end`, up to the first that cannot be had. */
  function Grow(m: Machine, a: nat, v: nat, end: nat): (r: (Machine, bool))
    requires a in m.spaces && v <= end
    ensures r.0.spaces.Keys == m.spaces.Keys
    decreases end - v
  {
    if v == end then (m, true)
    else
      var (n, ok) := MapFresh(m, a, v, true, false);
      if ok then Grow(n, a, v + 1, end) else (n, false)
  }

  function Shrink(m: Machine, a: nat, v: nat, end: nat): (n: Machine)
    requires a in m.spaces && v <= end
    ensures n.spaces.Keys == m.spaces.Keys
    decreases end - v
  {
    if v == end then m else Shrink(Unmap(m, a, v), a, v + 1, end)
  }

  function PutBrk(m: Machine, a: nat, brk: nat): Machine
    requires a in m.spaces
  {
    PutSpace(m, a, m.spaces[a].(brk := brk))
  }

  /** `address_space_set_brk`. A growth that runs out of frames leaves the pages it has mapped. */
  function SetBrk(m: Machine, a: nat, bytes: nat): (Machine, bool)
    requires a in m.spaces
  {
    if Rounded(bytes) > USER_HEAP_MAX then (m, false)
    else
      var from, to := m.spaces[a].brk, PageOf(Rounded(bytes));
      if to > from then
        var (n, ok) := Grow(m, a, from, to);
        if ok then (PutBrk(n, a, to), true) else (n, false)
      else (PutBrk(Shrink(m, a, to, from), a, to), true)
  }

  // ---------- teardown ----------

  /** Entries `j`, `j + 1`, ... of the table for L2 index `i`. */
  function DropTable(m: Machine, a: nat, i: nat, j: nat): (n: Machine)
    requires a in m.spaces && j <= PER_TABLE
    ensures n.spaces.Keys == m.spaces.Keys
    decreases PER_TABLE - j
  {
    if j == PER_TABLE then m else DropTable(Drop(m, a, PER_TABLE * i + j), a, i, j + 1)
  }

  /** Gives the table page in slot `t` back. */
  function FreeTable(m: Machine, a: nat, t: TableSlot): (n: Machine)
    requires a in m.spaces
    ensures n.spaces.Keys == m.spaces.Keys
  {
    if t !in m.spaces[a].tables then m
    else Release(PutSpace(m, a, m.spaces[a].(tables := m.spaces[a].tables - {t})), m.spaces[a].tables[t])
  }

  /** `teardown_user_range` from L2 index `i` on. */
  function Teardown(m: Machine, a: nat, i: nat): (n: Machine)
    requires a in m.spaces && i <= PER_TABLE
    ensures n.spaces.Keys == m.spaces.Keys
    decreases PER_TABLE - i
  {
    if i == PER_TABLE then m
    else if L3(i) !in m.spaces[a].tables then Teardown(m, a, i + 1)
    else Teardown(FreeTable(DropTable(m, a, i, 0), a, L3(i)), a, i + 1)
  }

  /** `address_space_destroy`: only the last thread out tears the space down. */
  function Destroy(m: Machine, a: nat): Machine
    requires a in m.spaces
  {
    if m.spaces[a].users > 1 then PutSpace(m, a, m.spaces[a].(users := m.spaces[a].users - 1))
    else
      var n := Teardown(m, a, 0);
      var gone := n.(spaces := n.spaces - {a});
      Release(Release(gone, TablePage(n, a, L2)), TablePage(n, a, L1))
  }

  function TablePage(m: Machine, a: nat, t: TableSlot): nat
    requires a in m.spaces
  {
    if t in m.spaces[a].tables then m.spaces[a].tables[t] else 0
  }

  // ---------- copy-on-write fork ----------

  /** The descriptor both sides get: read-only, marked copy-on-write if it was writable. */
  function SharedDesc(d: Desc): Desc
    requires d.Map?
  {
    Map(d.frame, false, d.rw || d.cow, d.exec, Space)
  }

  /** Shares the frame mapped at `v` in `src` with `dst`. */
  function ShareOne(m: Machine, src: nat, dst: nat, v: nat): (n: Machine)
    requires src in m.spaces && dst in m.spaces && v in m.spaces[src].pt && m.spaces[src].pt[v].Map?
    ensures n.spaces.Keys == m.spaces.Keys
  {
    var d := SharedDesc(m.spaces[src].pt[v]);
    Share(SetEntry(SetEntry(m, dst, v, d), src, v, d), d.frame)
  }

  /** One entry of the walk in `address_space_clone_cow`. */
  function CloneEntry(m: Machine, src: nat, dst: nat, v: nat): (r: (Machine, bool))
    requires src in m.spaces && dst in m.spaces
    ensures r.0.spaces.Keys == m.spaces.Keys
  {
    var pt := m.spaces[src].pt;
    if v !in pt || (pt[v].Map? && !pt[v].owner.Space?) then (m, true)
    else
      var (n, ok) := NeedTable(m, dst, v);
      if !ok then (n, false)
      else if pt[v].Guard? then (SetEntry(n, dst, v, Guard), true)
      else (ShareOne(n, src, dst, v), true)
  }

  function CloneTable(m: Machine, src: nat, dst: nat, i: nat, j: nat): (r: (Machine, bool))
    requires src in m.spaces && dst in m.spaces && j <= PER_TABLE
    ensures r.0.spaces.Keys == m.spaces.Keys
    decreases PER_TABLE - j
  {
    if j == PER_TABLE then (m, true)
    else
      var (n, ok) := CloneEntry(m, src, dst, PER_TABLE * i + j);
      if !ok then (n, false) else CloneTable(n, src, dst, i, j + 1)
  }

  function CloneTables(m: Machine, src: nat, dst: nat, i: nat): (r: (Machine, bool))
    requires src in m.spaces && dst in m.spaces && i <= PER_TABLE
    ensures r.0.spaces.Keys == m.spaces.Keys
    decreases PER_TABLE - i
  {
    if i == PER_TABLE then (m, true)
    else if L3(i) !in m.spaces[src].tables then CloneTables(m, src, dst, i + 1)
    else
      var (n, ok) := CloneTable(m, src, dst, i, 0);
      if !ok then (n, false) else CloneTables(n, src, dst, i + 1)
  }

  /** `address_space_clone_cow`: a new space, or 0 after undoing a partial one. */
  function CloneCow(m: Machine, src: nat, heapOk: bool): (Machine, nat)
    requires src in m.spaces
  {
    var (m1, dst) := Create(m, heapOk);
    if dst == 0 then (m1, 0)
    else
      var (m2, ok) := CloneTables(m1, src, dst, 0);
      if ok then (PutBrk(m2, dst, m2.spaces[src].brk), dst)
      else (Destroy(m2, dst), 0)
  }

  // ---------- full-copy fork ----------

  /** One entry of the walk in `address_space_clone`: a copy of the page, writable if the entry is
      writable now, so not if it is copy-on-write. */
  function CopyEntry(m: Machine, src: nat, dst: nat, v: nat): (r: (Machine, bool))
    requires src in m.spaces && dst in m.spaces
    ensures r.0.spaces.Keys == m.spaces.Keys
  {
    var pt := m.spaces[src].pt;
    if v !in pt || (pt[v].Map? && !pt[v].owner.Space?) then (m, true)
    else if pt[v].Guard? then InstallGuard(m, dst, v)
    else
      var (m1, f) := Alloc(m);
      if f == 0 then (m1, false)
      else
        var m2 := PutFrame(m1, f, Frame(m1, pt[v].frame));
        var (m3, ok) := NeedTable(m2, dst, v);
        if ok then (SetEntry(m3, dst, v, Map(f, pt[v].rw, false, pt[v].exec, Space)), true)
        else (Release(m3, f), false)
  }

  function CopyTable(m: Machine, src: nat, dst: nat, i: nat, j: nat): (r: (Machine, bool))
    requires src in m.spaces && dst in m.spaces && j <= PER_TABLE
    ensures r.0.spaces.Keys == m.spaces.Keys
    decreases PER_TABLE - j
  {
    if j == PER_TABLE then (m, true)
    else
      var (n, ok) := CopyEntry(m, src, dst, PER_TABLE * i + j);
      if !ok then (n, false) else CopyTable(n, src, dst, i, j + 1)
  }

  function CopyTables(m: Machine, src: nat, dst: nat, i: nat): (r: (Machine, bool))
    requires src in m.spaces && dst in m.spaces && i <= PER_TABLE
    ensures r.0.spaces.Keys == m.spaces.Keys
    decreases PER_TABLE - i
  {
    if i == PER_TABLE then (m, true)
    else if L3(i) !in m.spaces[src].tables then CopyTables(m, src, dst, i + 1)
    else
      var (n, ok) := CopyTable(m, src, dst, i, 0);
      if !ok then (n, false) else CopyTables(n, src, dst, i + 1)
  }

  /** `address_space_clone`. */
  function Clone(m: Machine, src: nat, heapOk: bool): (Machine, nat)
    requires src in m.spaces
  {
    var (m1, dst) := Create(m, heapOk);
    if dst == 0 then (m1, 0)
    else
      var (m2, ok) := CopyTables(m1, src, dst, 0);
      if ok then (PutBrk(m2, dst, m2.spaces[src].brk), dst) else (Destroy(m2, dst), 0)
  }

  // ---------- write faults ----------

  /** `address_space_handle_cow_fault` on page `v`. */
  function CowFault(m: Machine, a: nat, v: nat): (r: (Machine, bool))
    requires a in m.spaces
    ensures r.0.spaces.Keys == m.spaces.Keys
    ensures r.1 ==> v in r.0.spaces[a].pt && r.0.spaces[a].pt[v].Map?
  {
    var pt := m.spaces[a].pt;
    if v !in pt || pt[v].Guard? || !pt[v].cow || pt[v].rw then (m, false)
    else
      var d := pt[v];
      if Rc(m, d.frame) <= 1 then
        (SetEntry(if Rc(m, d.frame) == 1 then Dec(m, d.frame) else m, a, v,
                  Map(d.frame, true, false, d.exec, Space)), true)
      else
        var (n, f) := Alloc(m);
        if f == 0 then (n, false)
        else (Dec(SetEntry(PutFrame(n, f, Frame(n, d.frame)), a, v, Map(f, true, false, d.exec, Space)), d.frame), true)
  }

  /** `address_space_make_writable`. */
  function MakeWritable(m: Machine, a: nat, v: nat): (r: (Machine, bool))
    requires a in m.spaces
    ensures r.0.spaces.Keys == m.spaces.Keys
    ensures r.1 ==> v in r.0.spaces[a].pt && r.0.spaces[a].pt[v].Map?
  {
    var pt := m.spaces[a].pt;
    if v !in pt || pt[v].Guard? then (m, false)
    else if pt[v].rw then (m, true)
    else if !pt[v].cow then (m, false)
    else CowFault(m, a, v)
  }

  /** A user store to word `w` of page `v`: it goes through when the mapping is writable, or after
      the fault handler has made it so; otherwise the thread is killed. */
  function Store(m: Machine, a: nat, v: nat, w: nat, x: nat): (Machine, bool)
    requires a in m.spaces && w < WORDS
  {
    var (n, ok) := MakeWritable(m, a, v);
    if ok then
      var f := n.spaces[a].pt[v].frame;
      (PutFrame(n, f, Frame(n, f)[w := x]), true)
    else (n, false)
  }
}

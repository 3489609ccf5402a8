/** The program loader (kernel/core/elf.c, `elf_load_user`): headers read from the file's bytes, a
    zeroed frame per page of every PT_LOAD segment filled from the file, the stack and its guard.
    What the program then reads in its segments, and when two segments on one page spoil it. */
module ElfImage {
  import opened Bytes
  import opened Options
  import opened CStrings
  import opened InitStack

  const USER_VA_BASE: nat := 0x10_0000_0000
  const USER_VA_END: nat := 0x10_4000_0000
  const USER_STACK_PAGES: nat := 16
  const STACK_BOTTOM: nat := USER_STACK_TOP - USER_STACK_PAGES * PAGE_SIZE
  const STACK_GUARD_VA: nat := STACK_BOTTOM - PAGE_SIZE
  const SLOTS: nat := 0x4_0000     // entries of all L3 tables of a space
  const PT_LOAD: nat := 1

  type BytePage = s: seq<byte> | |s| == 4096 witness Zeros(4096)

  // ---------- headers ----------

  datatype Header = Header(entry: u64, phoff: u64, phentsize: nat, phnum: nat)

  /** The fields of a program header that the loader looks at. */
  datatype Segment = Segment(kind: u32, offset: u64, vaddr: u64, filesz: u64, memsz: u64)

  function Word16(data: seq<byte>, at: nat): nat
    requires at + 2 <= |data|
  {
    (data[at] as int) + 256 * (data[at + 1] as int)
  }

  function Word64(data: seq<byte>, at: nat): u64
    requires at + 8 <= |data|
  {
    De64(data[at..at + 8])
  }

  /** The checks on the ELF header: magic, 64-bit little-endian, ET_EXEC, EM_AARCH64. */
  function ParseHeader(data: seq<byte>): Option<Header> {
    if |data| < 64 then None
    else if data[..4] != [0x7f, 'E' as int, 'L' as int, 'F' as int] then None
    else if data[4] != 2 || data[5] != 1 then None
    else if Word16(data, 16) != 2 || Word16(data, 18) != 183 then None
    else Some(Header(Word64(data, 24), Word64(data, 32), Word16(data, 54), Word16(data, 56)))
  }

  /** The code reads program header `i` without looking at the size of the file. */
  predicate PhdrInFile(data: seq<byte>, h: Header, i: nat) {
    h.phoff + i * h.phentsize + 56 <= |data|
  }

  function ReadPhdr(data: seq<byte>, h: Header, i: nat): Segment
    requires PhdrInFile(data, h, i)
  {
    var at := h.phoff + i * h.phentsize;
    Segment(De32(data[at..at + 4]), Word64(data, at + 8), Word64(data, at + 16), Word64(data, at + 32), Word64(data, at + 40))
  }

  ghost predicate TableInFile(data: seq<byte>, h: Header) {
    forall i: nat :: i < h.phnum ==> PhdrInFile(data, h, i)
  }

  function Phdrs(data: seq<byte>, h: Header, n: nat): (segs: seq<Segment>)
    requires forall i: nat :: i < n ==> PhdrInFile(data, h, i)
    ensures |segs| == n && forall i: nat :: i < n ==> segs[i] == ReadPhdr(data, h, i)
  {
    if n == 0 then [] else Phdrs(data, h, n - 1) + [ReadPhdr(data, h, n - 1)]
  }

  // ---------- the address space being filled ----------

  /** The free frames from the head, frame contents, the L3 table page of each L2 entry in use, the
      frame of each mapped page by its number in the user range, and the guard pages. */
  datatype Loader = Loader(free: seq<nat>, mem: map<nat, BytePage>, tables: map<nat, nat>,
                           pt: map<nat, nat>, guards: set<nat>)

  /** `pmem_alloc_page`: 0 when there is none. */
  function Alloc(l: Loader): (Loader, nat) {
    if l.free == [] then (l, 0)
    else (l.(free := l.free[1..], mem := l.mem[l.free[0] := Zeros(4096)]), l.free[0])
  }

  function Slot(va: nat): (q: nat)
    ensures q < SLOTS
  {
    va / PAGE_SIZE % SLOTS
  }

  /** `l3_for`. */
  function NeedTable(l: Loader, q: nat): (Loader, bool) {
    if q / 512 in l.tables then (l, true)
    else
      var (n, f) := Alloc(l);
      if f == 0 then (n, false) else (n.(tables := n.tables[q / 512 := f]), true)
  }

  /** `address_space_map` of one page; sums wrap at 64 bits. */
  function MapPage(l: Loader, va: nat, f: nat): (Loader, bool) {
    if va < USER_VA_BASE || (va + PAGE_SIZE) % U64 > USER_VA_END then (l, false)
    else
      var (n, ok) := NeedTable(l, Slot(va));
      if ok then (n.(pt := n.pt[Slot(va) := f], guards := n.guards - {Slot(va)}), true) else (n, false)
  }

  // ---------- one segment ----------

  function Low(s: Segment): nat {
    s.vaddr / PAGE_SIZE * PAGE_SIZE
  }

  function High(s: Segment): nat {
    (s.vaddr + s.memsz + PAGE_SIZE - 1) % U64 / PAGE_SIZE * PAGE_SIZE
  }

  function Pages(s: Segment): nat {
    (High(s) - Low(s)) % U64 / PAGE_SIZE
  }

  function PageVa(s: Segment, k: nat): nat {
    (Low(s) + k * PAGE_SIZE) % U64
  }

  /** The code copies the segment's bytes without looking at the size of the file. */
  predicate InFile(size: nat, s: Segment) {
    s.kind == PT_LOAD ==> s.offset + s.filesz <= size
  }

  /** Where in the file the byte at `va` comes from; none for a byte left zero. */
  function Source(s: Segment, va: nat): Option<nat> {
    if s.vaddr <= va < (s.vaddr + s.filesz) % U64 then Some(s.offset + (va - s.vaddr)) else None
  }

  function ByteFrom(data: seq<byte>, source: Option<nat>): byte {
    if source.Some? && source.value < |data| then data[source.value] else 0
  }

  /** What the copy loop puts in the page at `va`. */
  function PageBytes(data: seq<byte>, s: Segment, va: nat): (p: seq<byte>)
    ensures |p| == 4096
    ensures forall b: nat :: b < 4096 ==> p[b] == ByteFrom(data, Source(s, va + b))
  {
    seq<byte>(4096, (b: nat) requires b < 4096 => ByteFrom(data, Source(s, va + b)))
  }

  /** The bytes the copy loop reads lie in the file. */
  lemma SourceInFile(size: nat, s: Segment, va: nat)
    requires InFile(size, s) && s.kind == PT_LOAD && Source(s, va).Some?
    ensures Source(s, va).value < size
  {}

  /** Pages `k`, `k + 1`, ... of the segment. */
  function LoadPages(l: Loader, data: seq<byte>, s: Segment, k: nat): (Loader, bool)
    requires k <= Pages(s)
    decreases Pages(s) - k
  {
    if k == Pages(s) then (l, true)
    else
      var (l1, f) := Alloc(l);
      if f == 0 then (l1, false)
      else
        var (l2, ok) := MapPage(l1.(mem := l1.mem[f := PageBytes(data, s, PageVa(s, k))]), PageVa(s, k), f);
        if ok then LoadPages(l2, data, s, k + 1) else (l2, false)
  }

  /** Program headers `i`, `i + 1`, ...; it fails if none of them all was a segment with pages. */
  function LoadSegments(l: Loader, data: seq<byte>, segs: seq<Segment>, i: nat, seen: bool): (Loader, bool)
    requires i <= |segs|
    decreases |segs| - i
  {
    if i == |segs| then (l, seen)
    else if segs[i].kind != PT_LOAD || Pages(segs[i]) == 0 then LoadSegments(l, data, segs, i + 1, seen)
    else
      var (n, ok) := LoadPages(l, data, segs[i], 0);
      if ok then LoadSegments(n, data, segs, i + 1, true) else (n, false)
  }

  // ---------- the stack ----------

  /** Stack pages `k`, `k + 1`, ...; it returns the frame of the top page, or 0. */
  function StackPages(l: Loader, k: nat, top: nat): (Loader, nat)
    requires k <= USER_STACK_PAGES
    decreases USER_STACK_PAGES - k
  {
    if k == USER_STACK_PAGES then (l, top)
    else
      var (l1, f) := Alloc(l);
      if f == 0 then (l1, 0)
      else
        var (l2, ok) := MapPage(l1, STACK_BOTTOM + k * PAGE_SIZE, f);
        if ok then StackPages(l2, k + 1, f) else (l2, 0)
  }

  /** `address_space_install_guard`: whatever the entry held is overwritten. */
  function Guard(l: Loader, va: nat): (Loader, bool) {
    var (n, ok) := NeedTable(l, Slot(va));
    if ok then (n.(pt := n.pt - {Slot(va)}, guards := n.guards + {Slot(va)}), true) else (n, false)
  }

  const TOP_SLOT: nat := SLOTS - 1
  const GUARD_SLOT: nat := SLOTS - 17
  const STACK_SLOT: nat := SLOTS - 16

  /** The stack, its guard, and the first frame in the top page. */
  function LoadStack(l: Loader, argv: seq<CString>): (Loader, bool) {
    var (l1, top) := StackPages(l, 0, 0);
    if top == 0 then (l1, false)
    else
      var (l2, ok) := Guard(l1, STACK_GUARD_VA);
      if ok && Fits(argv) then (l2.(mem := l2.mem[top := Frame(argv)]), true) else (l2, false)
  }

  /** `elf_load_user` behind the header checks. */
  function LoadImage(l: Loader, data: seq<byte>, segs: seq<Segment>, argv: seq<CString>): (Loader, bool) {
    var (l1, ok) := LoadSegments(l, data, segs, 0, false);
    if ok then LoadStack(l1, argv) else (l1, false)
  }

  datatype UserImage = UserImage(entry: nat, sp: nat)

  /** `elf_load_user`. */
  function LoadUser(l: Loader, data: seq<byte>, argv: seq<CString>): (Loader, Option<UserImage>)
    requires ParseHeader(data).Some? ==> TableInFile(data, ParseHeader(data).value)
  {
    match ParseHeader(data)
    case None => (l, None)
    case Some(h) =>
      var (n, ok) := LoadImage(l, data, Phdrs(data, h, h.phnum), argv);
      if ok then (n, Some(UserImage(h.entry, (USER_STACK_TOP as int) - Total(argv)))) else (n, None)
  }

  // ---------- what the program sees ----------

  /** The page behind entry `q`, if there is one. */
  function Shows(l: Loader, q: nat): Option<BytePage> {
    if q in l.pt && l.pt[q] in l.mem then Some(l.mem[l.pt[q]]) else None
  }

  /** The byte the program reads at `va`; none if the access faults. */
  function UserByte(l: Loader, va: nat): Option<byte> {
    if !(USER_VA_BASE <= va < USER_VA_END) then None
    else
      var page := Shows(l, Slot(va));
      if page.None? then None else Some(page.value[va % PAGE_SIZE])
  }

  /** No frame is in two places. */
  ghost predicate Sound(l: Loader) {
    && (forall i :: 0 <= i < |l.free| ==> l.free[i] != 0)
    && (forall i, j :: 0 <= i < j < |l.free| ==> l.free[i] != l.free[j])
    && (forall q :: q in l.pt ==> l.pt[q] in l.mem && l.pt[q] !in l.free)
    && (forall q, r :: q in l.pt && r in l.pt && q != r ==> l.pt[q] != l.pt[r])
    && (forall t :: t in l.tables ==> l.tables[t] !in l.free)
    && (forall t, q :: t in l.tables && q in l.pt ==> l.tables[t] != l.pt[q])
    && (forall q :: q in l.pt ==> q !in l.guards)
  }

  /** Frame `f` is in no place. */
  ghost predicate Fresh(l: Loader, f: nat) {
    f !in l.free && (forall q :: q in l.pt ==> l.pt[q] != f) && (forall t :: t in l.tables ==> l.tables[t] != f)
  }

  ghost predicate SameShown(l: Loader, n: Loader) {
    forall q: nat :: Shows(n, q) == Shows(l, q)
  }

  lemma AllocKeeps(l: Loader)
    requires Sound(l)
    ensures var (n, f) := Alloc(l);
      && Sound(n) && SameShown(l, n)
      && (f != 0 ==> Fresh(n, f) && f in n.mem && n.mem[f] == Zeros(4096))
      && (f == 0 <==> l.free == []) && n.pt == l.pt && n.guards == l.guards
      && (forall g: nat :: Fresh(l, g) ==> Fresh(n, g) && (f != 0 ==> g != f) && (g in l.mem ==> g in n.mem && n.mem[g] == l.mem[g]))
  {
    if l.free != [] {
      var f, n := l.free[0], Alloc(l).0;
      assert f in l.free;
      forall i, j | 0 <= i < j < |n.free|
        ensures n.free[i] != n.free[j]
      {
        var a, b := i + 1, j + 1;
        assert n.free[i] == l.free[a] && n.free[j] == l.free[b];
      }
      assert forall x :: x in n.free ==> x in l.free;
      assert f !in n.free;
    }
  }

  lemma FillFresh(l: Loader, f: nat, p: BytePage)
    requires Sound(l) && Fresh(l, f)
    ensures var n := l.(mem := l.mem[f := p]); Sound(n) && SameShown(l, n) && Fresh(n, f)
  {}

  lemma TableFromFresh(l: Loader, t: nat, f: nat)
    requires Sound(l) && Fresh(l, f) && t !in l.tables
    ensures var n := l.(tables := l.tables[t := f]);
      Sound(n) && SameShown(l, n) && forall g: nat :: Fresh(l, g) && g != f ==> Fresh(n, g)
  {}

  lemma NeedTableKeeps(l: Loader, q: nat)
    requires Sound(l)
    ensures var (n, ok) := NeedTable(l, q);
      && Sound(n) && SameShown(l, n) && n.pt == l.pt && n.guards == l.guards
      && (forall g: nat :: Fresh(l, g) && g in l.mem ==> Fresh(n, g) && g in n.mem && n.mem[g] == l.mem[g])
  {
    hide Sound, Fresh, Shows;
    AllocKeeps(l);
    var (n, f) := Alloc(l);
    if q / 512 !in l.tables && f != 0 {
      AllocTables(l);
      TableFromFresh(n, q / 512, f);
    }
  }

  lemma AllocTables(l: Loader)
    ensures Alloc(l).0.tables == l.tables
  {}

  lemma PutEntry(l: Loader, q: nat, f: nat)
    requires Sound(l) && Fresh(l, f) && f in l.mem
    ensures var n := l.(pt := l.pt[q := f], guards := l.guards - {q});
      Sound(n) && forall r: nat :: Shows(n, r) == if r == q then Some(l.mem[f]) else Shows(l, r)
  {}

  /** Mapping a fresh frame shows its bytes at that page and changes no other page. */
  lemma MapPageKeeps(l: Loader, va: nat, f: nat)
    requires Sound(l) && Fresh(l, f) && f in l.mem
    ensures var (n, ok) := MapPage(l, va, f);
      && Sound(n)
      && (ok ==> USER_VA_BASE <= va && forall r: nat :: Shows(n, r) == if r == Slot(va) then Some(l.mem[f]) else Shows(l, r))
      && (ok ==> Slot(va) !in n.guards)
  {
    hide Sound, Fresh, Shows, Slot, NeedTable;
    NeedTableKeeps(l, Slot(va));
    var (n, ok) := NeedTable(l, Slot(va));
    if ok {
      PutEntry(n, Slot(va), f);
    }
  }

  // ---------- segments in place ----------

  const BASE_PAGE: nat := USER_VA_BASE / PAGE_SIZE

  /** The header is sound and the segment ends below the stack guard. */
  predicate Placed(s: Segment) {
    s.kind == PT_LOAD ==> s.filesz <= s.memsz && s.vaddr + s.memsz <= STACK_GUARD_VA
  }

  function FirstPage(s: Segment): nat {
    s.vaddr / PAGE_SIZE
  }

  function EndPage(s: Segment): nat {
    (s.vaddr + s.memsz + PAGE_SIZE - 1) / PAGE_SIZE
  }

  /** Pages `k` and up of the segment include entry `q`. */
  predicate Spans(s: Segment, k: nat, q: nat) {
    FirstPage(s) + k <= BASE_PAGE + q < EndPage(s)
  }

  predicate Covers(s: Segment, q: nat) {
    s.kind == PT_LOAD && Spans(s, 0, q)
  }

  function VaOf(q: nat): nat {
    USER_VA_BASE + q * PAGE_SIZE
  }

  /** Below the stack nothing wraps: the loop visits the pages from first to last. */
  lemma PlacedPages(s: Segment, k: nat)
    requires Placed(s) && s.kind == PT_LOAD
    ensures FirstPage(s) <= EndPage(s) <= STACK_GUARD_VA / PAGE_SIZE
    ensures Pages(s) == EndPage(s) - FirstPage(s)
    ensures k <= Pages(s) ==> PageVa(s, k) == (FirstPage(s) + k) * PAGE_SIZE
  {
    assert Low(s) == FirstPage(s) * PAGE_SIZE && High(s) == EndPage(s) * PAGE_SIZE;
    assert High(s) - Low(s) == (EndPage(s) - FirstPage(s)) * PAGE_SIZE;
  }

  lemma SlotOfPage(p: nat)
    requires BASE_PAGE <= p < BASE_PAGE + SLOTS
    ensures Slot(p * PAGE_SIZE) == p - BASE_PAGE && VaOf(p - BASE_PAGE) == p * PAGE_SIZE
  {
    assert BASE_PAGE % SLOTS == 0;
  }

  lemma SpansNext(s: Segment, k: nat, p: nat, q: nat)
    requires p == FirstPage(s) + k && BASE_PAGE <= p < EndPage(s)
    ensures Spans(s, k, q) <==> q == p - BASE_PAGE || Spans(s, k + 1, q)
    ensures q == p - BASE_PAGE ==> !Spans(s, k + 1, q)
  {}

  lemma SpansNone(s: Segment, k: nat, q: nat)
    requires FirstPage(s) + k == EndPage(s)
    ensures !Spans(s, k, q)
  {}

  /** Loading a segment shows its bytes on its pages and changes no other page. */
  lemma {:induction false} LoadPagesKeeps(l: Loader, data: seq<byte>, s: Segment, k: nat)
    requires Sound(l) && Placed(s) && s.kind == PT_LOAD && k <= Pages(s)
    ensures var (n, ok) := LoadPages(l, data, s, k);
      && Sound(n)
      && (ok ==> forall q: nat :: Shows(n, q) == if Spans(s, k, q) then Some(PageBytes(data, s, VaOf(q))) else Shows(l, q))
    decreases Pages(s) - k
  {
    hide Sound, Fresh, Shows, Slot, MapPage, Spans, VaOf, PageBytes, Pages, PageVa, FirstPage, EndPage, Placed;
    PlacedPages(s, k);
    if k == Pages(s) {
      forall q: nat
        ensures !Spans(s, k, q)
      {
        SpansNone(s, k, q);
      }
    } else {
      AllocKeeps(l);
      var (l1, f) := Alloc(l);
      if f != 0 {
        var va := PageVa(s, k);
        var bytes := PageBytes(data, s, va);
        FillFresh(l1, f, bytes);
        var filled := l1.(mem := l1.mem[f := bytes]);
        MapPageKeeps(filled, va, f);
        var (l2, ok) := MapPage(filled, va, f);
        if ok {
          LoadPagesKeeps(l2, data, s, k + 1);
          PageInRange(s, k);
          forall q: nat | LoadPages(l2, data, s, k + 1).1
            ensures Shows(LoadPages(l2, data, s, k + 1).0, q) == if Spans(s, k, q) then Some(PageBytes(data, s, VaOf(q))) else Shows(l, q)
          {
            SpansNext(s, k, FirstPage(s) + k, q);
          }
        }
      }
    }
  }

  lemma PageInRange(s: Segment, k: nat)
    requires Placed(s) && s.kind == PT_LOAD && k < Pages(s) && PageVa(s, k) >= USER_VA_BASE
    ensures var p := FirstPage(s) + k;
      BASE_PAGE <= p < EndPage(s) && Slot(PageVa(s, k)) == p - BASE_PAGE && VaOf(p - BASE_PAGE) == PageVa(s, k)
  {
    PlacedPages(s, k);
    SlotOfPage(FirstPage(s) + k);
  }

  /** The last of the first `n` segments with a page at entry `q`. */
  function LastCover(segs: seq<Segment>, n: nat, q: nat): (r: Option<nat>)
    requires n <= |segs|
    ensures r.Some? ==> r.value < n && Covers(segs[r.value], q)
    ensures forall j: nat :: j < n && Covers(segs[j], q) ==> r.Some? && j <= r.value
  {
    if n == 0 then None else if Covers(segs[n - 1], q) then Some(n - 1) else LastCover(segs, n - 1, q)
  }

  ghost predicate AllPlaced(segs: seq<Segment>) {
    forall i: nat :: i < |segs| ==> Placed(segs[i])
  }

  /** After the first `i` program headers each page shows what the last segment on it put there. */
  ghost predicate Painted(l0: Loader, l: Loader, data: seq<byte>, segs: seq<Segment>, i: nat)
    requires i <= |segs|
  {
    forall q: nat :: Shows(l, q) ==
      var c := LastCover(segs, i, q);
      if c.Some? then Some(PageBytes(data, segs[c.value], VaOf(q))) else Shows(l0, q)
  }

  lemma NoPages(s: Segment, q: nat)
    requires Placed(s) && (s.kind != PT_LOAD || Pages(s) == 0)
    ensures !Covers(s, q)
  {
    if s.kind == PT_LOAD {
      PlacedPages(s, 0);
    }
  }

  lemma {:induction false} LoadSegmentsKeeps(l0: Loader, l: Loader, data: seq<byte>, segs: seq<Segment>, i: nat, seen: bool)
    requires Sound(l) && AllPlaced(segs) && i <= |segs| && Painted(l0, l, data, segs, i)
    ensures var (n, ok) := LoadSegments(l, data, segs, i, seen);
      Sound(n) && (ok ==> Painted(l0, n, data, segs, |segs|))
    decreases |segs| - i
  {
    hide Sound, Shows, VaOf, PageBytes, Pages, Placed, Spans, LoadPages;
    if i < |segs| {
      if segs[i].kind != PT_LOAD || Pages(segs[i]) == 0 {
        forall q: nat
          ensures LastCover(segs, i + 1, q) == LastCover(segs, i, q)
        {
          NoPages(segs[i], q);
        }
        LoadSegmentsKeeps(l0, l, data, segs, i + 1, seen);
      } else {
        LoadPagesKeeps(l, data, segs[i], 0);
        var (n, ok) := LoadPages(l, data, segs[i], 0);
        if ok {
          LoadSegmentsKeeps(l0, n, data, segs, i + 1, true);
        }
      }
    }
  }

  // ---------- the stack in place ----------

  lemma StackSlot(k: nat)
    requires k < USER_STACK_PAGES
    ensures Slot(STACK_BOTTOM + k * PAGE_SIZE) == STACK_SLOT + k
  {
    SlotOfPage(BASE_PAGE + STACK_SLOT + k);
  }

  lemma {:induction false} StackPagesKeeps(l: Loader, k: nat, top: nat)
    requires Sound(l) && k <= USER_STACK_PAGES && (k == USER_STACK_PAGES && top != 0 ==> At(l, TOP_SLOT, top))
    ensures var (n, t) := StackPages(l, k, top);
      && Sound(n)
      && (t != 0 ==> At(n, TOP_SLOT, t))
      && (t != 0 ==> forall q: nat :: Shows(n, q) == if STACK_SLOT + k <= q < SLOTS then Some(Zeros(4096)) else Shows(l, q))
    decreases USER_STACK_PAGES - k
  {
    hide Sound, Fresh, Shows, Slot, MapPage, At;
    if k < USER_STACK_PAGES {
      AllocKeeps(l);
      var (l1, f) := Alloc(l);
      if f != 0 {
        var va := STACK_BOTTOM + k * PAGE_SIZE;
        StackSlot(k);
        MapPageKeeps(l1, va, f);
        MapPageAt(l1, va, f);
        var (l2, ok) := MapPage(l1, va, f);
        if ok {
          StackPagesKeeps(l2, k + 1, f);
        }
      }
    }
  }

  /** Entry `q` maps frame `f`. */
  predicate At(l: Loader, q: nat, f: nat) {
    q in l.pt && l.pt[q] == f
  }

  lemma MapPageAt(l: Loader, va: nat, f: nat)
    ensures var (n, ok) := MapPage(l, va, f); ok ==> At(n, Slot(va), f)
  {}

  lemma GuardKeeps(l: Loader, va: nat)
    requires Sound(l)
    ensures var (n, ok) := Guard(l, va);
      && Sound(n)
      && (ok ==> Slot(va) in n.guards && forall q: nat :: Shows(n, q) == if q == Slot(va) then None else Shows(l, q))
  {
    hide Sound, Shows, NeedTable, Slot;
    NeedTableKeeps(l, Slot(va));
    var (n, ok) := NeedTable(l, Slot(va));
    if ok {
      ClearEntry(n, Slot(va));
    }
  }

  lemma ClearEntry(l: Loader, q: nat)
    requires Sound(l)
    ensures var n := l.(pt := l.pt - {q}, guards := l.guards + {q});
      Sound(n) && forall r: nat :: Shows(n, r) == if r == q then None else Shows(l, r)
  {}

  lemma FillTop(l: Loader, q: nat, p: BytePage)
    requires Sound(l) && q in l.pt
    ensures var n := l.(mem := l.mem[l.pt[q] := p]);
      Sound(n) && forall r: nat :: Shows(n, r) == if r == q then Some(p) else Shows(l, r)
  {}

  /** What a page shows after the stack is set up. */
  function WithStack(argv: seq<CString>, q: nat, before: Option<BytePage>): Option<BytePage>
    requires Fits(argv)
  {
    if q == TOP_SLOT then Some(Frame(argv))
    else if STACK_SLOT <= q < TOP_SLOT then Some(Zeros(4096))
    else if q == GUARD_SLOT then None
    else before
  }

  lemma LoadStackKeeps(l: Loader, argv: seq<CString>)
    requires Sound(l)
    ensures var (n, ok) := LoadStack(l, argv);
      && Sound(n)
      && (ok ==> Fits(argv) && GUARD_SLOT in n.guards && forall q: nat :: Shows(n, q) == WithStack(argv, q, Shows(l, q)))
  {
    hide Sound, Shows, StackPages, Guard, Slot, Frame, Fits;
    StackPagesKeeps(l, 0, 0);
    var (l1, top) := StackPages(l, 0, 0);
    if top != 0 {
      GuardKeeps(l1, STACK_GUARD_VA);
      assert Slot(STACK_GUARD_VA) == GUARD_SLOT by {
        SlotOfPage(BASE_PAGE + GUARD_SLOT);
      }
      GuardAt(l1, STACK_GUARD_VA, TOP_SLOT, top);
      var (l2, ok) := Guard(l1, STACK_GUARD_VA);
      if ok && Fits(argv) {
        FillTop(l2, TOP_SLOT, Frame(argv));
      }
    }
  }

  lemma GuardAt(l: Loader, va: nat, q: nat, f: nat)
    requires At(l, q, f) && q != Slot(va)
    ensures At(Guard(l, va).0, q, f)
  {}

  /** After a load that succeeds every page shows what the stack put there, else the last segment
      on it, else what was there before. */
  lemma LoadImageShows(l: Loader, data: seq<byte>, segs: seq<Segment>, argv: seq<CString>, q: nat)
    requires Sound(l) && AllPlaced(segs) && LoadImage(l, data, segs, argv).1
    ensures var n := LoadImage(l, data, segs, argv).0;
      && Sound(n) && Fits(argv) && GUARD_SLOT in n.guards
      && Shows(n, q) == WithStack(argv, q,
           var c := LastCover(segs, |segs|, q);
           if c.Some? then Some(PageBytes(data, segs[c.value], VaOf(q))) else Shows(l, q))
  {
    hide Sound, Shows, LoadSegments, LoadStack, WithStack, VaOf, PageBytes, Fits, LastCover;
    NothingPainted(l, data, segs);
    LoadSegmentsKeeps(l, l, data, segs, 0, false);
    LoadStackKeeps(LoadSegments(l, data, segs, 0, false).0, argv);
  }

  lemma NothingPainted(l: Loader, data: seq<byte>, segs: seq<Segment>)
    ensures Painted(l, l, data, segs, 0)
  {}

  // ---------- what a segment reads as ----------

  /** Address `va` belongs to segment `i`. */
  predicate InSegment(segs: seq<Segment>, i: nat, va: nat) {
    i < |segs| && segs[i].kind == PT_LOAD && segs[i].vaddr <= va < segs[i].vaddr + segs[i].memsz
  }

  /** File data, then zeroes. */
  function Promised(data: seq<byte>, s: Segment, va: nat): byte {
    if s.vaddr <= va < s.vaddr + s.filesz && s.offset + (va - s.vaddr) < |data| then data[s.offset + (va - s.vaddr)] else 0
  }

  lemma PromisedIsSource(data: seq<byte>, s: Segment, va: nat)
    requires Placed(s) && s.kind == PT_LOAD
    ensures Promised(data, s, va) == ByteFrom(data, Source(s, va))
  {}

  /** The segment whose page is the one mapped at `va` in the end. */
  function Winner(segs: seq<Segment>, va: nat): Option<nat> {
    LastCover(segs, |segs|, Slot(va))
  }

  lemma InUserRange(segs: seq<Segment>, i: nat, va: nat)
    requires AllPlaced(segs) && InSegment(segs, i, va) && USER_VA_BASE <= va
    ensures va < STACK_GUARD_VA && Slot(va) < GUARD_SLOT && VaOf(Slot(va)) + va % PAGE_SIZE == va
    ensures Covers(segs[i], Slot(va)) && Winner(segs, va).Some? && i <= Winner(segs, va).value
  {
    var s := segs[i];
    assert Placed(s);
    SlotOfPage(va / PAGE_SIZE);
  }

  /** Every byte of a segment, in the end, comes from where the last segment on its page has it. */
  lemma ByteIsWinners(l: Loader, data: seq<byte>, segs: seq<Segment>, argv: seq<CString>, i: nat, va: nat)
    requires Sound(l) && AllPlaced(segs) && LoadImage(l, data, segs, argv).1
    requires InSegment(segs, i, va) && USER_VA_BASE <= va
    ensures Winner(segs, va).Some?
    ensures UserByte(LoadImage(l, data, segs, argv).0, va) == Some(ByteFrom(data, Source(segs[Winner(segs, va).value], va)))
  {
    hide Sound, Shows, LoadImage, AllPlaced, Source, VaOf, Slot, PageBytes, LastCover, Fits;
    InUserRange(segs, i, va);
    LoadImageShows(l, data, segs, argv, Slot(va));
    var j := Winner(segs, va).value;
    assert PageBytes(data, segs[j], VaOf(Slot(va)))[va % PAGE_SIZE] == ByteFrom(data, Source(segs[j], VaOf(Slot(va)) + va % PAGE_SIZE));
  }

  // ---------- well-formed images ----------

  /** No page belongs to two segments. */
  ghost predicate PageDisjoint(segs: seq<Segment>) {
    forall i: nat, j: nat, q: nat ::
      i < |segs| && j < |segs| && Covers(segs[i], q) && Covers(segs[j], q) ==> i == j
  }

  ghost predicate AllInFile(size: nat, segs: seq<Segment>) {
    forall i: nat :: i < |segs| ==> InFile(size, segs[i])
  }

  /** Every byte of every segment reads as file data, then zeroes. */
  ghost predicate ReadsRight(l: Loader, data: seq<byte>, segs: seq<Segment>) {
    forall i: nat, va: nat :: InSegment(segs, i, va) ==>
      USER_VA_BASE <= va && UserByte(l, va) == Some(Promised(data, segs[i], va))
  }

  lemma HasPages(s: Segment)
    requires Placed(s) && s.kind == PT_LOAD && s.memsz > 0
    ensures Pages(s) > 0
  {
    PlacedPages(s, 0);
  }

  lemma FirstPageMapped(l: Loader, data: seq<byte>, s: Segment)
    requires Placed(s) && s.kind == PT_LOAD && Pages(s) > 0 && LoadPages(l, data, s, 0).1
    ensures USER_VA_BASE <= s.vaddr
  {
    hide NeedTable, Slot, PageBytes, Pages;
    PlacedPages(s, 0);
  }

  /** Loading succeeds only if every segment lies in the user range. */
  lemma {:induction false} LoadedInRange(l: Loader, data: seq<byte>, segs: seq<Segment>, i: nat, seen: bool, j: nat, va: nat)
    requires AllPlaced(segs) && i <= j && InSegment(segs, j, va) && LoadSegments(l, data, segs, i, seen).1
    ensures USER_VA_BASE <= va
    decreases |segs| - i
  {
    hide LoadPages, Pages, Placed;
    HasPages(segs[j]);
    if segs[i].kind != PT_LOAD || Pages(segs[i]) == 0 {
      LoadedInRange(l, data, segs, i + 1, seen, j, va);
    } else if i < j {
      LoadedInRange(LoadPages(l, data, segs[i], 0).0, data, segs, i + 1, true, j, va);
    } else {
      FirstPageMapped(l, data, segs[i]);
    }
  }

  /** The byte read at `va` of segment `i` after a load, and the byte promised there. */
  lemma ReadAndPromised(l: Loader, data: seq<byte>, segs: seq<Segment>, argv: seq<CString>, i: nat, va: nat)
    requires Sound(l) && AllPlaced(segs) && LoadImage(l, data, segs, argv).1 && InSegment(segs, i, va)
    ensures USER_VA_BASE <= va && Winner(segs, va).Some?
    ensures UserByte(LoadImage(l, data, segs, argv).0, va) == Some(ByteFrom(data, Source(segs[Winner(segs, va).value], va)))
    ensures Promised(data, segs[i], va) == ByteFrom(data, Source(segs[i], va))
  {
    hide Sound, Source, Promised, ByteFrom, UserByte, Winner, LoadSegments, LoadStack;
    LoadedInRange(l, data, segs, 0, false, i, va);
    assert Placed(segs[i]);
    ByteIsWinners(l, data, segs, argv, i, va);
    PromisedIsSource(data, segs[i], va);
  }

  // ---------- segments that share a page ----------

  /** Each address of a segment has the same place in the file, or none, in the segment itself and
      in the last one with a byte on that page. */
  ghost predicate Agree(segs: seq<Segment>) {
    forall i: nat, va: nat :: InSegment(segs, i, va) ==>
      Winner(segs, va).Some? && Source(segs[i], va) == Source(segs[Winner(segs, va).value], va)
  }

  lemma DisjointAgree(segs: seq<Segment>)
    requires AllPlaced(segs) && PageDisjoint(segs) && (forall i: nat, va: nat :: InSegment(segs, i, va) ==> USER_VA_BASE <= va)
    ensures Agree(segs)
  {
    hide Source, Covers, AllPlaced;
    forall i: nat, va: nat | InSegment(segs, i, va)
      ensures Winner(segs, va).Some? && Winner(segs, va).value == i
    {
      InUserRange(segs, i, va);
    }
  }

  /** The same free frames, tables and entries; contents may differ. */
  predicate SamePlaces(l: Loader, n: Loader) {
    n.free == l.free && n.tables == l.tables && n.pt == l.pt && n.guards == l.guards
  }

  lemma {:induction false} SamePagesLoaded(l: Loader, n: Loader, d: seq<byte>, e: seq<byte>, s: Segment, k: nat)
    requires SamePlaces(l, n) && k <= Pages(s)
    ensures SamePlaces(LoadPages(l, d, s, k).0, LoadPages(n, e, s, k).0) && LoadPages(l, d, s, k).1 == LoadPages(n, e, s, k).1
    decreases Pages(s) - k
  {
    hide Pages, PageVa, PageBytes, Slot;
    if k < Pages(s) && l.free != [] {
      var (l1, f) := Alloc(l);
      var (n1, g) := Alloc(n);
      var va := PageVa(s, k);
      var (l2, ok) := MapPage(l1.(mem := l1.mem[f := PageBytes(d, s, va)]), va, f);
      var (n2, ok') := MapPage(n1.(mem := n1.mem[g := PageBytes(e, s, va)]), va, g);
      SamePagesLoadedHere(l1.(mem := l1.mem[f := PageBytes(d, s, va)]), n1.(mem := n1.mem[g := PageBytes(e, s, va)]), va, f);
      if f != 0 && ok {
        SamePagesLoaded(l2, n2, d, e, s, k + 1);
      }
    }
  }

  lemma SamePagesLoadedHere(l: Loader, n: Loader, va: nat, f: nat)
    requires SamePlaces(l, n)
    ensures SamePlaces(MapPage(l, va, f).0, MapPage(n, va, f).0) && MapPage(l, va, f).1 == MapPage(n, va, f).1
  {}

  lemma {:induction false} SameSegmentsLoaded(l: Loader, n: Loader, d: seq<byte>, e: seq<byte>, segs: seq<Segment>, i: nat, seen: bool)
    requires SamePlaces(l, n) && i <= |segs|
    ensures SamePlaces(LoadSegments(l, d, segs, i, seen).0, LoadSegments(n, e, segs, i, seen).0)
    ensures LoadSegments(l, d, segs, i, seen).1 == LoadSegments(n, e, segs, i, seen).1
    decreases |segs| - i
  {
    hide Pages, LoadPages, SamePlaces;
    if i == |segs| {
    } else if segs[i].kind != PT_LOAD || Pages(segs[i]) == 0 {
      SameSegmentsLoaded(l, n, d, e, segs, i + 1, seen);
    } else {
      SamePagesLoaded(l, n, d, e, segs[i], 0);
      if LoadPages(l, d, segs[i], 0).1 {
        SameSegmentsLoaded(LoadPages(l, d, segs[i], 0).0, LoadPages(n, e, segs[i], 0).0, d, e, segs, i + 1, true);
      }
    }
  }

  lemma {:induction false} SameStackPages(l: Loader, n: Loader, k: nat, top: nat)
    requires SamePlaces(l, n) && k <= USER_STACK_PAGES
    ensures SamePlaces(StackPages(l, k, top).0, StackPages(n, k, top).0) && StackPages(l, k, top).1 == StackPages(n, k, top).1
    decreases USER_STACK_PAGES - k
  {
    hide MapPage;
    if k < USER_STACK_PAGES && l.free != [] {
      var va, f := STACK_BOTTOM + k * PAGE_SIZE, l.free[0];
      SamePagesLoadedHere(Alloc(l).0, Alloc(n).0, va, f);
      if f != 0 && MapPage(Alloc(l).0, va, f).1 {
        SameStackPages(MapPage(Alloc(l).0, va, f).0, MapPage(Alloc(n).0, va, f).0, k + 1, f);
      }
    }
  }

  /** Whether a load succeeds does not depend on what the file holds. */
  lemma SuccessIndependent(l: Loader, d: seq<byte>, e: seq<byte>, segs: seq<Segment>, argv: seq<CString>)
    ensures LoadImage(l, d, segs, argv).1 == LoadImage(l, e, segs, argv).1
  {
    hide LoadSegments, StackPages, Slot, Frame, Fits;
    SameSegmentsLoaded(l, l, d, e, segs, 0, false);
    SameStackPages(LoadSegments(l, d, segs, 0, false).0, LoadSegments(l, e, segs, 0, false).0, 0, 0);
  }

  /** A file of the given size with one byte set. */
  function OneByte(size: nat, at: nat): (d: seq<byte>)
    ensures |d| == size && forall x: nat :: x < size ==> d[x] == if x == at then 1 else 0
  {
    seq<byte>(size, (x: nat) => if x == at then 1 else 0)
  }

  /** Two places in the file that differ are told apart by some file. */
  lemma TellApart(size: nat, x: Option<nat>, y: Option<nat>) returns (d: seq<byte>)
    requires x != y && (x.Some? ==> x.value < size) && (y.Some? ==> y.value < size)
    ensures |d| == size && ByteFrom(d, x) != ByteFrom(d, y)
  {
    d := OneByte(size, if x.Some? then x.value else y.value);
  }

  /** For headers under which loading succeeds: whatever the file holds, every byte of every segment
      reads right, if and only if segments that share a page agree on it. */
  lemma SharedPages(l: Loader, data: seq<byte>, segs: seq<Segment>, argv: seq<CString>)
    requires Sound(l) && AllPlaced(segs) && AllInFile(|data|, segs) && LoadImage(l, data, segs, argv).1
    ensures (forall d: seq<byte> :: |d| == |data| ==> ReadsRight(LoadImage(l, d, segs, argv).0, d, segs)) <==> Agree(segs)
  {
    hide Sound, Source, Promised, ByteFrom, UserByte, LoadImage, AllPlaced;
    if Agree(segs) {
      forall d: seq<byte> | |d| == |data|
        ensures ReadsRight(LoadImage(l, d, segs, argv).0, d, segs)
      {
        SuccessIndependent(l, d, data, segs, argv);
        AgreeReads(l, d, segs, argv);
      }
    } else {
      var i: nat, va: nat :| InSegment(segs, i, va) && (Winner(segs, va).Some? ==> Source(segs[i], va) != Source(segs[Winner(segs, va).value], va));
      ReadAndPromised(l, data, segs, argv, i, va);
      var j := Winner(segs, va).value;
      PlacesInFile(|data|, segs, i, va);
      var d := TellApart(|data|, Source(segs[i], va), Source(segs[j], va));
      SuccessIndependent(l, d, data, segs, argv);
      ReadAndPromised(l, d, segs, argv, i, va);
      assert !ReadsRight(LoadImage(l, d, segs, argv).0, d, segs);
    }
  }

  lemma PlacesInFile(size: nat, segs: seq<Segment>, i: nat, va: nat)
    requires AllInFile(size, segs) && InSegment(segs, i, va) && Winner(segs, va).Some?
    ensures var (x, y) := (Source(segs[i], va), Source(segs[Winner(segs, va).value], va));
      (x.Some? ==> x.value < size) && (y.Some? ==> y.value < size)
  {
    var j := Winner(segs, va).value;
    assert InFile(size, segs[i]) && InFile(size, segs[j]) && Covers(segs[j], Slot(va));
  }

  lemma AgreeReads(l: Loader, data: seq<byte>, segs: seq<Segment>, argv: seq<CString>)
    requires Sound(l) && AllPlaced(segs) && LoadImage(l, data, segs, argv).1 && Agree(segs)
    ensures ReadsRight(LoadImage(l, data, segs, argv).0, data, segs)
  {
    hide Sound, Source, Promised, ByteFrom, UserByte, LoadImage, AllPlaced, Winner;
    forall i: nat, va: nat | InSegment(segs, i, va)
      ensures USER_VA_BASE <= va && UserByte(LoadImage(l, data, segs, argv).0, va) == Some(Promised(data, segs[i], va))
    {
      ReadAndPromised(l, data, segs, argv, i, va);
    }
  }

  /** Two sound headers that share a page and do not agree on it. */
  lemma SharedHeaders()
    ensures var segs := [Segment(PT_LOAD, 0x1000, 0x10_0010_0000, 16, 16), Segment(PT_LOAD, 0x1800, 0x10_0010_0800, 16, 16)];
      AllPlaced(segs) && AllInFile(0x2000, segs) && !Agree(segs)
  {
    var segs := [Segment(PT_LOAD, 0x1000, 0x10_0010_0000, 16, 16), Segment(PT_LOAD, 0x1800, 0x10_0010_0800, 16, 16)];
    var va := 0x10_0010_0000;
    assert InSegment(segs, 0, va);
    assert Slot(va) == 0x100;
    assert Covers(segs[1], 0x100);
    assert Winner(segs, va) == Some(1);
  }

  /** If no page belongs to two segments, a load that succeeds makes every byte of every segment
      read as file data, then zeroes. */
  lemma SegmentsReadRight(l: Loader, data: seq<byte>, segs: seq<Segment>, argv: seq<CString>)
    requires Sound(l) && AllPlaced(segs) && PageDisjoint(segs) && AllInFile(|data|, segs)
    requires LoadImage(l, data, segs, argv).1
    ensures ReadsRight(LoadImage(l, data, segs, argv).0, data, segs)
  {
    hide Sound, AllPlaced, PageDisjoint, LoadImage, Agree;
    forall i: nat, va: nat | InSegment(segs, i, va)
      ensures USER_VA_BASE <= va
    {
      ReadAndPromised(l, data, segs, argv, i, va);
    }
    DisjointAgree(segs);
    AgreeReads(l, data, segs, argv);
  }

  // ---------- the whole loader ----------

  /** A load that succeeds had a sound header; entry point and stack pointer are what the file and
      the arguments say; the top page is the first frame, the rest of the stack is zero, and the
      page below it faults. */
  lemma LoadedStack(l: Loader, data: seq<byte>, argv: seq<CString>, va: nat)
    requires Sound(l) && (ParseHeader(data).Some? ==> TableInFile(data, ParseHeader(data).value))
    requires LoadUser(l, data, argv).1.Some?
    requires AllPlaced(Phdrs(data, ParseHeader(data).value, ParseHeader(data).value.phnum))
    requires STACK_GUARD_VA <= va < USER_STACK_TOP
    ensures var (n, image) := LoadUser(l, data, argv);
      && Sound(n) && Fits(argv)
      && image == Some(UserImage(ParseHeader(data).value.entry, USER_STACK_TOP - Total(argv)))
      && UserByte(n, va) == if va < STACK_BOTTOM then None
                            else if va < PAGE_VA then Some(0)
                            else Some(Frame(argv)[va - PAGE_VA])
  {
    hide Sound, Shows, LoadImage, ParseHeader, Frame, Total, Placed;
    var h := ParseHeader(data).value;
    SlotOfPage(va / PAGE_SIZE);
    LoadImageShows(l, data, Phdrs(data, h, h.phnum), argv, Slot(va));
    FitsStrings(argv);
  }

  /** The program image: a well-formed file with page-disjoint segments that loads reads right. */
  lemma ProgramImage(l: Loader, data: seq<byte>, argv: seq<CString>)
    requires Sound(l) && ParseHeader(data).Some? && TableInFile(data, ParseHeader(data).value)
    requires var h := ParseHeader(data).value;
      var segs := Phdrs(data, h, h.phnum);
      AllPlaced(segs) && PageDisjoint(segs) && AllInFile(|data|, segs)
    requires LoadUser(l, data, argv).1.Some?
    ensures var h := ParseHeader(data).value;
      ReadsRight(LoadUser(l, data, argv).0, data, Phdrs(data, h, h.phnum))
  {
    hide Sound, LoadImage, ParseHeader, AllPlaced, PageDisjoint, AllInFile, ReadsRight, Phdrs;
    var h := ParseHeader(data).value;
    SegmentsReadRight(l, data, Phdrs(data, h, h.phnum), argv);
  }
}

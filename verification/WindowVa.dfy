/** User addresses of mmaps and window buffers (kernel/arch/address_space.c): a bump pointer, the
    sorted list of mmaps, the window pages, and the list of window ranges free for reuse. */
module WindowVa {
  import opened VaRanges

  const MMAP_BASE: nat := 0x1030000        // USER_MMAP_BASE in pages
  const MMAP_MAX: nat := 0x103F000         // USER_MMAP_MAX in pages
  const PAGES64: nat := 0x10_0000_0000_0000

  datatype Space = Space(brk: nat, free: seq<Range>, vmas: seq<Range>, win: set<nat>)

  function PagesOf(r: Range): set<nat> {
    set p: nat | r.at <= p < End(r) && InRange(r, p)
  }

  /** `mmap_brk_alloc`: 0 when the region is used up. */
  function Bump(s: Space, n: nat): (Space, nat) {
    if s.brk + n > MMAP_MAX then (s, 0) else (s.(brk := s.brk + n), s.brk)
  }

  /** `pages * PAGE_SIZE` wraps at 64 bits: of a request for `n` pages this many remain. */
  function Wrapped(n: nat): nat {
    n % PAGES64
  }

  /** `address_space_mmap_anon` and `address_space_mmap_ramfs`, as far as addresses go. */
  function Mmap(s: Space, n: nat, heapOk: bool): (Space, nat) {
    var (t, at) := Bump(s, Wrapped(n));
    if n == 0 || at == 0 || !heapOk then (s, 0)
    else
      var k := Below(t.vmas, at, 0);
      (if k <= |t.vmas| then t.(vmas := Insert(t.vmas, k, Range(at, Wrapped(n)))) else t, at)
  }

  /** First entry at or after `i` that starts at page `at`. */
  function FindAt(rs: seq<Range>, at: nat, i: nat): nat
    decreases |rs| - i
  {
    if i >= |rs| || rs[i].at == at then i else FindAt(rs, at, i + 1)
  }

  /** `address_space_munmap`: the entry goes, its addresses are not used again. */
  function Munmap(s: Space, at: nat): (Space, bool) {
    var k := FindAt(s.vmas, at, 0);
    if k >= |s.vmas| then (s, false) else (s.(vmas := Without(s.vmas, k)), true)
  }

  /** `vma_find` from entry `i` on; -1 if no mmap contains page `p`. */
  function VmaFind(rs: seq<Range>, p: nat, i: nat): int
    decreases |rs| - i
  {
    if i >= |rs| then -1
    else if InRange(rs[i], p) then i
    else if rs[i].at > p then -1
    else VmaFind(rs, p, i + 1)
  }

  /** Where a window of `n` pages would go: a free range or fresh addresses. */
  function Reserve(s: Space, n: nat): (Space, nat, bool) {
    var k := BestFit(s.free, n, 0, -1);
    if 0 <= k < |s.free| && n <= s.free[k].len then (s.(free := Trim(s.free, k, n)), s.free[k].at, true)
    else
      var (t, at) := Bump(s, n);
      (t, at, false)
  }

  /** `address_space_install_wm_window`; `mapOk` tells whether all pages could be mapped. */
  function Install(s: Space, n: nat, mapOk: bool, heapOk: bool): (Space, nat) {
    if n == 0 then (s, 0)
    else
      var (t, at, reused) := Reserve(s, n);
      if at == 0 then (s, 0)
      else if mapOk then (t.(win := t.win + PagesOf(Range(at, n))), at)
      else if reused then (t.(free := Release(t.free, Range(at, n), heapOk).0), 0)
      else (s, 0)
  }

  /** `address_space_uninstall_wm_window`. */
  function Uninstall(s: Space, at: nat, n: nat, heapOk: bool): (Space, bool) {
    if n == 0 || !(PagesOf(Range(at, n)) <= s.win) then (s, false)
    else (s.(win := s.win - PagesOf(Range(at, n)), free := Release(s.free, Range(at, n), heapOk).0), true)
  }

  // ---------- the partition ----------

  /** Sorted and disjoint. An entry whose length wrapped to 0 may follow others at its address. */
  ghost predicate Ordered(rs: seq<Range>) {
    forall i, j :: 0 <= i < j < |rs| ==> Before(rs[i], rs[j])
  }

  predicate Before(r: Range, q: Range) {
    r.at <= q.at && (q.len > 0 ==> r.at < q.at && End(r) <= q.at)
  }

  predicate Inside(s: Space, p: nat) {
    MMAP_BASE <= p < s.brk
  }

  /** Free ranges, mmaps and windows lie below the bump pointer and share no page; the free list
      has nothing left to merge. */
  ghost predicate Inv(s: Space) {
    && MMAP_BASE <= s.brk <= MMAP_MAX
    && Coalesced(s.free) && Ordered(s.vmas) && (forall j :: 0 <= j < |s.vmas| ==> End(s.vmas[j]) <= s.brk)
    && (forall p: nat :: Covers(s.free, p) ==> Inside(s, p) && p !in s.win && !Covers(s.vmas, p))
    && (forall p: nat :: Covers(s.vmas, p) ==> Inside(s, p) && p !in s.win)
    && (forall p: nat :: p in s.win ==> Inside(s, p))
  }

  const FRESH: Space := Space(MMAP_BASE, [], [], {})

  lemma FreshInv()
    ensures Inv(FRESH)
  {}

  lemma {:induction false} BelowFirst(rs: seq<Range>, at: nat, i: nat)
    requires i <= |rs| && forall j :: 0 <= j < i ==> rs[j].at < at
    ensures var k := Below(rs, at, i);
      i <= k <= |rs| && (forall j :: 0 <= j < k ==> rs[j].at < at) && (k < |rs| ==> rs[k].at >= at)
    decreases |rs| - i
  {
    if i < |rs| && rs[i].at < at {
      BelowFirst(rs, at, i + 1);
    }
  }

  /** A new mmap lies past everything handed out before, and is found by its address. It fails
      exactly when it is empty, there is no heap memory, or what remains of its length, which wraps
      at 2^52 pages, reaches past the end of the region. */
  lemma MmapKeeps(s: Space, n: nat, heapOk: bool)
    requires Inv(s)
    ensures var ((t, at), m) := (Mmap(s, n, heapOk), n % 0x10_0000_0000_0000);
      && Inv(t) && t.win == s.win && t.free == s.free
      && (at == 0 <==> n == 0 || !heapOk || s.brk + m > MMAP_MAX)
      && (at == 0 ==> t == s)
      && (at != 0 ==> at == s.brk && t.brk == s.brk + m)
      && (at != 0 ==> forall p: nat :: Covers(t.vmas, p) <==> Covers(s.vmas, p) || InRange(Range(at, m), p))
      && (at != 0 ==> forall p: nat :: InRange(Range(at, m), p) ==> !Covers(s.vmas, p) && !Covers(s.free, p) && p !in s.win)
  {
    hide Coalesced, Covers;
    var m := Wrapped(n);
    if n > 0 && heapOk && s.brk + m <= MMAP_MAX {
      BelowFirst(s.vmas, s.brk, 0);
      var k := Below(s.vmas, s.brk, 0);
      InsertOrdered(s.vmas, k, Range(s.brk, m));
      hide Insert;
      forall p: nat
        ensures Covers(Mmap(s, n, heapOk).0.vmas, p) <==> Covers(s.vmas, p) || InRange(Range(s.brk, m), p)
      {
        InsertCovers(s.vmas, k, Range(s.brk, m), p);
      }
    }
  }

  lemma InsertOrdered(rs: seq<Range>, k: nat, r: Range)
    requires Ordered(rs) && k <= |rs| && (forall j :: 0 <= j < |rs| ==> End(rs[j]) <= r.at)
    requires (forall j :: 0 <= j < k ==> rs[j].at < r.at) && (k < |rs| ==> rs[k].at >= r.at)
    ensures Ordered(Insert(rs, k, r)) && forall j :: 0 <= j < |Insert(rs, k, r)| ==> End(Insert(rs, k, r)[j]) <= End(r)
  {
    forall j | k <= j < |rs|
      ensures rs[j] == Range(r.at, 0)
    {
      assert k < j ==> Before(rs[k], rs[j]);
    }
  }

  lemma {:induction false} FindAtIs(rs: seq<Range>, at: nat, i: nat)
    requires i <= |rs| && forall j :: 0 <= j < i ==> rs[j].at != at
    ensures var k := FindAt(rs, at, i);
      i <= k <= |rs| && (forall j :: 0 <= j < k ==> rs[j].at != at) && (k < |rs| ==> rs[k].at == at)
    decreases |rs| - i
  {
    if i < |rs| && rs[i].at != at {
      FindAtIs(rs, at, i + 1);
    }
  }

  /** Unmapping takes exactly the mmap that starts there out of the list: the first entry, and of all
      entries with this address only the first can have pages. */
  lemma MunmapKeeps(s: Space, at: nat)
    requires Inv(s)
    ensures var (t, ok) := Munmap(s, at);
      && Inv(t) && t.brk == s.brk && t.win == s.win && t.free == s.free
      && (ok <==> exists k :: 0 <= k < |s.vmas| && s.vmas[k].at == at)
      && (!ok ==> t == s)
      && (ok ==> var k := FindAt(s.vmas, at, 0);
                 && 0 <= k < |s.vmas| && t.vmas == Without(s.vmas, k)
                 && forall p: nat :: Covers(t.vmas, p) <==> Covers(s.vmas, p) && !InRange(s.vmas[k], p))
      && (forall k :: 0 <= k < |s.vmas| && s.vmas[k].at == at && s.vmas[k].len > 0 ==> k == FindAt(s.vmas, at, 0))
  {
    hide Coalesced, Covers;
    FindAtIs(s.vmas, at, 0);
    var k := FindAt(s.vmas, at, 0);
    if k < |s.vmas| {
      forall j | 0 <= j < |s.vmas| && s.vmas[j].at == at && s.vmas[j].len > 0
        ensures j == k
      {
        OnlyStart(s.vmas, j, k);
      }
      WithoutOrdered(s.vmas, k, s.brk);
      forall p: nat
        ensures Covers(Munmap(s, at).0.vmas, p) <==> Covers(s.vmas, p) && !InRange(s.vmas[k], p)
      {
        WithoutOrderedCovers(s.vmas, k, p);
      }
    }
  }

  lemma OnlyStart(rs: seq<Range>, j: nat, k: nat)
    requires Ordered(rs) && j < |rs| && k <= j && rs[j].at == rs[k].at && rs[j].len > 0
    ensures j == k
  {}

  lemma WithoutOrdered(rs: seq<Range>, k: nat, b: nat)
    requires Ordered(rs) && k < |rs| && forall j :: 0 <= j < |rs| ==> End(rs[j]) <= b
    ensures Ordered(Without(rs, k))
    ensures forall j :: 0 <= j < |Without(rs, k)| ==> End(Without(rs, k)[j]) <= b
  {
    forall i, j | 0 <= i < j < |Without(rs, k)|
      ensures Before(Without(rs, k)[i], Without(rs, k)[j])
    {
      WithoutAt(rs, k, i);
      WithoutAt(rs, k, j);
    }
  }

  lemma WithoutOrderedCovers(rs: seq<Range>, k: nat, p: nat)
    requires Ordered(rs) && k < |rs|
    ensures Covers(Without(rs, k), p) <==> Covers(rs, p) && !InRange(rs[k], p)
  {
    var ts := Without(rs, k);
    WithoutLength(rs, k);
    hide Without, Ordered;
    if Covers(ts, p) {
      var i :| 0 <= i < |ts| && InRange(ts[i], p);
      WithoutAt(rs, k, i);
      OneVma(rs, if i < k then i else i + 1, k, p);
    }
    if Covers(rs, p) && !InRange(rs[k], p) {
      var j :| 0 <= j < |rs| && InRange(rs[j], p);
      WithoutAt(rs, k, if j < k then j else j - 1);
    }
  }

  lemma OneVma(rs: seq<Range>, i: nat, j: nat, p: nat)
    requires Ordered(rs) && i < |rs| && j < |rs| && InRange(rs[i], p) && i != j
    ensures !InRange(rs[j], p)
  {
    if i < j {
      assert Before(rs[i], rs[j]);
    } else {
      assert Before(rs[j], rs[i]);
    }
  }

  /** The scan for a page, which stops early, still finds the mmap that contains it. */
  lemma {:induction false} VmaFindIs(rs: seq<Range>, p: nat, i: nat)
    requires Ordered(rs) && i <= |rs| && forall j :: 0 <= j < i ==> !InRange(rs[j], p)
    ensures var k := VmaFind(rs, p, i);
      && -1 <= k < |rs| && (k >= 0 ==> InRange(rs[k], p)) && (k >= 0 <==> Covers(rs, p))
    decreases |rs| - i
  {
    if i < |rs| && !InRange(rs[i], p) {
      if rs[i].at > p {
        forall j | i < j < |rs|
          ensures !InRange(rs[j], p)
        {
          assert Before(rs[i], rs[j]);
        }
      } else {
        VmaFindIs(rs, p, i + 1);
      }
    }
  }

  // ---------- windows ----------

  /** The `n` pages from `at` belong to nobody in `t`. */
  ghost predicate Unclaimed(t: Space, at: nat, n: nat) {
    forall p: nat :: InRange(Range(at, n), p) ==> Inside(t, p) && p !in t.win && !Covers(t.free, p) && !Covers(t.vmas, p)
  }

  /** Reserving takes `n` pages that belong to nobody out of a free range, or fresh ones when no
      free range is large enough; it fails exactly when neither is possible. */
  lemma ReserveKeeps(s: Space, n: nat)
    requires Inv(s) && n > 0
    ensures var (t, at, reused) := Reserve(s, n);
      && (at == 0 ==> t == s && !reused && s.brk + n > MMAP_MAX)
      && (at != 0 ==> Inv(t) && Unclaimed(t, at, n) && t.win == s.win && t.vmas == s.vmas)
      && (reused ==> at != 0 && t.brk == s.brk && forall p: nat :: Covers(s.free, p) <==> Covers(t.free, p) || InRange(Range(at, n), p))
      && (!reused ==> t.free == s.free && t.brk == (if at == 0 then s.brk else s.brk + n) && forall i :: 0 <= i < |s.free| ==> s.free[i].len < n)
  {
    hide Coalesced, Covers, Trim;
    TakeFits(s.free, n);
    var k := BestFit(s.free, n, 0, -1);
    if k >= 0 {
      TrimKeeps(s.free, k, n);
      forall p: nat | InRange(Range(s.free[k].at, n), p)
        ensures Covers(s.free, p)
      {
        CoversOne(s.free, k, p);
      }
      assert InRange(Range(s.free[k].at, n), s.free[k].at);
    }
  }

  /** A window install that cannot map all its pages leaves the address space as it was, unless a
      reused range has to be tracked again and there is no heap memory for it. */
  lemma InstallUndone(s: Space, n: nat, heapOk: bool)
    requires Inv(s) && n > 0
    ensures var (t, at) := Install(s, n, false, heapOk);
      && at == 0 && Inv(t)
      && (t == s <==> heapOk || !Reserve(s, n).2 || (var k := BestFit(s.free, n, 0, -1); 0 <= k < |s.free| && s.free[k].len > n))
  {
    hide Coalesced, Covers, Trim, Release;
    TakeFits(s.free, n);
    ReserveKeeps(s, n);
    var k := BestFit(s.free, n, 0, -1);
    if k >= 0 {
      ReleaseUndoesTake(s.free, k, n, heapOk);
      TrimKeeps(s.free, k, n);
      if s.free[k].len == n {
        TrimShorter(s.free, k, n);
      }
    }
  }

  lemma TrimShorter(rs: seq<Range>, k: nat, n: nat)
    requires k < |rs| && n == rs[k].len
    ensures |Trim(rs, k, n)| == |rs| - 1
  {}

  /** A successful install adds exactly its pages to the windows; no other owner loses any. It
      succeeds exactly when there are pages to install, all of them can be mapped, and a free range
      or the rest of the region is large enough. */
  lemma InstallKeeps(s: Space, n: nat, mapOk: bool, heapOk: bool)
    requires Inv(s) && n < PAGES64
    ensures var (t, at) := Install(s, n, mapOk, heapOk);
      && Inv(t) && t.vmas == s.vmas
      && (at != 0 <==> n > 0 && mapOk && ((exists i :: 0 <= i < |s.free| && s.free[i].len >= n) || s.brk + n <= MMAP_MAX))
      && (at == 0 ==> t.win == s.win)
      && (at != 0 ==> t.win == s.win + PagesOf(Range(at, n)) && s.win !! PagesOf(Range(at, n)))
  {
    hide Coalesced, Covers, Release;
    if n > 0 {
      ReserveKeeps(s, n);
      hide Reserve;
      if !mapOk {
        InstallUndone(s, n, heapOk);
        InstallFails(s, n, heapOk);
      }
    }
  }

  lemma InstallFails(s: Space, n: nat, heapOk: bool)
    ensures Install(s, n, false, heapOk).0.win == s.win && Install(s, n, false, heapOk).0.vmas == s.vmas
  {
    hide Release, BestFit, Trim;
  }

  /** A window goes as a whole or not at all, and its pages are free for reuse unless the heap had
      no memory to remember them. */
  lemma UninstallKeeps(s: Space, at: nat, n: nat, heapOk: bool)
    requires Inv(s)
    ensures var (t, ok) := Uninstall(s, at, n, heapOk);
      && Inv(t) && t.vmas == s.vmas && t.brk == s.brk
      && (ok <==> n > 0 && PagesOf(Range(at, n)) <= s.win)
      && (!ok ==> t == s)
      && (ok ==> t.win == s.win - PagesOf(Range(at, n)))
      && (ok && heapOk ==> forall p: nat :: Covers(t.free, p) <==> Covers(s.free, p) || InRange(Range(at, n), p))
  {
    hide Coalesced, Covers, Release;
    var r := Range(at, n);
    if n > 0 && PagesOf(r) <= s.win {
      forall p: nat | InRange(r, p)
        ensures p in s.win
      {
        assert p in PagesOf(r);
      }
      ReleaseKeeps(s.free, r, heapOk);
    }
  }

  // ---------- no leak ----------

  /** Windows of one size `w`: the state, the addresses of the windows now installed, how often
      addresses came from the bump pointer for one, the most windows ever installed at once, and
      the pages ever given to mmaps. */
  datatype Cycle = Cycle(s: Space, live: set<nat>, bumped: nat, peak: nat, mapped: nat)

  datatype Op = Open | Close(at: nat) | Map(pages: nat) | Unmap(at: nat)

  /** One step without failing allocations; mmaps may come in between. Closing names a window. */
  function Step(c: Cycle, w: nat, op: Op): Cycle {
    match op
    case Open =>
      var (t, at) := Install(c.s, w, true, true);
      if at == 0 then c
      else
        var live := c.live + {at};
        Cycle(t, live, if Reserve(c.s, w).2 then c.bumped else c.bumped + 1, if |live| > c.peak then |live| else c.peak, c.mapped)
    case Close(at) =>
      if at !in c.live then c else Cycle(Uninstall(c.s, at, w, true).0, c.live - {at}, c.bumped, c.peak, c.mapped)
    case Map(pages) =>
      var (t, at) := Mmap(c.s, pages, true);
      c.(s := t, mapped := if at == 0 then c.mapped else c.mapped + Wrapped(pages))
    case Unmap(at) => c.(s := Munmap(c.s, at).0)
  }

  function Run(c: Cycle, w: nat, ops: seq<Op>): Cycle
    decreases |ops|
  {
    if ops == [] then c else Run(Step(c, w, ops[0]), w, ops[1..])
  }

  /** The windows worth of pages on the free list. */
  function Windows(rs: seq<Range>, w: nat): nat
    requires w > 0
  {
    if rs == [] then 0 else rs[0].len / w + Windows(rs[1..], w)
  }

  ghost predicate Multiples(rs: seq<Range>, w: nat)
    requires w > 0
  {
    forall i :: 0 <= i < |rs| ==> rs[i].len % w == 0
  }

  /** Live windows are disjoint runs of `w` window pages and make up all of them; the free list is
      made of whole windows; every window ever bumped is live or free; and the count of bumped
      windows is the peak. */
  ghost predicate Balanced(c: Cycle, w: nat)
    requires w > 0
  {
    && Inv(c.s)
    && (forall at: nat :: at in c.live ==> PagesOf(Range(at, w)) <= c.s.win)
    && (forall a: nat, b: nat :: a in c.live && b in c.live && a != b ==> PagesOf(Range(a, w)) !! PagesOf(Range(b, w)))
    && Multiples(c.s.free, w)
    && |c.live| + Windows(c.s.free, w) == c.bumped == c.peak
    && c.s.brk == MMAP_BASE + w * c.bumped + c.mapped
  }

  lemma {:induction false} MulGap(w: nat, a: nat, b: nat)
    requires a < b
    ensures w * a + w <= w * b
    decreases b - a
  {
    if a + 1 < b {
      MulGap(w, a, b - 1);
    }
  }

  lemma QuotientUnique(w: nat, q: nat, r: nat, d: nat, e: nat)
    requires w * q + r == w * d + e && r < w && e < w
    ensures q == d && r == e
  {
    if q < d {
      MulGap(w, q, d);
    }
    if d < q {
      MulGap(w, d, q);
    }
  }

  lemma DivUnique(a: nat, w: nat, q: nat, r: nat)
    requires w > 0 && a == w * q + r && r < w
    ensures a / w == q && a % w == r
  {
    QuotientUnique(w, a / w, a % w, q, r);
  }

  lemma DivAdd(x: nat, y: nat, w: nat)
    requires w > 0 && x % w == 0
    ensures (x + y) / w == x / w + y / w && (x + y) % w == y % w
  {
    assert x == w * (x / w) && y == w * (y / w) + y % w;
    assert w * (x / w) + w * (y / w) == w * (x / w + y / w);
    DivUnique(x + y, w, x / w + y / w, y % w);
  }

  lemma OneWindow(w: nat)
    requires w > 0
    ensures w / w == 1 && w % w == 0
  {
    DivUnique(w, w, 1, 0);
  }

  lemma {:induction false} WindowsConcat(a: seq<Range>, b: seq<Range>, w: nat)
    requires w > 0
    ensures Windows(a + b, w) == Windows(a, w) + Windows(b, w)
    decreases |a|
  {
    if a == [] {
      assert a + b == b;
    } else {
      assert (a + b)[1..] == a[1..] + b;
      WindowsConcat(a[1..], b, w);
    }
  }

  lemma WindowsSplit(rs: seq<Range>, k: nat, w: nat)
    requires w > 0 && k < |rs|
    ensures Windows(rs, w) == Windows(rs[..k], w) + rs[k].len / w + Windows(rs[k + 1..], w)
  {
    assert rs == rs[..k] + rs[k..];
    WindowsConcat(rs[..k], rs[k..], w);
    assert rs[k..][1..] == rs[k + 1..];
  }

  lemma WindowsWithout(rs: seq<Range>, k: nat, w: nat)
    requires w > 0 && k < |rs| && Multiples(rs, w)
    ensures Multiples(Without(rs, k), w) && Windows(Without(rs, k), w) + rs[k].len / w == Windows(rs, w)
  {
    WindowsSplit(rs, k, w);
    WindowsConcat(rs[..k], rs[k + 1..], w);
  }

  lemma WindowsSet(rs: seq<Range>, k: nat, r: Range, w: nat)
    requires w > 0 && k < |rs| && Multiples(rs, w) && r.len % w == 0
    ensures Multiples(rs[k := r], w) && Windows(rs[k := r], w) + rs[k].len / w == Windows(rs, w) + r.len / w
  {
    WindowsSplit(rs, k, w);
    WindowsSplit(rs[k := r], k, w);
    assert rs[k := r][..k] == rs[..k] && rs[k := r][k + 1..] == rs[k + 1..];
  }

  lemma WindowsInsert(rs: seq<Range>, k: nat, r: Range, w: nat)
    requires w > 0 && k <= |rs| && Multiples(rs, w) && r.len % w == 0
    ensures Multiples(Insert(rs, k, r), w) && Windows(Insert(rs, k, r), w) == Windows(rs, w) + r.len / w
  {
    WindowsSplit(Insert(rs, k, r), k, w);
    assert Insert(rs, k, r)[..k] == rs[..k] && Insert(rs, k, r)[k + 1..] == rs[k..];
    assert rs == rs[..k] + rs[k..];
    WindowsConcat(rs[..k], rs[k..], w);
  }

  /** A take of one window leaves whole windows, one fewer. */
  lemma WindowsTrim(rs: seq<Range>, k: nat, w: nat)
    requires w > 0 && k < |rs| && Multiples(rs, w) && w <= rs[k].len
    ensures Multiples(Trim(rs, k, w), w) && Windows(Trim(rs, k, w), w) + 1 == Windows(rs, w)
  {
    hide Windows, Multiples, Without;
    OneWindow(w);
    DivAdd(w, rs[k].len - w, w);
    LenMultiple(rs, k, w);
    if rs[k].len == w {
      WindowsWithout(rs, k, w);
    } else {
      WindowsSet(rs, k, Range(rs[k].at + w, rs[k].len - w), w);
    }
  }

  lemma LenMultiple(rs: seq<Range>, k: nat, w: nat)
    requires w > 0 && k < |rs| && Multiples(rs, w)
    ensures rs[k].len % w == 0
  {}

  /** A release of one window adds one, however it is merged. */
  lemma WindowsMerge(rs: seq<Range>, r: Range, k: nat, w: nat)
    requires w > 0 && k <= |rs| && Multiples(rs, w) && r.len == w
    ensures Multiples(Merge(rs, r, k, true).0, w) && Windows(Merge(rs, r, k, true).0, w) == Windows(rs, w) + 1
  {
    hide Windows, Multiples, Without, Insert;
    OneWindow(w);
    if k < |rs| {
      LenMultiple(rs, k, w);
      DivAdd(rs[k].len, w, w);
    }
    if k > 0 {
      LenMultiple(rs, k - 1, w);
      DivAdd(rs[k - 1].len, w, w);
    }
    if k > 0 && End(rs[k - 1]) == r.at && k < |rs| && End(r) == rs[k].at {
      WindowsWithout(rs, k, w);
      WithoutAt(rs, k, k - 1);
      DivAdd(w, rs[k].len, w);
      DivAdd(rs[k - 1].len, w + rs[k].len, w);
      WindowsSet(Without(rs, k), k - 1, Range(rs[k - 1].at, rs[k - 1].len + (w + rs[k].len)), w);
    } else if k > 0 && End(rs[k - 1]) == r.at {
      WindowsSet(rs, k - 1, Range(rs[k - 1].at, rs[k - 1].len + w), w);
    } else if k < |rs| && End(r) == rs[k].at {
      WindowsSet(rs, k, Range(r.at, rs[k].len + w), w);
    } else {
      WindowsInsert(rs, k, r, w);
    }
  }

  /** Whole windows on the list mean some range holds one. */
  lemma NoneFree(rs: seq<Range>, w: nat)
    requires w > 0 && Multiples(rs, w) && forall i :: 0 <= i < |rs| ==> 0 < rs[i].len < w
    ensures rs == []
  {
    if rs != [] {
      LenMultiple(rs, 0, w);
      DivUnique(rs[0].len, w, 0, rs[0].len);
    }
  }

  // ---------- one step ----------

  lemma OpenBalanced(c: Cycle, w: nat)
    requires 0 < w < PAGES64 && Balanced(c, w)
    ensures Balanced(Step(c, w, Open), w)
  {
    hide Windows, Coalesced, Covers, Multiples, BestFit, Trim;
    var (t, at) := Install(c.s, w, true, true);
    InstallKeeps(c.s, w, true, true);
    ReserveKeeps(c.s, w);
    var r := Reserve(c.s, w).0;
    if at != 0 {
      NewWindow(c.s.win, c.live, at, w);
      if Reserve(c.s, w).2 {
        ReuseWindows(c.s, w);
      } else {
        BumpWindows(c.s.free, w);
        assert w * (c.bumped + 1) == w * c.bumped + w;
      }
    }
  }

  lemma ReuseWindows(s: Space, w: nat)
    requires Inv(s) && w > 0 && Reserve(s, w).2 && Multiples(s.free, w)
    ensures Multiples(Reserve(s, w).0.free, w) && Windows(Reserve(s, w).0.free, w) + 1 == Windows(s.free, w)
  {
    hide Windows, Multiples, Trim, Covers, Coalesced;
    WindowsTrim(s.free, BestFit(s.free, w, 0, -1), w);
  }

  lemma BumpWindows(rs: seq<Range>, w: nat)
    requires w > 0 && Coalesced(rs) && Multiples(rs, w) && forall i :: 0 <= i < |rs| ==> rs[i].len < w
    ensures Windows(rs, w) == 0
  {
    NoneFree(rs, w);
  }

  /** The new window is none of the live ones. */
  lemma NewWindow(win: set<nat>, live: set<nat>, at: nat, w: nat)
    requires w > 0 && win !! PagesOf(Range(at, w))
    requires forall a: nat :: a in live ==> PagesOf(Range(a, w)) <= win
    ensures at !in live && |live + {at}| == |live| + 1
    ensures forall a: nat :: a in live ==> PagesOf(Range(a, w)) !! PagesOf(Range(at, w))
  {
    assert InRange(Range(at, w), at);
    assert at in PagesOf(Range(at, w)) && at !in win;
    forall a: nat | a in live
      ensures PagesOf(Range(a, w)) !! PagesOf(Range(at, w))
    {
      assert PagesOf(Range(a, w)) <= win;
    }
    assert at in live ==> PagesOf(Range(at, w)) <= win;
  }

  lemma CloseBalanced(c: Cycle, w: nat, at: nat)
    requires w > 0 && Balanced(c, w)
    ensures Balanced(Step(c, w, Close(at)), w)
  {
    hide Windows, Coalesced, Covers, Multiples, Merge, PagesOf;
    if at in c.live {
      UninstallKeeps(c.s, at, w, true);
      ReleaseWindows(c.s, at, w);
      assert c.live == c.live - {at} + {at};
    }
  }

  lemma ReleaseWindows(s: Space, at: nat, w: nat)
    requires Inv(s) && w > 0 && Multiples(s.free, w) && PagesOf(Range(at, w)) <= s.win
    ensures Multiples(Release(s.free, Range(at, w), true).0, w)
    ensures Windows(Release(s.free, Range(at, w), true).0, w) == Windows(s.free, w) + 1
  {
    hide Windows, Coalesced, Covers, Multiples, Merge;
    BelowIs(s.free, at, 0);
    WindowsMerge(s.free, Range(at, w), Below(s.free, at, 0), w);
  }

  lemma StepBalanced(c: Cycle, w: nat, op: Op)
    requires 0 < w < PAGES64 && Balanced(c, w)
    ensures Balanced(Step(c, w, op), w)
  {
    hide Windows, Coalesced, Covers, Multiples, PagesOf, Ordered;
    match op
    case Open => OpenBalanced(c, w);
    case Close(at) => CloseBalanced(c, w, at);
    case Map(pages) => MmapKeeps(c.s, pages, true);
    case Unmap(at) => MunmapKeeps(c.s, at);
  }

  /** No leak: over any run of opening and closing windows of one size, with mmaps in between and
      no failing allocation, the bump pointer was moved for windows exactly as often as windows
      were ever open at once, so a thousand resizes take no more addresses than the first. */
  lemma {:induction false} NoLeak(c: Cycle, w: nat, ops: seq<Op>)
    requires 0 < w < PAGES64 && Balanced(c, w)
    ensures var d := Run(c, w, ops);
      Balanced(d, w) && d.s.brk == MMAP_BASE + w * d.peak + d.mapped
    decreases |ops|
  {
    hide Balanced, Step;
    if ops == [] {
      BalancedBrk(c, w);
    } else {
      StepBalanced(c, w, ops[0]);
      NoLeak(Step(c, w, ops[0]), w, ops[1..]);
    }
  }

  lemma BalancedBrk(c: Cycle, w: nat)
    requires w > 0 && Balanced(c, w)
    ensures c.s.brk == MMAP_BASE + w * c.peak + c.mapped
  {}

  lemma FreshBalanced(w: nat)
    requires w > 0
    ensures Balanced(Cycle(FRESH, {}, 0, 0, 0), w)
  {}
}

/** The list of free window addresses of an address space (kernel/arch/address_space.c): ranges of
    pages, sorted and never adjacent, taken best-fit from the low side and merged on release. */
module VaRanges {
  /** Pages `at .. at + len`; addresses are counted in pages of 4096 bytes. */
  datatype Range = Range(at: nat, len: nat)

  function End(r: Range): nat { r.at + r.len }

  predicate InRange(r: Range, p: nat) { r.at <= p < End(r) }

  /** Page `p` lies in some range of the list. */
  predicate Covers(rs: seq<Range>, p: nat) {
    exists i :: 0 <= i < |rs| && InRange(rs[i], p)
  }

  /** Sorted by address with a gap after every range: nothing is left to merge. */
  ghost predicate Coalesced(rs: seq<Range>) {
    && (forall i :: 0 <= i < |rs| ==> rs[i].len > 0)
    && (forall i, j :: 0 <= i < j < |rs| ==> End(rs[i]) < rs[j].at)
  }

  // ---------- editing a list of ranges ----------

  function Without(rs: seq<Range>, k: nat): seq<Range>
    requires k < |rs|
  {
    rs[..k] + rs[k + 1..]
  }

  /** Where the elements of an edited list come from. */
  lemma WithoutAt(rs: seq<Range>, k: nat, i: nat)
    requires k < |rs| && i < |rs| - 1
    ensures |Without(rs, k)| == |rs| - 1 && Without(rs, k)[i] == rs[if i < k then i else i + 1]
  {}

  lemma WithoutKeeps(rs: seq<Range>, k: nat)
    requires Coalesced(rs) && k < |rs|
    ensures Coalesced(Without(rs, k))
    ensures forall p: nat :: Covers(Without(rs, k), p) <==> Covers(rs, p) && !InRange(rs[k], p)
  {
    forall p: nat
      ensures Covers(Without(rs, k), p) <==> Covers(rs, p) && !InRange(rs[k], p)
    {
      WithoutCovers(rs, k, p);
    }
  }

  lemma WithoutCovers(rs: seq<Range>, k: nat, p: nat)
    requires Coalesced(rs) && k < |rs|
    ensures Covers(Without(rs, k), p) <==> Covers(rs, p) && !InRange(rs[k], p)
  {
    var ts := Without(rs, k);
    WithoutLength(rs, k);
    hide Without, Coalesced;
    if Covers(ts, p) {
      var i :| 0 <= i < |ts| && InRange(ts[i], p);
      WithoutAt(rs, k, i);
      OneRange(rs, if i < k then i else i + 1, k, p);
    }
    if Covers(rs, p) && !InRange(rs[k], p) {
      var j :| 0 <= j < |rs| && InRange(rs[j], p);
      WithoutAt(rs, k, if j < k then j else j - 1);
    }
  }

  /** A page lies in at most one range. */
  lemma OneRange(rs: seq<Range>, i: nat, j: nat, p: nat)
    requires Coalesced(rs) && i < |rs| && j < |rs| && InRange(rs[i], p) && i != j
    ensures !InRange(rs[j], p)
  {
    if i < j {
      assert End(rs[i]) < rs[j].at;
    } else {
      assert End(rs[j]) < rs[i].at;
    }
  }

  lemma WithoutLength(rs: seq<Range>, k: nat)
    requires k < |rs|
    ensures |Without(rs, k)| == |rs| - 1
  {}

  lemma SetKeeps(rs: seq<Range>, k: nat, r: Range)
    requires Coalesced(rs) && k < |rs| && r.len > 0
    requires k > 0 ==> End(rs[k - 1]) < r.at
    requires k + 1 < |rs| ==> End(r) < rs[k + 1].at
    ensures Coalesced(rs[k := r])
    ensures forall p: nat :: Covers(rs[k := r], p) <==> InRange(r, p) || (Covers(rs, p) && !InRange(rs[k], p))
  {
    SetCoalesced(rs, k, r);
    hide Coalesced;
    forall p: nat
      ensures Covers(rs[k := r], p) <==> InRange(r, p) || (Covers(rs, p) && !InRange(rs[k], p))
    {
      SetCovers(rs, k, r, p);
    }
  }

  lemma SetCoalesced(rs: seq<Range>, k: nat, r: Range)
    requires Coalesced(rs) && k < |rs| && r.len > 0
    requires k > 0 ==> End(rs[k - 1]) < r.at
    requires k + 1 < |rs| ==> End(r) < rs[k + 1].at
    ensures Coalesced(rs[k := r])
  {
    var ts := rs[k := r];
    forall i, j | 0 <= i < j < |ts|
      ensures End(ts[i]) < ts[j].at
    {
      if i == k && j > k + 1 { assert End(rs[k + 1]) < rs[j].at; }
      if j == k && i < k - 1 { assert End(rs[i]) < rs[k - 1].at; }
    }
  }

  lemma SetCovers(rs: seq<Range>, k: nat, r: Range, p: nat)
    requires Coalesced(rs) && k < |rs|
    ensures Covers(rs[k := r], p) <==> InRange(r, p) || (Covers(rs, p) && !InRange(rs[k], p))
  {
    var ts := rs[k := r];
    if Covers(ts, p) && !InRange(r, p) {
      var i :| 0 <= i < |ts| && InRange(ts[i], p);
      assert InRange(rs[i], p);
    }
    if InRange(r, p) {
      assert InRange(ts[k], p);
    }
    if Covers(rs, p) && !InRange(rs[k], p) {
      var j :| 0 <= j < |rs| && InRange(rs[j], p);
      assert InRange(ts[j], p);
    }
  }

  function Insert(rs: seq<Range>, k: nat, r: Range): seq<Range>
    requires k <= |rs|
  {
    rs[..k] + [r] + rs[k..]
  }

  lemma InsertAt(rs: seq<Range>, k: nat, r: Range, i: nat)
    requires k <= |rs| && i <= |rs|
    ensures |Insert(rs, k, r)| == |rs| + 1
    ensures Insert(rs, k, r)[i] == if i < k then rs[i] else if i == k then r else rs[i - 1]
  {}

  lemma InsertKeeps(rs: seq<Range>, k: nat, r: Range)
    requires Coalesced(rs) && k <= |rs| && r.len > 0
    requires k > 0 ==> End(rs[k - 1]) < r.at
    requires k < |rs| ==> End(r) < rs[k].at
    ensures Coalesced(Insert(rs, k, r))
    ensures forall p: nat :: Covers(Insert(rs, k, r), p) <==> Covers(rs, p) || InRange(r, p)
  {
    InsertCoalesced(rs, k, r);
    hide Coalesced, Insert;
    forall p: nat
      ensures Covers(Insert(rs, k, r), p) <==> Covers(rs, p) || InRange(r, p)
    {
      InsertCovers(rs, k, r, p);
    }
  }

  lemma InsertCoalesced(rs: seq<Range>, k: nat, r: Range)
    requires Coalesced(rs) && k <= |rs| && r.len > 0
    requires k > 0 ==> End(rs[k - 1]) < r.at
    requires k < |rs| ==> End(r) < rs[k].at
    ensures Coalesced(Insert(rs, k, r))
  {
    var ts := Insert(rs, k, r);
    InsertAt(rs, k, r, 0);
    hide Insert;
    forall i | 0 <= i < |ts|
      ensures ts[i].len > 0
    {
      InsertAt(rs, k, r, i);
    }
    forall i, j | 0 <= i < j < |ts|
      ensures End(ts[i]) < ts[j].at
    {
      InsertAt(rs, k, r, i);
      InsertAt(rs, k, r, j);
      if i == k && j > k + 1 { assert End(rs[k]) < rs[j - 1].at; }
      if j == k && i < k - 1 { assert End(rs[i]) < rs[k - 1].at; }
    }
  }

  lemma InsertCovers(rs: seq<Range>, k: nat, r: Range, p: nat)
    requires k <= |rs|
    ensures Covers(Insert(rs, k, r), p) <==> Covers(rs, p) || InRange(r, p)
  {
    var ts := Insert(rs, k, r);
    InsertAt(rs, k, r, k);
    hide Insert;
    if Covers(ts, p) && !InRange(r, p) {
      var i :| 0 <= i < |ts| && InRange(ts[i], p);
      InsertAt(rs, k, r, i);
      assert InRange(rs[if i < k then i else i - 1], p);
    }
    if InRange(r, p) {
      assert InRange(ts[k], p);
    }
    if Covers(rs, p) {
      var j :| 0 <= j < |rs| && InRange(rs[j], p);
      var i := if j < k then j else j + 1;
      InsertAt(rs, k, r, i);
      assert InRange(ts[i], p);
    }
  }

  // ---------- wm_freelist_take ----------

  /** Whether range `r` is a better fit for `n` pages than the best so far. */
  predicate Better(rs: seq<Range>, best: int, i: nat, n: nat)
    requires i < |rs|
  {
    rs[i].len >= n && (!(0 <= best < |rs|) || rs[i].len < rs[best].len)
  }

  /** The scan from index `i` on, with `best` found before. */
  function BestFit(rs: seq<Range>, n: nat, i: nat, best: int): int
    decreases |rs| - i
  {
    if i >= |rs| then best else BestFit(rs, n, i + 1, if Better(rs, best, i, n) then i else best)
  }

  /** The list after taking `n` pages from range `k`: gone, or its low side gone. */
  function Trim(rs: seq<Range>, k: nat, n: nat): seq<Range>
    requires k < |rs| && n <= rs[k].len
  {
    if rs[k].len == n then Without(rs, k)
    else rs[k := Range(rs[k].at + n, rs[k].len - n)]
  }

  /** What the scan settles on: the first of the smallest ranges that fit. */
  predicate IsBest(rs: seq<Range>, n: nat, k: int) {
    if 0 <= k < |rs| then
      rs[k].len >= n && forall j :: 0 <= j < |rs| && rs[j].len >= n ==> rs[k].len < rs[j].len || (rs[k].len == rs[j].len && k <= j)
    else forall j :: 0 <= j < |rs| ==> rs[j].len < n
  }

  lemma {:induction false} BestFitIsBest(rs: seq<Range>, n: nat, i: nat, best: int)
    requires i <= |rs| && (0 <= best < i || best == -1)
    requires IsBest(rs[..i], n, best)
    ensures IsBest(rs, n, BestFit(rs, n, i, best))
    ensures -1 <= BestFit(rs, n, i, best) < |rs|
    decreases |rs| - i
  {
    if i == |rs| {
      assert rs[..i] == rs;
    } else {
      BestFitIsBest(rs, n, i + 1, if Better(rs, best, i, n) then i else best);
    }
  }

  lemma TakeFits(rs: seq<Range>, n: nat)
    ensures IsBest(rs, n, BestFit(rs, n, 0, -1)) && -1 <= BestFit(rs, n, 0, -1) < |rs|
  {
    BestFitIsBest(rs, n, 0, -1);
  }

  /** Taking keeps the list sorted and coalesced, and takes exactly those `n` pages out. */
  lemma TrimKeeps(rs: seq<Range>, k: nat, n: nat)
    requires Coalesced(rs) && k < |rs| && 0 < n <= rs[k].len
    ensures Coalesced(Trim(rs, k, n))
    ensures forall p: nat :: Covers(Trim(rs, k, n), p) <==> Covers(rs, p) && !(rs[k].at <= p < rs[k].at + n)
  {
    hide Coalesced, Covers;
    if rs[k].len == n {
      WithoutKeeps(rs, k);
    } else {
      Neighbours(rs, k);
      SetKeeps(rs, k, Range(rs[k].at + n, rs[k].len - n));
      forall p: nat
        ensures Covers(Trim(rs, k, n), p) <==> Covers(rs, p) && !(rs[k].at <= p < rs[k].at + n)
      {
        if InRange(rs[k], p) { CoversOne(rs, k, p); }
      }
    }
  }

  lemma Neighbours(rs: seq<Range>, k: nat)
    requires Coalesced(rs) && k < |rs|
    ensures rs[k].len > 0
    ensures k > 0 ==> End(rs[k - 1]) < rs[k].at
    ensures k + 1 < |rs| ==> End(rs[k]) < rs[k + 1].at
  {}

  lemma CoversOne(rs: seq<Range>, k: nat, p: nat)
    requires k < |rs| && InRange(rs[k], p)
    ensures Covers(rs, p)
  {}

  // ---------- wm_freelist_release ----------

  /** How many ranges start below page `at`: the scan of `wm_freelist_release`. */
  function Below(rs: seq<Range>, at: nat, i: nat): nat
    decreases |rs| - i
  {
    if i >= |rs| || rs[i].at >= at then i else Below(rs, at, i + 1)
  }

  lemma {:induction false} BelowIs(rs: seq<Range>, at: nat, i: nat)
    requires Coalesced(rs) && i <= |rs| && forall j :: 0 <= j < i ==> rs[j].at < at
    ensures var k := Below(rs, at, i);
      i <= k <= |rs| && (forall j :: 0 <= j < k ==> rs[j].at < at) && (forall j :: k <= j < |rs| ==> at <= rs[j].at)
    decreases |rs| - i
  {
    if i < |rs| && rs[i].at < at {
      BelowIs(rs, at, i + 1);
    }
  }

  /** The list with `r` put in before index `k`, merged with its neighbours where they touch;
      without a neighbour to merge with it needs a new node. */
  function Merge(rs: seq<Range>, r: Range, k: nat, heapOk: bool): (seq<Range>, bool)
    requires k <= |rs|
  {
    var withPrev := k > 0 && End(rs[k - 1]) == r.at;
    var withNext := k < |rs| && End(r) == rs[k].at;
    if withPrev && withNext then
      (Without(rs, k)[k - 1 := Range(rs[k - 1].at, rs[k - 1].len + (r.len + rs[k].len))], true)
    else if withPrev then (rs[k - 1 := Range(rs[k - 1].at, rs[k - 1].len + r.len)], true)
    else if withNext then (rs[k := Range(r.at, rs[k].len + r.len)], true)
    else if heapOk then (Insert(rs, k, r), true)
    else (rs, false)
  }

  function Release(rs: seq<Range>, r: Range, heapOk: bool): (seq<Range>, bool) {
    var k := Below(rs, r.at, 0);
    if r.len == 0 then (rs, true) else if k <= |rs| then Merge(rs, r, k, heapOk) else (rs, false)
  }

  /** No page of `r` is in the list. */
  ghost predicate Apart(rs: seq<Range>, r: Range) {
    forall p: nat :: Covers(rs, p) ==> !InRange(r, p)
  }

  /** `r` lies in the gap before index `k`. */
  predicate InGap(rs: seq<Range>, r: Range, k: nat) {
    && k <= |rs|
    && (k > 0 ==> End(rs[k - 1]) <= r.at)
    && (k < |rs| ==> End(r) <= rs[k].at)
  }

  lemma NotIn(rs: seq<Range>, r: Range, k: nat, p: nat)
    requires Apart(rs, r) && k < |rs|
    ensures !(InRange(rs[k], p) && InRange(r, p))
  {
    if InRange(rs[k], p) {
      CoversOne(rs, k, p);
    }
  }

  lemma FindsGap(rs: seq<Range>, r: Range)
    requires Coalesced(rs) && r.len > 0 && Apart(rs, r)
    ensures InGap(rs, r, Below(rs, r.at, 0))
  {
    BelowIs(rs, r.at, 0);
    var k := Below(rs, r.at, 0);
    assert InRange(r, r.at);
    if k > 0 {
      assert !InRange(rs[k - 1], r.at) by { NotIn(rs, r, k - 1, r.at); }
    }
    if k < |rs| {
      assert !InRange(r, rs[k].at) by { NotIn(rs, r, k, rs[k].at); }
    }
  }

  /** Merging puts exactly the pages of `r` back, and leaves nothing to merge. */
  lemma MergeKeeps(rs: seq<Range>, r: Range, k: nat, heapOk: bool)
    requires Coalesced(rs) && r.len > 0 && InGap(rs, r, k)
    ensures var (ts, ok) := Merge(rs, r, k, heapOk);
      && Coalesced(ts)
      && (ok ==> forall p: nat :: Covers(ts, p) <==> Covers(rs, p) || InRange(r, p))
      && (!ok ==> ts == rs && !heapOk)
  {
    hide Coalesced, Covers, Without, Insert;
    var withPrev := k > 0 && End(rs[k - 1]) == r.at;
    var withNext := k < |rs| && End(r) == rs[k].at;
    if k < |rs| { Neighbours(rs, k); }
    if k > 0 { Neighbours(rs, k - 1); }
    var ts := Merge(rs, r, k, heapOk).0;
    if withPrev && withNext {
      Bridge(rs, r, k);
    } else if withPrev || withNext {
      var i := if withPrev then k - 1 else k;
      SetKeeps(rs, i, ts[i]);
      forall p: nat
        ensures Covers(ts, p) <==> Covers(rs, p) || InRange(r, p)
      {
        if InRange(rs[i], p) { CoversOne(rs, i, p); }
      }
    } else if heapOk {
      InsertKeeps(rs, k, r);
    }
  }

  lemma Bridge(rs: seq<Range>, r: Range, k: nat)
    requires Coalesced(rs) && 0 < k < |rs| && End(rs[k - 1]) == r.at && End(r) == rs[k].at
    ensures var ts := Without(rs, k)[k - 1 := Range(rs[k - 1].at, rs[k - 1].len + (r.len + rs[k].len))];
      && Coalesced(ts)
      && forall p: nat :: Covers(ts, p) <==> Covers(rs, p) || InRange(r, p)
  {
    hide Coalesced, Covers;
    var us := Without(rs, k);
    WithoutKeeps(rs, k);
    WithoutAt(rs, k, k - 1);
    Neighbours(rs, k);
    Neighbours(rs, k - 1);
    if k + 1 < |rs| {
      WithoutAt(rs, k, k);
      Neighbours(rs, k + 1);
    }
    if k > 1 {
      WithoutAt(rs, k, k - 2);
    }
    var joined := Range(rs[k - 1].at, rs[k - 1].len + (r.len + rs[k].len));
    SetKeeps(us, k - 1, joined);
    var ts := us[k - 1 := joined];
    forall p: nat
      ensures Covers(ts, p) <==> Covers(rs, p) || InRange(r, p)
    {
      if InRange(rs[k], p) { CoversOne(rs, k, p); }
      if InRange(rs[k - 1], p) { CoversOne(rs, k - 1, p); }
      assert InRange(joined, p) <==> InRange(rs[k - 1], p) || InRange(r, p) || InRange(rs[k], p);
      assert Covers(ts, p) <==> InRange(joined, p) || (Covers(us, p) && !InRange(rs[k - 1], p));
    }
  }

  /** Releasing pages that are not on the list puts exactly them back, sorted and coalesced; only
      without heap memory and without a neighbour are they lost. */
  lemma ReleaseKeeps(rs: seq<Range>, r: Range, heapOk: bool)
    requires Coalesced(rs) && Apart(rs, r)
    ensures var (ts, ok) := Release(rs, r, heapOk);
      && Coalesced(ts)
      && (ok ==> forall p: nat :: Covers(ts, p) <==> Covers(rs, p) || InRange(r, p))
      && (!ok ==> ts == rs && !heapOk)
  {
    hide Coalesced, Covers, Merge, Apart;
    if r.len > 0 {
      FindsGap(rs, r);
      MergeKeeps(rs, r, Below(rs, r.at, 0), heapOk);
    }
  }

  /** A release right after a take restores the list: the kernel's rollback is exact, except that
      an exact fit needs heap memory for its node again. */
  lemma ReleaseUndoesTake(rs: seq<Range>, k: nat, n: nat, heapOk: bool)
    requires Coalesced(rs) && k < |rs| && 0 < n <= rs[k].len
    ensures Release(Trim(rs, k, n), Range(rs[k].at, n), heapOk) ==
            if heapOk || n < rs[k].len then (rs, true) else (Trim(rs, k, n), false)
  {
    hide Covers, Merge;
    var ts, r := Trim(rs, k, n), Range(rs[k].at, n);
    TrimKeeps(rs, k, n);
    BelowIs(ts, r.at, 0);
    TrimAt(rs, k, n);
    MergeBack(rs, k, n, heapOk);
    assert Below(ts, r.at, 0) == k;
  }

  lemma TrimAt(rs: seq<Range>, k: nat, n: nat)
    requires Coalesced(rs) && k < |rs| && 0 < n <= rs[k].len
    ensures var ts := Trim(rs, k, n);
      && |ts| == (if n == rs[k].len then |rs| - 1 else |rs|)
      && (k > 0 ==> k - 1 < |ts| && ts[k - 1].at < rs[k].at)
      && (k < |ts| ==> rs[k].at < ts[k].at)
  {}

  lemma MergeBack(rs: seq<Range>, k: nat, n: nat, heapOk: bool)
    requires Coalesced(rs) && k < |rs| && 0 < n <= rs[k].len
    ensures k <= |Trim(rs, k, n)|
    ensures Merge(Trim(rs, k, n), Range(rs[k].at, n), k, heapOk) ==
            if heapOk || n < rs[k].len then (rs, true) else (Trim(rs, k, n), false)
  {
    hide Coalesced, Without, Insert;
    var ts, r := Trim(rs, k, n), Range(rs[k].at, n);
    Neighbours(rs, k);
    if k > 0 {
      Neighbours(rs, k - 1);
    }
    if n < rs[k].len {
      assert ts[k := rs[k]] == rs;
    } else {
      InsertBack(rs, k);
      if k > 0 {
        WithoutAt(rs, k, k - 1);
      }
      if k + 1 < |rs| {
        WithoutAt(rs, k, k);
      }
    }
  }

  lemma InsertBack(rs: seq<Range>, k: nat)
    requires k < |rs|
    ensures |Without(rs, k)| == |rs| - 1 && Insert(Without(rs, k), k, rs[k]) == rs
  {}
}

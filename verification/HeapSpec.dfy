/** The kernel heap as a row of blocks (kernel/core/heap.c): what kmalloc and kfree do to the row,
    and what they guarantee. Offsets and lengths are in granules of 16 bytes. */
module HeapSpec {
  import opened Bytes
  import opened Options

  const MIN_LEN: nat := 2      // MIN_BLOCK_SIZE: a header and one granule of payload

  /** A block with its header: it starts at granule `at` and is `len` granules long. */
  datatype Blk = Blk(at: nat, len: nat, used: bool)

  function End(b: Blk): nat {
    b.at + b.len
  }

  /** `ALIGN_UP(size + HEADER_SIZE, 16)`, at least MIN_BLOCK_SIZE, in granules; `size_t` wraps. */
  function Need(size: nat): (n: nat)
    ensures n >= MIN_LEN
  {
    var n := (size + 16) % U64;
    var up := (n + 15) % U64 / 16;
    if up < MIN_LEN then MIN_LEN else up
  }

  /** The bytes a request takes: a header and the payload, but no less than the smallest block.
      Within 31 bytes of the top of `size_t` the sum or its rounding wraps, and the smallest block
      is what is asked for. */
  function Asked(size: nat): nat {
    if size > U64 - 32 || size < 16 then 32 else size + 16
  }

  /** The request in bytes is the smallest multiple of 16 that is large enough. */
  lemma NeedIs(size: nat)
    requires size < U64
    ensures Asked(size) <= 16 * Need(size) < Asked(size) + 16
  {}

  /** The rounded request holds a header and the payload exactly when it does not wrap around. */
  lemma NeedSuffices(size: nat)
    requires size < U64
    ensures 16 * Need(size) >= size + 16 <==> size <= U64 - 32
    ensures size > U64 - 32 ==> 16 * Need(size) == 32
  {}

  // ---------- well-formed rows ----------

  function NextAt(bs: seq<Blk>, total: nat, i: nat): nat {
    if i + 1 < |bs| then bs[i + 1].at else total
  }

  /** Block `i` ends where the next one begins, or at the end of the heap. */
  predicate TileAt(bs: seq<Blk>, total: nat, i: nat) {
    i < |bs| && bs[i].len >= MIN_LEN && End(bs[i]) == NextAt(bs, total, i)
  }

  /** Blocks `i` and `i + 1` are not both free. */
  predicate ApartAt(bs: seq<Blk>, i: nat) {
    i + 1 < |bs| ==> bs[i].used || bs[i + 1].used
  }

  ghost predicate Tiles(bs: seq<Blk>, total: nat) {
    && |bs| > 0 && bs[0].at == 0
    && (forall i :: 0 <= i < |bs| ==> TileAt(bs, total, i))
  }

  ghost predicate Row(bs: seq<Blk>, total: nat) {
    Tiles(bs, total) && forall i :: 0 <= i < |bs| ==> ApartAt(bs, i)
  }

  lemma {:induction false} InOrder(bs: seq<Blk>, total: nat, i: nat, j: nat)
    requires Tiles(bs, total) && i < j < |bs|
    ensures End(bs[i]) <= bs[j].at
    decreases j
  {
    assert TileAt(bs, total, j - 1);
    if i < j - 1 {
      InOrder(bs, total, i, j - 1);
    }
  }

  lemma {:induction false} Inside(bs: seq<Blk>, total: nat, i: nat)
    requires Tiles(bs, total) && i < |bs|
    ensures End(bs[i]) <= total
    decreases |bs| - i
  {
    assert TileAt(bs, total, i);
    if i + 1 < |bs| {
      Inside(bs, total, i + 1);
      assert TileAt(bs, total, i + 1);
    }
  }

  // ---------- kmalloc ----------

  predicate Fits(b: Blk, need: nat) {
    !b.used && b.len >= need
  }

  /** First block from `i` on that fits, or the number of blocks. */
  function FirstFit(bs: seq<Blk>, need: nat, i: nat): (r: nat)
    requires i <= |bs|
    ensures i <= r <= |bs|
    ensures r < |bs| ==> Fits(bs[r], need)
    ensures forall j :: i <= j < r ==> !Fits(bs[j], need)
    decreases |bs| - i
  {
    if i == |bs| || Fits(bs[i], need) then i else FirstFit(bs, need, i + 1)
  }

  /** Block `i` put to use: its head is taken, and a tail of two granules or more stays free. */
  function Take(bs: seq<Blk>, i: nat, need: nat): seq<Blk>
    requires i < |bs|
  {
    var b := bs[i];
    if b.len >= need + MIN_LEN then
      bs[..i] + [Blk(b.at, need, true), Blk(b.at + need, b.len - need, false)] + bs[i + 1..]
    else bs[i := b.(used := true)]
  }

  /** The row after `kmalloc(size)` and the block handed out. */
  function Malloc(bs: seq<Blk>, size: nat): (seq<Blk>, Option<Blk>) {
    var i := FirstFit(bs, Need(size), 0);
    if size == 0 || i == |bs| then (bs, None)
    else (Take(bs, i, Need(size)), Some(Take(bs, i, Need(size))[i]))
  }

  // ---------- kfree ----------

  function Joined(a: Blk, b: Blk): Blk {
    Blk(a.at, a.len + b.len, false)
  }

  /** Block `i` absorbs its successor if that is free. */
  function MergeNext(bs: seq<Blk>, i: nat): seq<Blk>
    requires i < |bs|
  {
    if i + 1 < |bs| && !bs[i + 1].used then bs[..i] + [Joined(bs[i], bs[i + 1])] + bs[i + 2..] else bs
  }

  /** The row after freeing block `i`: first forward, then backward coalescing. */
  function Free(bs: seq<Blk>, i: nat): seq<Blk>
    requires i < |bs|
  {
    var freed := MergeNext(bs[i := bs[i].(used := false)], i);
    if i > 0 && !freed[i - 1].used then freed[..i - 1] + [Joined(freed[i - 1], freed[i])] + freed[i + 1..]
    else freed
  }

  // ---------- what they keep ----------

  lemma TakeKeepsRow(bs: seq<Blk>, total: nat, i: nat, need: nat)
    requires Row(bs, total) && i < |bs| && Fits(bs[i], need) && need >= MIN_LEN
    ensures Row(Take(bs, i, need), total)
    ensures Take(bs, i, need)[i].used && Take(bs, i, need)[i].at == bs[i].at
    ensures need <= Take(bs, i, need)[i].len < need + MIN_LEN
  {
    var b, cs := bs[i], Take(bs, i, need);
    assert TileAt(bs, total, i);
    if b.len >= need + MIN_LEN {
      forall k | 0 <= k < |cs|
        ensures TileAt(cs, total, k) && ApartAt(cs, k)
      {
        if k < i {
          assert TileAt(bs, total, k) && ApartAt(bs, k);
        } else if k > i {
          assert TileAt(bs, total, k - 1) && ApartAt(bs, k - 1);
        }
      }
    } else {
      forall k | 0 <= k < |cs|
        ensures TileAt(cs, total, k) && ApartAt(cs, k)
      {
        assert TileAt(bs, total, k) && ApartAt(bs, k);
      }
    }
  }

  /** Tiled, and apart everywhere except possibly around block `i`. */
  ghost predicate AlmostRow(bs: seq<Blk>, total: nat, i: nat) {
    Tiles(bs, total) && forall k :: 0 <= k < |bs| && k != i && k + 1 != i ==> ApartAt(bs, k)
  }

  lemma MarkFree(bs: seq<Blk>, total: nat, i: nat)
    requires Row(bs, total) && i < |bs|
    ensures AlmostRow(bs[i := bs[i].(used := false)], total, i)
  {
    var cs := bs[i := bs[i].(used := false)];
    forall k | 0 <= k < |cs|
      ensures TileAt(cs, total, k)
    {
      assert TileAt(bs, total, k);
    }
    forall k | 0 <= k < |cs| && k != i && k + 1 != i
      ensures ApartAt(cs, k)
    {
      assert ApartAt(bs, k);
    }
  }

  lemma MergeForward(bs: seq<Blk>, total: nat, i: nat)
    requires AlmostRow(bs, total, i) && i < |bs| && !bs[i].used
    ensures var cs := MergeNext(bs, i);
      AlmostRow(cs, total, i) && i < |cs| && ApartAt(cs, i) && !cs[i].used && cs[..i] == bs[..i]
  {
    var cs := MergeNext(bs, i);
    if i + 1 < |bs| && !bs[i + 1].used {
      assert TileAt(bs, total, i) && TileAt(bs, total, i + 1);
      forall k | 0 <= k < |cs|
        ensures TileAt(cs, total, k)
      {
        if k < i {
          assert TileAt(bs, total, k);
        } else if k > i {
          assert TileAt(bs, total, k + 1);
        }
      }
      assert ApartAt(bs, i + 1);
      forall k | 0 <= k < |cs| && k != i && k + 1 != i
        ensures ApartAt(cs, k)
      {
        assert ApartAt(bs, if k < i then k else k + 1);
      }
    }
  }

  lemma MergeBackward(bs: seq<Blk>, total: nat, i: nat)
    requires AlmostRow(bs, total, i) && i < |bs| && !bs[i].used && ApartAt(bs, i)
    ensures Row(if i > 0 && !bs[i - 1].used then bs[..i - 1] + [Joined(bs[i - 1], bs[i])] + bs[i + 1..] else bs, total)
  {
    if i > 0 && !bs[i - 1].used {
      var cs := bs[..i - 1] + [Joined(bs[i - 1], bs[i])] + bs[i + 1..];
      assert TileAt(bs, total, i) && TileAt(bs, total, i - 1);
      forall k | 0 <= k < |cs|
        ensures TileAt(cs, total, k) && ApartAt(cs, k)
      {
        if k + 1 < i - 1 {
          assert TileAt(bs, total, k) && ApartAt(bs, k);
        } else if k + 1 == i - 1 {
          assert TileAt(bs, total, k) && ApartAt(bs, k);
        } else {
          assert TileAt(bs, total, k + 1) && (k + 1 != i ==> ApartAt(bs, k + 1));
        }
      }
    } else {
      forall k | 0 <= k < |bs|
        ensures ApartAt(bs, k)
      {
      }
    }
  }

  lemma FreeKeepsRow(bs: seq<Blk>, total: nat, i: nat)
    requires Row(bs, total) && i < |bs|
    ensures Row(Free(bs, i), total)
  {
    hide AlmostRow;
    var marked := bs[i := bs[i].(used := false)];
    MarkFree(bs, total, i);
    MergeForward(marked, total, i);
    MergeBackward(MergeNext(marked, i), total, i);
  }

  // ---------- live blocks ----------

  ghost function Live(bs: seq<Blk>): set<Blk> {
    set i | 0 <= i < |bs| && bs[i].used :: bs[i]
  }

  /** kmalloc adds exactly the block it returns. In bytes, the block holds a header and the
      payload asked for, and is less than three granules larger than that. */
  lemma MallocLive(bs: seq<Blk>, total: nat, size: nat)
    requires Row(bs, total)
    ensures var (cs, r) := Malloc(bs, size);
      && Row(cs, total)
      && (r.None? ==> cs == bs)
      && (r.Some? ==> r.value !in Live(bs) && Live(cs) == Live(bs) + {r.value}
                      && (size < U64 ==> Asked(size) <= 16 * r.value.len < Asked(size) + 48)
                      && Need(size) <= r.value.len < Need(size) + MIN_LEN)
  {
    if size < U64 {
      NeedIs(size);
    }
    var i := FirstFit(bs, Need(size), 0);
    if size != 0 && i < |bs| {
      var need := Need(size);
      var cs := Take(bs, i, need);
      TakeKeepsRow(bs, total, i, need);
      forall k | 0 <= k < |bs| && bs[k].used
        ensures bs[k] != cs[i] && bs[k] in cs
      {
        OtherBlock(bs, total, i, k);
        if Splits(bs, i, need) && k > i {
          assert bs[k] == cs[k + 1];
        } else {
          assert bs[k] == cs[k];
        }
      }
      forall k | 0 <= k < |cs| && cs[k].used && k != i
        ensures cs[k] in bs
      {
        if Splits(bs, i, need) && k > i {
          assert cs[k] == bs[k - 1];
        } else {
          assert cs[k] == bs[k];
        }
      }
    }
  }

  /** Block `i` is large enough to leave a tail. */
  predicate Splits(bs: seq<Blk>, i: nat, need: nat)
    requires i < |bs|
  {
    bs[i].len >= need + MIN_LEN
  }

  lemma OtherBlock(bs: seq<Blk>, total: nat, i: nat, k: nat)
    requires Tiles(bs, total) && i < |bs| && k < |bs| && i != k
    ensures bs[i].at != bs[k].at
  {
    assert TileAt(bs, total, i) && TileAt(bs, total, k);
    if i < k {
      InOrder(bs, total, i, k);
    } else {
      InOrder(bs, total, k, i);
    }
  }

  /** Replacing a stretch of free blocks by one free block changes no live block. */
  lemma ReplaceFree(bs: seq<Blk>, p: nat, q: nat, x: Blk)
    requires p <= q <= |bs| && !x.used && forall k :: p <= k < q ==> !bs[k].used
    ensures Live(bs[..p] + [x] + bs[q..]) == Live(bs)
  {
    var cs := bs[..p] + [x] + bs[q..];
    forall b | b in Live(bs)
      ensures b in Live(cs)
    {
      var k :| 0 <= k < |bs| && bs[k].used && bs[k] == b;
      var j := if k < p then k else k - q + p + 1;
      assert cs[j] == b;
    }
    forall b | b in Live(cs)
      ensures b in Live(bs)
    {
      var k :| 0 <= k < |cs| && cs[k].used && cs[k] == b;
      var j := if k < p then k else k + q - p - 1;
      assert bs[j] == b;
    }
  }

  lemma MarkFreeLive(bs: seq<Blk>, total: nat, i: nat)
    requires Row(bs, total) && i < |bs|
    ensures Live(bs[i := bs[i].(used := false)]) == Live(bs) - {bs[i]}
  {
    var cs := bs[i := bs[i].(used := false)];
    forall b
      ensures b in Live(cs) <==> b in Live(bs) && b != bs[i]
    {
      if b in Live(bs) && b != bs[i] {
        var k :| 0 <= k < |bs| && bs[k].used && bs[k] == b;
        assert cs[k] == b;
      }
      if b in Live(cs) {
        var k :| 0 <= k < |cs| && cs[k].used && cs[k] == b;
        assert bs[k] == b;
        OtherBlock(bs, total, i, k);
      }
    }
  }

  /** kfree removes exactly the block it is given. */
  lemma FreeLive(bs: seq<Blk>, total: nat, i: nat)
    requires Row(bs, total) && i < |bs|
    ensures Row(Free(bs, i), total)
    ensures Live(Free(bs, i)) == Live(bs) - {bs[i]}
  {
    FreeKeepsRow(bs, total, i);
    var marked := bs[i := bs[i].(used := false)];
    MarkFreeLive(bs, total, i);
    var merged := MergeNext(marked, i);
    if i + 1 < |marked| && !marked[i + 1].used {
      ReplaceFree(marked, i, i + 2, Joined(marked[i], marked[i + 1]));
    }
    if i > 0 && !merged[i - 1].used {
      ReplaceFree(merged, i - 1, i + 1, Joined(merged[i - 1], merged[i]));
    }
  }

  /** Live payloads never overlap, and lie inside the heap past their own headers. */
  lemma LiveDisjoint(bs: seq<Blk>, total: nat, a: Blk, b: Blk)
    requires Row(bs, total) && a in Live(bs) && b in Live(bs) && a != b
    ensures End(a) <= b.at || End(b) <= a.at
    ensures End(a) <= total && a.at + 1 < End(a)
  {
    var i :| 0 <= i < |bs| && bs[i].used && bs[i] == a;
    var j :| 0 <= j < |bs| && bs[j].used && bs[j] == b;
    assert TileAt(bs, total, i);
    Inside(bs, total, i);
    if i < j {
      InOrder(bs, total, i, j);
    } else {
      InOrder(bs, total, j, i);
    }
  }

  // ---------- completeness ----------

  /** Granules `lo` up to `hi` hold no part of a live block. */
  ghost predicate Gap(bs: seq<Blk>, total: nat, lo: nat, hi: nat) {
    lo <= hi <= total && forall b :: b in Live(bs) ==> hi <= b.at || End(b) <= lo
  }

  lemma {:induction false} Locate(bs: seq<Blk>, total: nat, x: nat, i: nat) returns (k: nat)
    requires Tiles(bs, total) && i < |bs| && bs[i].at <= x < total
    ensures k < |bs| && bs[k].at <= x < End(bs[k])
    decreases |bs| - i
  {
    assert TileAt(bs, total, i);
    if x < End(bs[i]) {
      k := i;
    } else {
      k := Locate(bs, total, x, i + 1);
    }
  }

  /** Since no two neighbours are free, every gap lies within one free block. */
  lemma GapInBlock(bs: seq<Blk>, total: nat, lo: nat, hi: nat) returns (k: nat)
    requires Row(bs, total) && Gap(bs, total, lo, hi) && lo < hi
    ensures k < |bs| && !bs[k].used && bs[k].at <= lo && hi <= End(bs[k])
  {
    k := Locate(bs, total, lo, 0);
    assert TileAt(bs, total, k) && ApartAt(bs, k);
    if bs[k].used {
      UsedIsLive(bs, k);
      assert false;
    }
    if hi > End(bs[k]) {
      assert false;
    }
  }

  lemma UsedIsLive(bs: seq<Blk>, k: nat)
    requires k < |bs| && bs[k].used
    ensures bs[k] in Live(bs)
  {}

  lemma BlockIsGap(bs: seq<Blk>, total: nat, k: nat)
    requires Row(bs, total) && k < |bs| && !bs[k].used
    ensures Gap(bs, total, bs[k].at, End(bs[k]))
  {
    Inside(bs, total, k);
    forall b | b in Live(bs)
      ensures End(bs[k]) <= b.at || End(b) <= bs[k].at
    {
      var j :| 0 <= j < |bs| && bs[j].used && bs[j] == b;
      if j < k {
        InOrder(bs, total, j, k);
      } else {
        InOrder(bs, total, k, j);
      }
    }
  }

  /** kmalloc refuses a request exactly when it is empty or every gap between live blocks has fewer
      bytes than it asks for: first fit never misses space that is there. */
  lemma MallocComplete(bs: seq<Blk>, total: nat, size: nat)
    requires Row(bs, total) && size < U64
    ensures Malloc(bs, size).1.None? <==>
            size == 0 || forall lo: nat, hi: nat :: Gap(bs, total, lo, hi) ==> 16 * (hi - lo) < Asked(size)
  {
    NeedIs(size);
    FirstFitComplete(bs, total, size);
    forall lo: nat, hi: nat | Gap(bs, total, lo, hi)
      ensures hi - lo < Need(size) <==> 16 * (hi - lo) < Asked(size)
    {}
  }

  lemma FirstFitComplete(bs: seq<Blk>, total: nat, size: nat)
    requires Row(bs, total)
    ensures Malloc(bs, size).1.None? <==>
            size == 0 || forall lo: nat, hi: nat :: Gap(bs, total, lo, hi) ==> hi - lo < Need(size)
  {
    var need := Need(size);
    var i := FirstFit(bs, need, 0);
    if i < |bs| {
      BlockIsGap(bs, total, i);
      assert Gap(bs, total, bs[i].at, End(bs[i])) && End(bs[i]) - bs[i].at >= need;
    } else {
      forall lo: nat, hi: nat | Gap(bs, total, lo, hi)
        ensures hi - lo < need
      {
        if lo < hi {
          var k := GapInBlock(bs, total, lo, hi);
          assert !Fits(bs[k], need);
        }
      }
    }
  }

  // ---------- whole runs ----------

  function Fresh(total: nat): seq<Blk> {
    [Blk(0, total, false)]
  }

  lemma FreshRow(total: nat)
    requires total >= MIN_LEN
    ensures Row(Fresh(total), total) && Live(Fresh(total)) == {}
  {
    assert TileAt(Fresh(total), total, 0) && ApartAt(Fresh(total), 0);
  }

  /** With nothing live the heap is one free block again. */
  lemma NothingLive(bs: seq<Blk>, total: nat)
    requires Row(bs, total) && Live(bs) == {}
    ensures bs == Fresh(total)
  {
    assert forall i :: 0 <= i < |bs| && bs[i].used ==> bs[i] in Live(bs);
    assert ApartAt(bs, 0) && TileAt(bs, total, 0);
  }

  datatype Op = Get(size: nat) | Put(b: Blk)

  function IndexOf(bs: seq<Blk>, b: Blk): (i: nat)
    requires b in bs
    ensures i < |bs| && bs[i] == b
  {
    if bs[0] == b then 0 else 1 + IndexOf(bs[1..], b)
  }

  /** Only live blocks are freed. */
  predicate Allowed(bs: seq<Blk>, op: Op) {
    op.Put? ==> op.b in bs && op.b.used
  }

  function Exec(bs: seq<Blk>, op: Op): seq<Blk>
    requires Allowed(bs, op)
  {
    match op
    case Get(size) => Malloc(bs, size).0
    case Put(b) => Free(bs, IndexOf(bs, b))
  }

  predicate AllowedRun(bs: seq<Blk>, ops: seq<Op>)
    decreases |ops|
  {
    ops == [] || (Allowed(bs, ops[0]) && AllowedRun(Exec(bs, ops[0]), ops[1..]))
  }

  function ExecAll(bs: seq<Blk>, ops: seq<Op>): seq<Blk>
    requires AllowedRun(bs, ops)
    decreases |ops|
  {
    if ops == [] then bs else ExecAll(Exec(bs, ops[0]), ops[1..])
  }

  /** The blocks handed out and not yet given back, kept as a ledger beside the heap. */
  ghost function Ledger(bs: seq<Blk>, live: set<Blk>, ops: seq<Op>): set<Blk>
    requires AllowedRun(bs, ops)
    decreases |ops|
  {
    if ops == [] then live
    else
      var now := match ops[0]
        case Get(size) => if Malloc(bs, size).1.Some? then live + {Malloc(bs, size).1.value} else live
        case Put(b) => live - {b};
      Ledger(Exec(bs, ops[0]), now, ops[1..])
  }

  /** After any run the row is well formed and the live blocks are exactly those on the ledger; so
      once everything has been given back, in whatever order, the heap is one block again. */
  lemma {:induction false} RunKeeps(bs: seq<Blk>, total: nat, ops: seq<Op>)
    requires Row(bs, total) && AllowedRun(bs, ops)
    ensures Row(ExecAll(bs, ops), total)
    ensures Live(ExecAll(bs, ops)) == Ledger(bs, Live(bs), ops)
    ensures Ledger(bs, Live(bs), ops) == {} ==> ExecAll(bs, ops) == Fresh(total)
    decreases |ops|
  {
    hide Row, Live, Free, Take, IndexOf;
    if ops == [] {
      if Live(bs) == {} {
        NothingLive(bs, total);
      }
    } else {
      match ops[0] {
        case Get(size) =>
          MallocLive(bs, total, size);
        case Put(b) =>
          FreeLive(bs, total, IndexOf(bs, b));
      }
      RunKeeps(Exec(bs, ops[0]), total, ops[1..]);
    }
  }
}

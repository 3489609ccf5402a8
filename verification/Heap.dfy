/** The kernel heap in memory (kernel/core/heap.c): boundary tags in the region itself, first-fit
    allocation by walking them, and freeing with coalescing in both directions. */
module Heap {
  import opened Bytes
  import opened Options
  import opened HeapSpec

  /** `total_size` with the in-use bit in bit 0. */
  function Tag(b: Blk): nat {
    16 * b.len + (if b.used then 1 else 0)
  }

  function PrevLen(bs: seq<Blk>, i: nat): nat {
    if 0 < i <= |bs| then bs[i - 1].len else 0
  }

  /** The two header words of block `i` are in place. */
  predicate HeaderAt(mem: seq<nat>, bs: seq<Blk>, i: nat) {
    && i < |bs| && 2 * bs[i].at + 1 < |mem|
    && mem[2 * bs[i].at] == Tag(bs[i])
    && mem[2 * bs[i].at + 1] == 16 * PrevLen(bs, i)
  }

  ghost predicate Headers(mem: seq<nat>, bs: seq<Blk>) {
    forall i :: 0 <= i < |bs| ==> HeaderAt(mem, bs, i)
  }

  /** Word `w` belongs to the payload of `b`. */
  predicate InPayload(b: Blk, w: nat) {
    2 * b.at + 2 <= w < 2 * End(b)
  }

  /** No word of a live payload changed. */
  ghost predicate PayloadsKept(bs: seq<Blk>, mem: seq<nat>, mem': seq<nat>) {
    |mem'| == |mem| &&
    forall b, w: nat :: b in Live(bs) && InPayload(b, w) && w < |mem| ==> mem'[w] == mem[w]
  }

  /** `w` is a header word of some block, or lies in a block that is free. */
  ghost predicate Spare(bs: seq<Blk>, w: nat) {
    forall b :: b in Live(bs) ==> !InPayload(b, w)
  }

  lemma HeaderIsSpare(bs: seq<Blk>, total: nat, i: nat)
    requires Tiles(bs, total) && i < |bs|
    ensures Spare(bs, 2 * bs[i].at) && Spare(bs, 2 * bs[i].at + 1)
  {
    forall b | b in Live(bs)
      ensures !InPayload(b, 2 * bs[i].at) && !InPayload(b, 2 * bs[i].at + 1)
    {
      var j :| 0 <= j < |bs| && bs[j].used && bs[j] == b;
      assert TileAt(bs, total, i);
      if j < i {
        InOrder(bs, total, j, i);
      } else if i < j {
        InOrder(bs, total, i, j);
      }
    }
  }

  lemma FreeIsSpare(bs: seq<Blk>, total: nat, i: nat, w: nat)
    requires Row(bs, total) && i < |bs| && !bs[i].used && 2 * bs[i].at <= w < 2 * End(bs[i])
    ensures Spare(bs, w)
  {
    forall b | b in Live(bs)
      ensures !InPayload(b, w)
    {
      var j :| 0 <= j < |bs| && bs[j].used && bs[j] == b;
      if j < i {
        InOrder(bs, total, j, i);
      } else {
        InOrder(bs, total, i, j);
      }
    }
  }

  // ---------- header words after each rewrite ----------

  lemma HeaderInside(bs: seq<Blk>, total: nat, i: nat)
    requires Tiles(bs, total) && i < |bs|
    ensures bs[i].at + MIN_LEN <= End(bs[i]) <= total
  {
    assert TileAt(bs, total, i);
    Inside(bs, total, i);
  }

  /** Only the in-use bit of block `i` changes. */
  lemma RetagHeaders(mem: seq<nat>, bs: seq<Blk>, total: nat, i: nat, used: bool)
    requires Tiles(bs, total) && Headers(mem, bs) && i < |bs| && |mem| == 2 * total
    ensures 2 * bs[i].at < |mem|
    ensures Headers(mem[2 * bs[i].at := Tag(bs[i].(used := used))], bs[i := bs[i].(used := used)])
  {
    HeaderInside(bs, total, i);
    var cs := bs[i := bs[i].(used := used)];
    var mem' := mem[2 * bs[i].at := Tag(cs[i])];
    forall k | 0 <= k < |cs|
      ensures HeaderAt(mem', cs, k)
    {
      assert HeaderAt(mem, bs, k);
      if k != i {
        OtherBlock(bs, total, i, k);
      }
    }
  }

  /** The writes of a split, in the order of the code. */
  function SplitWrites(mem: seq<nat>, bs: seq<Blk>, i: nat, need: nat): (mem': seq<nat>)
    requires i < |bs| && need + 1 < bs[i].len && 2 * End(bs[i]) <= |mem|
    requires i + 1 < |bs| ==> 2 * bs[i + 1].at + 1 < |mem|
  {
    var b := bs[i];
    var m1 := mem[2 * (b.at + need) := 16 * (b.len - need)];
    var m2 := m1[2 * (b.at + need) + 1 := 16 * need];
    var m3 := m2[2 * b.at := 16 * need + 1];
    if i + 1 < |bs| then m3[2 * bs[i + 1].at + 1 := 16 * (b.len - need)] else m3
  }

  /** What the split leaves in each word it may touch; all other words are as before. */
  lemma SplitWords(mem: seq<nat>, bs: seq<Blk>, i: nat, need: nat)
    requires i < |bs| && MIN_LEN <= need && need + 1 < bs[i].len && 2 * End(bs[i]) <= |mem|
    requires i + 1 < |bs| ==> bs[i + 1].at == End(bs[i]) && 2 * bs[i + 1].at + 1 < |mem|
    ensures var m, b := SplitWrites(mem, bs, i, need), bs[i];
      && |m| == |mem|
      && m[2 * b.at] == 16 * need + 1
      && m[2 * (b.at + need)] == 16 * (b.len - need) && m[2 * (b.at + need) + 1] == 16 * need
      && (i + 1 < |bs| ==> m[2 * bs[i + 1].at + 1] == 16 * (b.len - need))
      && (forall w | 0 <= w < |mem| && w !in {2 * b.at, 2 * (b.at + need), 2 * (b.at + need) + 1} ::
            i + 1 >= |bs| || w != 2 * bs[i + 1].at + 1 ==> m[w] == mem[w])
  {}

  lemma SplitHeaders(mem: seq<nat>, bs: seq<Blk>, total: nat, i: nat, need: nat)
    requires Tiles(bs, total) && Headers(mem, bs) && i < |bs| && |mem| == 2 * total
    requires !bs[i].used && need >= MIN_LEN && bs[i].len >= need + MIN_LEN
    requires 2 * End(bs[i]) <= |mem| && (i + 1 < |bs| ==> 2 * bs[i + 1].at + 1 < |mem|)
    ensures Headers(SplitWrites(mem, bs, i, need), Take(bs, i, need))
  {
    hide SplitWrites, Tiles;
    var cs, mem' := Take(bs, i, need), SplitWrites(mem, bs, i, need);
    TileOf(bs, total, i);
    SplitWords(mem, bs, i, need);
    forall k | 0 <= k < |cs|
      ensures HeaderAt(mem', cs, k)
    {
      if k < i {
        assert HeaderAt(mem, bs, k);
        InOrder(bs, total, k, i);
        TileOf(bs, total, k);
      } else if k > i + 1 {
        var j := k - 1;
        assert HeaderAt(mem, bs, j) && cs[k] == bs[j];
        InOrder(bs, total, i, j);
        if j > i + 1 {
          InOrder(bs, total, i + 1, j);
          TileOf(bs, total, i + 1);
        }
      } else {
        assert HeaderAt(mem, bs, i);
      }
    }
  }

  lemma TileOf(bs: seq<Blk>, total: nat, i: nat)
    requires Tiles(bs, total) && i < |bs|
    ensures TileAt(bs, total, i)
  {}

  /** The writes that make block `i` absorb block `i + 1`. */
  function JoinWrites(mem: seq<nat>, bs: seq<Blk>, i: nat): (mem': seq<nat>)
    requires i + 1 < |bs| && 2 * bs[i].at < |mem|
    requires i + 2 < |bs| ==> 2 * bs[i + 2].at + 1 < |mem|
  {
    var merged := bs[i].len + bs[i + 1].len;
    var m1 := mem[2 * bs[i].at := 16 * merged];
    if i + 2 < |bs| then m1[2 * bs[i + 2].at + 1 := 16 * merged] else m1
  }

  lemma JoinHeaders(mem: seq<nat>, bs: seq<Blk>, total: nat, i: nat)
    requires Tiles(bs, total) && Headers(mem, bs) && i + 1 < |bs| && |mem| == 2 * total
    requires 2 * bs[i].at < |mem| && (i + 2 < |bs| ==> 2 * bs[i + 2].at + 1 < |mem|)
    ensures Headers(JoinWrites(mem, bs, i), bs[..i] + [Joined(bs[i], bs[i + 1])] + bs[i + 2..])
  {
    var cs := bs[..i] + [Joined(bs[i], bs[i + 1])] + bs[i + 2..];
    var mem' := JoinWrites(mem, bs, i);
    forall k | 0 <= k < |cs|
      ensures HeaderAt(mem', cs, k)
    {
      var j := if k <= i then k else k + 1;
      assert HeaderAt(mem, bs, j);
      if j != i {
        OtherBlock(bs, total, i, j);
      }
      if i + 2 < |bs| && j != i + 2 {
        OtherBlock(bs, total, i + 2, j);
      }
    }
  }

  // ---------- the heap ----------

  class KernelHeap {
    const start: nat          // heap_start, a multiple of 16
    const mem: array<nat>     // the region as 64-bit words; heap_end is its end
    ghost var blocks: seq<Blk>

    ghost function Total(): nat {
      mem.Length / 2
    }

    ghost predicate Valid()
      reads this, mem
    {
      && start > 0 && start % 16 == 0 && mem.Length % 2 == 0
      && Row(blocks, Total()) && Headers(mem[..], blocks)
    }

    /** The pointer kmalloc returns for a block. */
    function PtrOf(b: Blk): nat {
      start + 16 * (b.at + 1)
    }

    /** `kheap_init`: the region is one free block. */
    constructor (start: nat, mem: array<nat>)
      requires start > 0 && start % 16 == 0 && mem.Length % 2 == 0 && mem.Length / 2 >= MIN_LEN
      modifies mem
      ensures Valid() && this.start == start && this.mem == mem && blocks == Fresh(mem.Length / 2)
    {
      this.start := start;
      this.mem := mem;
      blocks := Fresh(mem.Length / 2);
      new;
      mem[0] := 8 * mem.Length;
      mem[1] := 0;
      FreshRow(mem.Length / 2);
    }

    /** `blk_size` and `blk_in_use` of the header at granule `p`. */
    method ReadTag(p: nat) returns (len: nat, used: bool)
      requires 2 * p < mem.Length
      ensures len == mem[2 * p] / 16 && used == (mem[2 * p] % 2 == 1)
    {
      len := mem[2 * p] / 16;
      used := mem[2 * p] % 2 == 1;
    }

    /** `kmalloc`; 0 is NULL. */
    method Kmalloc(size: nat) returns (ptr: nat)
      requires Valid() && size < U64
      modifies this`blocks, mem
      ensures Valid()
      ensures blocks == Malloc(old(blocks), size).0
      ensures ptr == (match Malloc(old(blocks), size).1 case None => 0 case Some(b) => PtrOf(b))
      ensures PayloadsKept(old(blocks), old(mem[..]), mem[..])
    {
      hide Row, Tiles, Live, Headers, Take;
      if size == 0 {
        return 0;
      }
      var need := Need(size);
      var p := 0;
      ghost var i := 0;
      StartsAtZero(blocks, Total());
      while p < mem.Length / 2
        invariant i <= |blocks| && p == (if i < |blocks| then blocks[i].at else Total())
        invariant FirstFit(blocks, need, 0) == FirstFit(blocks, need, i)
        invariant blocks == old(blocks) && mem[..] == old(mem[..])
        decreases mem.Length / 2 - p
      {
        WalkStep(mem[..], blocks, Total(), i);
        var len, used := ReadTag(p);
        if !used && len >= need {
          TakeBlock(i, p, len, need);
          return start + 16 * (p + 1);
        }
        p := p + len;
        i := i + 1;
      }
      if i < |blocks| {
        WalkStep(mem[..], blocks, Total(), i);
        assert false;
      }
      return 0;
    }

    /** The body of the walk once a block fits. */
    method TakeBlock(ghost i: nat, p: nat, len: nat, need: nat)
      requires Valid() && i < |blocks| && p == blocks[i].at && len == blocks[i].len
      requires Fits(blocks[i], need) && need >= MIN_LEN
      modifies this`blocks, mem
      ensures Valid() && blocks == Take(old(blocks), i, need)
      ensures i < |blocks| && blocks[i].at == p
      ensures PayloadsKept(old(blocks), old(mem[..]), mem[..])
    {
      hide Row, Live, Headers, Take;
      ghost var bs, m0 := blocks, mem[..];
      TakeFacts(m0, bs, Total(), i, need);
      if len >= need + MIN_LEN {
        var tail := p + need;
        mem[2 * tail] := 16 * (len - need);
        mem[2 * tail + 1] := 16 * need;
        mem[2 * p] := 16 * need + 1;
        var after := tail + (len - need);
        if after < mem.Length / 2 {
          mem[2 * after + 1] := 16 * (len - need);
        }
        assert mem[..] == SplitWrites(m0, bs, i, need);
        SplitKept(m0, bs, Total(), i, need);
      } else {
        mem[2 * p] := 16 * len + 1;
        assert mem[..] == m0[2 * p := Tag(bs[i].(used := true))];
        StartsAtZero(bs, Total());
        RetagKept(m0, bs, Total(), i, Tag(bs[i].(used := true)));
      }
      blocks := Take(bs, i, need);
    }

    /** `kfree`. A pointer outside the heap halts the kernel; inside, the caller passes what
        kmalloc returned and has not been freed since. */
    method Kfree(ptr: nat) returns (halted: bool)
      requires Valid()
      requires ptr != 0 && start <= ptr < start + 8 * mem.Length ==> exists i :: Owned(blocks, ptr, i)
      modifies this`blocks, mem
      ensures Valid()
      ensures halted == (ptr != 0 && !(start <= ptr < start + 8 * mem.Length))
      ensures halted || ptr == 0 ==> blocks == old(blocks) && mem[..] == old(mem[..])
      ensures !halted && ptr != 0 ==> forall i :: Owned(old(blocks), ptr, i) ==>
                blocks == Free(old(blocks), i)
                && PayloadsKept(blocks, old(mem[..]), mem[..])
    {
      hide Row, Live, Headers, MergeNext, Free;
      if ptr == 0 {
        return false;
      }
      if ptr < start || ptr >= start + 8 * mem.Length {
        return true;
      }
      ghost var i :| Owned(blocks, ptr, i);
      OwnedOnce(blocks, Total(), ptr);
      var p := (ptr - start) / 16 - 1;
      FreeBlock(i, p);
      return false;
    }

    /** Block `i` starts at the header in front of `ptr` and is in use. */
    ghost predicate Owned(bs: seq<Blk>, ptr: nat, i: nat) {
      i < |bs| && bs[i].used && ptr == PtrOf(bs[i])
    }

    lemma OwnedOnce(bs: seq<Blk>, total: nat, ptr: nat)
      requires Row(bs, total)
      ensures forall i, j :: Owned(bs, ptr, i) && Owned(bs, ptr, j) ==> i == j
    {
      hide Live;
      forall i, j | Owned(bs, ptr, i) && Owned(bs, ptr, j)
        ensures i == j
      {
        if i != j {
          OtherBlock(bs, total, i, j);
        }
      }
    }

    method FreeBlock(ghost i: nat, p: nat)
      requires Valid() && i < |blocks| && p == blocks[i].at && blocks[i].used
      modifies this`blocks, mem
      ensures Valid() && blocks == Free(old(blocks), i)
      ensures PayloadsKept(blocks, old(mem[..]), mem[..])
    {
      hide Row, Tiles, Live, Headers, MergeNext, Free, PayloadsKept, FreeWrites, Room, Merged;
      ghost var m0 := mem[..];
      FreeHeaders(m0, blocks, Total(), i);
      var len := CoalesceForward(i, p);
      CoalesceBackward(i, p, len, m0);
      blocks := Free(blocks, i);
    }

    /** Clears the in-use bit and absorbs a free successor; the new length of the block. */
    method CoalesceForward(ghost i: nat, p: nat) returns (len: nat)
      requires Valid() && i < |blocks| && p == blocks[i].at && blocks[i].used && Room(mem[..], blocks)
      modifies mem
      ensures mem[..] == ForwardWrites(old(mem[..]), blocks, i)
      ensures len == Merged(blocks, i)[i].len
    {
      hide Row, Tiles, Live, Headers;
      ghost var m0 := mem[..];
      StartsAtZero(blocks, Total());
      WalkStep(m0, blocks, Total(), i);
      ForwardFacts(m0, blocks, Total(), i);
      BackwardFacts(m0, blocks, Total(), i);
      var used;
      len, used := ReadTag(p);
      mem[2 * p] := 16 * len;
      ghost var tag: nat := 16 * len;
      assert mem[..] == m0[2 * p := tag];
      var next := p + len;
      if next < mem.Length / 2 {
        var nextLen, nextUsed := ReadTag(next);
        if !nextUsed {
          mem[2 * p] := 16 * (len + nextLen);
          len := len + nextLen;
          if p + len < mem.Length / 2 {
            mem[2 * (p + len) + 1] := 16 * len;
          }
        }
      }
      assert mem[..] == ForwardWrites(m0, blocks, i);
    }

    /** Lets a free predecessor absorb the block. */
    method CoalesceBackward(ghost i: nat, p: nat, len: nat, ghost m0: seq<nat>)
      requires Row(blocks, Total()) && Headers(m0, blocks) && |m0| == mem.Length == 2 * Total()
      requires i < |blocks| && p == blocks[i].at && Room(m0, blocks) && Room(m0, Merged(blocks, i))
      requires mem[..] == ForwardWrites(m0, blocks, i) && len == Merged(blocks, i)[i].len
      modifies mem
      ensures mem[..] == FreeWrites(m0, blocks, i)
    {
      hide Row, Tiles, Live, Headers, Merged, ForwardWrites;
      BackwardFacts(m0, blocks, Total(), i);
      ghost var m2 := mem[..];
      var prevLen := mem[2 * p + 1] / 16;
      if prevLen != 0 {
        var q := p - prevLen;
        var qLen, qUsed := ReadTag(q);
        if !qUsed {
          mem[2 * q] := 16 * (qLen + len);
          if q + (qLen + len) < mem.Length / 2 {
            mem[2 * (q + (qLen + len)) + 1] := 16 * (qLen + len);
          }
          assert mem[..] == JoinWrites(m2, Merged(blocks, i), i - 1);
        }
      }
    }
  }

  // ---------- the writes of kfree ----------

  function Marked(bs: seq<Blk>, i: nat): seq<Blk>
    requires i < |bs|
  {
    bs[i := bs[i].(used := false)]
  }

  /** Bounds of the words a free touches. */
  ghost predicate Room(mem: seq<nat>, bs: seq<Blk>) {
    forall k :: 0 <= k < |bs| ==> 2 * bs[k].at + 1 < |mem|
  }

  lemma HasRoom(bs: seq<Blk>, total: nat, mem: seq<nat>)
    requires Tiles(bs, total) && |mem| == 2 * total
    ensures Room(mem, bs)
  {
    forall k | 0 <= k < |bs|
      ensures 2 * bs[k].at + 1 < |mem|
    {
      HeaderInside(bs, total, k);
    }
  }

  /** Clearing the in-use bit, then absorbing a free successor. */
  function ForwardWrites(mem: seq<nat>, bs: seq<Blk>, i: nat): (mem': seq<nat>)
    requires i < |bs| && Room(mem, bs)
    ensures |mem'| == |mem|
  {
    var m1 := mem[2 * bs[i].at := 16 * bs[i].len];
    if i + 1 < |bs| && !bs[i + 1].used then JoinWrites(m1, Marked(bs, i), i) else m1
  }

  function Merged(bs: seq<Blk>, i: nat): (cs: seq<Blk>)
    requires i < |bs|
    ensures i < |cs|
    ensures cs[..i] == bs[..i]
  {
    MergeNext(Marked(bs, i), i)
  }

  ghost function FreeWrites(mem: seq<nat>, bs: seq<Blk>, i: nat): seq<nat>
    requires i < |bs| && Room(mem, bs) && Room(mem, Merged(bs, i))
  {
    var m2 := ForwardWrites(mem, bs, i);
    if i > 0 && !bs[i - 1].used then JoinWrites(m2, Merged(bs, i), i - 1) else m2
  }

  lemma MarkedTiles(bs: seq<Blk>, total: nat, i: nat)
    requires Tiles(bs, total) && i < |bs|
    ensures Tiles(Marked(bs, i), total)
  {
    forall k | 0 <= k < |bs|
      ensures TileAt(Marked(bs, i), total, k)
    {
      assert TileAt(bs, total, k);
    }
  }

  lemma MergedTiles(bs: seq<Blk>, total: nat, i: nat)
    requires Row(bs, total) && i < |bs|
    ensures Tiles(Merged(bs, i), total)
  {
    MarkFree(bs, total, i);
    MergeForward(Marked(bs, i), total, i);
  }

  lemma PayloadsTrans(bs: seq<Blk>, m0: seq<nat>, m1: seq<nat>, m2: seq<nat>)
    requires PayloadsKept(bs, m0, m1) && PayloadsKept(bs, m1, m2)
    ensures PayloadsKept(bs, m0, m2)
  {}

  lemma PayloadsOf(bs: seq<Blk>, cs: seq<Blk>, m0: seq<nat>, m1: seq<nat>)
    requires PayloadsKept(bs, m0, m1) && Live(bs) == Live(cs)
    ensures PayloadsKept(cs, m0, m1)
  {}

  lemma JoinKept(mem: seq<nat>, bs: seq<Blk>, total: nat, i: nat)
    requires Tiles(bs, total) && i + 1 < |bs| && Room(mem, bs)
    ensures PayloadsKept(bs, mem, JoinWrites(mem, bs, i))
  {
    hide Live, Tiles;
    HeaderIsSpare(bs, total, i);
    if i + 2 < |bs| {
      HeaderIsSpare(bs, total, i + 2);
    }
  }

  lemma ForwardHeaders(mem: seq<nat>, bs: seq<Blk>, total: nat, i: nat)
    requires Row(bs, total) && Headers(mem, bs) && i < |bs| && |mem| == 2 * total && Room(mem, bs)
    ensures Tiles(Merged(bs, i), total) && Headers(ForwardWrites(mem, bs, i), Merged(bs, i))
    ensures PayloadsKept(Marked(bs, i), mem, ForwardWrites(mem, bs, i))
    ensures Live(Merged(bs, i)) == Live(Marked(bs, i))
  {
    hide Live, PayloadsKept, Headers;
    var marked := Marked(bs, i);
    var m1 := mem[2 * bs[i].at := 16 * bs[i].len];
    MarkedTiles(bs, total, i);
    MergedTiles(bs, total, i);
    HasRoom(marked, total, m1);
    RetagHeaders(mem, bs, total, i, false);
    RetagKept(mem, marked, total, i, 16 * bs[i].len);
    if i + 1 < |bs| && !bs[i + 1].used {
      JoinHeaders(m1, marked, total, i);
      JoinKept(m1, marked, total, i);
      PayloadsTrans(marked, mem, m1, JoinWrites(m1, marked, i));
      ReplaceFree(marked, i, i + 2, Joined(marked[i], marked[i + 1]));
    }
  }

  /** After all the writes every header is right and no surviving payload has changed. */
  lemma FreeHeaders(mem: seq<nat>, bs: seq<Blk>, total: nat, i: nat)
    requires Row(bs, total) && Headers(mem, bs) && i < |bs| && |mem| == 2 * total
    ensures Row(Free(bs, i), total)
    ensures Room(mem, bs) && Room(mem, Merged(bs, i))
    ensures Headers(FreeWrites(mem, bs, i), Free(bs, i))
    ensures PayloadsKept(Free(bs, i), mem, FreeWrites(mem, bs, i))
  {
    hide Live, PayloadsKept, Headers, Tiles;
    FreeKeepsRow(bs, total, i);
    StartsAtZero(bs, total);
    HasRoom(bs, total, mem);
    ForwardHeaders(mem, bs, total, i);
    var merged, m2 := Merged(bs, i), ForwardWrites(mem, bs, i);
    HasRoom(merged, total, mem);
    HasRoom(merged, total, m2);
    PayloadsOf(Marked(bs, i), merged, mem, m2);
    assert merged[..i] == bs[..i];
    if i > 0 && !bs[i - 1].used {
      assert merged[i - 1] == merged[..i][i - 1] == bs[i - 1];
      JoinHeaders(m2, merged, total, i - 1);
      JoinKept(m2, merged, total, i - 1);
      PayloadsTrans(merged, mem, m2, JoinWrites(m2, merged, i - 1));
      ReplaceFree2(merged, i - 1);
      PayloadsOf(merged, Free(bs, i), mem, JoinWrites(m2, merged, i - 1));
    } else if i > 0 {
      assert merged[i - 1] == merged[..i][i - 1] == bs[i - 1];
    }
  }

  lemma ReplaceFree2(bs: seq<Blk>, p: nat)
    requires p + 1 < |bs| && !bs[p].used && !bs[p + 1].used
    ensures Live(bs[..p] + [Joined(bs[p], bs[p + 1])] + bs[p + 2..]) == Live(bs)
  {
    ReplaceFree(bs, p, p + 2, Joined(bs[p], bs[p + 1]));
  }

  // ---------- what the code reads on its way ----------

  lemma StartsAtZero(bs: seq<Blk>, total: nat)
    requires Row(bs, total)
    ensures Tiles(bs, total)
    ensures |bs| > 0 && bs[0].at == 0
  {}

  /** The header at block `i` tells where block `i + 1` starts. */
  lemma WalkStep(mem: seq<nat>, bs: seq<Blk>, total: nat, i: nat)
    requires Tiles(bs, total) && Headers(mem, bs) && i < |bs| && |mem| == 2 * total
    ensures 2 * bs[i].at + 1 < |mem| && bs[i].at < total
    ensures mem[2 * bs[i].at] / 16 == bs[i].len && (mem[2 * bs[i].at] % 2 == 1) == bs[i].used
    ensures bs[i].len > 0
    ensures bs[i].at + bs[i].len == if i + 1 < |bs| then bs[i + 1].at else total
  {
    assert TileAt(bs, total, i) && HeaderAt(mem, bs, i);
    Inside(bs, total, i);
  }

  lemma TakeFacts(mem: seq<nat>, bs: seq<Blk>, total: nat, i: nat, need: nat)
    requires Row(bs, total) && Headers(mem, bs) && i < |bs| && |mem| == 2 * total
    requires Fits(bs[i], need) && need >= MIN_LEN
    ensures Row(Take(bs, i, need), total) && i < |Take(bs, i, need)| && Take(bs, i, need)[i].at == bs[i].at
    ensures 2 * End(bs[i]) <= |mem| && End(bs[i]) == (if i + 1 < |bs| then bs[i + 1].at else total)
    ensures i + 1 < |bs| ==> 2 * bs[i + 1].at + 1 < |mem|
    ensures bs[i].len >= need + MIN_LEN ==> Headers(SplitWrites(mem, bs, i, need), Take(bs, i, need))
    ensures bs[i].len < need + MIN_LEN ==>
              Headers(mem[2 * bs[i].at := Tag(bs[i].(used := true))], Take(bs, i, need))
  {
    TakeKeepsRow(bs, total, i, need);
    WalkStep(mem, bs, total, i);
    Inside(bs, total, i);
    if i + 1 < |bs| {
      WalkStep(mem, bs, total, i + 1);
    }
    if bs[i].len >= need + MIN_LEN {
      SplitHeaders(mem, bs, total, i, need);
    } else {
      RetagHeaders(mem, bs, total, i, true);
    }
  }

  lemma RetagKept(mem: seq<nat>, bs: seq<Blk>, total: nat, i: nat, tag: nat)
    requires Tiles(bs, total) && i < |bs| && 2 * bs[i].at < |mem|
    ensures PayloadsKept(bs, mem, mem[2 * bs[i].at := tag])
  {
    hide Live, Row;
    HeaderIsSpare(bs, total, i);
  }

  lemma SplitKept(mem: seq<nat>, bs: seq<Blk>, total: nat, i: nat, need: nat)
    requires Row(bs, total) && i < |bs| && !bs[i].used && need >= MIN_LEN && bs[i].len >= need + MIN_LEN
    requires 2 * End(bs[i]) <= |mem| && (i + 1 < |bs| ==> 2 * bs[i + 1].at + 1 < |mem|)
    ensures PayloadsKept(bs, mem, SplitWrites(mem, bs, i, need))
  {
    hide Live, Row;
    StartsAtZero(bs, total);
    HeaderIsSpare(bs, total, i);
    FreeIsSpare(bs, total, i, 2 * (bs[i].at + need));
    FreeIsSpare(bs, total, i, 2 * (bs[i].at + need) + 1);
    if i + 1 < |bs| {
      HeaderIsSpare(bs, total, i + 1);
    }
  }

  /** Before forward coalescing: where the next block and the one after it start. */
  lemma ForwardFacts(mem: seq<nat>, bs: seq<Blk>, total: nat, i: nat)
    requires Row(bs, total) && Headers(mem, bs) && i < |bs| && |mem| == 2 * total && Room(mem, bs)
    ensures var m1 := mem[2 * bs[i].at := 16 * bs[i].len];
      && End(bs[i]) == (if i + 1 < |bs| then bs[i + 1].at else total)
      && (i + 1 < |bs| ==>
            && bs[i + 1].at < total
            && m1[2 * bs[i + 1].at] / 16 == bs[i + 1].len
            && (m1[2 * bs[i + 1].at] % 2 == 1) == bs[i + 1].used
            && End(bs[i + 1]) == (if i + 2 < |bs| then bs[i + 2].at else total)
            && (i + 2 < |bs| ==> bs[i + 2].at < total))
  {
    WalkStep(mem, bs, total, i);
    if i + 1 < |bs| {
      WalkStep(mem, bs, total, i + 1);
    }
    if i + 2 < |bs| {
      WalkStep(mem, bs, total, i + 2);
    }
  }

  /** Before backward coalescing: the merged block, its predecessor and its successor. */
  lemma BackwardFacts(mem: seq<nat>, bs: seq<Blk>, total: nat, i: nat)
    requires Row(bs, total) && Headers(mem, bs) && i < |bs| && |mem| == 2 * total && Room(mem, bs)
    ensures var m2, merged := ForwardWrites(mem, bs, i), Merged(bs, i);
      && merged[i].at == bs[i].at && 2 * bs[i].at + 1 < |m2| == |mem|
      && merged[i].len == bs[i].len + (if i + 1 < |bs| && !bs[i + 1].used then bs[i + 1].len else 0)
      && m2[2 * bs[i].at + 1] / 16 == (if i > 0 then bs[i - 1].len else 0)
      && End(merged[i]) == (if i + 1 < |merged| then merged[i + 1].at else total)
      && (i + 1 < |merged| ==> merged[i + 1].at < total)
      && (i > 0 ==>
            && merged[i - 1] == bs[i - 1] && bs[i - 1].len > 0
            && End(bs[i - 1]) == bs[i].at
            && 2 * bs[i - 1].at < |m2|
            && m2[2 * bs[i - 1].at] / 16 == bs[i - 1].len
            && (m2[2 * bs[i - 1].at] % 2 == 1) == bs[i - 1].used)
  {
    hide Live;
    var m2, merged := ForwardWrites(mem, bs, i), Merged(bs, i);
    ForwardHeaders(mem, bs, total, i);
    assert HeaderAt(m2, merged, i);
    WalkStep(m2, merged, total, i);
    if i + 1 < |merged| {
      WalkStep(m2, merged, total, i + 1);
    }
    if i > 0 {
      assert merged[i - 1] == merged[..i][i - 1] == bs[i - 1];
      WalkStep(m2, merged, total, i - 1);
    }
  }
}

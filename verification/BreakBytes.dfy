/** The heap break in bytes (kernel/arch/address_space.c): which addresses a call makes usable, what
    each page shows afterwards, and exactly when the call fails. */
module BreakBytes {
  import opened Options
  import opened Paging
  import opened PagingInvariant
  import opened PagingLifecycle
  import opened ForkRefinement
  import opened HeapBreak

  const WRAP: nat := 0x1_0000_0000_0000_0000

  /** The address where page `v` of the user range starts. */
  function Start(v: nat): nat {
    0x10_0000_0000 + 4096 * v
  }

  /** Address `va` lies on page `v`. */
  predicate OnPage(va: nat, v: nat) {
    Start(v) <= va < Start(v + 1)
  }

  /** The first address past the heap that `bytes` asks for. No heap ends below its base, and in the
      last page of the 64-bit numbers rounding up wraps to 0. */
  function Top(bytes: nat): nat {
    if bytes < 0x10_1000_0000 || bytes > WRAP - 4096 then 0x10_1000_0000 else bytes
  }

  /** Page `to` is the first that starts at or past `Top(bytes)`. */
  predicate EndsAt(bytes: nat, to: nat) {
    Start(to) >= Top(bytes) && Start(to) < Top(bytes) + 4096
  }

  lemma RoundedIs(bytes: nat, to: nat)
    requires bytes < WRAP && EndsAt(bytes, to)
    ensures PageOf(Rounded(bytes)) == to
    ensures Rounded(bytes) > USER_HEAP_MAX <==> Top(bytes) > USER_HEAP_MAX
  {}

  /** The table pages that entries `from`, ..., `to - 1` need and the space does not have. */
  ghost function TablesMissing(tables: set<TableSlot>, from: nat, to: nat): set<TableSlot> {
    (set v: nat | from <= v < to :: L3(v / 512)) - tables
  }

  /** One frame a page, and one for each missing table. */
  ghost function FramesFor(m: Machine, a: nat, from: nat, to: nat): nat
    requires a in m.spaces && from <= to
  {
    to - from + |TablesMissing(m.spaces[a].tables.Keys, from, to)|
  }

  lemma MissingNext(tables: set<TableSlot>, from: nat, to: nat)
    requires from < to
    ensures |TablesMissing(tables, from, to)| ==
            |TablesMissing(tables + {L3(from / 512)}, from + 1, to)| + if L3(from / 512) in tables then 0 else 1
  {
    var t := L3(from / 512);
    var all, rest := TablesMissing(tables, from, to), TablesMissing(tables + {t}, from + 1, to);
    if t in tables {
      assert all == rest;
    } else {
      assert t in all;
      assert all == rest + {t};
    }
  }

  lemma {:induction false} MissingBound(tables: set<TableSlot>, from: nat, to: nat)
    requires from <= to
    ensures |TablesMissing(tables, from, to)| + from <= to
    decreases (to as int) - (from as int)
  {
    if from < to {
      MissingNext(tables, from, to);
      MissingBound(tables + {L3(from / 512)}, from + 1, to);
    } else {
      assert TablesMissing(tables, from, to) == {};
    }
  }

  /** One page succeeds exactly when there is a frame for it and one for its table, if missing. */
  lemma MapFreshNeeds(m: Machine, a: nat, v: nat)
    requires Inv(m) && a in m.spaces
    ensures var ((n, ok), need) := (MapFresh(m, a, v, true, false), if TableFor(v) in m.spaces[a].tables then 1 else 2);
      && (ok <==> |m.free| >= need)
      && (ok ==> a in n.spaces && |n.free| == |m.free| - need
                 && n.spaces[a].tables.Keys == m.spaces[a].tables.Keys + {TableFor(v)})
  {
    assert PoolOk(m);
    hide Inv, PutFrame;
    assert m.free != [] ==> m.free[0] != 0;
    assert |m.free| >= 2 ==> m.free[1] != 0;
  }

  lemma {:induction false} GrowNeeds(m: Machine, a: nat, v: nat, end: nat)
    requires Inv(m) && a in m.spaces && v <= end <= PER_TABLE * PER_TABLE && IdleRange(m, a, v, end)
    ensures Grow(m, a, v, end).1 <==> |m.free| >= FramesFor(m, a, v, end)
    decreases end - v
  {
    hide Inv, Abs, MapFresh, Replaceable, TablesMissing;
    if v < end {
      MapFreshKeeps(m, a, v, true, false);
      MapFreshEntries(m, a, v);
      MapFreshNeeds(m, a, v);
      MissingNext(m.spaces[a].tables.Keys, v, end);
      var (n, ok) := MapFresh(m, a, v, true, false);
      if ok {
        GrowNeeds(n, a, v + 1, end);
      }
    } else {
      NoneMissing(m.spaces[a].tables.Keys, v);
    }
  }

  lemma NoneMissing(tables: set<TableSlot>, v: nat)
    ensures TablesMissing(tables, v, v) == {}
  {}

  /** What page `v` shows space `a`. */
  ghost function Shown(m: Machine, a: nat, v: nat): Option<Entry> {
    if a in Abs(m) && v in Abs(m)[a].view then Some(Abs(m)[a].view[v]) else None
  }

  /** What page `v` shows once the heap, which ended at page `from`, ends at address `top`: a zero
      page if it is new, nothing if it was a page above the new end, what it was otherwise. */
  ghost function Expected(was: Option<Entry>, from: nat, top: nat, v: nat): Option<Entry> {
    if from <= v && Start(v) < top then Some(Visible(ZeroPage(), true, false))
    else if v < from && Start(v) >= top && was.Some? && was.value.Visible? then None
    else was
  }

  lemma GrownShown(view: map<nat, Entry>, from: nat, to: nat, v: nat)
    ensures v in GrownView(view, from, to) <==> v in view || from <= v < to
    ensures v in GrownView(view, from, to) ==>
              GrownView(view, from, to)[v] == if from <= v < to then Visible(ZeroPage(), true, false) else view[v]
  {}

  /** A call in bytes. It fails exactly when the request lies beyond the heap or the free frames are
      fewer than the pages and tables it needs; then no page below the old break changed. When it
      succeeds the break is the first page boundary at or past the request, every page that starts
      below it is there, the new ones as writable zeroes, and no page above it. No other space
      sees a difference. */
  lemma SetBrkInBytes(m: Machine, a: nat, bytes: nat, to: nat)
    requires Inv(m) && a in m.spaces && bytes < WRAP && EndsAt(bytes, to)
    requires Top(bytes) <= USER_HEAP_MAX ==> IdleRange(m, a, m.spaces[a].brk, to) && OwnRange(m, a, to, m.spaces[a].brk)
    ensures var ((n, ok), from) := (SetBrk(m, a, bytes), m.spaces[a].brk);
      && Inv(n) && a in n.spaces
      && (ok <==> Top(bytes) <= USER_HEAP_MAX && (to > from ==> |m.free| >= FramesFor(m, a, from, to)))
      && (ok ==> n.spaces[a].brk == to
                 && forall v: nat :: Shown(n, a, v) == Expected(Shown(m, a, v), from, Top(bytes), v))
      && (!ok ==> n.spaces[a].brk == from && forall v: nat :: v < from ==> Shown(n, a, v) == Shown(m, a, v))
      && (forall b: nat, v: nat :: b != a ==> Shown(n, b, v) == Shown(m, b, v))
  {
    hide Inv, Abs, Grow, Shrink, IdleRange, OwnRange, FramesFor, Rounded, PageOf, GrownView, ShrunkView;
    RoundedIs(bytes, to);
    AbsKeys(m);
    SetBrkKeeps(m, a, bytes);
    var from := m.spaces[a].brk;
    var (n, ok) := SetBrk(m, a, bytes);
    AbsKeys(n);
    if Top(bytes) <= USER_HEAP_MAX {
      if to > from {
        GrowNeeds(m, a, from, to);
      }
      if ok {
        forall v: nat
          ensures Shown(n, a, v) == Expected(Shown(m, a, v), from, Top(bytes), v)
        {
          BrokenShown(m, n, a, from, to, bytes, v);
        }
      } else if n != m {
        var k :| from <= k < to && Abs(n) == PutView(Abs(m), a, GrownView(Abs(m)[a].view, from, k));
        forall v: nat | v < from
          ensures Shown(n, a, v) == Shown(m, a, v)
        {
          GrownShown(Abs(m)[a].view, from, k, v);
        }
      }
    }
  }

  lemma BrokenShown(m: Machine, n: Machine, a: nat, from: nat, to: nat, bytes: nat, v: nat)
    requires a in Abs(m) && EndsAt(bytes, to)
    requires Abs(n) == PutView(Abs(m), a, if to > from then GrownView(Abs(m)[a].view, from, to)
                                          else ShrunkView(Abs(m)[a].view, to, from))
    ensures Shown(n, a, v) == Expected(Shown(m, a, v), from, Top(bytes), v)
  {
    hide Abs, GrownView;
    GrownShown(Abs(m)[a].view, from, to, v);
    assert Start(v) < Top(bytes) <==> v < to;
  }

  /** After a success every address asked for lies below the break if and only if rounding the
      request did not wrap; and the break is less than a page past the request or the heap's base. */
  lemma BreakCovers(m: Machine, a: nat, bytes: nat, to: nat)
    requires Inv(m) && a in m.spaces && bytes < WRAP && EndsAt(bytes, to)
    requires Top(bytes) <= USER_HEAP_MAX ==> IdleRange(m, a, m.spaces[a].brk, to) && OwnRange(m, a, to, m.spaces[a].brk)
    requires SetBrk(m, a, bytes).1
    ensures var n := SetBrk(m, a, bytes).0;
      && a in n.spaces
      && ((forall va: nat, v: nat :: USER_HEAP_BASE <= va < bytes && OnPage(va, v) ==> v < n.spaces[a].brk)
          <==> bytes <= WRAP - 4096)
      && Start(n.spaces[a].brk) < (if bytes < USER_HEAP_BASE then USER_HEAP_BASE else bytes) + 4096
  {
    hide Inv, Abs, SetBrk, IdleRange, OwnRange, Expected, FramesFor, Shown;
    SetBrkInBytes(m, a, bytes, to);
    if bytes > WRAP - 4096 {
      assert USER_HEAP_BASE <= Start(to) < bytes && OnPage(Start(to), to);
    }
  }

  /** Two free frames a page are enough for any growth within the heap. */
  lemma TwoFramesEach(m: Machine, a: nat, bytes: nat, to: nat)
    requires Inv(m) && a in m.spaces && bytes < WRAP && EndsAt(bytes, to) && Top(bytes) <= USER_HEAP_MAX
    requires IdleRange(m, a, m.spaces[a].brk, to) && OwnRange(m, a, to, m.spaces[a].brk)
    requires |m.free| >= 2 * (to - m.spaces[a].brk)
    ensures SetBrk(m, a, bytes).1
  {
    hide Inv, Abs, SetBrk, IdleRange, OwnRange, Expected, Shown, TablesMissing;
    SetBrkInBytes(m, a, bytes, to);
    if to > m.spaces[a].brk {
      MissingBound(m.spaces[a].tables.Keys, m.spaces[a].brk, to);
    }
  }

  // ---------- where the break starts ----------

  /** A new space's heap is empty: it ends where the heap begins. */
  lemma NewBreak(m: Machine, heapOk: bool)
    requires Create(m, heapOk).1 != 0
    ensures var (n, a) := Create(m, heapOk);
      Start(n.spaces[a].brk) == 0x10_1000_0000 && n.spaces[a].pt == map[]
  {}

  /** The first call in a new space: after a success every address of the heap asked for reads as
      zero and may be written. */
  lemma FirstBreak(m: Machine, heapOk: bool, bytes: nat, to: nat)
    requires Inv(m) && Create(m, heapOk).1 != 0 && bytes <= WRAP - 4096 && EndsAt(bytes, to)
    requires var (n, a) := Create(m, heapOk); SetBrk(n, a, bytes).1
    ensures var (n, a) := Create(m, heapOk);
      var p := SetBrk(n, a, bytes).0;
      Inv(p) && forall va: nat, v: nat :: 0x10_1000_0000 <= va < bytes && OnPage(va, v) ==>
        Shown(p, a, v) == Some(Visible(ZeroPage(), true, false))
  {
    CreateKeeps(m, heapOk);
    NewBreak(m, heapOk);
    hide Inv, Abs, SetBrk, Create, Shown, FramesFor;
    var (n, a) := Create(m, heapOk);
    SetBrkInBytes(n, a, bytes, to);
  }

  /** No space's break moves. */
  ghost predicate SameBreaks(m: Machine, n: Machine) {
    forall a :: a in m.spaces ==> a in n.spaces && n.spaces[a].brk == m.spaces[a].brk
  }

  lemma NeedTableBreak(m: Machine, a: nat, v: nat)
    requires a in m.spaces
    ensures SameBreaks(m, NeedTable(m, a, v).0) && NeedTable(m, a, v).0.spaces.Keys == m.spaces.Keys
  {
    hide PutFrame;
  }

  lemma SetEntryBreak(m: Machine, a: nat, v: nat, d: Desc)
    requires a in m.spaces
    ensures SameBreaks(m, SetEntry(m, a, v, d)) && SetEntry(m, a, v, d).spaces.Keys == m.spaces.Keys
  {}

  lemma CloneEntryBreak(m: Machine, src: nat, dst: nat, v: nat)
    requires src in m.spaces && dst in m.spaces
    ensures SameBreaks(m, CloneEntry(m, src, dst, v).0)
  {
    hide NeedTable, SetEntry, Share;
    NeedTableBreak(m, dst, v);
    var n := NeedTable(m, dst, v).0;
    SetEntryBreak(n, dst, v, Guard);
    if v in m.spaces[src].pt && m.spaces[src].pt[v].Map? && v in n.spaces[src].pt && n.spaces[src].pt[v].Map? {
      ShareOneBreak(n, src, dst, v);
    }
  }

  lemma ShareOneBreak(m: Machine, src: nat, dst: nat, v: nat)
    requires src in m.spaces && dst in m.spaces && v in m.spaces[src].pt && m.spaces[src].pt[v].Map?
    ensures SameBreaks(m, ShareOne(m, src, dst, v))
  {
    hide SetEntry, SetRc;
    var d := SharedDesc(m.spaces[src].pt[v]);
    SetEntryBreak(m, dst, v, d);
    SetEntryBreak(SetEntry(m, dst, v, d), src, v, d);
  }

  lemma CopyEntryBreak(m: Machine, src: nat, dst: nat, v: nat)
    requires src in m.spaces && dst in m.spaces
    ensures SameBreaks(m, CopyEntry(m, src, dst, v).0)
  {
    hide NeedTable, SetEntry, PutFrame;
    var pt := m.spaces[src].pt;
    if v in pt && pt[v].Guard? {
      NeedTableBreak(m, dst, v);
      SetEntryBreak(NeedTable(m, dst, v).0, dst, v, Guard);
    } else if v in pt {
      var (m1, f) := Alloc(m);
      var m2 := PutFrame(m1, f, Frame(m1, pt[v].frame));
      NeedTableBreak(m2, dst, v);
      SetEntryBreak(NeedTable(m2, dst, v).0, dst, v, Map(f, pt[v].rw, false, pt[v].exec, Space));
    }
  }

  lemma {:induction false} CloneTableBreak(m: Machine, src: nat, dst: nat, i: nat, j: nat)
    requires src in m.spaces && dst in m.spaces && j <= PER_TABLE
    ensures SameBreaks(m, CloneTable(m, src, dst, i, j).0)
    decreases PER_TABLE - j
  {
    hide CloneEntry;
    if j < PER_TABLE {
      CloneEntryBreak(m, src, dst, PER_TABLE * i + j);
      var (n, ok) := CloneEntry(m, src, dst, PER_TABLE * i + j);
      if ok {
        CloneTableBreak(n, src, dst, i, j + 1);
      }
    }
  }

  lemma {:induction false} CloneTablesBreak(m: Machine, src: nat, dst: nat, i: nat)
    requires src in m.spaces && dst in m.spaces && i <= PER_TABLE
    ensures SameBreaks(m, CloneTables(m, src, dst, i).0)
    decreases PER_TABLE - i
  {
    hide CloneTable;
    if i == PER_TABLE {
    } else if L3(i) !in m.spaces[src].tables {
      CloneTablesBreak(m, src, dst, i + 1);
    } else {
      CloneTableBreak(m, src, dst, i, 0);
      var (n, ok) := CloneTable(m, src, dst, i, 0);
      if ok {
        CloneTablesBreak(n, src, dst, i + 1);
      }
    }
  }

  lemma {:induction false} CopyTableBreak(m: Machine, src: nat, dst: nat, i: nat, j: nat)
    requires src in m.spaces && dst in m.spaces && j <= PER_TABLE
    ensures SameBreaks(m, CopyTable(m, src, dst, i, j).0)
    decreases PER_TABLE - j
  {
    hide CopyEntry;
    if j < PER_TABLE {
      CopyEntryBreak(m, src, dst, PER_TABLE * i + j);
      var (n, ok) := CopyEntry(m, src, dst, PER_TABLE * i + j);
      if ok {
        CopyTableBreak(n, src, dst, i, j + 1);
      }
    }
  }

  lemma {:induction false} CopyTablesBreak(m: Machine, src: nat, dst: nat, i: nat)
    requires src in m.spaces && dst in m.spaces && i <= PER_TABLE
    ensures SameBreaks(m, CopyTables(m, src, dst, i).0)
    decreases PER_TABLE - i
  {
    hide CopyTable;
    if i == PER_TABLE {
    } else if L3(i) !in m.spaces[src].tables {
      CopyTablesBreak(m, src, dst, i + 1);
    } else {
      CopyTableBreak(m, src, dst, i, 0);
      var (n, ok) := CopyTable(m, src, dst, i, 0);
      if ok {
        CopyTablesBreak(n, src, dst, i + 1);
      }
    }
  }

  /** A child starts with its parent's break, and the parent keeps its own. */
  lemma ForkBreak(m: Machine, src: nat, heapOk: bool)
    requires Inv(m) && src in m.spaces
    ensures var (n, dst) := CloneCow(m, src, heapOk);
      dst != 0 ==> dst in n.spaces && src in n.spaces && n.spaces[dst].brk == m.spaces[src].brk == n.spaces[src].brk
    ensures var (n, dst) := Clone(m, src, heapOk);
      dst != 0 ==> dst in n.spaces && src in n.spaces && n.spaces[dst].brk == m.spaces[src].brk == n.spaces[src].brk
  {
    hide Inv, Create, CloneTables, CopyTables, Destroy, Abs;
    CreateKeeps(m, heapOk);
    var (m1, dst) := Create(m, heapOk);
    if dst != 0 {
      CloneTablesBreak(m1, src, dst, 0);
      CopyTablesBreak(m1, src, dst, 0);
    }
  }

  /** Every page of the heap, from its base up to the break, is there and may be written. */
  ghost predicate HeapThere(m: Machine, a: nat) {
    a in m.spaces && forall v: nat :: 0x10_1000_0000 <= Start(v) < Start(m.spaces[a].brk) ==>
      Shown(m, a, v).Some? && Shown(m, a, v).value.Visible? && Shown(m, a, v).value.writable
  }

  /** So it is in a new space, after every call that moves the break or fails to, and in the child
      of a fork. */
  lemma HeapStaysThere(m: Machine, a: nat, bytes: nat, to: nat)
    requires Inv(m) && HeapThere(m, a) && bytes < WRAP && EndsAt(bytes, to)
    requires Top(bytes) <= USER_HEAP_MAX ==> IdleRange(m, a, m.spaces[a].brk, to) && OwnRange(m, a, to, m.spaces[a].brk)
    ensures HeapThere(SetBrk(m, a, bytes).0, a)
  {
    hide Inv, Abs, SetBrk, IdleRange, OwnRange, FramesFor, Shown;
    SetBrkInBytes(m, a, bytes, to);
    var (n, ok) := SetBrk(m, a, bytes);
    forall v: nat | 0x10_1000_0000 <= Start(v) < Start(n.spaces[a].brk)
      ensures Shown(n, a, v).Some? && Shown(n, a, v).value.Visible? && Shown(n, a, v).value.writable
    {
      if ok {
        assert Shown(n, a, v) == Expected(Shown(m, a, v), m.spaces[a].brk, Top(bytes), v);
      }
    }
  }

  lemma HeapThereAtFirst(m: Machine, heapOk: bool)
    requires Create(m, heapOk).1 != 0
    ensures HeapThere(Create(m, heapOk).0, Create(m, heapOk).1)
  {
    NewBreak(m, heapOk);
    hide Create;
  }

  lemma HeapThereInChild(m: Machine, src: nat, heapOk: bool)
    requires Inv(m) && HeapThere(m, src) && |m.spaces| + 1 < RC_LIMIT && CloneCow(m, src, heapOk).1 != 0
    ensures var (n, dst) := CloneCow(m, src, heapOk);
      HeapThere(n, src) && HeapThere(n, dst)
  {
    hide Inv, Abs, CloneCow, Clone;
    ForkBreak(m, src, heapOk);
    CloneCowKeeps(m, src, heapOk);
    var (n, dst) := CloneCow(m, src, heapOk);
    forall v: nat
      ensures Shown(n, src, v) == Shown(m, src, v) == Shown(n, dst, v)
    {}
  }
}

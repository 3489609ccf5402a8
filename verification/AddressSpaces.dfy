/** The paging routines as the kernel runs them: a free list threaded through the free frames
    themselves, a count table updated in place, page tables edited entry by entry. Each method is
    proved to take the machine state exactly where the function of the same name in Paging does. */
module AddressSpaces {
  import opened Paging
  import opened PagingInvariant
  import opened PagingLifecycle
  import opened ForkRefinement
  import opened EagerClone
  import opened HeapBreak

  /** The free list in memory: distinct frames of the pool, each holding the address of the next
      in its first word. */
  ghost predicate Chain(base: nat, mem: seq<Page>, free: seq<nat>) {
    && (forall i :: 0 <= i < |free| ==> base <= free[i] < base + |mem|)
    && (forall i, j :: 0 <= i < j < |free| ==> free[i] != free[j])
    && (forall i :: 0 <= i < |free| ==> LinkOk(base, mem, free, i))
  }

  predicate LinkOk(base: nat, mem: seq<Page>, free: seq<nat>, i: nat) {
    i < |free| && base <= free[i] < base + |mem| && mem[free[i] - base][0] == 4096 * NextFree(free, i)
  }

  function NextFree(free: seq<nat>, i: nat): nat {
    if i + 1 < |free| then free[i + 1] else 0
  }

  lemma ChainPop(base: nat, mem: seq<Page>, free: seq<nat>)
    requires Chain(base, mem, free) && free != []
    ensures base <= free[0] < base + |mem|
    ensures mem[free[0] - base][0] / 4096 == Head(free[1..])
    ensures Chain(base, mem[free[0] - base := ZeroPage()], free[1..])
  {
    var rest, f := free[1..], free[0];
    var mem' := mem[f - base := ZeroPage()];
    forall i | 0 <= i < |rest|
      ensures LinkOk(base, mem', rest, i)
    {
      var k := i + 1;
      assert LinkOk(base, mem, free, k) && rest[i] == free[k] && free[k] != f;
    }
    forall i, j | 0 <= i < j < |rest|
      ensures rest[i] != rest[j]
    {
      var a, b := i + 1, j + 1;
      assert rest[i] == free[a] && rest[j] == free[b];
    }
    assert LinkOk(base, mem, free, 0);
  }

  lemma ChainPush(base: nat, mem: seq<Page>, free: seq<nat>, f: nat)
    requires Chain(base, mem, free) && base <= f < base + |mem| && f !in free
    ensures Chain(base, mem[f - base := mem[f - base][0 := 4096 * Head(free)]], [f] + free)
  {
    var more := [f] + free;
    var mem' := mem[f - base := mem[f - base][0 := 4096 * Head(free)]];
    forall i | 0 <= i < |more|
      ensures LinkOk(base, mem', more, i)
    {
      if i > 0 {
        var k := i - 1;
        assert LinkOk(base, mem, free, k) && more[i] == free[k] && free[k] in free;
      }
    }
    forall i, j | 0 <= i < j < |more|
      ensures more[i] != more[j]
    {
      var b := j - 1;
      assert more[j] == free[b] && free[b] in free;
      if i > 0 {
        var a := i - 1;
        assert more[i] == free[a];
      }
    }
  }

  lemma ChainHead(base: nat, mem: seq<Page>, free: seq<nat>)
    requires base > 0 && Chain(base, mem, free)
    ensures Head(free) == 0 <==> free == []
  {}

  lemma ChainWrite(base: nat, mem: seq<Page>, free: seq<nat>, f: nat, p: Page)
    requires Chain(base, mem, free) && base <= f < base + |mem| && f !in free
    ensures Chain(base, mem[f - base := p], free)
  {
    var mem' := mem[f - base := p];
    forall i | 0 <= i < |free|
      ensures LinkOk(base, mem', free, i)
    {
      assert LinkOk(base, mem, free, i) && free[i] in free;
    }
  }

  class Kernel {
    const base: nat
    const mem: array<Page>
    const rc: array<nat>
    var head: nat            // frame number of the first free frame, 0 when there is none
    var freePages: nat
    ghost var free: seq<nat>
    var spaces: map<nat, AddrSpace>
    var next: nat

    ghost function Now(): Machine
      reads this, mem, rc
    {
      Machine(base, mem[..], rc[..], free, spaces, next)
    }

    /** The links in the free frames spell out the free list. */
    ghost predicate Linked()
      reads this`head, this`freePages, this`free, mem, rc
    {
      && base > 0 && rc.Length == mem.Length
      && head == Head(free) && freePages == |free|
      && Chain(base, mem[..], free)
    }

    ghost predicate Valid()
      reads this, mem, rc
    {
      Linked() && Inv(Now())
    }

    // ---------- pmem.c ----------

    method AllocPage() returns (f: nat)
      requires Linked()
      modifies this`head, this`freePages, this`free, mem
      ensures Linked()
      ensures (Now(), f) == Alloc(old(Now()))
    {
      hide Chain;
      ChainHead(base, mem[..], free);
      if head == 0 {
        return 0;
      }
      f := head;
      ChainPop(base, mem[..], free);
      head := mem[f - base][0] / 4096;
      freePages := freePages - 1;
      mem[f - base] := ZeroPage();
      free := free[1..];
    }

    method FreePage(f: nat)
      requires Linked() && (f != 0 ==> InPool(Now(), f) && f !in free)
      modifies this`head, this`freePages, this`free, mem
      ensures Linked()
      ensures Now() == Release(old(Now()), f)
    {
      if f == 0 {
        return;
      }
      hide Chain;
      ChainPush(base, mem[..], free, f);
      mem[f - base] := mem[f - base][0 := 4096 * head];
      head := f;
      freePages := freePages + 1;
      free := [f] + free;
    }

    /** A whole-page copy into a frame that is not free. */
    method CopyPage(from: nat, to: nat)
      requires Linked() && InPool(Now(), from) && InPool(Now(), to) && to !in free
      modifies mem
      ensures Linked()
      ensures Now() == PutFrame(old(Now()), to, Frame(old(Now()), from))
    {
      ChainWrite(base, mem[..], free, to, mem[from - base]);
      mem[to - base] := mem[from - base];
    }

    // ---------- pmem_refcount.c ----------

    method RefcountGet(f: nat) returns (v: nat)
      ensures v == Rc(Now(), f)
    {
      if base <= f < base + rc.Length {
        v := rc[f - base];
      } else {
        v := 0;
      }
    }

    method RefcountSet(f: nat, v: nat)
      requires Linked()
      modifies rc
      ensures Linked()
      ensures Now() == SetRc(old(Now()), f, v)
    {
      if base <= f < base + rc.Length {
        rc[f - base] := v;
      }
    }

    method RefcountShare(f: nat)
      requires Linked()
      modifies rc
      ensures Linked()
      ensures Now() == Share(old(Now()), f)
    {
      hide Chain;
      if base <= f < base + rc.Length {
        if rc[f - base] == 0 {
          rc[f - base] := 2;
        } else {
          rc[f - base] := (rc[f - base] + 1) % RC_LIMIT;
        }
      }
    }

    method RefcountDec(f: nat) returns (v: nat)
      requires Linked()
      modifies rc
      ensures Linked()
      ensures Now() == Dec(old(Now()), f)
      ensures v == Rc(Now(), f)
    {
      if !(base <= f < base + rc.Length) || rc[f - base] == 0 {
        return 0;
      }
      rc[f - base] := rc[f - base] - 1;
      v := rc[f - base];
    }

    method DecAndFreePage(f: nat)
      requires Linked() && (f != 0 ==> InPool(Now(), f) && f !in free)
      modifies this`head, this`freePages, this`free, mem, rc
      ensures Linked()
      ensures Now() == DecAndFree(old(Now()), f)
    {
      if f == 0 {
        return;
      }
      var cur := RefcountGet(f);
      if cur >= 2 {
        var left := RefcountDec(f);
        return;
      }
      if cur == 1 {
        RefcountSet(f, 0);
      }
      FreePage(f);
    }

    // ---------- address_space.c ----------

    /** `l3_for`. */
    method TableOf(a: nat, v: nat) returns (ok: bool)
      requires Linked() && a in spaces
      modifies this`head, this`freePages, this`free, this`spaces, mem
      ensures Linked()
      ensures (Now(), ok) == NeedTable(old(Now()), a, v)
    {
      var t := TableFor(v);
      if t in spaces[a].tables {
        return true;
      }
      var f := AllocPage();
      if f == 0 {
        return false;
      }
      spaces := spaces[a := spaces[a].(tables := spaces[a].tables[t := f])];
      return true;
    }

    /** `address_space_create`. */
    method CreateSpace(heapOk: bool) returns (a: nat)
      requires Valid()
      modifies this`head, this`freePages, this`free, this`spaces, this`next, mem
      ensures Valid()
      ensures (Now(), a) == Create(old(Now()), heapOk)
    {
      hide Inv, Linked;
      CreateKeeps(Now(), heapOk);
      if !heapOk {
        return 0;
      }
      var l1 := AllocPage();
      if l1 == 0 {
        return 0;
      }
      var l2 := AllocPage();
      if l2 == 0 {
        return 0;
      }
      a := next;
      spaces := spaces[a := AddrSpace(map[L1 := l1, L2 := l2], map[], PageOf(USER_HEAP_BASE), 1)];
      next := next + 1;
    }

    /** The shared tail of brk growth and of an anonymous mmap fault. */
    method MapFreshPage(a: nat, v: nat, rw: bool, exec: bool) returns (ok: bool)
      requires Valid() && a in spaces && v < PER_TABLE * PER_TABLE && Replaceable(Now(), a, v)
      modifies this`head, this`freePages, this`free, this`spaces, mem
      ensures Valid()
      ensures (Now(), ok) == MapFresh(old(Now()), a, v, rw, exec)
    {
      hide Inv, Linked, Base;
      MapFreshKeeps(Now(), a, v, rw, exec);
      AllocKeeps(Now());
      var f := AllocPage();
      if f == 0 {
        return false;
      }
      NeedTableKeeps(Now(), a, v);
      ok := TableOf(a, v);
      if !ok {
        FreePage(f);
        return;
      }
      spaces := spaces[a := spaces[a].(pt := spaces[a].pt[v := Map(f, rw, false, exec, Space)])];
    }

    /** `address_space_install_guard`. */
    method InstallGuardPage(a: nat, v: nat) returns (ok: bool)
      requires Valid() && a in spaces && v < PER_TABLE * PER_TABLE && Replaceable(Now(), a, v)
      modifies this`head, this`freePages, this`free, this`spaces, mem
      ensures Valid()
      ensures (Now(), ok) == InstallGuard(old(Now()), a, v)
    {
      hide Inv, Linked, Base;
      InstallGuardKeeps(Now(), a, v);
      ok := TableOf(a, v);
      if ok {
        spaces := spaces[a := spaces[a].(pt := spaces[a].pt[v := Guard])];
      }
    }

    /** The growing loop of `address_space_set_brk`. */
    method GrowHeap(a: nat, from: nat, end: nat) returns (ok: bool)
      requires Valid() && from <= end <= PER_TABLE * PER_TABLE && IdleRange(Now(), a, from, end)
      modifies this`head, this`freePages, this`free, this`spaces, mem
      ensures Valid()
      ensures (Now(), ok) == Grow(old(Now()), a, from, end)
    {
      hide Inv, Linked, MapFresh, Grow;
      ghost var m := Now();
      var v: nat := from;
      while v < end
        invariant v <= end && Valid() && IdleRange(Now(), a, v, end)
        invariant Grow(Now(), a, v, end) == Grow(m, a, from, end)
      {
        GrowNext(Now(), a, v, end);
        ok := MapFreshPage(a, v, true, false);
        if !ok {
          return;
        }
        v := v + 1;
      }
      GrowDone(Now(), a, v);
      ok := true;
    }

    /** The shrinking loop of `address_space_set_brk`. */
    method ShrinkHeap(a: nat, from: nat, end: nat)
      requires Valid() && from <= end && OwnRange(Now(), a, from, end)
      modifies this`head, this`freePages, this`free, this`spaces, mem, rc
      ensures Valid()
      ensures Now() == Shrink(old(Now()), a, from, end)
    {
      hide Inv, Linked, Unmap, Shrink;
      ghost var m := Now();
      var v: nat := from;
      while v < end
        invariant v <= end && Valid() && OwnRange(Now(), a, v, end)
        invariant Shrink(Now(), a, v, end) == Shrink(m, a, from, end)
      {
        ShrinkNext(Now(), a, v, end);
        UnmapIsDrop(Now(), a, v);
        if v in spaces[a].pt && spaces[a].pt[v].Map? {
          DropPage(a, v);
        }
        v := v + 1;
      }
      ShrinkDone(Now(), a, v);
    }

    /** `address_space_set_brk`: fresh pages up to the new break, or the pages above it dropped. */
    method SetBreak(a: nat, bytes: nat) returns (ok: bool)
      requires Valid() && BreakOk(Now(), a, bytes)
      modifies this`head, this`freePages, this`free, this`spaces, mem, rc
      ensures Valid()
      ensures (Now(), ok) == SetBrk(old(Now()), a, bytes)
    {
      hide Inv, Linked, Grow, Shrink, IdleRange, OwnRange;
      SetBrkKeeps(Now(), a, bytes);
      var va := Rounded(bytes);
      if va > USER_HEAP_MAX {
        return false;
      }
      var from, end := spaces[a].brk, PageOf(va);
      if end > from {
        ok := GrowHeap(a, from, end);
        if !ok {
          return;
        }
      } else {
        ShrinkHeap(a, end, from);
      }
      spaces := spaces[a := spaces[a].(brk := end)];
      ok := true;
    }

    /** Invalidate an entry and give up the frame, as brk shrinkage, munmap and teardown do. */
    method DropPage(a: nat, v: nat)
      requires Valid() && a in spaces
      modifies this`head, this`freePages, this`free, this`spaces, mem, rc
      ensures Valid()
      ensures Now() == Drop(old(Now()), a, v)
    {
      hide Inv, Linked, Base;
      DropKeeps(Now(), a, v);
      if v !in spaces[a].pt {
        return;
      }
      var d := spaces[a].pt[v];
      if d.Map? && d.owner.Space? {
        assert Maps(Now(), a, v, d.frame);
        InvIsBase(Now());
        MappedFrame(Now(), a, v, d.frame);
      }
      spaces := spaces[a := spaces[a].(pt := spaces[a].pt - {v})];
      if d.Map? && d.owner.Space? {
        DecAndFreePage(d.frame);
      }
    }

    /** `teardown_user_range`: every entry of every table, then the table page itself. */
    method TeardownUserRange(a: nat)
      requires Valid() && a in spaces
      modifies this`head, this`freePages, this`free, this`spaces, mem, rc
      ensures Valid()
      ensures Now() == Teardown(old(Now()), a, 0)
    {
      hide Inv, Linked, Base, Drop, FreeTable;
      for i := 0 to PER_TABLE
        invariant Valid() && a in spaces
        invariant Teardown(Now(), a, i) == Teardown(old(Now()), a, 0)
      {
        if L3(i) in spaces[a].tables {
          ghost var m := Now();
          for j := 0 to PER_TABLE
            invariant Valid() && a in spaces
            invariant DropTable(Now(), a, i, j) == DropTable(m, a, i, 0)
          {
            DropPage(a, PER_TABLE * i + j);
          }
          DropTableKeeps(m, a, i, 0);
          FreeTablePage(a, i);
        }
      }
    }

    method FreeTablePage(a: nat, i: nat)
      requires Valid() && a in spaces && L3(i) in spaces[a].tables
      requires forall v :: v in spaces[a].pt ==> !(PER_TABLE * i <= v < PER_TABLE * i + PER_TABLE)
      modifies this`head, this`freePages, this`free, this`spaces, mem
      ensures Valid()
      ensures Now() == FreeTable(old(Now()), a, L3(i))
    {
      hide Inv, Linked, Base;
      var f := spaces[a].tables[L3(i)];
      assert IsTable(Now(), a, L3(i), f);
      TableFrame(Now(), a, L3(i), f);
      forall v | v in spaces[a].pt
        ensures TableFor(v) != L3(i)
      {
        TableRange(v, i);
      }
      FreeTableKeeps(Now(), a, i);
      spaces := spaces[a := spaces[a].(tables := spaces[a].tables - {L3(i)})];
      FreePage(f);
    }

    /** `address_space_destroy`. */
    method DestroySpace(a: nat)
      requires Valid() && a in spaces
      modifies this`head, this`freePages, this`free, this`spaces, mem, rc
      ensures Valid()
      ensures Now() == Destroy(old(Now()), a)
    {
      hide Inv, Linked, Base;
      DestroyKeeps(Now(), a);
      if spaces[a].users > 1 {
        spaces := spaces[a := spaces[a].(users := spaces[a].users - 1)];
        return;
      }
      hide Teardown, Release;
      TeardownKeeps(Now(), a, 0);
      TeardownUserRange(a);
      FreeTopTables(a);
    }

    /** The end of `address_space_destroy`: the two upper tables. */
    method FreeTopTables(a: nat)
      requires Valid() && a in spaces && forall k :: 0 <= k < PER_TABLE ==> L3(k) !in spaces[a].tables
      modifies this`head, this`freePages, this`free, this`spaces, mem
      ensures Linked()
      ensures var n := old(Now());
        Now() == Release(Release(n.(spaces := n.spaces - {a}), TablePage(n, a, L2)), TablePage(n, a, L1))
    {
      hide Inv, Linked, Base, Chain, Abs;
      RemoveSpace(Now(), a);
      TopTables(Now(), a);
      var l2, l1 := spaces[a].tables[L2], spaces[a].tables[L1];
      spaces := spaces - {a};
      UnusedAfterRelease(Now(), l1, l2);
      FreePage(l2);
      FreePage(l1);
    }

    /** One entry of the walk in `address_space_clone_cow`. */
    method CloneOneEntry(src: nat, dst: nat, v: nat) returns (ok: bool)
      requires Valid() && src in spaces && dst in spaces && src != dst && |spaces| < RC_LIMIT
      requires v < PER_TABLE * PER_TABLE && v !in spaces[dst].pt
      modifies this`head, this`freePages, this`free, this`spaces, mem, rc
      ensures Valid() && src in spaces && dst in spaces && |spaces| == |old(spaces)|
      ensures (Now(), ok) == CloneEntry(old(Now()), src, dst, v)
      ensures spaces[dst].pt.Keys <= old(spaces[dst].pt.Keys) + {v}
      ensures spaces[src].tables == old(spaces[src].tables)
    {
      hide Inv, Linked, Base, Abs;
      CloneEntryKeeps(Now(), src, dst, v);
      SameCount(Now(), CloneEntry(Now(), src, dst, v).0);
      if v !in spaces[src].pt {
        return true;
      }
      var d := spaces[src].pt[v];
      if d.Map? && !d.owner.Space? {
        return true;
      }
      ok := TableOf(dst, v);
      if !ok {
        return;
      }
      if d.Guard? {
        spaces := spaces[dst := spaces[dst].(pt := spaces[dst].pt[v := Guard])];
        return;
      }
      var shared := Map(d.frame, false, d.rw || d.cow, d.exec, Space);
      spaces := spaces[dst := spaces[dst].(pt := spaces[dst].pt[v := shared])];
      spaces := spaces[src := spaces[src].(pt := spaces[src].pt[v := shared])];
      RefcountShare(d.frame);
    }

    /** The inner loop of `address_space_clone_cow`, over one L3 table. */
    method CloneOneTable(src: nat, dst: nat, i: nat) returns (ok: bool)
      requires Valid() && src in spaces && dst in spaces && src != dst && |spaces| < RC_LIMIT && i < PER_TABLE
      requires forall v :: v in spaces[dst].pt ==> v < PER_TABLE * i
      modifies this`head, this`freePages, this`free, this`spaces, mem, rc
      ensures Valid() && src in spaces && dst in spaces && |spaces| == |old(spaces)|
      ensures (Now(), ok) == CloneTable(old(Now()), src, dst, i, 0)
      ensures ok ==> forall v :: v in spaces[dst].pt ==> v < PER_TABLE * i + PER_TABLE
    {
      hide Inv, Linked, Base, Abs, CloneEntry, CloneTable;
      ghost var m := Now();
      for j := 0 to PER_TABLE
        invariant Valid() && src in spaces && dst in spaces && |spaces| == |old(spaces)|
        invariant forall v :: v in spaces[dst].pt ==> v < PER_TABLE * i + j
        invariant CloneTable(Now(), src, dst, i, j) == CloneTable(m, src, dst, i, 0)
      {
        PageInRange(i, j);
        CloneTableUnfolds(Now(), src, dst, i, j);
        ok := CloneOneEntry(src, dst, PER_TABLE * i + j);
        if !ok {
          return;
        }
      }
      CloneTableEnds(Now(), src, dst, i);
      ok := true;
    }

    /** `address_space_clone_cow`. */
    method CloneSpace(src: nat, heapOk: bool) returns (dst: nat)
      requires Valid() && src in spaces && |spaces| + 1 < RC_LIMIT
      modifies this`head, this`freePages, this`free, this`spaces, this`next, mem, rc
      ensures Valid()
      ensures (Now(), dst) == CloneCow(old(Now()), src, heapOk)
    {
      hide Inv, Linked, Base, Abs, CloneTable, CloneTables, Destroy, Create;
      CloneCowKeeps(Now(), src, heapOk);
      CreateKeeps(Now(), heapOk);
      ghost var m0 := Now();
      dst := CreateSpace(heapOk);
      if dst == 0 {
        return;
      }
      OneMoreKey(m0, Now(), dst);
      ghost var m := Now();
      for i := 0 to PER_TABLE
        invariant Valid() && src in spaces && dst in spaces && |spaces| < RC_LIMIT
        invariant forall v :: v in spaces[dst].pt ==> v < PER_TABLE * i
        invariant CloneTables(Now(), src, dst, i) == CloneTables(m, src, dst, 0)
      {
        CloneTablesUnfolds(Now(), src, dst, i);
        if L3(i) in spaces[src].tables {
          var ok := CloneOneTable(src, dst, i);
          if !ok {
            DestroySpace(dst);
            return 0;
          }
        }
      }
      CloneTablesEnds(Now(), src, dst);
      spaces := spaces[dst := spaces[dst].(brk := spaces[src].brk)];
    }

    /** One entry of the walk in `address_space_clone`. */
    method CopyOneEntry(src: nat, dst: nat, v: nat) returns (ok: bool)
      requires Valid() && src in spaces && dst in spaces && src != dst
      requires v < PER_TABLE * PER_TABLE && CleanChild(Now(), dst, v)
      modifies this`head, this`freePages, this`free, this`spaces, mem
      ensures Valid() && src in spaces && dst in spaces && spaces[src] == old(spaces[src])
      ensures (Now(), ok) == CopyEntry(old(Now()), src, dst, v)
      ensures ok ==> CleanChild(Now(), dst, v + 1)
    {
      hide Inv, Linked, Base, Abs, CleanChild, NeedTable, Alloc, Release;
      CopyEntryKeeps(Now(), src, dst, v);
      if v !in spaces[src].pt {
        return true;
      }
      var d := spaces[src].pt[v];
      if d.Guard? {
        NotYet(Now(), dst, v);
        ok := InstallGuardPage(dst, v);
        return;
      }
      if !d.owner.Space? {
        return true;
      }
      ok := CopyOnePage(src, dst, v);
    }

    /** Allocate, copy, map: the page case of that walk. */
    method CopyOnePage(src: nat, dst: nat, v: nat) returns (ok: bool)
      requires Valid() && src in spaces && dst in spaces && src != dst
      requires v < PER_TABLE * PER_TABLE && v in spaces[src].pt
      requires spaces[src].pt[v].Map? && spaces[src].pt[v].owner.Space?
      modifies this`head, this`freePages, this`free, this`spaces, mem
      ensures Linked()
      ensures (Now(), ok) == CopyEntry(old(Now()), src, dst, v)
    {
      hide Linked, Base, CountsOk;
      var d := spaces[src].pt[v];
      assert Maps(Now(), src, v, d.frame);
      InvIsBase(Now());
      MappedFrame(Now(), src, v, d.frame);
      AllocKeeps(Now());
      var f := AllocPage();
      if f == 0 {
        return false;
      }
      CopyPage(d.frame, f);
      TableSpares(Now(), dst, v, f);
      ok := TableOf(dst, v);
      if !ok {
        FreePage(f);
        return;
      }
      spaces := spaces[dst := spaces[dst].(pt := spaces[dst].pt[v := Map(f, d.rw, false, d.exec, Space)])];
    }

    /** The inner loop of `address_space_clone`, over one L3 table. */
    method CopyOneTable(src: nat, dst: nat, i: nat) returns (ok: bool)
      requires Valid() && src in spaces && dst in spaces && src != dst && i < PER_TABLE
      requires CleanChild(Now(), dst, PER_TABLE * i)
      modifies this`head, this`freePages, this`free, this`spaces, mem
      ensures Valid() && src in spaces && dst in spaces
      ensures (Now(), ok) == CopyTable(old(Now()), src, dst, i, 0)
      ensures ok ==> CleanChild(Now(), dst, PER_TABLE * i + PER_TABLE)
    {
      hide Inv, Linked, Base, Abs, CopyEntry, CopyTable, CleanChild;
      ghost var m := Now();
      for j := 0 to PER_TABLE
        invariant Valid() && src in spaces && dst in spaces
        invariant CleanChild(Now(), dst, PER_TABLE * i + j)
        invariant CopyTable(Now(), src, dst, i, j) == CopyTable(m, src, dst, i, 0)
      {
        PageInRange(i, j);
        CopyTableUnfolds(Now(), src, dst, i, j);
        ok := CopyOneEntry(src, dst, PER_TABLE * i + j);
        if !ok {
          return;
        }
      }
      CopyTableEnds(Now(), src, dst, i);
      ok := true;
    }

    /** `address_space_clone`. */
    method CopySpace(src: nat, heapOk: bool) returns (dst: nat)
      requires Valid() && src in spaces
      modifies this`head, this`freePages, this`free, this`spaces, this`next, mem, rc
      ensures Valid()
      ensures (Now(), dst) == Clone(old(Now()), src, heapOk)
    {
      hide Inv, Linked, Base, Abs, CopyTable, CopyTables, Destroy, Create, CleanChild;
      CloneKeeps(Now(), src, heapOk);
      CreateKeeps(Now(), heapOk);
      dst := CreateSpace(heapOk);
      if dst == 0 {
        return;
      }
      ghost var m := Now();
      NothingYet(m, dst);
      for i := 0 to PER_TABLE
        invariant Valid() && src in spaces && dst in spaces
        invariant CleanChild(Now(), dst, PER_TABLE * i)
        invariant CopyTables(Now(), src, dst, i) == CopyTables(m, src, dst, 0)
      {
        CopyTablesUnfolds(Now(), src, dst, i);
        if L3(i) in spaces[src].tables {
          var ok := CopyOneTable(src, dst, i);
          if !ok {
            DestroySpace(dst);
            return 0;
          }
        } else {
          StillClean(Now(), dst, PER_TABLE * i, PER_TABLE * (i + 1));
        }
      }
      CopyTablesEnds(Now(), src, dst);
      spaces := spaces[dst := spaces[dst].(brk := spaces[src].brk)];
    }

    /** `address_space_handle_cow_fault`. */
    method HandleCowFault(a: nat, v: nat) returns (ok: bool)
      requires Valid() && a in spaces && (v in spaces[a].pt ==> Private(spaces[a].pt[v]))
      modifies this`head, this`freePages, this`free, this`spaces, mem, rc
      ensures Valid()
      ensures (Now(), ok) == CowFault(old(Now()), a, v)
    {
      hide Inv, Linked, Base, Abs;
      CowFaultKeeps(Now(), a, v);
      if v !in spaces[a].pt || spaces[a].pt[v].Guard? {
        return false;
      }
      var d := spaces[a].pt[v];
      if !d.cow || d.rw {
        return false;
      }
      assert Maps(Now(), a, v, d.frame);
      InvIsBase(Now());
      MappedFrame(Now(), a, v, d.frame);
      var count := RefcountGet(d.frame);
      if count <= 1 {
        if count == 1 {
          var left := RefcountDec(d.frame);
        }
        spaces := spaces[a := spaces[a].(pt := spaces[a].pt[v := Map(d.frame, true, false, d.exec, Space)])];
        return true;
      }
      AllocKeeps(Now());
      var f := AllocPage();
      if f == 0 {
        return false;
      }
      CopyPage(d.frame, f);
      spaces := spaces[a := spaces[a].(pt := spaces[a].pt[v := Map(f, true, false, d.exec, Space)])];
      var left := RefcountDec(d.frame);
      return true;
    }

    /** `address_space_make_writable`. */
    method MakePageWritable(a: nat, v: nat) returns (ok: bool)
      requires Valid() && a in spaces && (v in spaces[a].pt ==> Private(spaces[a].pt[v]))
      modifies this`head, this`freePages, this`free, this`spaces, mem, rc
      ensures Valid()
      ensures (Now(), ok) == MakeWritable(old(Now()), a, v)
    {
      hide Inv, Linked, Base;
      if v !in spaces[a].pt || spaces[a].pt[v].Guard? {
        return false;
      }
      if spaces[a].pt[v].rw {
        return true;
      }
      if !spaces[a].pt[v].cow {
        return false;
      }
      ok := HandleCowFault(a, v);
    }
  }

  lemma CloneTableUnfolds(m: Machine, src: nat, dst: nat, i: nat, j: nat)
    requires src in m.spaces && dst in m.spaces && j < PER_TABLE
    ensures var (n, ok) := CloneEntry(m, src, dst, PER_TABLE * i + j);
      CloneTable(m, src, dst, i, j) == if ok then CloneTable(n, src, dst, i, j + 1) else (n, false)
  {
    hide CloneEntry;
  }

  lemma CloneTableEnds(m: Machine, src: nat, dst: nat, i: nat)
    requires src in m.spaces && dst in m.spaces
    ensures CloneTable(m, src, dst, i, PER_TABLE) == (m, true)
  {}

  lemma CloneTablesUnfolds(m: Machine, src: nat, dst: nat, i: nat)
    requires src in m.spaces && dst in m.spaces && i < PER_TABLE
    ensures L3(i) !in m.spaces[src].tables ==>
              CloneTables(m, src, dst, i) == CloneTables(m, src, dst, i + 1)
    ensures L3(i) in m.spaces[src].tables ==>
              var (n, ok) := CloneTable(m, src, dst, i, 0);
              CloneTables(m, src, dst, i) == if ok then CloneTables(n, src, dst, i + 1) else (n, false)
  {
    hide CloneTable;
  }

  lemma CloneTablesEnds(m: Machine, src: nat, dst: nat)
    requires src in m.spaces && dst in m.spaces
    ensures CloneTables(m, src, dst, PER_TABLE) == (m, true)
  {}

  lemma GrowNext(m: Machine, a: nat, v: nat, end: nat)
    requires Inv(m) && v < end && IdleRange(m, a, v, end) && end <= PER_TABLE * PER_TABLE
    ensures var (n, ok) := MapFresh(m, a, v, true, false);
      && Replaceable(m, a, v)
      && Grow(m, a, v, end) == (if ok then Grow(n, a, v + 1, end) else (n, false))
      && (ok ==> IdleRange(n, a, v + 1, end))
  {
    hide Inv, MapFresh;
    MapFreshEntries(m, a, v);
  }

  lemma GrowDone(m: Machine, a: nat, v: nat)
    requires a in m.spaces
    ensures Grow(m, a, v, v) == (m, true)
  {}

  lemma ShrinkNext(m: Machine, a: nat, v: nat, end: nat)
    requires Inv(m) && v < end && OwnRange(m, a, v, end)
    ensures var n := Unmap(m, a, v);
      && Shrink(m, a, v, end) == Shrink(n, a, v + 1, end) && OwnRange(n, a, v + 1, end)
      && n.spaces[a].brk == m.spaces[a].brk
  {
    hide Inv, Unmap;
    UnmapEntries(m, a, v);
  }

  lemma ShrinkDone(m: Machine, a: nat, v: nat)
    requires a in m.spaces
    ensures Shrink(m, a, v, v) == m
  {}

  lemma UnmapIsDrop(m: Machine, a: nat, v: nat)
    requires a in m.spaces
    ensures Unmap(m, a, v) == if v in m.spaces[a].pt && m.spaces[a].pt[v].Map? then Drop(m, a, v) else m
  {}

  lemma NotYet(m: Machine, dst: nat, v: nat)
    requires CleanChild(m, dst, v)
    ensures v !in m.spaces[dst].pt
  {}

  lemma NothingYet(m: Machine, dst: nat)
    requires dst in m.spaces && m.spaces[dst].pt == map[]
    ensures CleanChild(m, dst, 0)
  {}

  lemma StillClean(m: Machine, dst: nat, k: nat, k': nat)
    requires CleanChild(m, dst, k) && k <= k'
    ensures CleanChild(m, dst, k')
  {}

  /** A table is never made of a frame already taken. */
  lemma TableSpares(m: Machine, a: nat, v: nat, f: nat)
    requires a in m.spaces && f !in m.free && InPool(m, f)
    ensures var n := NeedTable(m, a, v).0; f !in n.free && InPool(n, f)
  {}

  lemma CopyTableUnfolds(m: Machine, src: nat, dst: nat, i: nat, j: nat)
    requires src in m.spaces && dst in m.spaces && j < PER_TABLE
    ensures var (n, ok) := CopyEntry(m, src, dst, PER_TABLE * i + j);
      CopyTable(m, src, dst, i, j) == if ok then CopyTable(n, src, dst, i, j + 1) else (n, false)
  {
    hide CopyEntry;
  }

  lemma CopyTableEnds(m: Machine, src: nat, dst: nat, i: nat)
    requires src in m.spaces && dst in m.spaces
    ensures CopyTable(m, src, dst, i, PER_TABLE) == (m, true)
  {}

  lemma CopyTablesUnfolds(m: Machine, src: nat, dst: nat, i: nat)
    requires src in m.spaces && dst in m.spaces && i < PER_TABLE
    ensures L3(i) !in m.spaces[src].tables ==>
              CopyTables(m, src, dst, i) == CopyTables(m, src, dst, i + 1)
    ensures L3(i) in m.spaces[src].tables ==>
              var (n, ok) := CopyTable(m, src, dst, i, 0);
              CopyTables(m, src, dst, i) == if ok then CopyTables(n, src, dst, i + 1) else (n, false)
  {
    hide CopyTable;
  }

  lemma CopyTablesEnds(m: Machine, src: nat, dst: nat)
    requires src in m.spaces && dst in m.spaces
    ensures CopyTables(m, src, dst, PER_TABLE) == (m, true)
  {}

  lemma InvIsBase(m: Machine)
    requires Inv(m)
    ensures Base(m)
  {}

  lemma TableFrame(m: Machine, a: nat, t: TableSlot, f: nat)
    requires Inv(m) && IsTable(m, a, t, f)
    ensures InPool(m, f) && f !in m.free && f != 0
  {}

  lemma TopTables(m: Machine, a: nat)
    requires Inv(m) && a in m.spaces
    ensures L1 in m.spaces[a].tables && L2 in m.spaces[a].tables
  {
    assert SpaceOk(m.spaces[a]);
  }
}

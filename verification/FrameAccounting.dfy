/** Where every frame is: free, held by a mapping, a page table, or stray, that is, none of these.
    A frame goes astray in two ways only: `address_space_create` meets a free list of one frame,
    takes it for the L1 table, finds none for the L2 table and returns without giving it back; and a
    page or guard is written over a page of the space's own, whose frame nobody then has. */
module FrameAccounting {
  import opened Paging
  import opened PagingInvariant
  import opened PagingLifecycle
  import opened ForkRefinement
  import opened EagerClone
  import opened HeapBreak

  /** The frames no free list, mapping or table accounts for. */
  ghost function Strays(m: Machine): set<nat> {
    set f: nat | f < m.base + |m.mem| && Unused(m, f)
  }

  lemma StraysAre(m: Machine, f: nat)
    ensures f in Strays(m) <==> Unused(m, f)
  {}

  /** The same frames are stray. */
  ghost predicate SameStrays(m: Machine, n: Machine) {
    forall f: nat :: Unused(n, f) <==> Unused(m, f)
  }

  /** Frame `x` has gone astray, and nothing else changed in that respect. */
  ghost predicate OneMoreStray(m: Machine, n: Machine, x: nat) {
    forall f: nat :: Unused(n, f) <==> Unused(m, f) || f == x
  }

  /** Frame `x` has been put to use. */
  ghost predicate OneLessStray(m: Machine, n: Machine, x: nat) {
    forall f: nat :: Unused(n, f) <==> Unused(m, f) && f != x
  }

  lemma OutAndIn(m: Machine, n: Machine, p: Machine, x: nat)
    requires OneMoreStray(m, n, x) && OneLessStray(n, p, x) && !Unused(m, x)
    ensures SameStrays(m, p)
  {
    hide Unused;
  }

  // ---------- one step ----------

  ghost predicate SameMappings(m: Machine, n: Machine) {
    forall a, v, f :: Maps(n, a, v, f) <==> Maps(m, a, v, f)
  }

  ghost predicate SameTables(m: Machine, n: Machine) {
    forall a: nat, t: TableSlot, f: nat :: IsTable(n, a, t, f) <==> IsTable(m, a, t, f)
  }

  ghost predicate SamePool(m: Machine, n: Machine) {
    n.base == m.base && |n.mem| == |m.mem|
  }

  ghost predicate IsMapped(m: Machine, f: nat) {
    exists a: nat, v: nat :: Maps(m, a, v, f)
  }

  ghost predicate IsTablePage(m: Machine, f: nat) {
    exists a: nat, t: TableSlot :: IsTable(m, a, t, f)
  }

  /** Only the mappings changed, and each frame is mapped in the one state exactly if it is mapped
      in the other. */
  lemma StillMapped(m: Machine, n: Machine)
    requires SamePool(m, n) && SameTables(m, n) && n.free == m.free
    requires forall f: nat :: IsMapped(m, f) <==> IsMapped(n, f)
    ensures SameStrays(m, n)
  {
    hide Maps, IsTable;
    forall f: nat
      ensures Unused(n, f) <==> Unused(m, f)
    {
      assert IsMapped(m, f) <==> IsMapped(n, f);
    }
  }

  lemma SameUse(m: Machine, n: Machine)
    requires SamePool(m, n) && SameMappings(m, n) && SameTables(m, n) && n.free == m.free
    ensures SameStrays(m, n)
  {
    hide Maps, IsTable;
    StillMapped(m, n);
  }

  lemma SameSpaces(m: Machine, n: Machine)
    requires n.spaces == m.spaces
    ensures SameMappings(m, n) && SameTables(m, n)
  {}

  lemma AllocStrays(m: Machine)
    requires Inv(m) && m.free != []
    ensures OneMoreStray(m, Alloc(m).0, m.free[0]) && !Unused(m, m.free[0])
  {
    hide CountOk, Holders, View, Base, Abs;
    AllocKeeps(m);
    var n := Alloc(m).0;
    SameSpaces(m, n);
    assert m.free[0] in m.free;
    hide Maps, IsTable;
    forall f: nat
      ensures Unused(n, f) <==> Unused(m, f) || f == m.free[0]
    {
      assert f in m.free <==> f == m.free[0] || f in m.free[1..];
    }
  }

  lemma ReleaseStrays(m: Machine, x: nat)
    requires Inv(m) && Unused(m, x)
    ensures OneLessStray(m, Release(m, x), x)
  {
    hide CountOk, Holders, View, Base, Abs;
    ReleaseKeeps(m, x);
    var n := Release(m, x);
    SameSpaces(m, n);
    hide Maps, IsTable, Release;
    forall f: nat
      ensures Unused(n, f) <==> Unused(m, f) && f != x
    {
      assert f in n.free <==> f == x || f in m.free;
    }
  }

  /** Filling an empty entry uses the frame the entry owns, if it owns one. */
  lemma SetStrays(m: Machine, a: nat, v: nat, d: Desc)
    requires a in m.spaces && v !in m.spaces[a].pt
    ensures var n := SetEntry(m, a, v, d);
      forall f: nat :: Unused(n, f) <==> Unused(m, f) && !Owns(d, f)
  {
    var n := SetEntry(m, a, v, d);
    forall b: nat, w: nat, f: nat
      ensures Maps(n, b, w, f) <==> if (b, w) == (a, v) then Owns(d, f) else Maps(m, b, w, f)
    {
    }
    assert SameTables(m, n);
    assert !exists f :: Maps(m, a, v, f);
    hide Maps, IsTable, SetEntry;
    forall f: nat
      ensures Unused(n, f) <==> Unused(m, f) && !Owns(d, f)
    {
      assert Maps(n, a, v, f) <==> Owns(d, f);
    }
  }

  lemma PutTableStrays(m: Machine, a: nat, t: TableSlot, x: nat)
    requires a in m.spaces && t !in m.spaces[a].tables
    ensures OneLessStray(m, PutSpace(m, a, m.spaces[a].(tables := m.spaces[a].tables[t := x])), x)
  {
    var n := PutSpace(m, a, m.spaces[a].(tables := m.spaces[a].tables[t := x]));
    assert SameMappings(m, n);
    forall b: nat, u: TableSlot, f: nat
      ensures IsTable(n, b, u, f) <==> (b == a && u == t && f == x) || IsTable(m, b, u, f)
    {
    }
    hide Maps, IsTable;
    forall f: nat
      ensures Unused(n, f) <==> Unused(m, f) && f != x
    {
      assert IsTable(n, a, t, x);
    }
  }

  lemma NeedTableStrays(m: Machine, a: nat, v: nat)
    requires Inv(m) && a in m.spaces
    ensures SameStrays(m, NeedTable(m, a, v).0)
  {
    hide CountOk, Holders, View, Base, Abs, Unused;
    if TableFor(v) !in m.spaces[a].tables {
      AllocKeeps(m);
      var (n, f) := Alloc(m);
      if f != 0 {
        AllocStrays(m);
        PutTableStrays(n, a, TableFor(v), f);
        OutAndIn(m, n, NeedTable(m, a, v).0, f);
      }
    }
  }

  // ---------- dropping ----------

  lemma OnlyElement<T>(s: set<T>, x: T)
    requires x in s && s - {x} == {}
    ensures |s| == 1
  {
    assert s == {x};
  }

  lemma OtherHolder(m: Machine, f: nat, a: nat, v: nat)
    requires Maps(m, a, v, f) && |Holders(m, f)| != 1
    ensures exists b: nat, w: nat :: Maps(m, b, w, f) && (b, w) != (a, v)
  {
    HoldersAre(m, f, a, v);
    if Holders(m, f) - {(a, v)} == {} {
      OnlyElement(Holders(m, f), (a, v));
    } else {
      var p :| p in Holders(m, f) - {(a, v)};
      HoldersAre(m, f, p.0, p.1);
    }
  }

  lemma DroppedMappings(m: Machine, n: Machine, a: nat, v: nat)
    requires a in m.spaces && n.spaces == m.spaces[a := m.spaces[a].(pt := m.spaces[a].pt - {v})]
    ensures forall b: nat, w: nat, f: nat :: Maps(n, b, w, f) <==> Maps(m, b, w, f) && (b, w) != (a, v)
    ensures SameTables(m, n)
  {
    forall b: nat, w: nat, f: nat
      ensures Maps(n, b, w, f) <==> Maps(m, b, w, f) && (b, w) != (a, v)
    {
    }
  }

  lemma DropStrays(m: Machine, a: nat, v: nat)
    requires Inv(m) && a in m.spaces
    ensures SameStrays(m, Drop(m, a, v))
  {
    hide CountOk, Holders, View, Base, Abs;
    DropKeeps(m, a, v);
    var n := Drop(m, a, v);
    DroppedMappings(m, n, a, v);
    if v in m.spaces[a].pt && m.spaces[a].pt[v].Map? && m.spaces[a].pt[v].owner.Space? {
      assert Maps(m, a, v, m.spaces[a].pt[v].frame);
      DropOwnStrays(m, n, a, v, m.spaces[a].pt[v].frame);
    } else {
      assert forall f :: !Maps(m, a, v, f);
      SameUse(m, n);
    }
  }

  lemma DropOwnStrays(m: Machine, n: Machine, a: nat, v: nat, x: nat)
    requires Maps(m, a, v, x) && SamePool(m, n) && SameTables(m, n)
    requires forall b: nat, w: nat, f: nat :: Maps(n, b, w, f) <==> Maps(m, b, w, f) && (b, w) != (a, v)
    requires n.free == if |Holders(m, x)| == 1 then [x] + m.free else m.free
    ensures SameStrays(m, n)
  {
    forall f | f != x
      ensures !Maps(m, a, v, f)
    {
    }
    hide Maps, IsTable, Holders;
    if |Holders(m, x)| != 1 {
      OtherHolder(m, x, a, v);
    }
    forall f: nat
      ensures Unused(n, f) <==> Unused(m, f)
    {
      if f != x {
        assert f in n.free <==> f in m.free;
      } else {
        assert !Unused(m, x) && !Unused(n, x);
      }
    }
  }

  lemma {:induction false} DropTableStrays(m: Machine, a: nat, i: nat, j: nat)
    requires Inv(m) && a in m.spaces && j <= PER_TABLE
    ensures SameStrays(m, DropTable(m, a, i, j))
    decreases PER_TABLE - j
  {
    hide Inv, Abs, Drop, Unused;
    if j < PER_TABLE {
      var v := PER_TABLE * i + j;
      DropKeeps(m, a, v);
      DropStrays(m, a, v);
      DropTableStrays(Drop(m, a, v), a, i, j + 1);
    }
  }

  /** Taking a table out of its slot makes its page stray for a moment. */
  lemma TakeTableStrays(m: Machine, a: nat, t: TableSlot)
    requires Inv(m) && a in m.spaces && t in m.spaces[a].tables
    ensures var x, n := m.spaces[a].tables[t], PutSpace(m, a, m.spaces[a].(tables := m.spaces[a].tables - {t}));
      OneMoreStray(m, n, x) && !Unused(m, x)
  {
    hide CountOk, Holders, View, Abs, SpaceOk;
    var x, n := m.spaces[a].tables[t], PutSpace(m, a, m.spaces[a].(tables := m.spaces[a].tables - {t}));
    assert IsTable(m, a, t, x);
    assert SameMappings(m, n);
    forall b: nat, u: TableSlot, f: nat
      ensures IsTable(n, b, u, f) <==> IsTable(m, b, u, f) && !(b == a && u == t)
    {
    }
    assert forall f :: IsTable(m, a, t, f) <==> f == x;
    TableAlone(m, a, t, x);
    hide Maps, IsTable, Inv;
    forall f: nat
      ensures Unused(n, f) <==> Unused(m, f) || f == x
    {
      assert f != x ==> !IsTable(m, a, t, f);
    }
  }

  lemma TableAlone(m: Machine, a: nat, t: TableSlot, x: nat)
    requires Inv(m) && IsTable(m, a, t, x)
    ensures InPool(m, x) && x !in m.free && (forall b, v :: !Maps(m, b, v, x))
    ensures forall b: nat, u: TableSlot :: IsTable(m, b, u, x) ==> b == a && u == t
  {}

  lemma FreeTableStrays(m: Machine, a: nat, i: nat)
    requires Inv(m) && a in m.spaces && L3(i) in m.spaces[a].tables
    requires forall v :: v in m.spaces[a].pt ==> TableFor(v) != L3(i)
    ensures SameStrays(m, FreeTable(m, a, L3(i)))
  {
    hide Inv, Abs, Unused;
    var x, n := m.spaces[a].tables[L3(i)], PutSpace(m, a, m.spaces[a].(tables := m.spaces[a].tables - {L3(i)}));
    TakeTableStrays(m, a, L3(i));
    TakenTableInv(m, a, i);
    ReleaseStrays(n, x);
    OutAndIn(m, n, Release(n, x), x);
  }

  lemma TakenTableInv(m: Machine, a: nat, i: nat)
    requires Inv(m) && a in m.spaces && L3(i) in m.spaces[a].tables
    requires forall v :: v in m.spaces[a].pt ==> TableFor(v) != L3(i)
    ensures Inv(PutSpace(m, a, m.spaces[a].(tables := m.spaces[a].tables - {L3(i)})))
  {
    hide CountOk, Holders, View;
    var n := PutSpace(m, a, m.spaces[a].(tables := m.spaces[a].tables - {L3(i)}));
    assert SpaceOk(m.spaces[a]);
    assert SpaceOk(n.spaces[a]);
    forall b, w, g
      ensures Maps(n, b, w, g) == Maps(m, b, w, g) && Writes(n, b, w, g) == Writes(m, b, w, g)
    {
    }
    forall b: nat, u: TableSlot, g: nat
      ensures IsTable(n, b, u, g) <==> IsTable(m, b, u, g) && !(b == a && u == L3(i))
    {
    }
    forall g
      ensures CountOk(n, g)
    {
      assert CountOk(m, g);
      CountCarries(m, n, g);
    }
  }

  lemma {:induction false} TeardownStrays(m: Machine, a: nat, i: nat)
    requires Inv(m) && a in m.spaces && i <= PER_TABLE
    ensures SameStrays(m, Teardown(m, a, i))
    decreases PER_TABLE - i
  {
    hide Inv, Abs, DropTable, FreeTable, Unused;
    if i == PER_TABLE {
    } else if L3(i) !in m.spaces[a].tables {
      TeardownStrays(m, a, i + 1);
    } else {
      var n := DropTable(m, a, i, 0);
      DropTableKeeps(m, a, i, 0);
      DropTableStrays(m, a, i, 0);
      forall v | v in n.spaces[a].pt
        ensures TableFor(v) != L3(i)
      {
        TableRange(v, i);
      }
      FreeTableKeeps(n, a, i);
      FreeTableStrays(n, a, i);
      TeardownStrays(FreeTable(n, a, L3(i)), a, i + 1);
    }
  }

  lemma GoneStrays(m: Machine, a: nat)
    requires Inv(m) && a in m.spaces && forall k :: 0 <= k < PER_TABLE ==> L3(k) !in m.spaces[a].tables
    ensures var (l1, l2) := (TablePage(m, a, L1), TablePage(m, a, L2));
      forall f: nat :: Unused(m.(spaces := m.spaces - {a}), f) <==> Unused(m, f) || f == l1 || f == l2
  {
    hide CountOk, Holders, View, Abs, SpaceOk;
    var n := m.(spaces := m.spaces - {a});
    OnlyTopTables(m, a);
    GoneTables(m, n, a);
    RemoveSpace(m, a);
    var l1, l2 := TablePage(m, a, L1), TablePage(m, a, L2);
    assert forall t: TableSlot, f: nat :: IsTable(m, a, t, f) <==> (t == L1 && f == l1) || (t == L2 && f == l2);
    hide Maps, IsTable, Inv, TablePage;
    forall f: nat
      ensures Unused(n, f) <==> Unused(m, f) || f == l1 || f == l2
    {
      if Unused(n, f) && f != l1 && f != l2 {
        forall b: nat, t: TableSlot
          ensures !IsTable(m, b, t, f)
        {
          assert !IsTable(n, b, t, f);
        }
      }
    }
  }

  lemma DestroyStrays(m: Machine, a: nat)
    requires Inv(m) && a in m.spaces
    ensures SameStrays(m, Destroy(m, a))
  {
    hide CountOk, Holders, View, Base, Abs, Unused;
    if m.spaces[a].users > 1 {
      SameUsers(m, a, m.spaces[a].users - 1);
    } else {
      hide Inv, Teardown, Release, TablePage;
      var n := Teardown(m, a, 0);
      TeardownKeeps(m, a, 0);
      TeardownStrays(m, a, 0);
      RemoveSpace(n, a);
      GoneStrays(n, a);
      TopTablesNotStray(n, a);
      var gone := n.(spaces := n.spaces - {a});
      var l1, l2 := TablePage(n, a, L1), TablePage(n, a, L2);
      ReleaseKeeps(gone, l2);
      ReleaseStrays(gone, l2);
      UnusedAfterRelease(gone, l1, l2);
      ReleaseStrays(Release(gone, l2), l1);
    }
  }

  lemma TopTablesNotStray(m: Machine, a: nat)
    requires Inv(m) && a in m.spaces
    ensures !Unused(m, TablePage(m, a, L1)) && !Unused(m, TablePage(m, a, L2))
  {
    assert SpaceOk(m.spaces[a]);
    assert IsTable(m, a, L1, TablePage(m, a, L1)) && IsTable(m, a, L2, TablePage(m, a, L2));
  }

  lemma SameUsers(m: Machine, a: nat, u: nat)
    requires a in m.spaces
    ensures SameStrays(m, PutSpace(m, a, m.spaces[a].(users := u)))
  {
    SameUse(m, PutSpace(m, a, m.spaces[a].(users := u)));
  }

  lemma SameBrk(m: Machine, a: nat, brk: nat)
    requires a in m.spaces
    ensures SameStrays(m, PutBrk(m, a, brk))
  {
    SameUse(m, PutBrk(m, a, brk));
  }

  // ---------- creation ----------

  /** Creation loses a frame on exactly one condition, seen before the call: the heap has room for
      the space and one frame is free. */
  ghost predicate CreateLoses(m: Machine, heapOk: bool) {
    heapOk && |m.free| == 1
  }

  /** With one free frame creation fails, the free list is empty afterwards, and the frame that was
      on it is free no more and nobody's. */
  lemma CreateLosesFrame(m: Machine)
    requires Inv(m) && |m.free| == 1
    ensures var (n, a) := Create(m, true);
      && a == 0 && n.spaces == m.spaces && n.free == []
      && Unused(n, m.free[0]) && OneMoreStray(m, n, m.free[0]) && !Unused(m, m.free[0])
  {
    hide CountOk, Holders, View, Base, Abs, Unused;
    AllocKeeps(m);
    AllocStrays(m);
    AllocKeeps(Alloc(m).0);
    assert Alloc(m).0.free == [];
  }

  lemma CreateStrays(m: Machine, heapOk: bool)
    requires Inv(m)
    ensures var n := Create(m, heapOk).0;
      if CreateLoses(m, heapOk) then OneMoreStray(m, n, m.free[0]) && !Unused(m, m.free[0]) else SameStrays(m, n)
  {
    hide CountOk, Holders, View, Base, Abs, Unused;
    if CreateLoses(m, heapOk) {
      CreateLosesFrame(m);
    } else if heapOk && m.free != [] {
      AllocKeeps(m);
      AllocStrays(m);
      var (m1, l1) := Alloc(m);
      assert m1.free != [];
      AllocKeeps(m1);
      AllocStrays(m1);
      var (m2, l2) := Alloc(m1);
      TwoAllocs(m1, m2, l1, l2);
      AddSpace(m2, l1, l2);
      NewSpaceStrays(m2, m.next, l1, l2);
    } else {
      AllocKeeps(m);
    }
  }

  lemma NewSpaceStrays(m: Machine, a: nat, l1: nat, l2: nat)
    requires a !in m.spaces
    ensures var n := PutSpace(m, a, AddrSpace(map[L1 := l1, L2 := l2], map[], PageOf(USER_HEAP_BASE), 1)).(next := m.next + 1);
      forall f: nat :: Unused(n, f) <==> Unused(m, f) && f != l1 && f != l2
  {
    var n := PutSpace(m, a, AddrSpace(map[L1 := l1, L2 := l2], map[], PageOf(USER_HEAP_BASE), 1)).(next := m.next + 1);
    assert SameMappings(m, n);
    forall b: nat, u: TableSlot, g: nat
      ensures IsTable(n, b, u, g) <==> if b == a then (u == L1 && g == l1) || (u == L2 && g == l2) else IsTable(m, b, u, g)
    {
    }
    assert forall u: TableSlot, f: nat :: !IsTable(m, a, u, f);
    assert IsTable(n, a, L1, l1) && IsTable(n, a, L2, l2);
    hide Maps, IsTable, PutSpace;
    forall f: nat
      ensures Unused(n, f) <==> Unused(m, f) && f != l1 && f != l2
    {
    }
  }

  // ---------- mapping ----------

  /** Page `v` is the space's own and maps frame `x`. */
  ghost predicate OwnPage(m: Machine, a: nat, v: nat, x: nat) {
    Maps(m, a, v, x)
  }

  /** Page `v` is not the space's own. */
  ghost predicate NoOwnPage(m: Machine, a: nat, v: nat) {
    forall x: nat :: !Maps(m, a, v, x)
  }

  lemma ClearedMaps(m: Machine, a: nat, v: nat)
    requires a in m.spaces
    ensures var n := ClearEntry(m, a, v);
      SameTables(m, n) && forall b: nat, w: nat, f: nat :: Maps(n, b, w, f) <==> Maps(m, b, w, f) && (b, w) != (a, v)
  {
    var n := ClearEntry(m, a, v);
    forall b: nat, w: nat, f: nat
      ensures Maps(n, b, w, f) <==> Maps(m, b, w, f) && (b, w) != (a, v)
    {
    }
  }

  /** Clearing an entry without giving its frame back makes the frame stray, if the space owned it
      alone. */
  lemma ClearStrays(m: Machine, a: nat, v: nat)
    requires Inv(m) && a in m.spaces && Replaceable(m, a, v)
    ensures var n := ClearEntry(m, a, v);
      && (NoOwnPage(m, a, v) ==> SameStrays(m, n))
      && (forall x :: OwnPage(m, a, v, x) ==> OneMoreStray(m, n, x) && !Unused(m, x))
  {
    hide CountOk, Holders, View, Base, Abs;
    var n := ClearEntry(m, a, v);
    ClearedMaps(m, a, v);
    if x :| Maps(m, a, v, x) {
      LoneOwner(m, a, v, x);
      assert forall y :: Maps(m, a, v, y) ==> y == x;
      hide Maps, IsTable, Inv, ClearEntry;
      forall f: nat
        ensures Unused(n, f) <==> Unused(m, f) || f == x
      {
        assert f != x ==> !Maps(m, a, v, f);
      }
    } else {
      SameUse(m, n);
    }
  }

  lemma LoneOwner(m: Machine, a: nat, v: nat, x: nat)
    requires Inv(m) && Maps(m, a, v, x) && Replaceable(m, a, v)
    ensures InPool(m, x) && x !in m.free && forall b: nat, t: TableSlot :: !IsTable(m, b, t, x)
    ensures forall b: nat, w: nat :: Maps(m, b, w, x) ==> (b, w) == (a, v)
  {
    hide Holders;
    assert CountOk(m, x);
    if b: nat, w: nat :| Maps(m, b, w, x) && (b, w) != (a, v) {
      TwoHolders(m, x, a, v, b, w);
    }
  }

  /** Writing over an entry that may be written over: a frame the new entry owns is put to use, and
      a frame the old one owned goes astray. */
  lemma ReplaceStrays(m: Machine, a: nat, v: nat, d: Desc)
    requires Inv(m) && a in m.spaces && Replaceable(m, a, v)
    ensures var n := SetEntry(m, a, v, d);
      && (NoOwnPage(m, a, v) ==> forall f: nat :: Unused(n, f) <==> Unused(m, f) && !Owns(d, f))
      && (forall x :: OwnPage(m, a, v, x) ==> !Unused(m, x) && forall f: nat :: Unused(n, f) <==> (Unused(m, f) || f == x) && !Owns(d, f))
  {
    hide Inv, Unused, Replaceable, Maps, Owns;
    ClearStrays(m, a, v);
    ClearThenSet(m, a, v, d);
    SetStrays(ClearEntry(m, a, v), a, v, d);
  }

  /** What mapping a fresh page does: nothing goes astray, unless it succeeds over a page of the
      space's own, and then that page's frame does. */
  ghost predicate WroteOver(m: Machine, n: Machine, a: nat, v: nat, ok: bool) {
    && (!ok || NoOwnPage(m, a, v) ==> SameStrays(m, n))
    && (forall x :: ok && OwnPage(m, a, v, x) ==> OneMoreStray(m, n, x) && !Unused(m, x))
  }

  lemma MapFreshStrays(m: Machine, a: nat, v: nat, rw: bool, exec: bool)
    requires Inv(m) && a in m.spaces && v < PER_TABLE * PER_TABLE && Replaceable(m, a, v)
    ensures WroteOver(m, MapFresh(m, a, v, rw, exec).0, a, v, MapFresh(m, a, v, rw, exec).1)
  {
    hide CountOk, Holders, View, Base, Abs, Unused;
    AllocKeeps(m);
    var (n, f) := Alloc(m);
    if f != 0 {
      AllocStrays(m);
      NeedTableKeeps(n, a, v);
      NeedTableStrays(n, a, v);
      var (n', ok) := NeedTable(n, a, v);
      if ok {
        var p := MapFresh(m, a, v, rw, exec).0;
        ReplaceStrays(n', a, v, Map(f, rw, false, exec, Space));
        assert forall x: nat :: Maps(n', a, v, x) <==> Maps(m, a, v, x);
        forall x | OwnPage(m, a, v, x)
          ensures OneMoreStray(m, p, x) && !Unused(m, x)
        {
          assert OwnPage(n', a, v, x);
          assert x != f;
        }
      } else {
        ReleaseStrays(n', f);
      }
    }
  }

  lemma InstallGuardStrays(m: Machine, a: nat, v: nat)
    requires Inv(m) && a in m.spaces && v < PER_TABLE * PER_TABLE && Replaceable(m, a, v)
    ensures WroteOver(m, InstallGuard(m, a, v).0, a, v, InstallGuard(m, a, v).1)
  {
    hide CountOk, Holders, View, Base, Abs, Unused;
    NeedTableKeeps(m, a, v);
    NeedTableStrays(m, a, v);
    var (n, ok) := NeedTable(m, a, v);
    if ok {
      ReplaceStrays(n, a, v, Guard);
      assert forall x: nat :: Maps(n, a, v, x) <==> Maps(m, a, v, x);
    }
  }

  /** Over a page of the space's own a fresh page fails exactly without a free frame, and a guard
      never fails: the page's table is there. */
  lemma OverwriteSucceeds(m: Machine, a: nat, v: nat, rw: bool, exec: bool, x: nat)
    requires Inv(m) && OwnPage(m, a, v, x)
    ensures MapFresh(m, a, v, rw, exec).1 <==> m.free != []
    ensures InstallGuard(m, a, v).1
  {
    hide CountOk, Holders, View, Base, Abs;
    AllocKeeps(m);
    EntryPlace(m, a, v);
  }

  lemma MapForeignStrays(m: Machine, a: nat, v: nat, d: Desc)
    requires Inv(m) && a in m.spaces && v < PER_TABLE * PER_TABLE && v !in m.spaces[a].pt
    requires d.Guard? || !d.owner.Space?
    ensures var (n, ok) := NeedTable(m, a, v);
      SameStrays(m, n) && SameStrays(m, SetEntry(n, a, v, d))
  {
    hide CountOk, Holders, View, Base, Abs, Unused, NeedTable;
    NeedTableStrays(m, a, v);
    SetStrays(NeedTable(m, a, v).0, a, v, d);
  }

  lemma UnmapStrays(m: Machine, a: nat, v: nat)
    requires Inv(m) && a in m.spaces
    ensures SameStrays(m, Unmap(m, a, v))
  {
    hide Inv, Drop, Unused;
    DropStrays(m, a, v);
  }

  // ---------- fork ----------

  lemma ShareStrays(m: Machine, src: nat, dst: nat, v: nat)
    requires Inv(m) && src in m.spaces && dst in m.spaces && src != dst && |m.spaces| < RC_LIMIT
    requires v in m.spaces[src].pt && m.spaces[src].pt[v].Map? && m.spaces[src].pt[v].owner.Space?
    requires v !in m.spaces[dst].pt && TableFor(v) in m.spaces[dst].tables
    ensures SameStrays(m, ShareOne(m, src, dst, v))
  {
    hide CountOk, Holders, View, Base, Abs;
    var d := SharedDesc(m.spaces[src].pt[v]);
    var n1 := SetEntry(m, dst, v, d);
    var n2 := SetEntry(n1, src, v, d);
    var n := Share(n2, d.frame);
    ShareBase(m, n1, n2, src, dst, v);
    assert Maps(m, src, v, d.frame);
    assert SameTables(m, n);
    SameSpaces(n2, n);
    hide Inv, Maps, IsTable, Share, SetEntry;
    forall f: nat
      ensures IsMapped(m, f) <==> IsMapped(n, f)
    {
      assert Maps(n, dst, v, f) ==> Maps(m, src, v, f);
    }
    StillMapped(m, n);
  }

  lemma CloneEntryStrays(m: Machine, src: nat, dst: nat, v: nat)
    requires Inv(m) && src in m.spaces && dst in m.spaces && src != dst && |m.spaces| < RC_LIMIT
    requires v < PER_TABLE * PER_TABLE && v !in m.spaces[dst].pt
    ensures SameStrays(m, CloneEntry(m, src, dst, v).0)
  {
    hide Inv, Abs, NeedTable, Unused, ShareOne;
    var pt := m.spaces[src].pt;
    if v in pt && Private(pt[v]) {
      NeedTableKeeps(m, dst, v);
      NeedTableStrays(m, dst, v);
      var (n, ok) := NeedTable(m, dst, v);
      if ok {
        if pt[v].Guard? {
          MapForeignStrays(m, dst, v, Guard);
        } else {
          SameCount(m, n);
          ShareStrays(n, src, dst, v);
        }
      }
    }
  }

  lemma {:induction false} CloneTableStrays(m: Machine, src: nat, dst: nat, i: nat, j: nat)
    requires Inv(m) && src in m.spaces && dst in m.spaces && src != dst && |m.spaces| < RC_LIMIT
    requires i < PER_TABLE && j <= PER_TABLE
    requires forall v :: v in m.spaces[dst].pt ==> v < PER_TABLE * i + j
    ensures SameStrays(m, CloneTable(m, src, dst, i, j).0)
    decreases PER_TABLE - j
  {
    hide Inv, Abs, CloneEntry, Unused;
    if j < PER_TABLE {
      var v := PER_TABLE * i + j;
      PageInRange(i, j);
      CloneEntryKeeps(m, src, dst, v);
      CloneEntryStrays(m, src, dst, v);
      var (n, ok) := CloneEntry(m, src, dst, v);
      if ok {
        SameCount(m, n);
        CloneTableStrays(n, src, dst, i, j + 1);
      }
    }
  }

  lemma {:induction false} CloneTablesStrays(m: Machine, src: nat, dst: nat, i: nat)
    requires Inv(m) && src in m.spaces && dst in m.spaces && src != dst && |m.spaces| < RC_LIMIT
    requires i <= PER_TABLE && CopiedTo(Abs(m), src, dst, PER_TABLE * i)
    requires forall v :: v in m.spaces[dst].pt ==> v < PER_TABLE * i
    ensures SameStrays(m, CloneTables(m, src, dst, i).0)
    decreases PER_TABLE - i
  {
    hide Inv, Abs, CloneTable, CopiedTo, Unused;
    if i == PER_TABLE {
    } else if L3(i) !in m.spaces[src].tables {
      SkipTable(m, src, dst, i);
      CloneTablesStrays(m, src, dst, i + 1);
    } else {
      CloneTableKeeps(m, src, dst, i, 0);
      CloneTableStrays(m, src, dst, i, 0);
      var (n, ok) := CloneTable(m, src, dst, i, 0);
      if ok {
        SameCount(m, n);
        CloneTablesStrays(n, src, dst, i + 1);
      }
    }
  }

  lemma CloneCowStrays(m: Machine, src: nat, heapOk: bool)
    requires Inv(m) && src in m.spaces && |m.spaces| + 1 < RC_LIMIT
    ensures var n := CloneCow(m, src, heapOk).0;
      if CreateLoses(m, heapOk) then OneMoreStray(m, n, m.free[0]) && !Unused(m, m.free[0]) else SameStrays(m, n)
  {
    hide Inv, Abs, Create, CloneTables, Destroy, Unused;
    CreateKeeps(m, heapOk);
    CreateStrays(m, heapOk);
    var (m1, dst) := Create(m, heapOk);
    if CreateLoses(m, heapOk) {
      CreateLosesFrame(m);
    }
    if dst != 0 {
      AbsKeys(m);
      OneMoreKey(m, m1, dst);
      StartCopy(m, m1, src, dst);
      CloneTablesKeeps(m1, src, dst, 0);
      CloneTablesStrays(m1, src, dst, 0);
      var (m2, ok) := CloneTables(m1, src, dst, 0);
      if ok {
        SameBrk(m2, dst, m2.spaces[src].brk);
      } else {
        DestroyStrays(m2, dst);
      }
    }
  }

  // ---------- full-copy fork ----------

  lemma CopyEntryStrays(m: Machine, src: nat, dst: nat, v: nat)
    requires Inv(m) && src in m.spaces && dst in m.spaces && src != dst
    requires v < PER_TABLE * PER_TABLE && v !in m.spaces[dst].pt
    ensures SameStrays(m, CopyEntry(m, src, dst, v).0)
  {
    hide CountOk, Holders, View, Base, Abs, Unused, NeedTable;
    var pt := m.spaces[src].pt;
    if v in pt && Private(pt[v]) {
      if pt[v].Guard? {
        MapForeignStrays(m, dst, v, Guard);
      } else if m.free != [] {
        AllocKeeps(m);
        AllocStrays(m);
        var (m1, f) := Alloc(m);
        PutUnused(m1, f, Frame(m1, pt[v].frame));
        PutStrays(m1, f, Frame(m1, pt[v].frame));
        var m2 := PutFrame(m1, f, Frame(m1, pt[v].frame));
        NeedTableKeeps(m2, dst, v);
        NeedTableStrays(m2, dst, v);
        var (m3, ok) := NeedTable(m2, dst, v);
        if ok {
          SetStrays(m3, dst, v, Map(f, pt[v].rw, false, pt[v].exec, Space));
        } else {
          ReleaseStrays(m3, f);
        }
      }
    }
  }

  lemma {:induction false} CopyTableStrays(m: Machine, src: nat, dst: nat, i: nat, j: nat)
    requires Inv(m) && src in m.spaces && dst in m.spaces && src != dst
    requires i < PER_TABLE && j <= PER_TABLE && CleanChild(m, dst, PER_TABLE * i + j)
    ensures SameStrays(m, CopyTable(m, src, dst, i, j).0)
    decreases PER_TABLE - j
  {
    hide Inv, Abs, CopyEntry, Unused;
    if j < PER_TABLE {
      var v := PER_TABLE * i + j;
      PageInRange(i, j);
      CopyEntryKeeps(m, src, dst, v);
      CopyEntryStrays(m, src, dst, v);
      var (n, ok) := CopyEntry(m, src, dst, v);
      if ok {
        CopyTableStrays(n, src, dst, i, j + 1);
      }
    }
  }

  lemma {:induction false} CopyTablesStrays(m: Machine, src: nat, dst: nat, i: nat)
    requires Inv(m) && src in m.spaces && dst in m.spaces && src != dst
    requires i <= PER_TABLE && CleanChild(m, dst, PER_TABLE * i) && ShownTo(Abs(m), Target(m, src), dst, PER_TABLE * i)
    ensures SameStrays(m, CopyTables(m, src, dst, i).0)
    decreases PER_TABLE - i
  {
    hide Inv, Abs, CopyTable, CleanChild, ShownTo, Target, Unused;
    if i == PER_TABLE {
    } else if L3(i) !in m.spaces[src].tables {
      SkipCopy(m, src, dst, i);
      CopyTablesStrays(m, src, dst, i + 1);
    } else {
      CopyTableKeeps(m, src, dst, i, 0);
      CopyTableStrays(m, src, dst, i, 0);
      var (n, ok) := CopyTable(m, src, dst, i, 0);
      if ok {
        SameTarget(m, n, src, dst);
        CopyTablesStrays(n, src, dst, i + 1);
      }
    }
  }

  /** The full-copy fork loses a frame on the same condition, and on no other. */
  lemma CloneStrays(m: Machine, src: nat, heapOk: bool)
    requires Inv(m) && src in m.spaces
    ensures var n := Clone(m, src, heapOk).0;
      if CreateLoses(m, heapOk) then OneMoreStray(m, n, m.free[0]) && !Unused(m, m.free[0]) else SameStrays(m, n)
  {
    hide Inv, Abs, Create, CopyTables, Destroy, CleanChild, ShownTo, Target, Unused;
    AbsKeys(m);
    CreateKeeps(m, heapOk);
    CreateStrays(m, heapOk);
    var (m1, dst) := Create(m, heapOk);
    if CreateLoses(m, heapOk) {
      CreateLosesFrame(m);
    }
    if dst != 0 {
      NewTarget(m, m1, src, dst);
      CopyTablesKeeps(m1, src, dst, 0);
      CopyTablesStrays(m1, src, dst, 0);
      var (m2, ok) := CopyTables(m1, src, dst, 0);
      if ok {
        SameBrk(m2, dst, m2.spaces[src].brk);
      } else {
        DestroyStrays(m2, dst);
      }
    }
  }

  // ---------- faults and stores ----------

  lemma PutStrays(m: Machine, f: nat, p: Page)
    ensures SameStrays(m, PutFrame(m, f, p))
  {
    SameSpaces(m, PutFrame(m, f, p));
    SameUse(m, PutFrame(m, f, p));
  }

  lemma TakeOverStrays(m: Machine, a: nat, v: nat, f: nat)
    requires CowPage(m, a, v, f) && Rc(m, f) <= 1
    ensures SameStrays(m, CowFault(m, a, v).0)
  {
    hide Inv;
    var n := CowFault(m, a, v).0;
    forall b: nat, w: nat, g: nat
      ensures Maps(n, b, w, g) <==> Maps(m, b, w, g)
    {
    }
    SameUse(m, n);
  }

  /** A holder moves from `f`, which has others, to the unused `f2`. */
  lemma MoveStrays(m: Machine, n: Machine, a: nat, v: nat, f: nat, f2: nat)
    requires Maps(m, a, v, f) && |Holders(m, f)| >= 2 && f2 != f && forall b, w :: !Maps(m, b, w, f2)
    requires SamePool(m, n) && n.free == m.free && SameTables(m, n)
    requires forall b: nat, w: nat, g: nat :: Maps(n, b, w, g) <==> if (b, w) == (a, v) then g == f2 else Maps(m, b, w, g)
    ensures OneLessStray(m, n, f2)
  {
    OtherHolder(m, f, a, v);
    assert forall g :: Maps(m, a, v, g) <==> g == f;
    hide Maps, IsTable, Holders;
    forall g: nat
      ensures Unused(n, g) <==> Unused(m, g) && g != f2
    {
      if g == f2 {
        assert Maps(n, a, v, f2);
      }
      if Unused(n, g) {
        forall b, w
          ensures !Maps(m, b, w, g)
        {
          assert !Maps(n, b, w, g);
        }
      }
    }
  }

  lemma CowFaultStrays(m: Machine, a: nat, v: nat)
    requires Inv(m) && a in m.spaces && (v in m.spaces[a].pt ==> Private(m.spaces[a].pt[v]))
    ensures SameStrays(m, CowFault(m, a, v).0)
  {
    hide CountOk, Holders, Base, View, Abs, Unused;
    if IsCow(m, a, v) {
      var d := m.spaces[a].pt[v];
      assert Maps(m, a, v, d.frame);
      if Rc(m, d.frame) <= 1 {
        TakeOverStrays(m, a, v, d.frame);
      } else if m.free != [] {
        CowCopyStrays(m, a, v, d);
      }
    }
  }

  lemma CowCopyStrays(m: Machine, a: nat, v: nat, d: Desc)
    requires Inv(m) && IsCow(m, a, v) && d == m.spaces[a].pt[v] && d.owner.Space?
    requires Rc(m, d.frame) >= 2 && m.free != []
    ensures SameStrays(m, CowFault(m, a, v).0)
  {
    hide CountOk, Holders, Base, View, Abs;
    var f := d.frame;
    AllocKeeps(m);
    AllocStrays(m);
    var (n1, f2) := Alloc(m);
    var n2 := PutFrame(n1, f2, Frame(n1, f));
    PutStrays(n1, f2, Frame(n1, f));
    assert Maps(n1, a, v, f);
    assert f != f2;
    SharedCount(n1, f);
    SameHolders(n1, n2, f);
    var n := CowFault(m, a, v).0;
    assert SameTables(n2, n);
    hide Inv, IsTable;
    forall b: nat, w: nat, g: nat
      ensures Maps(n, b, w, g) <==> if (b, w) == (a, v) then g == f2 else Maps(n2, b, w, g)
    {
    }
    assert forall b, w :: Maps(n2, b, w, f2) <==> Maps(n1, b, w, f2);
    MoveStrays(n2, n, a, v, f, f2);
  }

  lemma SharedCount(m: Machine, f: nat)
    requires Inv(m) && Rc(m, f) >= 2
    ensures |Holders(m, f)| >= 2
  {
    hide Holders;
    assert CountOk(m, f);
  }

  lemma MakeWritableStrays(m: Machine, a: nat, v: nat)
    requires Inv(m) && a in m.spaces && (v in m.spaces[a].pt ==> Private(m.spaces[a].pt[v]))
    ensures SameStrays(m, MakeWritable(m, a, v).0)
  {
    hide Inv, CowFault, Unused;
    CowFaultStrays(m, a, v);
  }

  lemma StoreStrays(m: Machine, a: nat, v: nat, w: nat, x: nat)
    requires Inv(m) && a in m.spaces && w < WORDS && (v in m.spaces[a].pt ==> Private(m.spaces[a].pt[v]))
    ensures SameStrays(m, Store(m, a, v, w, x).0)
  {
    hide Inv, MakeWritable, Unused, PutFrame;
    MakeWritableStrays(m, a, v);
    var (n, ok) := MakeWritable(m, a, v);
    if ok {
      var f := n.spaces[a].pt[v].frame;
      PutStrays(n, f, Frame(n, f)[w := x]);
    }
  }

  // ---------- every operation, every run ----------

  /** The frame the space's own page `v` maps, or 0. */
  function OwnFrame(m: Machine, a: nat, v: nat): (x: nat)
    requires a in m.spaces
  {
    if v in m.spaces[a].pt && m.spaces[a].pt[v].Map? && m.spaces[a].pt[v].owner.Space? then m.spaces[a].pt[v].frame else 0
  }

  /** The conditions under which an operation loses a frame, all seen beforehand: it creates or
      forks a space with heap memory at hand and just one frame free; it maps a fresh page over a
      page of the space's own with a frame free; or it puts a guard over such a page. */
  ghost predicate Loses(m: Machine, op: Op)
    requires Allowed(m, op)
  {
    match op
    case NewSpace(heapOk) => CreateLoses(m, heapOk)
    case Fork(src, heapOk) => CreateLoses(m, heapOk)
    case AddPage(a, v, rw, exec) => OwnFrame(m, a, v) != 0 && m.free != []
    case AddGuard(a, v) => OwnFrame(m, a, v) != 0
    case _ => false
  }

  /** The frame it loses: the one that was free, or the one of the page written over. */
  ghost function LostFrame(m: Machine, op: Op): nat
    requires Allowed(m, op) && Loses(m, op)
  {
    if op.AddPage? || op.AddGuard? then OwnFrame(m, op.a, op.v) else m.free[0]
  }

  lemma OwnFrameIs(m: Machine, a: nat, v: nat)
    requires Inv(m) && a in m.spaces
    ensures OwnFrame(m, a, v) != 0 <==> !NoOwnPage(m, a, v)
    ensures forall x: nat :: OwnPage(m, a, v, x) <==> x != 0 && OwnFrame(m, a, v) == x
  {
    hide CountOk, Holders, View, SpaceOk;
    forall x: nat
      ensures Maps(m, a, v, x) <==> x != 0 && OwnFrame(m, a, v) == x
    {
      if Maps(m, a, v, x) {
        MappedFrame(m, a, v, x);
      }
    }
    if OwnFrame(m, a, v) != 0 {
      assert Maps(m, a, v, OwnFrame(m, a, v));
    }
  }

  lemma AddPageStrays(m: Machine, a: nat, v: nat, rw: bool, exec: bool)
    requires Inv(m) && Allowed(m, AddPage(a, v, rw, exec))
    ensures var (n, op) := (MapFresh(m, a, v, rw, exec).0, AddPage(a, v, rw, exec));
      if Loses(m, op) then OneMoreStray(m, n, LostFrame(m, op)) && !Unused(m, LostFrame(m, op)) else SameStrays(m, n)
  {
    hide Inv, Unused, MapFresh, NoOwnPage, OwnPage, OwnFrame;
    MapFreshStrays(m, a, v, rw, exec);
    OwnFrameIs(m, a, v);
    if OwnFrame(m, a, v) != 0 {
      OverwriteSucceeds(m, a, v, rw, exec, OwnFrame(m, a, v));
    }
  }

  lemma AddGuardStrays(m: Machine, a: nat, v: nat)
    requires Inv(m) && Allowed(m, AddGuard(a, v))
    ensures var (n, op) := (InstallGuard(m, a, v).0, AddGuard(a, v));
      if Loses(m, op) then OneMoreStray(m, n, LostFrame(m, op)) && !Unused(m, LostFrame(m, op)) else SameStrays(m, n)
  {
    hide Inv, Unused, InstallGuard, NoOwnPage, OwnPage, OwnFrame;
    InstallGuardStrays(m, a, v);
    OwnFrameIs(m, a, v);
    if OwnFrame(m, a, v) != 0 {
      OverwriteSucceeds(m, a, v, false, false, OwnFrame(m, a, v));
    }
  }

  /** An operation never finds a stray frame again, and it makes a frame stray if and only if one of
      the conditions holds, and then that one frame. */
  lemma ExecStrays(m: Machine, op: Op)
    requires Inv(m) && Allowed(m, op)
    ensures var n := Exec(m, op).0;
      if Loses(m, op) then OneMoreStray(m, n, LostFrame(m, op)) && !Unused(m, LostFrame(m, op)) else SameStrays(m, n)
  {
    hide Inv, Abs, Unused, Create, CloneCow, Store, MakeWritable, MapFresh, InstallGuard, Unmap, Destroy, NeedTable, SetEntry, OwnFrame;
    match op
    case NewSpace(heapOk) => CreateStrays(m, heapOk);
    case Fork(src, heapOk) => CloneCowStrays(m, src, heapOk);
    case StoreWord(a, v, w, x) => StoreStrays(m, a, v, w, x);
    case Touch(a, v) => MakeWritableStrays(m, a, v);
    case AddPage(a, v, rw, exec) => AddPageStrays(m, a, v, rw, exec);
    case DropPage(a, v) => UnmapStrays(m, a, v);
    case AddForeign(a, v, f, owner) => MapForeignStrays(m, a, v, Map(f, owner.Window?, false, false, owner));
    case AddGuard(a, v) => AddGuardStrays(m, a, v);
    case MoveBreak(a, brk) => SameBrk(m, a, brk);
    case AddThread(a) => SameUsers(m, a, m.spaces[a].users + 1);
    case Leave(a) => DestroyStrays(m, a);
  }

  /** The frames a run loses, one at each losing operation. */
  ghost function Lost(m: Machine, ops: seq<Op>): (lost: seq<nat>)
    requires AllowedRun(m, ops)
    decreases |ops|
  {
    if ops == [] then []
    else (if Loses(m, ops[0]) then [LostFrame(m, ops[0])] else []) + Lost(Exec(m, ops[0]).0, ops[1..])
  }

  lemma SameStraySet(m: Machine, n: Machine)
    requires SameStrays(m, n)
    ensures Strays(n) == Strays(m)
  {
    hide Unused, Strays;
    forall f: nat
      ensures f in Strays(n) <==> f in Strays(m)
    {
      StraysAre(m, f);
      StraysAre(n, f);
    }
  }

  lemma MoreStraySet(m: Machine, n: Machine, x: nat)
    requires OneMoreStray(m, n, x) && !Unused(m, x)
    ensures Strays(n) == Strays(m) + {x} && |Strays(n)| == |Strays(m)| + 1
  {
    hide Unused, Strays;
    forall f: nat
      ensures f in Strays(n) <==> f in Strays(m) || f == x
    {
      StraysAre(m, f);
      StraysAre(n, f);
    }
    StraysAre(m, x);
    assert Strays(n) == Strays(m) + {x};
  }

  /** What `Strays` gains in one operation. */
  lemma ExecStrayCount(m: Machine, op: Op)
    requires Inv(m) && Allowed(m, op)
    ensures var n := Exec(m, op).0;
      if Loses(m, op) then Strays(n) == Strays(m) + {LostFrame(m, op)} && |Strays(n)| == |Strays(m)| + 1
      else Strays(n) == Strays(m)
  {
    ExecStrays(m, op);
    hide Inv, Exec, Allowed, SameStrays, OneMoreStray, LostFrame;
    if Loses(m, op) {
      MoreStraySet(m, Exec(m, op).0, LostFrame(m, op));
    } else {
      SameStraySet(m, Exec(m, op).0);
    }
  }

  /** Over every run, the stray frames at the end are those at the start and one for each losing
      operation: no other operation loses a frame, and a lost one never comes back. */
  lemma {:induction false} RunStrays(m: Machine, ops: seq<Op>)
    requires Inv(m) && AllowedRun(m, ops)
    ensures var (n, lost) := (ExecAll(m, ops).0, Lost(m, ops));
      && (forall f: nat :: f in Strays(n) <==> f in Strays(m) || f in lost)
      && |Strays(n)| == |Strays(m)| + |lost|
    decreases |ops|
  {
    hide Inv, Exec, Allowed, Strays, Loses, LostFrame;
    if ops != [] {
      ExecRefines(m, ops[0]);
      ExecStrayCount(m, ops[0]);
      RunStrays(Exec(m, ops[0]).0, ops[1..]);
    }
  }

  /** A run keeps every frame accounted for if and only if none of its operations loses one. */
  lemma NothingLost(m: Machine, ops: seq<Op>)
    requires Inv(m) && AllowedRun(m, ops)
    ensures Strays(ExecAll(m, ops).0) == Strays(m) <==> Lost(m, ops) == []
  {
    hide Inv, Exec, Allowed, Strays, Loses, Lost, ExecAll;
    RunStrays(m, ops);
  }

  // ---------- growing the heap again ----------

  /** One of pages `from`, ..., `end - 1` is the space's own and maps `f`. */
  ghost predicate OwnIn(m: Machine, a: nat, from: nat, end: nat, f: nat) {
    exists w: nat :: from <= w < end && OwnPage(m, a, w, f)
  }

  lemma MapFreshOthers(m: Machine, a: nat, v: nat, w: nat, f: nat)
    requires Inv(m) && a in m.spaces && w != v
    ensures OwnPage(MapFresh(m, a, v, true, false).0, a, w, f) <==> OwnPage(m, a, w, f)
  {
    hide Inv, MapFresh;
    MapFreshEntries(m, a, v);
    if w in m.spaces[a].pt {
      assert w in MapFresh(m, a, v, true, false).0.spaces[a].pt;
    }
  }

  lemma OwnInFirst(m: Machine, n: Machine, a: nat, v: nat, k: nat, f: nat)
    requires Inv(m) && a in m.spaces && v < k && n == MapFresh(m, a, v, true, false).0
    ensures OwnIn(m, a, v, k, f) <==> OwnPage(m, a, v, f) || OwnIn(n, a, v + 1, k, f)
  {
    hide Inv, MapFresh, OwnPage;
    forall w: nat | v + 1 <= w < k
      ensures OwnPage(n, a, w, f) <==> OwnPage(m, a, w, f)
    {
      MapFreshOthers(m, a, v, w, f);
    }
  }

  /** Growth that gets as far as page `k` loses the frames of the space's own pages it meets on the
      way there, and no others. */
  lemma {:induction false} GrowStrays(m: Machine, a: nat, v: nat, end: nat) returns (k: nat)
    requires Inv(m) && v <= end <= PER_TABLE * PER_TABLE && IdleRange(m, a, v, end)
    ensures var (n, ok) := Grow(m, a, v, end);
      && v <= k <= end && (ok <==> k == end)
      && (forall f: nat :: Unused(n, f) <==> Unused(m, f) || OwnIn(m, a, v, k, f))
    decreases end - v
  {
    hide Inv, Abs, MapFresh, Replaceable, Unused, OwnIn, OwnPage, NoOwnPage;
    k := v;
    OwnInNone(m, a, v);
    if v < end {
      MapFreshKeeps(m, a, v, true, false);
      MapFreshEntries(m, a, v);
      MapFreshStrays(m, a, v, true, false);
      var (n, ok) := MapFresh(m, a, v, true, false);
      if ok {
        k := GrowStrays(n, a, v + 1, end);
        OneStrayOrNone(m, n, a, v);
        forall f: nat
          ensures OwnIn(m, a, v, k, f) <==> OwnPage(m, a, v, f) || OwnIn(n, a, v + 1, k, f)
        {
          OwnInFirst(m, n, a, v, k, f);
        }
      }
    }
  }

  lemma OwnInNowhere(m: Machine, a: nat, v: nat, f: nat)
    ensures !OwnIn(m, a, v, v, f)
  {}

  lemma OneStrayOrNone(m: Machine, n: Machine, a: nat, v: nat)
    requires WroteOver(m, n, a, v, true)
    ensures forall f: nat :: Unused(n, f) <==> Unused(m, f) || OwnPage(m, a, v, f)
  {
    hide Unused, Maps;
    if !NoOwnPage(m, a, v) {
      var x: nat :| Maps(m, a, v, x);
      assert OwnPage(m, a, v, x);
      forall f: nat
        ensures OwnPage(m, a, v, f) ==> f == x
      {
        OneFrame(m, a, v, x, f);
      }
    }
  }

  lemma OneFrame(m: Machine, a: nat, v: nat, x: nat, f: nat)
    requires Maps(m, a, v, x)
    ensures OwnPage(m, a, v, f) ==> f == x
  {}

  /** `address_space_set_brk` loses the frames of the pages it finds above the break, those that an
      earlier growth mapped before it failed, as far as it gets; shrinkage loses none. */
  lemma SetBrkStrays(m: Machine, a: nat, bytes: nat) returns (k: nat)
    requires Inv(m) && BreakOk(m, a, bytes)
    ensures var ((n, ok), from) := (SetBrk(m, a, bytes), m.spaces[a].brk);
      && from <= k && (k > from && ok ==> k == PageOf(Rounded(bytes)))
      && (forall f: nat :: Unused(n, f) <==> Unused(m, f) || OwnIn(m, a, from, k, f))
  {
    hide Inv, Abs, Grow, Shrink, Unused, OwnIn, IdleRange, OwnRange;
    var from := m.spaces[a].brk;
    k := from;
    OwnInNone(m, a, from);
    if Rounded(bytes) <= USER_HEAP_MAX {
      var to := PageOf(Rounded(bytes));
      if to > from {
        k := GrowStrays(m, a, from, to);
        var (n, ok) := Grow(m, a, from, to);
        if ok {
          SameBrk(n, a, to);
        }
      } else {
        ShrinkStrays(m, a, to, from);
        SameBrk(Shrink(m, a, to, from), a, to);
      }
    }
  }

  lemma OwnInNone(m: Machine, a: nat, v: nat)
    ensures forall f: nat :: !OwnIn(m, a, v, v, f)
  {
    hide OwnPage;
    forall f: nat
      ensures !OwnIn(m, a, v, v, f)
    {
      OwnInNowhere(m, a, v, f);
    }
  }

  lemma {:induction false} ShrinkStrays(m: Machine, a: nat, v: nat, end: nat)
    requires Inv(m) && a in m.spaces && v <= end && OwnRange(m, a, v, end)
    ensures SameStrays(m, Shrink(m, a, v, end))
    decreases end - v
  {
    hide Inv, Abs, Unmap, Unused;
    if v < end {
      UnmapEntries(m, a, v);
      UnmapStrays(m, a, v);
      ShrinkStrays(Unmap(m, a, v), a, v + 1, end);
    }
  }

  // ---------- conservation ----------

  ghost function Pool(m: Machine): set<nat> {
    set f: nat | f < m.base + |m.mem| && InPool(m, f)
  }

  function Elements(s: seq<nat>): set<nat> {
    set x | x in s
  }

  ghost function Mapped(m: Machine): set<nat> {
    set f | f in Pool(m) && IsMapped(m, f)
  }

  ghost function TablePages(m: Machine): set<nat> {
    set f | f in Pool(m) && IsTablePage(m, f)
  }

  lemma ElementsSnoc(s: seq<nat>, x: nat)
    ensures Elements(s + [x]) == Elements(s) + {x}
  {}

  lemma {:induction false} DistinctCard(s: seq<nat>)
    requires forall i, j :: 0 <= i < j < |s| ==> s[i] != s[j]
    ensures |Elements(s)| == |s|
  {
    if s != [] {
      var n := |s| - 1;
      DistinctCard(s[..n]);
      ElementsSnoc(s[..n], s[n]);
      assert s == s[..n] + [s[n]];
    }
  }

  lemma {:induction false} PoolCard(m: Machine)
    ensures |Pool(m)| == |m.mem|
    decreases |m.mem|
  {
    if m.mem == [] {
      assert Pool(m) == {};
    } else {
      var k := |m.mem| - 1;
      var less := m.(mem := m.mem[..k]);
      PoolCard(less);
      assert Pool(m) == Pool(less) + {m.base + k};
    }
  }

  lemma FourPlaces(m: Machine, f: nat)
    requires Inv(m)
    ensures f in Elements(m.free) || f in Mapped(m) || f in TablePages(m) || f in Strays(m) <==> f in Pool(m)
    ensures f in Elements(m.free) ==> f !in Mapped(m) && f !in TablePages(m) && f !in Strays(m)
    ensures f in Mapped(m) ==> f !in TablePages(m) && f !in Strays(m)
    ensures f in TablePages(m) ==> f !in Strays(m)
  {
    hide CountOk, Holders, SpaceOk, Maps, IsTable;
  }

  lemma FourDisjoint(a: set<nat>, b: set<nat>, c: set<nat>, d: set<nat>, all: set<nat>)
    requires forall f: nat :: f in a || f in b || f in c || f in d <==> f in all
    requires a !! b !! c !! d
    ensures |a| + |b| + |c| + |d| == |all|
  {
    assert |a + b| == |a| + |b|;
    assert (a + b) * c == {};
    assert (a + b + c) * d == {};
    assert a + b + c + d == all;
  }

  /** Every frame of the pool is in exactly one of four places. */
  lemma FramesAddUp(m: Machine)
    requires Inv(m)
    ensures |m.free| + |Mapped(m)| + |TablePages(m)| + |Strays(m)| == |m.mem|
  {
    assert PoolOk(m);
    DistinctCard(m.free);
    PoolCard(m);
    FourDisjointPlaces(m);
    hide Inv, Mapped, TablePages, Strays, Pool, Elements;
    FourDisjoint(Elements(m.free), Mapped(m), TablePages(m), Strays(m), Pool(m));
  }

  lemma FourDisjointPlaces(m: Machine)
    requires Inv(m)
    ensures forall f: nat :: f in Elements(m.free) || f in Mapped(m) || f in TablePages(m) || f in Strays(m) <==> f in Pool(m)
    ensures Elements(m.free) !! Mapped(m) !! TablePages(m) !! Strays(m)
  {
    hide Inv, Mapped, TablePages, Strays, Pool, Elements;
    forall f: nat
      ensures f in Elements(m.free) || f in Mapped(m) || f in TablePages(m) || f in Strays(m) <==> f in Pool(m)
      ensures f in Elements(m.free) ==> f !in Mapped(m) && f !in TablePages(m) && f !in Strays(m)
      ensures f in Mapped(m) ==> f !in TablePages(m) && f !in Strays(m)
      ensures f in TablePages(m) ==> f !in Strays(m)
    {
      FourPlaces(m, f);
    }
  }
}

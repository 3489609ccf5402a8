/** Creating, filling, forking and tearing down address spaces: the invariant through each whole
    walk, and what every space sees afterwards. */
module PagingLifecycle {
  import opened Paging
  import opened PagingInvariant

  // ---------- creation ----------

  lemma AddSpace(m: Machine, l1: nat, l2: nat)
    requires Inv(m) && Unused(m, l1) && Unused(m, l2) && l1 != l2
    ensures var n := PutSpace(m, m.next, AddrSpace(map[L1 := l1, L2 := l2], map[], PageOf(USER_HEAP_BASE), 1)).(next := m.next + 1);
      && Inv(n) && m.next !in m.spaces && m.next != 0
      && Abs(n) == Abs(m)[m.next := SpaceView(map[], 1)]
  {
    hide CountOk, Holders, View, Abs;
    var s := AddrSpace(map[L1 := l1, L2 := l2], map[], PageOf(USER_HEAP_BASE), 1);
    var a := m.next;
    var n := PutSpace(m, a, s).(next := m.next + 1);
    assert SpaceOk(s);
    assert a !in m.spaces;
    forall b, w, g
      ensures Maps(n, b, w, g) == Maps(m, b, w, g) && Writes(n, b, w, g) == Writes(m, b, w, g)
    {
    }
    forall b: nat, u: TableSlot, g: nat
      ensures IsTable(n, b, u, g) <==> if b == a then (u == L1 && g == l1) || (u == L2 && g == l2) else IsTable(m, b, u, g)
    {
    }
    forall g
      ensures CountOk(n, g)
    {
      assert CountOk(m, g);
      CountCarries(m, n, g);
    }
    AbsAdds(m, n, a);
  }

  lemma AbsAdds(m: Machine, n: Machine, a: nat)
    requires a !in m.spaces && n.spaces.Keys == m.spaces.Keys + {a} && n.base == m.base && n.mem == m.mem
    requires n.spaces[a].pt == map[] && n.spaces[a].users == 1
    requires forall b :: b in m.spaces ==> n.spaces[b] == m.spaces[b]
    ensures Abs(n) == Abs(m)[a := SpaceView(map[], 1)]
  {
    forall b | b in m.spaces
      ensures View(n, n.spaces[b]) == View(m, m.spaces[b])
    {
      ViewCarries(m, n, b);
    }
    EmptyView(n, n.spaces[a]);
  }

  lemma EmptyView(m: Machine, s: AddrSpace)
    requires s.pt == map[]
    ensures View(m, s) == map[]
  {}

  /** A new space is empty; when there is none, nobody sees a difference. */
  lemma CreateKeeps(m: Machine, heapOk: bool)
    requires Inv(m)
    ensures var (n, a) := Create(m, heapOk);
      && Inv(n)
      && (a != 0 ==> a == m.next && a !in m.spaces && n.spaces.Keys == m.spaces.Keys + {a}
                     && n.spaces[a].pt == map[]
                     && (forall b :: b in m.spaces ==> n.spaces[b] == m.spaces[b]))
      && Abs(n) == (if a != 0 then Abs(m)[a := SpaceView(map[], 1)] else Abs(m))
  {
    hide CountOk, Holders, View, Base, Abs, Unused;
    if heapOk {
      AllocKeeps(m);
      var (m1, l1) := Alloc(m);
      if l1 != 0 {
        AllocKeeps(m1);
        var (m2, l2) := Alloc(m1);
        if l2 != 0 {
          TwoAllocs(m1, m2, l1, l2);
          AddSpace(m2, l1, l2);
        }
      }
    }
  }

  lemma TwoAllocs(m1: Machine, m2: Machine, l1: nat, l2: nat)
    requires Unused(m1, l1) && m1.free != [] && l2 == m1.free[0]
    requires m2.spaces == m1.spaces && SameShape(m1, m2) && m2.free == m1.free[1..]
    ensures Unused(m2, l1) && l1 != l2
  {
    assert l2 in m1.free;
    StillUnused(m1, m2, l1);
  }

  // ---------- mapping ----------

  /** What is at page `v` may be written over: it is not a page of the space's own, or the page's
      frame has no count, as it has been mapped nowhere else. */
  predicate Replaceable(m: Machine, a: nat, v: nat)
    requires a in m.spaces
  {
    v in m.spaces[a].pt && m.spaces[a].pt[v].Map? && m.spaces[a].pt[v].owner.Space? ==> Rc(m, m.spaces[a].pt[v].frame) == 0
  }

  lemma ClearedOwn(m: Machine, n: Machine, a: nat, v: nat, f: nat)
    requires Inv(m) && EntryCleared(m, n, a, v) && n.rc == m.rc && Maps(m, a, v, f)
    ensures Inv(n) <==> Rc(m, f) == 0
    ensures |Holders(n, f)| == |Holders(m, f)| - 1
    ensures Rc(m, f) != 0 ==> Rc(n, f) == |Holders(n, f)| + 1
  {
    hide Holders, Base, Maps, Writes;
    ClearedCounts(m, n, a, v, f);
    DropFits(m, n, f);
    assert CountOk(m, f);
    if Inv(n) {
      assert CountOk(n, f);
    }
  }

  /** An entry that may be written over can be cleared, its frame left where it is. */
  lemma ClearKeeps(m: Machine, a: nat, v: nat)
    requires Inv(m) && a in m.spaces && Replaceable(m, a, v)
    ensures var n := ClearEntry(m, a, v); Inv(n) && a in Abs(m) && Abs(n) == Without(Abs(m), a, v)
  {
    hide CountOk, Holders, View, Base;
    var n := ClearEntry(m, a, v);
    ClearedAbs(m, n, a, v);
    if v in m.spaces[a].pt && m.spaces[a].pt[v].Map? && m.spaces[a].pt[v].owner.Space? {
      var f := m.spaces[a].pt[v].frame;
      assert Maps(m, a, v, f);
      ClearedOwn(m, n, a, v, f);
    } else {
      ClearedForeign(m, n, a, v);
    }
  }

  lemma ClearUnused(m: Machine, a: nat, v: nat, f: nat)
    requires a in m.spaces && Unused(m, f)
    ensures Unused(ClearEntry(m, a, v), f)
  {
    var n := ClearEntry(m, a, v);
    forall b, w
      ensures !Maps(n, b, w, f)
    {
      assert !Maps(m, b, w, f);
    }
    forall b, t
      ensures !IsTable(n, b, t, f)
    {
      assert !IsTable(m, b, t, f);
    }
  }

  lemma ClearThenSet(m: Machine, a: nat, v: nat, d: Desc)
    requires a in m.spaces
    ensures SetEntry(m, a, v, d) == SetEntry(ClearEntry(m, a, v), a, v, d)
  {
    assert (m.spaces[a].pt - {v})[v := d] == m.spaces[a].pt[v := d];
    var s := m.spaces[a].(pt := m.spaces[a].pt[v := d]);
    assert m.spaces[a := m.spaces[a].(pt := m.spaces[a].pt - {v})][a := s] == m.spaces[a := s];
  }

  lemma WithoutThenWith(e: map<nat, SpaceView>, a: nat, v: nat, x: Entry)
    requires a in e
    ensures With(Without(e, a, v), a, v, x) == With(e, a, v, x)
  {
    assert (e[a].view - {v})[v := x] == e[a].view[v := x];
  }

  /** Writing a page over an entry that may be written over. */
  lemma ReplaceFreshKeeps(m: Machine, a: nat, v: nat, d: Desc)
    requires Inv(m) && a in m.spaces && Replaceable(m, a, v)
    requires v < PER_TABLE * PER_TABLE && TableFor(v) in m.spaces[a].tables
    requires d.Map? && d.owner.Space? && !d.cow && Unused(m, d.frame)
    ensures var n := SetEntry(m, a, v, d);
      Inv(n) && a in Abs(m) && Abs(n) == With(Abs(m), a, v, Visible(Frame(m, d.frame), d.rw, d.exec))
  {
    hide Inv, Abs, Unused, Replaceable, SetEntry;
    ClearKeeps(m, a, v);
    ClearUnused(m, a, v, d.frame);
    ClearThenSet(m, a, v, d);
    SetFreshKeeps(ClearEntry(m, a, v), a, v, d);
    WithoutThenWith(Abs(m), a, v, Visible(Frame(m, d.frame), d.rw, d.exec));
  }

  /** Writing a guard over an entry that may be written over. */
  lemma ReplaceGuardKeeps(m: Machine, a: nat, v: nat)
    requires Inv(m) && a in m.spaces && Replaceable(m, a, v)
    requires v < PER_TABLE * PER_TABLE && TableFor(v) in m.spaces[a].tables
    ensures var n := SetEntry(m, a, v, Guard);
      Inv(n) && a in Abs(m) && Abs(n) == With(Abs(m), a, v, NoAccess)
  {
    hide Inv, Abs, Replaceable, SetEntry;
    ClearKeeps(m, a, v);
    ClearThenSet(m, a, v, Guard);
    SetForeignKeeps(ClearEntry(m, a, v), a, v, Guard);
    WithoutThenWith(Abs(m), a, v, NoAccess);
  }

  /** Writing over a page of the space's own, as `address_space_map` and
      `address_space_install_guard` do without a look at what is there, keeps the invariant if and
      only if its frame has no count. Otherwise the count stays one above the number of spaces that
      still map the frame. */
  lemma ReplaceExact(m: Machine, a: nat, v: nat, d: Desc)
    requires Inv(m) && a in m.spaces && v in m.spaces[a].pt && m.spaces[a].pt[v].Map? && m.spaces[a].pt[v].owner.Space?
    requires d.Guard? || (d.owner.Space? && !d.cow && Unused(m, d.frame))
    ensures var (n, f) := (SetEntry(m, a, v, d), m.spaces[a].pt[v].frame);
      && (Inv(n) <==> Rc(m, f) == 0)
      && (Rc(m, f) != 0 ==> Rc(n, f) == |Holders(n, f)| + 1)
  {
    hide CountOk, Holders, View, Base, Abs;
    var n, f := SetEntry(m, a, v, d), m.spaces[a].pt[v].frame;
    assert Maps(m, a, v, f);
    EntryPlace(m, a, v);
    if Rc(m, f) == 0 {
      if d.Guard? {
        ReplaceGuardKeeps(m, a, v);
      } else {
        ReplaceFreshKeeps(m, a, v, d);
      }
    } else {
      var c := ClearEntry(m, a, v);
      ClearedOwn(m, c, a, v, f);
      SetOther(m, c, n, a, v, d, f);
      if Inv(n) {
        assert CountOk(n, f);
        CountOff(n, f);
      }
    }
  }

  lemma CountOff(m: Machine, f: nat)
    requires Rc(m, f) == |Holders(m, f)| + 1
    ensures !CountOk(m, f)
  {
    hide Holders;
  }

  lemma SetOther(m: Machine, c: Machine, n: Machine, a: nat, v: nat, d: Desc, f: nat)
    requires a in m.spaces && Maps(m, a, v, f) && c == ClearEntry(m, a, v) && n == SetEntry(m, a, v, d)
    requires d.Guard? || Unused(m, d.frame)
    ensures Holders(n, f) == Holders(c, f)
  {
    assert !Owns(d, f);
    forall b, w
      ensures Maps(c, b, w, f) <==> Maps(n, b, w, f)
    {
    }
    SameHolders(c, n, f);
  }

  /** A fresh page shows zeroes, whatever the address showed; on failure nothing changes to
      anyone's eyes. Failure means the frames have run out. */
  lemma MapFreshKeeps(m: Machine, a: nat, v: nat, rw: bool, exec: bool)
    requires Inv(m) && a in m.spaces && v < PER_TABLE * PER_TABLE && Replaceable(m, a, v)
    ensures var (n, ok) := MapFresh(m, a, v, rw, exec);
      && Inv(n)
      && Abs(n) == (if ok then With(Abs(m), a, v, Visible(ZeroPage(), rw, exec)) else Abs(m))
      && (!ok ==> |m.free| <= 1)
  {
    hide CountOk, Holders, View, Base, Abs, Unused;
    AllocKeeps(m);
    var (n, f) := Alloc(m);
    if f != 0 {
      NeedTableKeeps(n, a, v);
      var (n', ok) := NeedTable(n, a, v);
      if ok {
        ReplaceFreshKeeps(n', a, v, Map(f, rw, false, exec, Space));
      } else {
        ReleaseKeeps(n', f);
      }
    }
  }

  lemma MapForeignKeeps(m: Machine, a: nat, v: nat, f: nat, owner: Owner)
    requires Inv(m) && a in m.spaces && v < PER_TABLE * PER_TABLE && v !in m.spaces[a].pt && !owner.Space?
    ensures var (n, ok) := MapForeign(m, a, v, f, owner); Inv(n) && Abs(n) == Abs(m)
  {
    hide CountOk, Holders, View, Base, Abs;
    NeedTableKeeps(m, a, v);
    var (n, ok) := NeedTable(m, a, v);
    if ok {
      SetForeignKeeps(n, a, v, Map(f, owner.Window?, false, false, owner));
    }
  }

  /** A guard faults, whatever the address showed. */
  lemma InstallGuardKeeps(m: Machine, a: nat, v: nat)
    requires Inv(m) && a in m.spaces && v < PER_TABLE * PER_TABLE && Replaceable(m, a, v)
    ensures var (n, ok) := InstallGuard(m, a, v);
      && Inv(n)
      && Abs(n) == (if ok then With(Abs(m), a, v, NoAccess) else Abs(m))
      && (!ok ==> n == m && m.free == [])
  {
    hide CountOk, Holders, View, Base, Abs;
    NeedTableKeeps(m, a, v);
    var (n, ok) := NeedTable(m, a, v);
    if ok {
      ReplaceGuardKeeps(n, a, v);
    }
  }

  // ---------- teardown ----------

  /** Page numbers covered by the table for L2 index `i`. */
  lemma TableRange(v: nat, i: nat)
    ensures TableFor(v) == L3(i) <==> PER_TABLE * i <= v < PER_TABLE * i + PER_TABLE
  {}

  /** Dropping a whole table's entries empties it and leaves every other entry of every space. */
  lemma {:induction false} DropTableKeeps(m: Machine, a: nat, i: nat, j: nat)
    requires Inv(m) && a in m.spaces && j <= PER_TABLE
    ensures var n := DropTable(m, a, i, j);
      && Inv(n) && SameBut(Abs(m), Abs(n), a) && n.next == m.next
      && n.spaces == m.spaces[a := m.spaces[a].(pt := n.spaces[a].pt)]
      && (forall v :: v in n.spaces[a].pt <==>
            v in m.spaces[a].pt && !(PER_TABLE * i + j <= v < PER_TABLE * i + PER_TABLE))
    decreases PER_TABLE - j
  {
    hide Inv, Abs, Drop;
    if j == PER_TABLE {
      SelfUpdate(m, a);
    } else {
      var v := PER_TABLE * i + j;
      var n := Drop(m, a, v);
      DropKeeps(m, a, v);
      AbsKeys(m);
      WithoutIsLocal(Abs(m), a, v);
      DropTableKeeps(n, a, i, j + 1);
      UpdateTwice(m, n, DropTable(n, a, i, j + 1), a);
    }
  }

  lemma SelfUpdate(m: Machine, a: nat)
    requires a in m.spaces
    ensures m.spaces == m.spaces[a := m.spaces[a].(pt := m.spaces[a].pt)]
    ensures SameBut(Abs(m), Abs(m), a)
  {}

  lemma AbsKeys(m: Machine)
    ensures Abs(m).Keys == m.spaces.Keys
  {}

  lemma WithoutIsLocal(e: map<nat, SpaceView>, a: nat, v: nat)
    requires a in e
    ensures SameBut(e, Without(e, a, v), a)
  {}

  lemma UpdateTwice(m: Machine, n: Machine, p: Machine, a: nat)
    requires a in m.spaces && a in n.spaces && a in p.spaces
    requires n.spaces == m.spaces[a := m.spaces[a].(pt := n.spaces[a].pt)]
    requires p.spaces == n.spaces[a := n.spaces[a].(pt := p.spaces[a].pt)]
    ensures p.spaces == m.spaces[a := m.spaces[a].(pt := p.spaces[a].pt)]
  {}

  /** The walk leaves an empty space with only its L1 and L2. */
  lemma {:induction false} TeardownKeeps(m: Machine, a: nat, i: nat)
    requires Inv(m) && a in m.spaces && i <= PER_TABLE
    requires forall k :: 0 <= k < i ==> L3(k) !in m.spaces[a].tables
    ensures var n := Teardown(m, a, i);
      && Inv(n) && SameBut(Abs(m), Abs(n), a)
      && n.spaces[a].users == m.spaces[a].users
      && (forall b :: b in m.spaces && b != a ==> n.spaces[b] == m.spaces[b])
      && (forall k :: 0 <= k < PER_TABLE ==> L3(k) !in n.spaces[a].tables)
    decreases PER_TABLE - i
  {
    hide Inv, Abs, DropTable, FreeTable;
    if i == PER_TABLE {
    } else if L3(i) !in m.spaces[a].tables {
      TeardownKeeps(m, a, i + 1);
    } else {
      var n1 := DropTable(m, a, i, 0);
      DropTableKeeps(m, a, i, 0);
      forall v | v in n1.spaces[a].pt
        ensures TableFor(v) != L3(i)
      {
        TableRange(v, i);
      }
      FreeTableKeeps(n1, a, i);
      TeardownKeeps(FreeTable(n1, a, L3(i)), a, i + 1);
    }
  }

  lemma OnlyTopTables(m: Machine, a: nat)
    requires Base(m) && a in m.spaces && forall k :: 0 <= k < PER_TABLE ==> L3(k) !in m.spaces[a].tables
    ensures m.spaces[a].pt == map[] && L1 in m.spaces[a].tables && L2 in m.spaces[a].tables
    ensures forall t :: t in m.spaces[a].tables ==> t == L1 || t == L2
  {
    assert SpaceOk(m.spaces[a]);
    forall v
      ensures v !in m.spaces[a].pt
    {
    }
  }

  /** `n` is `m` without space `a`, which maps nothing. */
  lemma GoneTables(m: Machine, n: Machine, a: nat)
    requires a in m.spaces && m.spaces[a].pt == map[] && n == m.(spaces := m.spaces - {a})
    ensures forall b, w, g :: Maps(n, b, w, g) == Maps(m, b, w, g) && Writes(n, b, w, g) == Writes(m, b, w, g)
    ensures forall b: nat, u: TableSlot, g: nat :: IsTable(n, b, u, g) <==> IsTable(m, b, u, g) && b != a
  {
    forall b, w, g
      ensures Maps(n, b, w, g) == Maps(m, b, w, g) && Writes(n, b, w, g) == Writes(m, b, w, g)
    {
    }
    forall b: nat, u: TableSlot, g: nat
      ensures IsTable(n, b, u, g) <==> IsTable(m, b, u, g) && b != a
    {
    }
  }

  lemma GoneInv(m: Machine, n: Machine, a: nat)
    requires Inv(m) && a in m.spaces && m.spaces[a].pt == map[] && n == m.(spaces := m.spaces - {a})
    ensures Inv(n)
  {
    hide CountOk, Holders, SpaceOk;
    GoneTables(m, n, a);
    hide Maps, Writes, IsTable;
    forall g
      ensures CountOk(n, g)
    {
      assert CountOk(m, g);
      CountCarries(m, n, g);
    }
  }

  lemma RemoveSpace(m: Machine, a: nat)
    requires Inv(m) && a in m.spaces && forall k :: 0 <= k < PER_TABLE ==> L3(k) !in m.spaces[a].tables
    ensures var n := m.(spaces := m.spaces - {a});
      && Inv(n) && Abs(n) == Abs(m) - {a}
      && var (l1, l2) := (TablePage(m, a, L1), TablePage(m, a, L2));
      Unused(n, l1) && Unused(n, l2) && l1 != l2
  {
    hide CountOk, Holders, View, SpaceOk;
    var n := m.(spaces := m.spaces - {a});
    OnlyTopTables(m, a);
    GoneInv(m, n, a);
    forall b | b in n.spaces
      ensures View(n, n.spaces[b]) == View(m, m.spaces[b])
    {
      ViewCarries(m, n, b);
    }
    TopTablesUnused(m, n, a);
  }

  lemma TopTablesUnused(m: Machine, n: Machine, a: nat)
    requires Inv(m) && a in m.spaces && m.spaces[a].pt == map[] && n == m.(spaces := m.spaces - {a})
    requires L1 in m.spaces[a].tables && L2 in m.spaces[a].tables
    requires forall t :: t in m.spaces[a].tables ==> t == L1 || t == L2
    ensures var (l1, l2) := (TablePage(m, a, L1), TablePage(m, a, L2));
      Unused(n, l1) && Unused(n, l2) && l1 != l2
  {
    hide CountOk, SpaceOk, SameVa;
    GoneTables(m, n, a);
    var l1, l2 := m.spaces[a].tables[L1], m.spaces[a].tables[L2];
    assert IsTable(m, a, L1, l1) && IsTable(m, a, L2, l2);
  }

  /** A thread leaving a shared space only lowers the user count; the last one takes the space
      away. No other space sees a difference. */
  lemma DestroyKeeps(m: Machine, a: nat)
    requires Inv(m) && a in m.spaces
    ensures var n := Destroy(m, a);
      && Inv(n)
      && Abs(n) == if m.spaces[a].users > 1 then Abs(m)[a := Abs(m)[a].(users := m.spaces[a].users - 1)]
                   else Abs(m) - {a}
  {
    hide CountOk, Holders, View, Base, Abs, Unused;
    if m.spaces[a].users > 1 {
      UsersOnly(m, a, m.spaces[a].users - 1);
    } else {
      var n := Teardown(m, a, 0);
      TeardownKeeps(m, a, 0);
      RemoveSpace(n, a);
      var gone := n.(spaces := n.spaces - {a});
      var l1, l2 := TablePage(n, a, L1), TablePage(n, a, L2);
      ReleaseKeeps(gone, l2);
      UnusedAfterRelease(gone, l1, l2);
      ReleaseKeeps(Release(gone, l2), l1);
      MinusLocal(Abs(m), Abs(n), a);
    }
  }

  lemma UnusedAfterRelease(m: Machine, l1: nat, l2: nat)
    requires Unused(m, l1) && l1 != l2
    ensures Unused(Release(m, l2), l1)
  {
    var n := Release(m, l2);
    forall a, v
      ensures !Maps(n, a, v, l1)
    {
      assert !Maps(m, a, v, l1);
    }
    forall a, t
      ensures !IsTable(n, a, t, l1)
    {
      assert !IsTable(m, a, t, l1);
    }
  }

  lemma MinusLocal(e: map<nat, SpaceView>, e': map<nat, SpaceView>, a: nat)
    requires SameBut(e, e', a)
    ensures e' - {a} == e - {a}
  {}

  lemma UsersOnly(m: Machine, a: nat, u: nat)
    requires Inv(m) && a in m.spaces && u > 0
    ensures var n := PutSpace(m, a, m.spaces[a].(users := u));
      Inv(n) && Abs(n) == Abs(m)[a := Abs(m)[a].(users := u)]
  {
    hide Inv, Abs;
    var n := PutSpace(m, a, m.spaces[a].(users := u));
    assert AllUsed(m) by {
      InvUsers(m);
    }
    SameMapsKeeps(m, n);
    UsersAbs(m, n, a, u);
  }

  ghost predicate AllUsed(m: Machine) {
    forall b :: b in m.spaces ==> m.spaces[b].users > 0
  }

  lemma InvUsers(m: Machine)
    requires Inv(m)
    ensures AllUsed(m)
  {
    forall b | b in m.spaces
      ensures m.spaces[b].users > 0
    {
      assert SpaceOk(m.spaces[b]);
    }
  }

  lemma UsersAbs(m: Machine, n: Machine, a: nat, u: nat)
    requires a in m.spaces && n == PutSpace(m, a, m.spaces[a].(users := u))
    ensures Abs(n) == Abs(m)[a := Abs(m)[a].(users := u)]
  {
    forall b | b in m.spaces
      ensures View(n, n.spaces[b]) == View(m, m.spaces[b])
    {
      ViewCarries(m, n, b);
    }
  }

  /** Page tables the same, only `brk` and a positive user count may differ. */
  lemma SameMapsKeeps(m: Machine, n: Machine)
    requires Inv(m) && n.spaces.Keys == m.spaces.Keys && n == m.(spaces := n.spaces)
    requires forall b :: b in m.spaces ==> n.spaces[b].pt == m.spaces[b].pt
    requires forall b :: b in m.spaces ==> n.spaces[b].tables == m.spaces[b].tables && n.spaces[b].users > 0
    ensures Inv(n)
  {
    hide CountOk, Holders;
    forall b, w, g
      ensures Maps(n, b, w, g) == Maps(m, b, w, g) && Writes(n, b, w, g) == Writes(m, b, w, g)
    {
    }
    forall b, t, g
      ensures IsTable(n, b, t, g) == IsTable(m, b, t, g)
    {
    }
    forall g
      ensures CountOk(n, g)
    {
      assert CountOk(m, g);
      CountCarries(m, n, g);
    }
    forall b | b in n.spaces
      ensures 0 < b < n.next && SpaceOk(n.spaces[b])
    {
      assert SpaceOk(m.spaces[b]);
    }
  }
}

/** What every paging routine keeps: who owns which frame, and what the counts mean. */
module PagingInvariant {
  import opened Paging

  // ---------- the invariant ----------

  /** Entry `d` is this space's own mapping of frame `f`. */
  predicate Owns(d: Desc, f: nat) {
    d.Map? && d.owner.Space? && d.frame == f
  }

  predicate Maps(m: Machine, a: nat, v: nat, f: nat) {
    a in m.spaces && v in m.spaces[a].pt && Owns(m.spaces[a].pt[v], f)
  }

  /** The space may write the frame without a fault. */
  predicate Writes(m: Machine, a: nat, v: nat, f: nat) {
    Maps(m, a, v, f) && m.spaces[a].pt[v].rw
  }

  predicate IsTable(m: Machine, a: nat, t: TableSlot, f: nat) {
    a in m.spaces && t in m.spaces[a].tables && m.spaces[a].tables[t] == f
  }

  /** The holders of frame `f`: the (space, page) pairs that map it. */
  ghost function Holders(m: Machine, f: nat): set<(nat, nat)> {
    set a, v | a in m.spaces && v in m.spaces[a].pt && Owns(m.spaces[a].pt[v], f) :: (a, v)
  }

  /** The 0/1/N encoding: no holder means count 0; one holder means 0 or 1; more means exactly
      that many, and then nobody may write the frame directly. */
  ghost predicate CountOk(m: Machine, f: nat) {
    var h := |Holders(m, f)|;
    && (h == 0 ==> Rc(m, f) == 0)
    && (h == 1 ==> Rc(m, f) <= 1)
    && (h >= 2 ==> Rc(m, f) == h)
    && (h >= 2 ==> forall a, v :: !Writes(m, a, v, f))
  }

  ghost predicate PoolOk(m: Machine) {
    && m.base > 0 && |m.rc| == |m.mem|
    && (forall i :: 0 <= i < |m.free| ==> InPool(m, m.free[i]))
    && (forall i, j :: 0 <= i < j < |m.free| ==> m.free[i] != m.free[j])
  }

  /** No mapped frame is free. */
  ghost predicate MappedOk(m: Machine) {
    forall a, v, f :: Maps(m, a, v, f) ==> InPool(m, f) && f !in m.free
  }

  /** No table page is free, mapped, or used twice. */
  ghost predicate TablesOk(m: Machine) {
    && (forall a, t, f :: IsTable(m, a, t, f) ==> InPool(m, f) && f !in m.free)
    && (forall a, t, f, b, v :: IsTable(m, a, t, f) && Maps(m, b, v, f) ==> false)
    && (forall a, t, f, b, u :: IsTable(m, a, t, f) && IsTable(m, b, u, f) ==> a == b && t == u)
  }

  ghost predicate SpaceOk(s: AddrSpace) {
    && L1 in s.tables && L2 in s.tables && s.users > 0
    && (forall t :: t in s.tables && t.L3? ==> t.index < PER_TABLE)
    && (forall v :: v in s.pt ==> v < PER_TABLE * PER_TABLE && TableFor(v) in s.tables)
    && (forall v :: v in s.pt && s.pt[v].Map? ==> !(s.pt[v].rw && s.pt[v].cow))
  }

  ghost predicate SpacesOk(m: Machine) {
    && m.next > 0
    && (forall a :: a in m.spaces ==> 0 < a < m.next && SpaceOk(m.spaces[a]))
  }

  /** A shared frame sits at the same page in every space that maps it. */
  ghost predicate SameVa(m: Machine) {
    forall a, v, b, w, f :: Maps(m, a, v, f) && Maps(m, b, w, f) ==> v == w
  }

  ghost predicate CountsOk(m: Machine) {
    forall f :: CountOk(m, f)
  }

  ghost predicate Base(m: Machine) {
    PoolOk(m) && MappedOk(m) && TablesOk(m) && SpacesOk(m) && SameVa(m)
  }

  ghost predicate Inv(m: Machine) {
    Base(m) && CountsOk(m)
  }

  // ---------- what a space sees ----------

  datatype Entry = NoAccess | Visible(data: Page, writable: bool, exec: bool)

  /** What the space sees through entry `d`: a copy-on-write page counts as writable. */
  function Seen(m: Machine, d: Desc): Entry {
    if d.Guard? then NoAccess else Visible(Frame(m, d.frame), d.rw || d.cow, d.exec)
  }

  predicate Private(d: Desc) {
    d.Guard? || d.owner.Space?
  }

  /** The space's own pages and guards, page number by page number. */
  function View(m: Machine, s: AddrSpace): map<nat, Entry> {
    map v | v in s.pt && Private(s.pt[v]) :: Seen(m, s.pt[v])
  }

  datatype SpaceView = SpaceView(view: map<nat, Entry>, users: nat)

  function Abs(m: Machine): map<nat, SpaceView> {
    map a | a in m.spaces :: SpaceView(View(m, m.spaces[a]), m.spaces[a].users)
  }

  // ---------- holders ----------

  lemma HoldersAre(m: Machine, f: nat, a: nat, v: nat)
    ensures (a, v) in Holders(m, f) <==> Maps(m, a, v, f)
  {}

  lemma SameHolders(m: Machine, n: Machine, f: nat)
    requires forall a, v :: Maps(m, a, v, f) <==> Maps(n, a, v, f)
    ensures Holders(m, f) == Holders(n, f)
  {
    forall p: (nat, nat)
      ensures p in Holders(m, f) <==> p in Holders(n, f)
    {
      HoldersAre(m, f, p.0, p.1);
      HoldersAre(n, f, p.0, p.1);
    }
  }

  lemma OneMoreHolder(m: Machine, n: Machine, f: nat, a: nat, v: nat)
    requires !Maps(m, a, v, f) && Maps(n, a, v, f)
    requires forall b: nat, w: nat :: (b, w) != (a, v) ==> (Maps(m, b, w, f) <==> Maps(n, b, w, f))
    ensures |Holders(n, f)| == |Holders(m, f)| + 1
  {
    forall p: (nat, nat)
      ensures p in Holders(n, f) <==> p in Holders(m, f) + {(a, v)}
    {
      HoldersAre(m, f, p.0, p.1);
      HoldersAre(n, f, p.0, p.1);
    }
    HoldersAre(m, f, a, v);
    assert Holders(n, f) == Holders(m, f) + {(a, v)};
  }

  /** A frame has at most one holder per space. */
  lemma HoldersBounded(m: Machine, f: nat)
    requires SameVa(m)
    ensures |Holders(m, f)| <= |m.spaces|
  {
    var h := Holders(m, f);
    if h != {} {
      var p :| p in h;
      HoldersAre(m, f, p.0, p.1);
      forall q | q in h
        ensures q.1 == p.1 && q.0 in m.spaces
      {
        HoldersAre(m, f, q.0, q.1);
      }
      ProjectionBound(h, p.1, m.spaces.Keys);
    }
  }

  lemma {:induction false} ProjectionBound(h: set<(nat, nat)>, v: nat, s: set<nat>)
    requires forall q :: q in h ==> q.1 == v && q.0 in s
    ensures |h| <= |s|
    decreases h
  {
    if h != {} {
      var q :| q in h;
      ProjectionBound(h - {q}, v, s - {q.0});
    }
  }

  lemma NoHolders(m: Machine, f: nat)
    requires forall a, v :: !Maps(m, a, v, f)
    ensures |Holders(m, f)| == 0
  {
    forall p: (nat, nat)
      ensures p !in Holders(m, f)
    {
      HoldersAre(m, f, p.0, p.1);
    }
    assert Holders(m, f) == {};
  }

  lemma SomeHolder(m: Machine, f: nat, a: nat, v: nat)
    requires Maps(m, a, v, f)
    ensures |Holders(m, f)| >= 1
  {
    HoldersAre(m, f, a, v);
    assert {(a, v)} <= Holders(m, f);
    SubsetCard({(a, v)}, Holders(m, f));
  }

  lemma TwoHolders(m: Machine, f: nat, a: nat, v: nat, b: nat, w: nat)
    requires Maps(m, a, v, f) && Maps(m, b, w, f) && (a, v) != (b, w)
    ensures |Holders(m, f)| >= 2
  {
    HoldersAre(m, f, a, v);
    HoldersAre(m, f, b, w);
    assert |{(a, v), (b, w)}| == 2;
    SubsetCard({(a, v), (b, w)}, Holders(m, f));
  }

  lemma SubsetCard<T>(a: set<T>, b: set<T>)
    requires a <= b
    ensures |a| <= |b|
  {
    assert b == a + (b - a);
  }

  /** A count at or above 2 is the number of holders; below, there is at most one. */
  lemma CountMeansHolders(m: Machine, f: nat)
    requires CountOk(m, f)
    ensures Rc(m, f) >= 2 ==> |Holders(m, f)| == Rc(m, f)
    ensures Rc(m, f) <= 1 ==> |Holders(m, f)| <= 1
  {}

  // ---------- one entry at a time ----------

  /** Frame `f` belongs to the pool and nobody has it: not free, not mapped, not a table. */
  ghost predicate Unused(m: Machine, f: nat) {
    && InPool(m, f) && f !in m.free
    && (forall a, v :: !Maps(m, a, v, f))
    && (forall a, t :: !IsTable(m, a, t, f))
  }

  /** `CountOk` depends only on who maps the frame, its count, and writability. */
  lemma CountCarries(m: Machine, n: Machine, f: nat)
    requires CountOk(m, f) && Rc(n, f) == Rc(m, f)
    requires forall a, v :: Maps(m, a, v, f) <==> Maps(n, a, v, f)
    requires forall a, v :: Writes(n, a, v, f) ==> Writes(m, a, v, f)
    ensures CountOk(n, f)
  {
    SameHolders(m, n, f);
  }

  /** Entry `v` of space `a` becomes `d`; nothing else in the page tables changes. */
  ghost predicate EntrySet(m: Machine, n: Machine, a: nat, v: nat, d: Desc) {
    && a in m.spaces && n.spaces == m.spaces[a := m.spaces[a].(pt := m.spaces[a].pt[v := d])]
    && n.base == m.base && |n.mem| == |m.mem| && |n.rc| == |m.rc| && n.free == m.free && n.next == m.next
  }

  ghost predicate EntryCleared(m: Machine, n: Machine, a: nat, v: nat) {
    && a in m.spaces && n.spaces == m.spaces[a := m.spaces[a].(pt := m.spaces[a].pt - {v})]
    && n.base == m.base && |n.mem| == |m.mem| && |n.rc| == |m.rc| && n.free == m.free && n.next == m.next
  }

  lemma ClearedBase(m: Machine, n: Machine, a: nat, v: nat)
    requires Base(m) && EntryCleared(m, n, a, v)
    ensures Base(n)
    ensures forall b: nat, w: nat, f: nat :: Maps(n, b, w, f) <==> Maps(m, b, w, f) && (b, w) != (a, v)
    ensures forall b: nat, t: TableSlot, f: nat :: IsTable(n, b, t, f) <==> IsTable(m, b, t, f)
  {
    assert SpaceOk(m.spaces[a]);
    assert SpaceOk(n.spaces[a]);
    forall b: nat, w: nat, f: nat
      ensures Maps(n, b, w, f) <==> Maps(m, b, w, f) && (b, w) != (a, v)
    {
    }
    forall b: nat, t: TableSlot, f: nat
      ensures IsTable(n, b, t, f) <==> IsTable(m, b, t, f)
    {
    }
  }

  /** A new mapping of a frame that is in use only at the same page number elsewhere. */
  ghost predicate Mappable(m: Machine, v: nat, f: nat) {
    && InPool(m, f) && f !in m.free
    && (forall a, w :: Maps(m, a, w, f) ==> w == v)
    && (forall a, t :: !IsTable(m, a, t, f))
  }

  lemma SetBase(m: Machine, n: Machine, a: nat, v: nat, d: Desc)
    requires Base(m) && EntrySet(m, n, a, v, d)
    requires v < PER_TABLE * PER_TABLE && TableFor(v) in m.spaces[a].tables
    requires d.Map? ==> !(d.rw && d.cow)
    requires d.Map? && d.owner.Space? ==> Mappable(m, v, d.frame)
    ensures Base(n)
    ensures forall b: nat, w: nat, f: nat :: Maps(n, b, w, f) <==> if (b, w) == (a, v) then Owns(d, f) else Maps(m, b, w, f)
    ensures forall b: nat, t: TableSlot, f: nat :: IsTable(n, b, t, f) <==> IsTable(m, b, t, f)
  {
    assert SpaceOk(m.spaces[a]);
    assert SpaceOk(n.spaces[a]);
    forall b: nat, w: nat, f: nat
      ensures Maps(n, b, w, f) <==> if (b, w) == (a, v) then Owns(d, f) else Maps(m, b, w, f)
    {
    }
    forall b: nat, t: TableSlot, f: nat
      ensures IsTable(n, b, t, f) <==> IsTable(m, b, t, f)
    {
    }
  }

  // ---------- views ----------

  lemma ViewCarries(m: Machine, n: Machine, a: nat)
    requires a in m.spaces && a in n.spaces && n.spaces[a].pt == m.spaces[a].pt
    requires forall v, f :: Maps(m, a, v, f) ==> Frame(n, f) == Frame(m, f)
    ensures View(n, n.spaces[a]) == View(m, m.spaces[a])
  {
    var pt := m.spaces[a].pt;
    forall v | v in pt && Private(pt[v])
      ensures Seen(n, pt[v]) == Seen(m, pt[v])
    {
      if pt[v].Map? {
        assert Maps(m, a, v, pt[v].frame);
      }
    }
  }

  /** If no space changed and no mapped frame changed, nobody sees a difference. */
  lemma AbsCarries(m: Machine, n: Machine)
    requires n.spaces == m.spaces
    requires forall a, v, f :: Maps(m, a, v, f) ==> Frame(n, f) == Frame(m, f)
    ensures Abs(n) == Abs(m)
  {
    forall a | a in m.spaces
      ensures View(n, n.spaces[a]) == View(m, m.spaces[a])
    {
      ViewCarries(m, n, a);
    }
  }

  // ---------- the frame allocator ----------

  lemma FrameOfPut(m: Machine, f: nat, p: Page, g: nat)
    ensures Frame(PutFrame(m, f, p), g) == if g == f && InPool(m, f) then p else Frame(m, g)
  {}

  /** A frame handed out is zeroed and nobody else's; nobody sees a difference. It fails exactly
      when the free list is empty. */
  lemma AllocKeeps(m: Machine)
    requires Inv(m)
    ensures var (n, f) := Alloc(m);
      && Inv(n) && Abs(n) == Abs(m)
      && (f == 0 <==> m.free == [])
      && (f == 0 ==> n == m)
      && (f != 0 ==> Unused(n, f) && Rc(n, f) == 0 && Frame(n, f) == ZeroPage() && n.free == m.free[1..])
      && (forall g :: g != f ==> Frame(n, g) == Frame(m, g))
  {
    hide CountOk, View, Holders;
    var (n, f) := Alloc(m);
    if m.free != [] {
      assert f == m.free[0] && InPool(m, f) && f in m.free;
      forall g
        ensures Frame(n, g) == if g == f then ZeroPage() else Frame(m, g)
      {
        FrameOfPut(m.(free := m.free[1..]), f, ZeroPage(), g);
      }
      forall a, v, g
        ensures Maps(n, a, v, g) == Maps(m, a, v, g) && Writes(n, a, v, g) == Writes(m, a, v, g)
      {
      }
      forall a, t, g
        ensures IsTable(n, a, t, g) == IsTable(m, a, t, g)
      {
      }
      forall g
        ensures CountOk(n, g)
      {
        assert CountOk(m, g);
        CountCarries(m, n, g);
      }
      AbsCarries(m, n);
      UnmappedCount(m, f);
    }
  }

  lemma UnmappedCount(m: Machine, f: nat)
    requires CountOk(m, f) && forall a, v :: !Maps(m, a, v, f)
    ensures Rc(m, f) == 0
  {
    NoHolders(m, f);
  }

  /** Giving back an unused frame; only that frame's content changes. */
  lemma ReleaseKeeps(m: Machine, f: nat)
    requires Inv(m) && Unused(m, f)
    ensures var n := Release(m, f);
      Inv(n) && Abs(n) == Abs(m) && n.free == [f] + m.free && forall g :: g != f ==> Frame(n, g) == Frame(m, g)
  {
    hide CountOk, View, Holders;
    var n := Release(m, f);
    forall g
      ensures g != f ==> Frame(n, g) == Frame(m, g)
    {
      FrameOfPut(m, f, Frame(m, f)[0 := 4096 * Head(m.free)], g);
    }
    forall a, v, g
      ensures Maps(n, a, v, g) == Maps(m, a, v, g) && Writes(n, a, v, g) == Writes(m, a, v, g)
    {
    }
    forall a, t, g
      ensures IsTable(n, a, t, g) == IsTable(m, a, t, g)
    {
    }
    forall g
      ensures CountOk(n, g)
    {
      assert CountOk(m, g);
      CountCarries(m, n, g);
    }
    AbsCarries(m, n);
  }

  /** Counts are right for every frame but `f`. */
  ghost predicate CountsOkBut(m: Machine, f: nat) {
    forall g :: g != f ==> CountOk(m, g)
  }

  lemma ClearedCounts(m: Machine, n: Machine, a: nat, v: nat, f: nat)
    requires Inv(m) && EntryCleared(m, n, a, v) && n.rc == m.rc && Maps(m, a, v, f)
    ensures Base(n) && CountsOkBut(n, f)
    ensures |Holders(m, f)| == |Holders(n, f)| + 1
    ensures forall b, w :: Writes(n, b, w, f) ==> Writes(m, b, w, f)
    ensures forall b, t :: IsTable(n, b, t, f) ==> IsTable(m, b, t, f)
  {
    hide CountOk, Holders, Base;
    ClearedBase(m, n, a, v);
    forall g | g != f
      ensures CountOk(n, g)
    {
      assert CountOk(m, g);
      CountCarries(m, n, g);
    }
    OneMoreHolder(n, m, f, a, v);
  }

  /** Only the count of `f` changes. */
  lemma Recounted(m: Machine, n: Machine, f: nat)
    requires Base(m) && CountsOkBut(m, f)
    requires n.spaces == m.spaces && n.free == m.free && n.mem == m.mem && SameShape(m, n)
    requires forall g :: g != f ==> Rc(n, g) == Rc(m, g)
    requires CountOk(n, f)
    ensures Inv(n) && Abs(n) == Abs(m)
  {
    hide CountOk, Holders, View;
    forall a, v, g
      ensures Maps(n, a, v, g) == Maps(m, a, v, g) && Writes(n, a, v, g) == Writes(m, a, v, g)
    {
    }
    forall a, t, g
      ensures IsTable(n, a, t, g) == IsTable(m, a, t, g)
    {
    }
    forall g
      ensures CountOk(n, g)
    {
      if g != f {
        assert CountOk(m, g);
        CountCarries(m, n, g);
      }
    }
    AbsCarries(m, n);
  }

  lemma CountFrom(m: Machine, n: Machine, f: nat)
    requires n.spaces == m.spaces
    requires |Holders(m, f)| == 0 ==> Rc(n, f) == 0
    requires |Holders(m, f)| == 1 ==> Rc(n, f) <= 1
    requires |Holders(m, f)| >= 2 ==> Rc(n, f) == |Holders(m, f)|
    requires |Holders(m, f)| >= 2 ==> forall a, v :: !Writes(m, a, v, f)
    ensures CountOk(n, f)
  {
    forall a, v
      ensures Maps(n, a, v, f) == Maps(m, a, v, f) && Writes(n, a, v, f) == Writes(m, a, v, f)
    {
    }
    SameHolders(m, n, f);
  }

  /** The core of giving up a share: with the entry gone and the count one too high, dropping the
      reference restores the counts, and the frame is freed exactly when nobody else maps it. */
  lemma DropReference(m: Machine, f: nat)
    requires Base(m) && CountsOkBut(m, f) && InPool(m, f) && f !in m.free && f != 0
    requires forall a, t :: !IsTable(m, a, t, f)
    requires var h := |Holders(m, f)| + 1;
      (h == 1 ==> Rc(m, f) <= 1) && (h >= 2 ==> Rc(m, f) == h && forall a, v :: !Writes(m, a, v, f))
    ensures var n := DecAndFree(m, f);
      && Inv(n) && Abs(n) == Abs(m)
      && n.free == (if |Holders(m, f)| == 0 then [f] + m.free else m.free)
      && (forall g :: g != f ==> Frame(n, g) == Frame(m, g))
  {
    hide Holders, View, Base;
    if Rc(m, f) >= 2 {
      var n := Dec(m, f);
      assert Tracked(m, f);
      CountFrom(m, n, f);
      Recounted(m, n, f);
    } else {
      var n := if Rc(m, f) == 1 then SetRc(m, f, 0) else m;
      assert |Holders(m, f)| == 0;
      CountFrom(m, n, f);
      Recounted(m, n, f);
      assert Unused(n, f) by {
        forall a, v
          ensures !Maps(n, a, v, f)
        {
          if Maps(m, a, v, f) {
            SomeHolder(m, f, a, v);
          }
        }
        forall a, t
          ensures !IsTable(n, a, t, f)
        {
          assert !IsTable(m, a, t, f);
        }
      }
      ReleaseKeeps(n, f);
    }
  }

  // ---------- dropping an entry ----------

  /** `e` with page `v` of space `a` gone. */
  function Without(e: map<nat, SpaceView>, a: nat, v: nat): map<nat, SpaceView>
    requires a in e
  {
    e[a := e[a].(view := e[a].view - {v})]
  }

  lemma ClearedAbs(m: Machine, n: Machine, a: nat, v: nat)
    requires EntryCleared(m, n, a, v) && n.mem == m.mem
    ensures Abs(n) == Without(Abs(m), a, v)
  {
    var e := Without(Abs(m), a, v);
    forall b | b in n.spaces
      ensures Abs(n)[b] == e[b]
    {
      if b == a {
        assert View(n, n.spaces[a]) == View(m, m.spaces[a]) - {v};
      } else {
        assert View(n, n.spaces[b]) == View(m, m.spaces[b]);
      }
    }
    assert Abs(n).Keys == e.Keys;
  }

  lemma ClearedForeign(m: Machine, n: Machine, a: nat, v: nat)
    requires Inv(m) && EntryCleared(m, n, a, v) && n.rc == m.rc && n.mem == m.mem
    requires forall f :: !Maps(m, a, v, f)
    ensures Inv(n)
  {
    hide CountOk, Holders;
    ClearedBase(m, n, a, v);
    forall f
      ensures CountOk(n, f)
    {
      assert CountOk(m, f);
      CountCarries(m, n, f);
    }
  }

  /** Dropping a page: the invariant holds, exactly that page disappears from exactly that space,
      and its frame goes to the free list exactly when this space was its last holder. */
  lemma DropKeeps(m: Machine, a: nat, v: nat)
    requires Inv(m) && a in m.spaces
    ensures var n := Drop(m, a, v);
      && Inv(n) && Abs(n) == Without(Abs(m), a, v)
      && n.spaces == m.spaces[a := m.spaces[a].(pt := m.spaces[a].pt - {v})]
      && n.next == m.next
      && (forall f :: Maps(m, a, v, f) ==>
            n.free == if |Holders(m, f)| == 1 then [f] + m.free else m.free)
  {
    hide CountOk, Holders, View, Base;
    var pt := m.spaces[a].pt;
    if v !in pt {
      NothingToClear(m, a, v);
      WithoutAbsent(m, a, v);
    } else {
      var n1 := ClearEntry(m, a, v);
      ClearedAbs(m, n1, a, v);
      if pt[v].Map? && pt[v].owner.Space? {
        var f := pt[v].frame;
        assert Maps(m, a, v, f);
        ClearedCounts(m, n1, a, v, f);
        MappedFrame(m, a, v, f);
        DropFits(m, n1, f);
        DropReference(n1, f);
      } else {
        ClearedForeign(m, n1, a, v);
      }
    }
  }

  lemma NothingToClear(m: Machine, a: nat, v: nat)
    requires a in m.spaces && v !in m.spaces[a].pt
    ensures m.spaces[a := m.spaces[a].(pt := m.spaces[a].pt - {v})] == m.spaces
  {
    var without: map<nat, Desc> := m.spaces[a].pt - {v};
    assert without == m.spaces[a].pt;
  }

  lemma WithoutAbsent(m: Machine, a: nat, v: nat)
    requires a in m.spaces && v !in m.spaces[a].pt
    ensures Without(Abs(m), a, v) == Abs(m)
  {
    var view := Abs(m)[a].view;
    var less: map<nat, Entry> := view - {v};
    assert less == view;
    assert Abs(m)[a].(view := less) == Abs(m)[a];
  }

  lemma MappedFrame(m: Machine, a: nat, v: nat, f: nat)
    requires Base(m) && Maps(m, a, v, f)
    ensures InPool(m, f) && f !in m.free && f != 0
    ensures forall b, t :: !IsTable(m, b, t, f)
  {}

  lemma DropFits(m: Machine, n: Machine, f: nat)
    requires CountOk(m, f) && n.rc == m.rc && n.base == m.base
    requires |Holders(m, f)| == |Holders(n, f)| + 1
    requires forall b, w :: Writes(n, b, w, f) ==> Writes(m, b, w, f)
    ensures var h := |Holders(n, f)| + 1;
      (h == 1 ==> Rc(n, f) <= 1) && (h >= 2 ==> Rc(n, f) == h && forall a, v :: !Writes(n, a, v, f))
  {
    hide Holders;
  }

  /** Unmap on an entry that is present. */
  lemma UnmapKeeps(m: Machine, a: nat, v: nat)
    requires Inv(m) && a in m.spaces
    ensures var n := Unmap(m, a, v);
      && Inv(n)
      && Abs(n) == if v in m.spaces[a].pt && m.spaces[a].pt[v].Map? then Without(Abs(m), a, v) else Abs(m)
  {
    hide Inv, Abs;
    if v in m.spaces[a].pt && m.spaces[a].pt[v].Map? {
      DropKeeps(m, a, v);
    }
  }

  // ---------- sharing ----------

  /** `e` with page `v` of space `a` showing `x`. */
  function With(e: map<nat, SpaceView>, a: nat, v: nat, x: Entry): map<nat, SpaceView>
    requires a in e
  {
    e[a := e[a].(view := e[a].view[v := x])]
  }

  lemma SetAbs(m: Machine, n: Machine, a: nat, v: nat, d: Desc)
    requires EntrySet(m, n, a, v, d)
    requires forall b: nat, w: nat, f: nat :: Maps(m, b, w, f) && (b, w) != (a, v) ==> Frame(n, f) == Frame(m, f)
    ensures Abs(n) == if Private(d) then With(Abs(m), a, v, Seen(n, d)) else Without(Abs(m), a, v)
  {
    var e := if Private(d) then With(Abs(m), a, v, Seen(n, d)) else Without(Abs(m), a, v);
    forall b | b in n.spaces
      ensures Abs(n)[b] == e[b]
    {
      if b == a {
        SetView(m, n, a, v, d);
      } else {
        ViewCarries(m, n, b);
      }
    }
    assert Abs(n).Keys == e.Keys;
  }

  lemma SetView(m: Machine, n: Machine, a: nat, v: nat, d: Desc)
    requires EntrySet(m, n, a, v, d)
    requires forall w, f :: Maps(m, a, w, f) && w != v ==> Frame(n, f) == Frame(m, f)
    ensures View(n, n.spaces[a]) ==
            if Private(d) then View(m, m.spaces[a])[v := Seen(n, d)] else View(m, m.spaces[a]) - {v}
  {
    var pt := m.spaces[a].pt;
    forall w | w in pt && w != v && Private(pt[w])
      ensures Seen(n, pt[w]) == Seen(m, pt[w])
    {
      if pt[w].Map? {
        assert Maps(m, a, w, pt[w].frame);
      }
    }
  }

  /** Setting an entry that maps nothing of the space's own and held nothing of it. */
  lemma SetForeignKeeps(m: Machine, a: nat, v: nat, d: Desc)
    requires Inv(m) && a in m.spaces && v !in m.spaces[a].pt
    requires v < PER_TABLE * PER_TABLE && TableFor(v) in m.spaces[a].tables
    requires d.Guard? || (!d.owner.Space? && !(d.rw && d.cow))
    ensures var n := SetEntry(m, a, v, d);
      Inv(n) && Abs(n) == if d.Guard? then With(Abs(m), a, v, NoAccess) else Abs(m)
  {
    hide CountOk, Holders, View;
    var n := SetEntry(m, a, v, d);
    SetBase(m, n, a, v, d);
    forall f
      ensures CountOk(n, f)
    {
      assert CountOk(m, f);
      CountCarries(m, n, f);
    }
    SetAbs(m, n, a, v, d);
    WithoutAbsent(m, a, v);
  }

  /** Mapping an unused frame, privately and writable or not. */
  lemma SetFreshKeeps(m: Machine, a: nat, v: nat, d: Desc)
    requires Inv(m) && a in m.spaces && v !in m.spaces[a].pt
    requires v < PER_TABLE * PER_TABLE && TableFor(v) in m.spaces[a].tables
    requires d.Map? && d.owner.Space? && !d.cow && Unused(m, d.frame)
    ensures var n := SetEntry(m, a, v, d);
      Inv(n) && Abs(n) == With(Abs(m), a, v, Visible(Frame(m, d.frame), d.rw, d.exec))
  {
    hide CountOk, Holders, View, Abs;
    var n := SetEntry(m, a, v, d);
    SetBase(m, n, a, v, d);
    hide Base, Maps, Writes;
    FreshWrites(m, n, a, v, d);
    forall f
      ensures CountOk(n, f)
    {
      assert CountOk(m, f);
      if f == d.frame {
        FirstHolder(m, n, f, a, v);
      } else {
        CountCarries(m, n, f);
      }
    }
    SetAbs(m, n, a, v, d);
  }

  lemma FreshWrites(m: Machine, n: Machine, a: nat, v: nat, d: Desc)
    requires EntrySet(m, n, a, v, d) && v !in m.spaces[a].pt
    ensures forall b: nat, w: nat, f: nat :: Maps(m, b, w, f) ==> (b, w) != (a, v)
    ensures forall b: nat, w: nat, f: nat :: Writes(n, b, w, f) && !Owns(d, f) ==> Writes(m, b, w, f)
  {}

  lemma FirstHolder(m: Machine, n: Machine, f: nat, a: nat, v: nat)
    requires CountOk(m, f) && Rc(n, f) == Rc(m, f)
    requires forall b, w :: !Maps(m, b, w, f)
    requires forall b: nat, w: nat :: Maps(n, b, w, f) <==> (b, w) == (a, v)
    ensures CountOk(n, f) && Rc(n, f) == 0
  {
    NoHolders(m, f);
    OneMoreHolder(m, n, f, a, v);
  }

  lemma WithSame(e: map<nat, SpaceView>, a: nat, v: nat, x: Entry)
    requires a in e && v in e[a].view && e[a].view[v] == x
    ensures With(e, a, v, x) == e
  {
    assert e[a].view[v := x] == e[a].view;
  }

  /** The count a share must leave behind. */
  lemma ShareCount(m: Machine, n: Machine, f: nat)
    requires CountOk(m, f) && Tracked(n, f) && Rc(n, f) == Rc(m, f)
    requires |Holders(n, f)| == |Holders(m, f)| + 1 && |Holders(m, f)| >= 1
    requires |Holders(n, f)| < RC_LIMIT
    ensures Rc(Share(n, f), f) == |Holders(n, f)| >= 2
  {
    hide Holders;
  }

  lemma OnlyWriter(m: Machine, a: nat, v: nat, f: nat, b: nat, w: nat)
    requires CountOk(m, f) && Maps(m, a, v, f) && Writes(m, b, w, f)
    ensures (b, w) == (a, v)
  {
    if (b, w) != (a, v) {
      TwoHolders(m, f, a, v, b, w);
    }
  }

  /** Sharing one page with a child: the invariant holds, the child sees there what the parent
      sees, and nobody else sees a difference. */
  lemma ShareOneKeeps(m: Machine, src: nat, dst: nat, v: nat)
    requires Inv(m) && src in m.spaces && dst in m.spaces && src != dst && |m.spaces| < RC_LIMIT
    requires v in m.spaces[src].pt && m.spaces[src].pt[v].Map? && m.spaces[src].pt[v].owner.Space?
    requires v !in m.spaces[dst].pt && TableFor(v) in m.spaces[dst].tables
    ensures var n := ShareOne(m, src, dst, v);
      && Inv(n)
      && Abs(n) == With(Abs(m), dst, v, Abs(m)[src].view[v])
      && n.mem == m.mem && n.free == m.free && n.next == m.next
      && (forall a :: a in m.spaces ==> n.spaces[a].tables == m.spaces[a].tables)
      && (forall a :: a in m.spaces && a != dst ==> n.spaces[a].pt.Keys == m.spaces[a].pt.Keys)
      && (forall w :: w in m.spaces[src].pt && w != v ==> n.spaces[src].pt[w] == m.spaces[src].pt[w])
  {
    hide CountOk, Holders, View, Base, Abs;
    var d := m.spaces[src].pt[v];
    var f, d' := d.frame, SharedDesc(d);
    var n1 := SetEntry(m, dst, v, d');
    var n2 := SetEntry(n1, src, v, d');
    var n := Share(n2, f);
    assert Maps(m, src, v, f);
    ShareBase(m, n1, n2, src, dst, v);
    ShareCounts(m, n1, n2, src, dst, v);
    ShareAbs(m, n1, n2, src, dst, v);
    Recounted(n2, n, f);
  }

  /** The two entry updates of a share, before the count is raised. */
  ghost predicate Sharing(m: Machine, n1: Machine, n2: Machine, src: nat, dst: nat, v: nat) {
    && Inv(m) && src in m.spaces && dst in m.spaces && src != dst && |m.spaces| < RC_LIMIT
    && v in m.spaces[src].pt && m.spaces[src].pt[v].Map? && m.spaces[src].pt[v].owner.Space?
    && v !in m.spaces[dst].pt && TableFor(v) in m.spaces[dst].tables
    && n1 == SetEntry(m, dst, v, SharedDesc(m.spaces[src].pt[v]))
    && n2 == SetEntry(n1, src, v, SharedDesc(m.spaces[src].pt[v]))
  }

  lemma ShareBase(m: Machine, n1: Machine, n2: Machine, src: nat, dst: nat, v: nat)
    requires Sharing(m, n1, n2, src, dst, v)
    ensures Base(n1) && Base(n2)
    ensures forall b: nat, w: nat, g: nat :: Maps(n1, b, w, g) <==>
              if (b, w) == (dst, v) then g == m.spaces[src].pt[v].frame else Maps(m, b, w, g)
    ensures forall b: nat, w: nat, g: nat :: Maps(n2, b, w, g) <==> Maps(n1, b, w, g)
  {
    hide CountOk, Holders;
    var d := m.spaces[src].pt[v];
    assert Maps(m, src, v, d.frame);
    assert SpaceOk(m.spaces[src]);
    SetBase(m, n1, dst, v, SharedDesc(d));
    assert Maps(n1, src, v, d.frame);
    SetBase(n1, n2, src, v, SharedDesc(d));
  }

  lemma ShareCounts(m: Machine, n1: Machine, n2: Machine, src: nat, dst: nat, v: nat)
    requires Sharing(m, n1, n2, src, dst, v)
    ensures var f := m.spaces[src].pt[v].frame;
      CountsOkBut(n2, f) && CountOk(Share(n2, f), f)
  {
    hide CountOk, Holders, Base;
    var f := m.spaces[src].pt[v].frame;
    ShareBase(m, n1, n2, src, dst, v);
    assert Maps(m, src, v, f) && Maps(n2, src, v, f);
    assert InPool(m, f) by {
      MappedFrame(m, src, v, f);
    }
    assert Tracked(n2, f) by {
      PoolTracks(m, n2, f);
    }
    forall g | g != f
      ensures CountOk(n2, g)
    {
      assert CountOk(m, g);
      CountCarries(m, n2, g);
    }
    assert CountOk(m, f);
    assert !Maps(m, dst, v, f);
    OneMoreHolder(m, n1, f, dst, v);
    SameHolders(n1, n2, f);
    SomeHolder(m, f, src, v);
    BaseSameVa(n2);
    HoldersBounded(n2, f);
    assert n2.spaces.Keys == m.spaces.Keys;
    SameKeysCard(m, n2);
    ShareCount(m, n2, f);
    forall a, w
      ensures !Writes(n2, a, w, f)
    {
      if Writes(n2, a, w, f) {
        OnlyWriter(m, src, v, f, a, w);
      }
    }
    CountFrom(n2, Share(n2, f), f);
  }

  lemma PoolTracks(m: Machine, n: Machine, f: nat)
    requires Base(m) && InPool(m, f) && n.base == m.base && n.rc == m.rc
    ensures Tracked(n, f)
  {}

  lemma BaseSameVa(m: Machine)
    requires Base(m)
    ensures SameVa(m)
  {}

  lemma SameKeysCard(m: Machine, n: Machine)
    requires n.spaces.Keys == m.spaces.Keys
    ensures |n.spaces| == |m.spaces|
  {
    assert |m.spaces| == |m.spaces.Keys| && |n.spaces| == |n.spaces.Keys|;
  }

  lemma ShareAbs(m: Machine, n1: Machine, n2: Machine, src: nat, dst: nat, v: nat)
    requires Sharing(m, n1, n2, src, dst, v)
    ensures src in Abs(m) && v in Abs(m)[src].view && dst in Abs(m)
    ensures Abs(n2) == With(Abs(m), dst, v, Abs(m)[src].view[v])
  {
    hide CountOk, Holders, Base;
    var d := m.spaces[src].pt[v];
    var d' := SharedDesc(d);
    SetAbs(m, n1, dst, v, d');
    SetAbs(n1, n2, src, v, d');
    assert Seen(m, d) == Seen(n1, d') == Seen(n2, d');
    assert Abs(m)[src].view[v] == Seen(m, d);
    WithSame(With(Abs(m), dst, v, Seen(m, d)), src, v, Seen(m, d));
  }

  // ---------- write faults ----------

  /** Entry `v` is a read-only copy-on-write page. */
  predicate IsCow(m: Machine, a: nat, v: nat) {
    && a in m.spaces && v in m.spaces[a].pt
    && m.spaces[a].pt[v].Map? && m.spaces[a].pt[v].cow && !m.spaces[a].pt[v].rw
  }

  ghost predicate CowPage(m: Machine, a: nat, v: nat, f: nat) {
    Inv(m) && IsCow(m, a, v) && Maps(m, a, v, f)
  }

  /** The last holder takes the page over in place. */
  lemma TakeOver(m: Machine, a: nat, v: nat, f: nat)
    requires CowPage(m, a, v, f) && Rc(m, f) <= 1
    ensures var n := CowFault(m, a, v).0;
      && Inv(n) && Abs(n) == Abs(m) && n.free == m.free
      && n.spaces[a].pt[v] == Map(f, true, false, m.spaces[a].pt[v].exec, Space)
      && EntrySet(m, n, a, v, n.spaces[a].pt[v])
  {
    hide CountOk, Holders, Base, View, Abs;
    var n := CowFault(m, a, v).0;
    var d := Map(f, true, false, m.spaces[a].pt[v].exec, Space);
    MappedFrame(m, a, v, f);
    EntryPlace(m, a, v);
    MappableAgain(m, a, v, f);
    SetBase(m, n, a, v, d);
    forall g
      ensures CountOk(n, g)
    {
      assert CountOk(m, g);
      if g == f {
        SomeHolder(m, f, a, v);
        CountMeansHolders(m, f);
        SameHolders(m, n, f);
        SoleCount(n, f);
      } else {
        CountCarries(m, n, g);
      }
    }
    SetAbs(m, n, a, v, d);
    SeenThere(m, a, v);
    WithSame(Abs(m), a, v, Seen(n, d));
  }

  lemma SoleCount(n: Machine, f: nat)
    requires |Holders(n, f)| == 1 && Rc(n, f) <= 1
    ensures CountOk(n, f)
  {}

  lemma EntryPlace(m: Machine, a: nat, v: nat)
    requires Base(m) && a in m.spaces && v in m.spaces[a].pt
    ensures v < PER_TABLE * PER_TABLE && TableFor(v) in m.spaces[a].tables
  {
    assert SpaceOk(m.spaces[a]);
  }

  lemma MappableAgain(m: Machine, a: nat, v: nat, f: nat)
    requires Base(m) && Maps(m, a, v, f)
    ensures Mappable(m, v, f)
  {}

  lemma SeenThere(m: Machine, a: nat, v: nat)
    requires a in m.spaces && v in m.spaces[a].pt && Private(m.spaces[a].pt[v])
    ensures a in Abs(m) && v in Abs(m)[a].view && Abs(m)[a].view[v] == Seen(m, m.spaces[a].pt[v])
  {}

  /** Filling an unused frame concerns nobody. */
  lemma PutUnused(m: Machine, f: nat, p: Page)
    requires Inv(m) && Unused(m, f)
    ensures var n := PutFrame(m, f, p);
      Inv(n) && Abs(n) == Abs(m) && Unused(n, f) && Frame(n, f) == p
  {
    hide CountOk, Holders, View;
    var n := PutFrame(m, f, p);
    forall a, v, g
      ensures Maps(n, a, v, g) == Maps(m, a, v, g) && Writes(n, a, v, g) == Writes(m, a, v, g)
    {
    }
    forall a, t, g
      ensures IsTable(n, a, t, g) == IsTable(m, a, t, g)
    {
    }
    forall g
      ensures CountOk(n, g)
    {
      assert CountOk(m, g);
      CountCarries(m, n, g);
    }
    AbsCarries(m, n);
  }

  /** A holder moves from frame `f` to the unused frame `f2`, which holds the same bytes. */
  lemma MoveHolder(m: Machine, n: Machine, a: nat, v: nat, f: nat, f2: nat)
    requires CowPage(m, a, v, f) && Unused(m, f2) && Frame(m, f2) == Frame(m, f) && Rc(m, f) >= 2
    requires n == SetEntry(m, a, v, Map(f2, true, false, m.spaces[a].pt[v].exec, Space))
    ensures Inv(Dec(n, f)) && Abs(Dec(n, f)) == Abs(m)
  {
    hide CountOk, Holders, Base, View, Abs;
    var d := Map(f2, true, false, m.spaces[a].pt[v].exec, Space);
    assert f != f2;
    MappedFrame(m, a, v, f);
    EntryPlace(m, a, v);
    SetBase(m, n, a, v, d);
    MoveCounts(m, n, a, v, f, f2);
    SetAbs(m, n, a, v, d);
    SeenThere(m, a, v);
    WithSame(Abs(m), a, v, Seen(n, d));
    PoolTracks(m, n, f);
    Recounted(n, Dec(n, f), f);
  }

  lemma MoveCounts(m: Machine, n: Machine, a: nat, v: nat, f: nat, f2: nat)
    requires CountsOk(m) && Maps(m, a, v, f) && Rc(m, f) >= 2 && f2 != f && Tracked(n, f)
    requires n.rc == m.rc && n.base == m.base
    requires forall b, w :: !Maps(m, b, w, f2)
    requires forall b: nat, w: nat, g: nat :: Maps(n, b, w, g) <==> if (b, w) == (a, v) then g == f2 else Maps(m, b, w, g)
    requires forall b: nat, w: nat, g: nat :: Writes(n, b, w, g) && (b, w) != (a, v) ==> Writes(m, b, w, g)
    ensures CountsOkBut(n, f) && CountOk(Dec(n, f), f)
  {
    hide Holders;
    forall g | g != f
      ensures CountOk(n, g)
    {
      assert CountOk(m, g);
      if g == f2 {
        FirstHolder(m, n, f2, a, v);
      } else {
        CountCarries(m, n, g);
      }
    }
    assert CountOk(m, f);
    assert !Maps(n, a, v, f);
    OneMoreHolder(n, m, f, a, v);
    forall b, w
      ensures !Writes(n, b, w, f)
    {
      assert !Writes(m, b, w, f);
    }
    CountFrom(n, Dec(n, f), f);
  }

  /** A write fault is resolved exactly when the page is copy-on-write and either this space is
      its last holder or a frame is free; resolved or not, nobody sees a difference. */
  lemma CowFaultKeeps(m: Machine, a: nat, v: nat)
    requires Inv(m) && a in m.spaces
    requires v in m.spaces[a].pt ==> Private(m.spaces[a].pt[v])
    ensures var (n, ok) := CowFault(m, a, v);
      && Inv(n) && Abs(n) == Abs(m)
      && (ok <==> IsCow(m, a, v) && (Rc(m, m.spaces[a].pt[v].frame) <= 1 || m.free != []))
      && (ok ==> n.spaces[a].pt[v].rw && n.spaces[a].pt[v].owner.Space?)
      && (!ok ==> n == m)
  {
    hide CountOk, Holders, Base, View, Abs;
    if IsCow(m, a, v) {
      var d := m.spaces[a].pt[v];
      var f := d.frame;
      assert Maps(m, a, v, f);
      AllocKeeps(m);
      if Rc(m, f) <= 1 {
        TakeOver(m, a, v, f);
      } else if m.free != [] {
        var (n1, f2) := Alloc(m);
        var n2 := PutFrame(n1, f2, Frame(n1, f));
        assert Maps(n1, a, v, f);
        assert f != f2;
        PutUnused(n1, f2, Frame(n1, f));
        FrameOfPut(n1, f2, Frame(n1, f), f);
        assert Maps(n2, a, v, f) && IsCow(n2, a, v);
        MoveHolder(n2, SetEntry(n2, a, v, Map(f2, true, false, d.exec, Space)), a, v, f, f2);
      }
    }
  }

  // ---------- user stores ----------

  /** A write through a writable mapping changes one page of one space. */
  lemma WriteKeeps(m: Machine, a: nat, v: nat, f: nat, p: Page)
    requires Inv(m) && Writes(m, a, v, f)
    ensures var n := PutFrame(m, f, p);
      Inv(n) && Abs(n) == With(Abs(m), a, v, Visible(p, true, m.spaces[a].pt[v].exec))
  {
    hide CountOk, Holders, View, Base;
    var n := PutFrame(m, f, p);
    forall b, w, g
      ensures Maps(n, b, w, g) == Maps(m, b, w, g) && Writes(n, b, w, g) == Writes(m, b, w, g)
    {
    }
    forall b, t, g
      ensures IsTable(n, b, t, g) == IsTable(m, b, t, g)
    {
    }
    BaseOfContent(m, f, p);
    forall g
      ensures CountOk(n, g)
    {
      assert CountOk(m, g);
      CountCarries(m, n, g);
    }
    assert CountOk(m, f);
    forall b: nat, w: nat, g: nat | Maps(m, b, w, g) && (b, w) != (a, v)
      ensures Frame(n, g) == Frame(m, g)
    {
      if g == f {
        OnlyWriter(m, b, w, f, a, v);
      }
    }
    MappedFrame(m, a, v, f);
    var d := m.spaces[a].pt[v];
    SelfSet(m, n, a, v);
    SetAbs(m, n, a, v, d);
  }

  lemma BaseOfContent(m: Machine, f: nat, p: Page)
    requires Base(m)
    ensures Base(PutFrame(m, f, p))
  {
    var n := PutFrame(m, f, p);
    forall b, w, g
      ensures Maps(n, b, w, g) == Maps(m, b, w, g)
    {
    }
    forall b, t, g
      ensures IsTable(n, b, t, g) == IsTable(m, b, t, g)
    {
    }
  }

  lemma SelfSet(m: Machine, n: Machine, a: nat, v: nat)
    requires a in m.spaces && v in m.spaces[a].pt && n.spaces == m.spaces && n.free == m.free && SameShape(m, n)
    ensures EntrySet(m, n, a, v, m.spaces[a].pt[v])
  {
    assert m.spaces[a].pt[v := m.spaces[a].pt[v]] == m.spaces[a].pt;
    assert m.spaces[a := m.spaces[a]] == m.spaces;
  }

  /** What the space sees at `v` is a page it may write. */
  predicate CanWrite(e: map<nat, SpaceView>, a: nat, v: nat) {
    a in e && v in e[a].view && e[a].view[v].Visible? && e[a].view[v].writable
  }

  /** The word `w` of page `v` of space `a` set to `x`, where it can be written. */
  function Stored(e: map<nat, SpaceView>, a: nat, v: nat, w: nat, x: nat): map<nat, SpaceView> {
    if CanWrite(e, a, v) && w < WORDS then With(e, a, v, e[a].view[v].(data := e[a].view[v].data[w := x])) else e
  }

  /** No frame is needed to make `v` writable, or one is free. */
  predicate FrameAtHand(m: Machine, a: nat, v: nat) {
    a in m.spaces && v in m.spaces[a].pt && m.spaces[a].pt[v].Map?
    && (m.spaces[a].pt[v].rw || Rc(m, m.spaces[a].pt[v].frame) <= 1 || m.free != [])
  }

  /** A page is made writable exactly when it is logically writable and a frame is at hand if one
      is needed; nobody sees a difference either way. */
  lemma MakeWritableKeeps(m: Machine, a: nat, v: nat)
    requires Inv(m) && a in m.spaces
    requires v in m.spaces[a].pt ==> Private(m.spaces[a].pt[v])
    ensures var (n, ok) := MakeWritable(m, a, v);
      && Inv(n) && Abs(n) == Abs(m)
      && (ok <==> CanWrite(Abs(m), a, v) && FrameAtHand(m, a, v))
      && (ok ==> n.spaces[a].pt[v].rw && n.spaces[a].pt[v].owner.Space?)
  {
    hide CountOk, Holders, View, Base, Abs;
    if v in m.spaces[a].pt {
      CowFaultKeeps(m, a, v);
      SeenThere(m, a, v);
      if m.spaces[a].pt[v].Map? {
        RwNotCow(m, a, v);
      }
    } else {
      NotSeen(m, a, v);
    }
  }

  lemma RwNotCow(m: Machine, a: nat, v: nat)
    requires Base(m) && a in m.spaces && v in m.spaces[a].pt && m.spaces[a].pt[v].Map?
    ensures !(m.spaces[a].pt[v].rw && m.spaces[a].pt[v].cow)
  {
    assert SpaceOk(m.spaces[a]);
  }

  lemma NotSeen(m: Machine, a: nat, v: nat)
    requires a in m.spaces && v !in m.spaces[a].pt
    ensures !CanWrite(Abs(m), a, v)
  {}

  /** A store lands exactly under those conditions; then it changes that word of that space's page
      and nothing anyone else sees; otherwise it changes nothing. */
  lemma StoreKeeps(m: Machine, a: nat, v: nat, w: nat, x: nat)
    requires Inv(m) && a in m.spaces && w < WORDS
    requires v in m.spaces[a].pt ==> Private(m.spaces[a].pt[v])
    ensures var (n, ok) := Store(m, a, v, w, x);
      && Inv(n)
      && (ok <==> CanWrite(Abs(m), a, v) && FrameAtHand(m, a, v))
      && Abs(n) == if ok then Stored(Abs(m), a, v, w, x) else Abs(m)
  {
    hide CountOk, Holders, View, Base, Abs;
    var (n1, ok) := MakeWritable(m, a, v);
    MakeWritableKeeps(m, a, v);
    if ok {
      var d := n1.spaces[a].pt[v];
      assert Writes(n1, a, v, d.frame);
      SeenThere(n1, a, v);
      WriteKeeps(n1, a, v, d.frame, Frame(n1, d.frame)[w := x]);
    }
  }

  // ---------- tables ----------

  /** `e` and `e'` agree on every space but `a`. */
  ghost predicate SameBut(e: map<nat, SpaceView>, e': map<nat, SpaceView>, a: nat) {
    e'.Keys == e.Keys && forall b :: b in e && b != a ==> e'[b] == e[b]
  }

  lemma PutTable(m: Machine, a: nat, t: TableSlot, f: nat)
    requires Inv(m) && a in m.spaces && Unused(m, f) && t.L3? && t.index < PER_TABLE
    requires t !in m.spaces[a].tables
    ensures var n := PutSpace(m, a, m.spaces[a].(tables := m.spaces[a].tables[t := f]));
      Inv(n) && Abs(n) == Abs(m) && forall g :: Unused(m, g) && g != f ==> Unused(n, g)
  {
    hide CountOk, Holders, View;
    var n := PutSpace(m, a, m.spaces[a].(tables := m.spaces[a].tables[t := f]));
    assert SpaceOk(m.spaces[a]);
    assert SpaceOk(n.spaces[a]);
    forall b, w, g
      ensures Maps(n, b, w, g) == Maps(m, b, w, g) && Writes(n, b, w, g) == Writes(m, b, w, g)
    {
    }
    forall b: nat, u: TableSlot, g: nat
      ensures IsTable(n, b, u, g) <==> if b == a && u == t then g == f else IsTable(m, b, u, g)
    {
    }
    forall g
      ensures CountOk(n, g)
    {
      assert CountOk(m, g);
      CountCarries(m, n, g);
    }
    TablesOnly(m, n);
  }

  /** Table pages are not part of what a space sees. */
  lemma TablesOnly(m: Machine, n: Machine)
    requires n.spaces.Keys == m.spaces.Keys && n.base == m.base && n.mem == m.mem
    requires forall b :: b in m.spaces ==> n.spaces[b].pt == m.spaces[b].pt && n.spaces[b].users == m.spaces[b].users
    ensures Abs(n) == Abs(m)
  {
    forall b | b in m.spaces
      ensures View(n, n.spaces[b]) == View(m, m.spaces[b])
    {
    }
  }

  lemma NeedTableKeeps(m: Machine, a: nat, v: nat)
    requires Inv(m) && a in m.spaces && v < PER_TABLE * PER_TABLE
    ensures var (n, ok) := NeedTable(m, a, v);
      && Inv(n) && Abs(n) == Abs(m) && n.next == m.next
      && (if ok then TableFor(v) in n.spaces[a].tables else n == m && m.free == [])
      && (forall f :: Unused(m, f) ==> Unused(n, f) && Frame(n, f) == Frame(m, f))
      && (forall b :: b in m.spaces && b != a ==> n.spaces[b] == m.spaces[b])
  {
    hide CountOk, Holders, View, Base, Abs;
    if TableFor(v) !in m.spaces[a].tables {
      AllocKeeps(m);
      var (n1, f) := Alloc(m);
      if f != 0 {
        assert f in m.free;
        forall g | Unused(m, g)
          ensures Unused(n1, g) && g != f
        {
          StillUnused(m, n1, g);
        }
        PutTable(n1, a, TableFor(v), f);
      }
    }
  }

  lemma StillUnused(m: Machine, n: Machine, g: nat)
    requires Unused(m, g) && n.spaces == m.spaces && SameShape(m, n) && (forall x :: x in n.free ==> x in m.free)
    ensures Unused(n, g)
  {
    forall a, v
      ensures !Maps(n, a, v, g)
    {
      assert !Maps(m, a, v, g);
    }
    forall a, t
      ensures !IsTable(n, a, t, g)
    {
      assert !IsTable(m, a, t, g);
    }
  }

  /** A table page that covers no entry goes back to the free list. */
  lemma FreeTableKeeps(m: Machine, a: nat, i: nat)
    requires Inv(m) && a in m.spaces && L3(i) in m.spaces[a].tables
    requires forall v :: v in m.spaces[a].pt ==> TableFor(v) != L3(i)
    ensures var n := FreeTable(m, a, L3(i));
      && Inv(n) && Abs(n) == Abs(m) && n.next == m.next
      && n.spaces == m.spaces[a := m.spaces[a].(tables := m.spaces[a].tables - {L3(i)})]
  {
    hide CountOk, Holders, View;
    var f := m.spaces[a].tables[L3(i)];
    var n1 := PutSpace(m, a, m.spaces[a].(tables := m.spaces[a].tables - {L3(i)}));
    assert IsTable(m, a, L3(i), f);
    assert SpaceOk(m.spaces[a]);
    assert SpaceOk(n1.spaces[a]);
    forall b, w, g
      ensures Maps(n1, b, w, g) == Maps(m, b, w, g) && Writes(n1, b, w, g) == Writes(m, b, w, g)
    {
    }
    forall b: nat, u: TableSlot, g: nat
      ensures IsTable(n1, b, u, g) <==> IsTable(m, b, u, g) && !(b == a && u == L3(i))
    {
    }
    forall g
      ensures CountOk(n1, g)
    {
      assert CountOk(m, g);
      CountCarries(m, n1, g);
    }
    TablesOnly(m, n1);
    assert Unused(n1, f);
    ReleaseKeeps(n1, f);
  }
}

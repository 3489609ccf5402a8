/** Frames of the program loader (kernel/core/elf.c): how many suffice for a load, and which ones a
    load leaves in no place: those whose mapping failed and those whose entry was overwritten. */
module ElfFrames {
  import opened Bytes
  import opened Options
  import opened CStrings
  import opened InitStack
  import opened ElfImage

  // ---------- frames enough ----------

  lemma AllocCount(l: Loader)
    requires Sound(l) && l.free != []
    ensures Alloc(l).1 != 0 && |Alloc(l).0.free| == |l.free| - 1 && Sound(Alloc(l).0)
  {
    AllocKeeps(l);
  }

  lemma NeedTableCount(l: Loader, q: nat)
    requires Sound(l) && l.free != []
    ensures NeedTable(l, q).1 && |NeedTable(l, q).0.free| >= |l.free| - 1
  {}

  /** In the user range one frame and perhaps one for a table map a page. */
  lemma MapPageCount(l: Loader, va: nat, f: nat)
    requires Sound(l) && l.free != [] && USER_VA_BASE <= va && va + PAGE_SIZE <= USER_VA_END
    ensures MapPage(l, va, f).1 && |MapPage(l, va, f).0.free| >= |l.free| - 1
  {
    hide Sound, NeedTable, Slot;
    NeedTableCount(l, Slot(va));
  }

  predicate InUser(s: Segment) {
    s.kind == PT_LOAD ==> USER_VA_BASE <= s.vaddr
  }

  function PageCount(s: Segment): nat {
    if s.kind == PT_LOAD then Pages(s) else 0
  }

  lemma PageVaInRange(s: Segment, k: nat)
    requires Placed(s) && s.kind == PT_LOAD && InUser(s) && k < Pages(s)
    ensures USER_VA_BASE <= PageVa(s, k) && PageVa(s, k) + PAGE_SIZE <= USER_VA_END
  {
    PlacedPages(s, k);
  }

  lemma {:induction false} LoadPagesCount(l: Loader, data: seq<byte>, s: Segment, k: nat)
    requires Sound(l) && Placed(s) && s.kind == PT_LOAD && InUser(s) && k <= Pages(s)
    requires |l.free| >= 2 * (Pages(s) - k)
    ensures var (n, ok) := LoadPages(l, data, s, k);
      ok && Sound(n) && |n.free| >= |l.free| - 2 * (Pages(s) - k)
    decreases Pages(s) - k
  {
    hide Sound, Fresh, Shows, Slot, MapPage, PageBytes, Pages, PageVa, Placed, Alloc;
    if k < Pages(s) {
      AllocKeeps(l);
      AllocCount(l);
      PageVaInRange(s, k);
      var (l1, f) := Alloc(l);
      var va, bytes := PageVa(s, k), PageBytes(data, s, PageVa(s, k));
      FillFresh(l1, f, bytes);
      var filled := l1.(mem := l1.mem[f := bytes]);
      MapPageCount(filled, va, f);
      MapPageKeeps(filled, va, f);
      LoadPagesCount(MapPage(filled, va, f).0, data, s, k + 1);
    }
  }

  function TotalPages(segs: seq<Segment>, i: nat): nat
    requires i <= |segs|
    decreases |segs| - i
  {
    if i == |segs| then 0 else PageCount(segs[i]) + TotalPages(segs, i + 1)
  }

  ghost predicate AllInUser(segs: seq<Segment>) {
    forall i: nat :: i < |segs| ==> InUser(segs[i])
  }

  lemma {:induction false} LoadSegmentsCount(l: Loader, data: seq<byte>, segs: seq<Segment>, i: nat, seen: bool)
    requires Sound(l) && AllPlaced(segs) && AllInUser(segs) && i <= |segs| && |l.free| >= 2 * TotalPages(segs, i)
    requires seen || TotalPages(segs, i) > 0
    ensures var (n, ok) := LoadSegments(l, data, segs, i, seen);
      ok && Sound(n) && |n.free| >= |l.free| - 2 * TotalPages(segs, i)
    decreases |segs| - i
  {
    hide Sound, LoadPages, Pages, Placed, InUser;
    if i < |segs| {
      if segs[i].kind != PT_LOAD || Pages(segs[i]) == 0 {
        LoadSegmentsCount(l, data, segs, i + 1, seen);
      } else {
        LoadPagesCount(l, data, segs[i], 0);
        LoadSegmentsCount(LoadPages(l, data, segs[i], 0).0, data, segs, i + 1, true);
      }
    }
  }

  lemma {:induction false} StackPagesCount(l: Loader, k: nat, top: nat)
    requires Sound(l) && k <= USER_STACK_PAGES && |l.free| >= 2 * (USER_STACK_PAGES - k) && (k == USER_STACK_PAGES ==> top != 0)
    ensures var (n, t) := StackPages(l, k, top);
      t != 0 && |n.free| >= |l.free| - 2 * (USER_STACK_PAGES - k) && Sound(n)
    decreases USER_STACK_PAGES - k
  {
    hide Sound, Fresh, Shows, Slot, MapPage, Alloc;
    if k < USER_STACK_PAGES {
      AllocKeeps(l);
      AllocCount(l);
      var (l1, f) := Alloc(l);
      var va := STACK_BOTTOM + k * PAGE_SIZE;
      MapPageCount(l1, va, f);
      MapPageKeeps(l1, va, f);
      StackPagesCount(MapPage(l1, va, f).0, k + 1, f);
    }
  }

  /** Sound headers in the user range load if there are two frames for each of their pages and each
      of the stack's, and one more, and the arguments fit. */
  lemma LoadSucceeds(l: Loader, data: seq<byte>, segs: seq<Segment>, argv: seq<CString>)
    requires Sound(l) && AllPlaced(segs) && AllInUser(segs) && Fits(argv) && TotalPages(segs, 0) > 0
    requires |l.free| >= 2 * TotalPages(segs, 0) + 2 * USER_STACK_PAGES + 1
    ensures LoadImage(l, data, segs, argv).1
  {
    hide Sound, LoadSegments, StackPages, Fits, Frame, TotalPages, NeedTable, AllPlaced, AllInUser;
    LoadSegmentsCount(l, data, segs, 0, false);
    var l1 := LoadSegments(l, data, segs, 0, false).0;
    StackPagesCount(l1, 0, 0);
    NeedTableCount(StackPages(l1, 0, 0).0, Slot(STACK_GUARD_VA));
  }

  /** Two sound headers that share a page, on any loader with frames enough: the load succeeds, the
      file has a 1 for the first byte of the first segment, and the program reads 0 there. */
  lemma SpoiledPage(l: Loader, data: seq<byte>)
    requires Sound(l) && |l.free| >= 37 && |data| == 0x2000 && data[0x1000] == 1
    ensures var segs := [Segment(PT_LOAD, 0x1000, 0x10_0010_0000, 16, 16), Segment(PT_LOAD, 0x1800, 0x10_0010_0800, 16, 16)];
      var (n, ok) := LoadImage(l, data, segs, []);
      && AllPlaced(segs) && AllInFile(|data|, segs) && !Agree(segs)
      && ok && InSegment(segs, 0, 0x10_0010_0000) && Promised(data, segs[0], 0x10_0010_0000) == 1
      && UserByte(n, 0x10_0010_0000) == Some(0)
  {
    var segs := [Segment(PT_LOAD, 0x1000, 0x10_0010_0000, 16, 16), Segment(PT_LOAD, 0x1800, 0x10_0010_0800, 16, 16)];
    var va := 0x10_0010_0000;
    SharedHeaders();
    TwoPages();
    NoArguments();
    hide LoadImage, Sound, Fits;
    LoadSucceeds(l, data, segs, []);
    ReadAndPromised(l, data, segs, [], 0, va);
    assert Source(segs[1], va) == None;
  }

  lemma TwoPages()
    ensures var segs := [Segment(PT_LOAD, 0x1000, 0x10_0010_0000, 16, 16), Segment(PT_LOAD, 0x1800, 0x10_0010_0800, 16, 16)];
      TotalPages(segs, 0) == 2 && AllInUser(segs)
  {
    var segs := [Segment(PT_LOAD, 0x1000, 0x10_0010_0000, 16, 16), Segment(PT_LOAD, 0x1800, 0x10_0010_0800, 16, 16)];
    assert Pages(segs[0]) == 1 && Pages(segs[1]) == 1;
    assert TotalPages(segs, 2) == 0;
    assert TotalPages(segs, 1) == 1;
  }

  lemma NoArguments()
    ensures Fits([])
  {
    assert Strings([]) == [];
  }

  // ---------- frames lost ----------

  /** What mapping the new frame `f` at `va` leaves in no place: the frame itself if the mapping
      fails, else the frame that was mapped there. */
  function PageLost(l: Loader, va: nat, f: nat): seq<nat> {
    if !MapPage(l, va, f).1 then [f] else if Slot(va) in l.pt then [l.pt[Slot(va)]] else []
  }

  function PagesLost(l: Loader, data: seq<byte>, s: Segment, k: nat): seq<nat>
    requires k <= Pages(s)
    decreases Pages(s) - k
  {
    if k == Pages(s) then []
    else
      var (l1, f) := Alloc(l);
      if f == 0 then []
      else
        var filled := l1.(mem := l1.mem[f := PageBytes(data, s, PageVa(s, k))]);
        var (l2, ok) := MapPage(filled, PageVa(s, k), f);
        PageLost(filled, PageVa(s, k), f) + if ok then PagesLost(l2, data, s, k + 1) else []
  }

  function SegmentsLost(l: Loader, data: seq<byte>, segs: seq<Segment>, i: nat): seq<nat>
    requires i <= |segs|
    decreases |segs| - i
  {
    if i == |segs| then []
    else if segs[i].kind != PT_LOAD || Pages(segs[i]) == 0 then SegmentsLost(l, data, segs, i + 1)
    else
      var (n, ok) := LoadPages(l, data, segs[i], 0);
      PagesLost(l, data, segs[i], 0) + if ok then SegmentsLost(n, data, segs, i + 1) else []
  }

  function StackLost(l: Loader, k: nat): seq<nat>
    requires k <= USER_STACK_PAGES
    decreases USER_STACK_PAGES - k
  {
    if k == USER_STACK_PAGES then []
    else
      var (l1, f) := Alloc(l);
      if f == 0 then []
      else
        var (l2, ok) := MapPage(l1, STACK_BOTTOM + k * PAGE_SIZE, f);
        PageLost(l1, STACK_BOTTOM + k * PAGE_SIZE, f) + if ok then StackLost(l2, k + 1) else []
  }

  function GuardLost(l: Loader, va: nat): seq<nat> {
    if Guard(l, va).1 && Slot(va) in l.pt then [l.pt[Slot(va)]] else []
  }

  /** Everything a load leaves in no place, in the order it happens. */
  function ImageLost(l: Loader, data: seq<byte>, segs: seq<Segment>, argv: seq<CString>): seq<nat> {
    var (l1, ok) := LoadSegments(l, data, segs, 0, false);
    SegmentsLost(l, data, segs, 0) +
    if !ok then []
    else
      var (l2, top) := StackPages(l1, 0, 0);
      StackLost(l1, 0) + if top == 0 then [] else GuardLost(l2, STACK_GUARD_VA)
  }

  /** Exactly the frames `lost` have come to be in no place. */
  ghost predicate Loses(l: Loader, n: Loader, lost: seq<nat>) {
    forall f: nat :: Fresh(n, f) <==> Fresh(l, f) || f in lost
  }

  lemma LosesThen(l: Loader, m: Loader, n: Loader, a: seq<nat>, b: seq<nat>)
    requires Loses(l, m, a) && Loses(m, n, b)
    ensures Loses(l, n, a + b)
  {
    hide Fresh;
  }

  lemma LosesNothing(l: Loader)
    ensures Loses(l, l, [])
  {}

  /** Taking a frame off the list puts it nowhere for the moment. */
  lemma AllocLoses(l: Loader)
    requires Sound(l)
    ensures var (n, f) := Alloc(l); Loses(l, n, if l.free == [] then [] else [f])
  {
    if l.free != [] {
      var (n, f) := Alloc(l);
      AllocKeeps(l);
      forall g: nat
        ensures Fresh(n, g) <==> Fresh(l, g) || g == f
      {
        assert g in l.free <==> g == l.free[0] || g in l.free[1..];
      }
    }
  }

  lemma TableLoses(l: Loader, q: nat)
    requires Sound(l)
    ensures Loses(l, NeedTable(l, q).0, [])
  {
    if q / 512 !in l.tables && l.free != [] {
      var (n, f) := Alloc(l);
      AllocKeeps(l);
      AllocLoses(l);
      AllocTables(l);
      var t := n.(tables := n.tables[q / 512 := f]);
      assert t == NeedTable(l, q).0;
      forall g: nat
        ensures Fresh(t, g) <==> Fresh(l, g)
      {
        TablePlaces(n, t, q / 512, f, g);
        assert Fresh(n, g) <==> Fresh(l, g) || g in [f];
        NotFresh(l, f);
      }
    }
  }

  lemma NotFresh(l: Loader, f: nat)
    requires f in l.free
    ensures !Fresh(l, f)
  {}

  lemma TablePlaces(n: Loader, t: Loader, i: nat, f: nat, g: nat)
    requires i !in n.tables && t == n.(tables := n.tables[i := f])
    ensures Fresh(t, g) <==> Fresh(n, g) && g != f
  {
    if Fresh(t, g) {
      assert t.tables[i] == f;
      forall j | j in n.tables
        ensures n.tables[j] != g
      {
        assert t.tables[j] == n.tables[j];
      }
    }
  }

  /** Mapping the fresh frame `f`: it is placed, and what was mapped there is not any more. */
  lemma PutPlaces(n: Loader, q: nat, f: nat, g: nat)
    requires Sound(n) && Fresh(n, f)
    ensures var t := n.(pt := n.pt[q := f], guards := n.guards - {q});
      Fresh(t, g) <==> (Fresh(n, g) && g != f) || (q in n.pt && g == n.pt[q])
  {
    var t := n.(pt := n.pt[q := f], guards := n.guards - {q});
    if Fresh(t, g) && !(q in n.pt && g == n.pt[q]) {
      assert t.pt[q] == f;
      forall r | r in n.pt
        ensures n.pt[r] != g
      {
        if r != q {
          assert t.pt[r] == n.pt[r];
        }
      }
    }
  }

  lemma MapPageLoses(l: Loader, va: nat, f: nat)
    requires Sound(l) && Fresh(l, f) && f in l.mem
    ensures forall g: nat :: Fresh(MapPage(l, va, f).0, g) <==> (Fresh(l, g) && g != f) || g in PageLost(l, va, f)
  {
    hide Sound, Fresh, Slot, NeedTable;
    if !(va < USER_VA_BASE || (va + PAGE_SIZE) % U64 > USER_VA_END) {
      NeedTableKeeps(l, Slot(va));
      TableLoses(l, Slot(va));
      var (n, ok) := NeedTable(l, Slot(va));
      if ok {
        forall g: nat
          ensures Fresh(MapPage(l, va, f).0, g) <==> (Fresh(l, g) && g != f) || g in PageLost(l, va, f)
        {
          PutPlaces(n, Slot(va), f, g);
        }
      }
    }
  }

  /** One page: of the frame taken and the frame replaced, one is left in no place or none. */
  lemma AllocMapLoses(l: Loader, va: nat, bytes: BytePage)
    requires Sound(l) && l.free != []
    ensures var (l1, f) := Alloc(l);
      var filled := l1.(mem := l1.mem[f := bytes]);
      f != 0 && Sound(filled) && Fresh(filled, f) && Sound(MapPage(filled, va, f).0) && Loses(l, MapPage(filled, va, f).0, PageLost(filled, va, f))
  {
    hide Sound, MapPage, PageLost, Slot, Shows;
    AllocKeeps(l);
    AllocLoses(l);
    AllocCount(l);
    var (l1, f) := Alloc(l);
    FillFresh(l1, f, bytes);
    var filled := l1.(mem := l1.mem[f := bytes]);
    MapPageKeeps(filled, va, f);
    MapPageLoses(filled, va, f);
    SamePlacesFresh(l1, filled);
    HeadPlaced(l);
  }

  lemma HeadPlaced(l: Loader)
    requires l.free != []
    ensures !Fresh(l, l.free[0]) && Alloc(l).1 == l.free[0]
  {}

  lemma SamePlacesFresh(l: Loader, n: Loader)
    requires SamePlaces(l, n)
    ensures forall g: nat :: Fresh(n, g) <==> Fresh(l, g)
  {}

  lemma {:induction false} LoadPagesLoses(l: Loader, data: seq<byte>, s: Segment, k: nat)
    requires Sound(l) && k <= Pages(s)
    ensures var n := LoadPages(l, data, s, k).0; Sound(n) && Loses(l, n, PagesLost(l, data, s, k))
    decreases Pages(s) - k
  {
    hide Sound, Fresh, MapPage, PageLost, Pages, PageVa, PageBytes, Alloc, Loses;
    LosesNothing(l);
    NoFrame(l);
    if k < Pages(s) && l.free != [] {
      var bytes := PageBytes(data, s, PageVa(s, k));
      AllocMapLoses(l, PageVa(s, k), bytes);
      var (l1, f) := Alloc(l);
      var filled := l1.(mem := l1.mem[f := bytes]);
      var (l2, ok) := MapPage(filled, PageVa(s, k), f);
      var lost := PageLost(filled, PageVa(s, k), f);
      if ok {
        LoadPagesLoses(l2, data, s, k + 1);
        LosesThen(l, l2, LoadPages(l2, data, s, k + 1).0, lost, PagesLost(l2, data, s, k + 1));
      } else {
        assert lost + [] == lost;
      }
    }
  }

  lemma NoFrame(l: Loader)
    ensures l.free == [] ==> Alloc(l) == (l, 0)
  {}

  lemma {:induction false} LoadSegmentsLoses(l: Loader, data: seq<byte>, segs: seq<Segment>, i: nat, seen: bool)
    requires Sound(l) && i <= |segs|
    ensures var n := LoadSegments(l, data, segs, i, seen).0; Sound(n) && Loses(l, n, SegmentsLost(l, data, segs, i))
    decreases |segs| - i
  {
    hide Sound, Pages, LoadPages, PagesLost, Loses;
    if i == |segs| {
      LosesNothing(l);
    } else if segs[i].kind != PT_LOAD || Pages(segs[i]) == 0 {
      LoadSegmentsLoses(l, data, segs, i + 1, seen);
    } else {
      LoadPagesLoses(l, data, segs[i], 0);
      var (n, ok) := LoadPages(l, data, segs[i], 0);
      var lost := PagesLost(l, data, segs[i], 0);
      if ok {
        LoadSegmentsLoses(n, data, segs, i + 1, true);
        LosesThen(l, n, LoadSegments(n, data, segs, i + 1, true).0, lost, SegmentsLost(n, data, segs, i + 1));
      } else {
        assert lost + [] == lost;
      }
    }
  }

  lemma {:induction false} StackPagesLoses(l: Loader, k: nat, top: nat)
    requires Sound(l) && k <= USER_STACK_PAGES
    ensures var n := StackPages(l, k, top).0; Sound(n) && Loses(l, n, StackLost(l, k))
    decreases USER_STACK_PAGES - k
  {
    hide Sound, Fresh, MapPage, PageLost, Alloc, Loses;
    LosesNothing(l);
    NoFrame(l);
    if k < USER_STACK_PAGES && l.free != [] {
      var va := STACK_BOTTOM + k * PAGE_SIZE;
      AllocMapLoses(l, va, Zeros(4096));
      var (l1, f) := Alloc(l);
      ZeroedAlready(l);
      var (l2, ok) := MapPage(l1, va, f);
      var lost := PageLost(l1, va, f);
      if ok {
        StackPagesLoses(l2, k + 1, f);
        LosesThen(l, l2, StackPages(l2, k + 1, f).0, lost, StackLost(l2, k + 1));
      } else {
        assert lost + [] == lost;
      }
    }
  }

  lemma ZeroedAlready(l: Loader)
    requires l.free != []
    ensures var (l1, f) := Alloc(l); l1.(mem := l1.mem[f := Zeros(4096)]) == l1
  {}

  lemma GuardLoses(l: Loader, va: nat)
    requires Sound(l)
    ensures Loses(l, Guard(l, va).0, GuardLost(l, va))
  {
    hide Slot, NeedTable;
    NeedTableKeeps(l, Slot(va));
    TableLoses(l, Slot(va));
    var (n, ok) := NeedTable(l, Slot(va));
    if ok {
      forall g: nat
        ensures Fresh(Guard(l, va).0, g) <==> Fresh(l, g) || g in GuardLost(l, va)
      {
        ClearPlaces(n, Slot(va), g);
        assert Fresh(n, g) <==> Fresh(l, g);
      }
    }
  }

  lemma ClearPlaces(n: Loader, q: nat, g: nat)
    requires Sound(n)
    ensures var t := n.(pt := n.pt - {q}, guards := n.guards + {q});
      Fresh(t, g) <==> Fresh(n, g) || (q in n.pt && g == n.pt[q])
  {
    var t := n.(pt := n.pt - {q}, guards := n.guards + {q});
    if Fresh(t, g) && !(q in n.pt && g == n.pt[q]) {
      forall r | r in n.pt
        ensures n.pt[r] != g
      {
        if r != q {
          assert t.pt[r] == n.pt[r];
        }
      }
    }
  }

  /** Whether it succeeds or fails, a load leaves exactly these frames in no place. */
  lemma LoadLoses(l: Loader, data: seq<byte>, segs: seq<Segment>, argv: seq<CString>)
    requires Sound(l)
    ensures Loses(l, LoadImage(l, data, segs, argv).0, ImageLost(l, data, segs, argv))
  {
    hide Sound, LoadSegments, SegmentsLost, StackPages, StackLost, Guard, GuardLost, Loses, Frame, Fits, Fresh;
    LoadSegmentsLoses(l, data, segs, 0, false);
    var (l1, ok) := LoadSegments(l, data, segs, 0, false);
    var a := SegmentsLost(l, data, segs, 0);
    assert a + [] == a;
    if ok {
      StackPagesLoses(l1, 0, 0);
      var (l2, top) := StackPages(l1, 0, 0);
      var b := StackLost(l1, 0);
      assert b + [] == b;
      LosesThen(l, l1, l2, a, b);
      if top != 0 {
        GuardLoses(l2, STACK_GUARD_VA);
        var c := GuardLost(l2, STACK_GUARD_VA);
        var l3 := Guard(l2, STACK_GUARD_VA).0;
        LosesThen(l1, l2, l3, b, c);
        LosesThen(l, l1, l3, a, b + c);
        OnlyContents(l, l3, LoadImage(l, data, segs, argv).0, a + (b + c));
      }
    }
  }

  lemma OnlyContents(l: Loader, m: Loader, n: Loader, lost: seq<nat>)
    requires Loses(l, m, lost) && SamePlaces(m, n)
    ensures Loses(l, n, lost)
  {
    SamePlacesFresh(m, n);
    hide Fresh;
  }

  // ---------- when a load loses nothing ----------

  lemma MapPageEntries(l: Loader, va: nat, f: nat)
    requires MapPage(l, va, f).1
    ensures USER_VA_BASE <= va && MapPage(l, va, f).0.pt.Keys == l.pt.Keys + {Slot(va)}
    ensures PageLost(l, va, f) == [] <==> Slot(va) !in l.pt
  {}

  lemma {:induction false} PagesLostNothing(l: Loader, data: seq<byte>, s: Segment, k: nat)
    requires Sound(l) && Placed(s) && s.kind == PT_LOAD && k <= Pages(s) && LoadPages(l, data, s, k).1
    ensures forall q: nat :: q in LoadPages(l, data, s, k).0.pt <==> q in l.pt || Spans(s, k, q)
    ensures PagesLost(l, data, s, k) == [] <==> forall q: nat :: Spans(s, k, q) ==> q !in l.pt
    decreases Pages(s) - k
  {
    hide Sound, Fresh, Slot, MapPage, PageLost, Spans, PageBytes, Pages, PageVa, FirstPage, EndPage, Placed;
    PlacedPages(s, k);
    if k == Pages(s) {
      forall q: nat
        ensures !Spans(s, k, q)
      {
        SpansNone(s, k, q);
      }
    } else {
      AllocKeeps(l);
      var (l1, f) := Alloc(l);
      var va, bytes := PageVa(s, k), PageBytes(data, s, PageVa(s, k));
      FillFresh(l1, f, bytes);
      var filled := l1.(mem := l1.mem[f := bytes]);
      MapPageKeeps(filled, va, f);
      MapPageEntries(filled, va, f);
      var l2 := MapPage(filled, va, f).0;
      PagesLostNothing(l2, data, s, k + 1);
      PageInRange(s, k);
      var p := FirstPage(s) + k;
      forall q: nat
        ensures Spans(s, k, q) <==> q == p - BASE_PAGE || Spans(s, k + 1, q)
        ensures q == p - BASE_PAGE ==> !Spans(s, k + 1, q)
      {
        SpansNext(s, k, p, q);
      }
    }
  }

  /** The pages mapped are those the first `i` segments cover. */
  ghost predicate MappedBy(l: Loader, segs: seq<Segment>, i: nat)
    requires i <= |segs|
  {
    forall q: nat :: q in l.pt <==> LastCover(segs, i, q).Some?
  }

  /** None of the segments from `i` on covers a page that an earlier one covers. */
  ghost predicate ApartFrom(segs: seq<Segment>, i: nat) {
    forall j: nat, q: nat :: i <= j < |segs| && Covers(segs[j], q) ==> LastCover(segs, j, q).None?
  }

  lemma ApartNext(segs: seq<Segment>, i: nat)
    requires i < |segs|
    ensures ApartFrom(segs, i) <==> ApartFrom(segs, i + 1) && forall q: nat :: Covers(segs[i], q) ==> LastCover(segs, i, q).None?
  {
    hide Covers, LastCover;
  }

  lemma {:induction false} SegmentsLostNothing(l: Loader, data: seq<byte>, segs: seq<Segment>, i: nat, seen: bool)
    requires Sound(l) && AllPlaced(segs) && i <= |segs| && MappedBy(l, segs, i) && LoadSegments(l, data, segs, i, seen).1
    ensures var n := LoadSegments(l, data, segs, i, seen).0;
      && Sound(n) && MappedBy(n, segs, |segs|)
      && (SegmentsLost(l, data, segs, i) == [] <==> ApartFrom(segs, i))
    decreases |segs| - i
  {
    hide Sound, Pages, Placed, Spans, LoadPages, PagesLost, ApartFrom, Shows;
    if i == |segs| {
      NothingLeft(segs);
    } else {
      ApartNext(segs, i);
      if segs[i].kind != PT_LOAD || Pages(segs[i]) == 0 {
        forall q: nat
          ensures !Covers(segs[i], q)
        {
          NoPages(segs[i], q);
        }
        SegmentsLostNothing(l, data, segs, i + 1, seen);
      } else {
        PagesLostNothing(l, data, segs[i], 0);
        LoadPagesKeeps(l, data, segs[i], 0);
        SegmentsLostNothing(LoadPages(l, data, segs[i], 0).0, data, segs, i + 1, true);
      }
    }
  }

  lemma NothingLeft(segs: seq<Segment>)
    ensures ApartFrom(segs, |segs|)
  {}

  lemma {:induction false} StackLostNothing(l: Loader, k: nat, top: nat)
    requires Sound(l) && k <= USER_STACK_PAGES && StackPages(l, k, top).1 != 0
    requires forall q: nat :: q in l.pt ==> q < STACK_SLOT + k && q != GUARD_SLOT
    ensures StackLost(l, k) == [] && GUARD_SLOT !in StackPages(l, k, top).0.pt
    decreases USER_STACK_PAGES - k
  {
    hide Sound, Fresh, Shows, Slot, MapPage, PageLost;
    if k < USER_STACK_PAGES {
      AllocKeeps(l);
      var (l1, f) := Alloc(l);
      var va := STACK_BOTTOM + k * PAGE_SIZE;
      StackSlot(k);
      MapPageKeeps(l1, va, f);
      MapPageEntries(l1, va, f);
      StackLostNothing(MapPage(l1, va, f).0, k + 1, f);
    }
  }

  lemma ApartIsDisjoint(segs: seq<Segment>)
    ensures ApartFrom(segs, 0) <==> PageDisjoint(segs)
  {
    hide Covers;
    if ApartFrom(segs, 0) {
      forall i: nat, j: nat, q: nat | i < |segs| && j < |segs| && Covers(segs[i], q) && Covers(segs[j], q)
        ensures i == j
      {
        assert LastCover(segs, i, q).None? && LastCover(segs, j, q).None?;
      }
    }
  }

  lemma CoveredBelowStack(segs: seq<Segment>, i: nat, q: nat)
    requires AllPlaced(segs) && i < |segs| && Covers(segs[i], q)
    ensures q < GUARD_SLOT
  {
    PlacedPages(segs[i], 0);
  }

  /** A successful load into an empty space leaves a frame in no place if and only if two of its
      segments share a page: the segments' pages never meet the stack or its guard. */
  lemma LosesNothingExactly(l: Loader, data: seq<byte>, segs: seq<Segment>, argv: seq<CString>)
    requires Sound(l) && l.pt == map[] && AllPlaced(segs) && LoadImage(l, data, segs, argv).1
    ensures ImageLost(l, data, segs, argv) == [] <==> PageDisjoint(segs)
  {
    hide Sound, LoadSegments, SegmentsLost, StackPages, StackLost, Frame, Fits, Covers, PageDisjoint, ApartFrom, NeedTable, AllPlaced;
    SegmentsLostNothing(l, data, segs, 0, false);
    ApartIsDisjoint(segs);
    var l1 := LoadSegments(l, data, segs, 0, false).0;
    forall q: nat | q in l1.pt
      ensures q < GUARD_SLOT
    {
      CoveredBelowStack(segs, LastCover(segs, |segs|, q).value, q);
    }
    StackLostNothing(l1, 0, 0);
    GuardSlotIs();
  }

  lemma GuardSlotIs()
    ensures Slot(STACK_GUARD_VA) == GUARD_SLOT && GUARD_SLOT < STACK_SLOT
  {
    SlotOfPage(BASE_PAGE + GUARD_SLOT);
  }
}

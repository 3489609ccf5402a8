/** The program loader as it runs (kernel/core/elf.c): frames, page tables and the stack changed in
    place, page by page and byte by byte. */
module ElfLoader {
  import opened Bytes
  import opened Options
  import opened CStrings
  import opened InitStack
  import opened ElfImage

  class ProcessLoader {
    var free: seq<nat>
    var mem: map<nat, BytePage>
    var tables: map<nat, nat>
    var pt: map<nat, nat>
    var guards: set<nat>

    ghost function Now(): Loader
      reads this
    {
      Loader(free, mem, tables, pt, guards)
    }

    method AllocPage() returns (f: nat)
      modifies this`free, this`mem
      ensures (Now(), f) == Alloc(old(Now()))
      ensures f != 0 ==> f in mem && mem[f] == Zeros(4096)
    {
      if free == [] {
        return 0;
      }
      f := free[0];
      free := free[1..];
      mem := mem[f := Zeros(4096)];
    }

    /** `l3_for`. */
    method TableFor(q: nat) returns (ok: bool)
      modifies this`free, this`mem, this`tables
      ensures (Now(), ok) == NeedTable(old(Now()), q)
    {
      if q / 512 in tables {
        return true;
      }
      var f := AllocPage();
      if f == 0 {
        return false;
      }
      tables := tables[q / 512 := f];
      ok := true;
    }

    /** `address_space_map` for one page. */
    method Map(va: nat, f: nat) returns (ok: bool)
      modifies this
      ensures (Now(), ok) == MapPage(old(Now()), va, f)
    {
      if va < USER_VA_BASE || (va + PAGE_SIZE) % U64 > USER_VA_END {
        return false;
      }
      ok := TableFor(Slot(va));
      if ok {
        pt := pt[Slot(va) := f];
        guards := guards - {Slot(va)};
      }
    }

    /** `address_space_install_guard`. */
    method InstallGuard(va: nat) returns (ok: bool)
      modifies this
      ensures (Now(), ok) == Guard(old(Now()), va)
    {
      ok := TableFor(Slot(va));
      if ok {
        pt := pt - {Slot(va)};
        guards := guards + {Slot(va)};
      }
    }

    /** The copy loop over the bytes of one zeroed frame. */
    method CopyBytes(data: seq<byte>, s: Segment, va: nat, f: nat)
      requires s.kind == PT_LOAD && InFile(|data|, s) && f in mem && mem[f] == Zeros(4096)
      modifies this`mem
      ensures Now() == old(Now()).(mem := old(mem)[f := PageBytes(data, s, va)])
    {
      ghost var before := mem;
      ghost var all := PageBytes(data, s, va);
      var b := 0;
      while b < PAGE_SIZE
        invariant 0 <= b <= PAGE_SIZE && f in mem
        invariant forall k: nat :: k < 4096 ==> mem[f][k] == if k < b then all[k] else 0
        invariant mem == before[f := mem[f]]
      {
        var at := va + b;
        assert all[b] == ByteFrom(data, Source(s, at));
        if s.vaddr <= at < (s.vaddr + s.filesz) % U64 {
          SourceInFile(|data|, s, at);
          mem := mem[f := mem[f][b := data[s.offset + (at - s.vaddr)]]];
        }
        b := b + 1;
      }
      assert mem[f] == all;
    }

    /** The page loop of one PT_LOAD segment. */
    method LoadSegment(data: seq<byte>, s: Segment) returns (ok: bool)
      requires s.kind == PT_LOAD && InFile(|data|, s)
      modifies this
      ensures (Now(), ok) == LoadPages(old(Now()), data, s, 0)
    {
      hide Pages, PageVa, PageBytes, MapPage, InFile;
      ghost var l := Now();
      var k: nat := 0;
      while k < Pages(s)
        invariant k <= Pages(s) && LoadPages(Now(), data, s, k) == LoadPages(l, data, s, 0)
      {
        var f := AllocPage();
        if f == 0 {
          return false;
        }
        CopyBytes(data, s, PageVa(s, k), f);
        ok := Map(PageVa(s, k), f);
        if !ok {
          return;
        }
        k := k + 1;
      }
      ok := true;
    }

    /** The loop over the program headers. */
    method LoadAll(data: seq<byte>, h: Header) returns (ok: bool)
      requires TableInFile(data, h) && AllInFile(|data|, Phdrs(data, h, h.phnum))
      modifies this
      ensures (Now(), ok) == LoadSegments(old(Now()), data, Phdrs(data, h, h.phnum), 0, false)
    {
      hide LoadPages, Pages, ReadPhdr, PhdrInFile;
      ghost var l, segs := Now(), Phdrs(data, h, h.phnum);
      ok := false;
      for i := 0 to h.phnum
        invariant LoadSegments(Now(), data, segs, i, ok) == LoadSegments(l, data, segs, 0, false)
      {
        assert PhdrInFile(data, h, i);
        var s := ReadPhdr(data, h, i);
        assert s == segs[i] && InFile(|data|, segs[i]);
        if s.kind == PT_LOAD && Pages(s) != 0 {
          ok := LoadSegment(data, s);
          if !ok {
            return;
          }
        }
      }
    }

    /** The stack pages, the guard below them, and the first frame in the top page. */
    method SetUpStack(argv: seq<CString>) returns (ok: bool, sp: nat)
      modifies this
      ensures (Now(), ok) == LoadStack(old(Now()), argv)
      ensures ok ==> Fits(argv) && sp == USER_STACK_TOP - Total(argv)
    {
      hide Slot, MapPage, Frame, Total, StackPages, Guard, Fits;
      ghost var l := Now();
      sp := 0;
      var k, top := 0, 0;
      while k < USER_STACK_PAGES
        invariant 0 <= k <= USER_STACK_PAGES && StackPages(Now(), k, top) == StackPages(l, 0, 0)
        invariant k > 0 ==> top != 0
      {
        StackStep(Now(), k, top);
        var f := AllocPage();
        if f == 0 {
          return false, 0;
        }
        ok := Map(STACK_BOTTOM + k * PAGE_SIZE, f);
        if !ok {
          return false, 0;
        }
        top := f;
        k := k + 1;
      }
      StackEnds(Now(), top);
      ok := InstallGuard(STACK_GUARD_VA);
      if !ok {
        return false, 0;
      }
      var page := new byte[PAGE_SIZE];
      ok, sp := BuildUserInitStack(page, argv);
      if ok {
        mem := mem[top := page[..]];
      }
    }

    /** `elf_load_user`. */
    method LoadUserImage(data: seq<byte>, argv: seq<CString>) returns (image: Option<UserImage>)
      requires ParseHeader(data).Some? ==>
        var h := ParseHeader(data).value; TableInFile(data, h) && AllInFile(|data|, Phdrs(data, h, h.phnum))
      modifies this
      ensures (Now(), image) == LoadUser(old(Now()), data, argv)
    {
      hide LoadSegments, LoadStack, ParseHeader, Fits, Total;
      var parsed := ParseHeader(data);
      if parsed.None? {
        return None;
      }
      var h := parsed.value;
      var ok := LoadAll(data, h);
      if !ok {
        return None;
      }
      var sp;
      ok, sp := SetUpStack(argv);
      image := if ok then Some(UserImage(h.entry, sp)) else None;
    }
  }

  lemma StackStep(l: Loader, k: nat, top: nat)
    requires k < USER_STACK_PAGES
    ensures var (l1, f) := Alloc(l);
      StackPages(l, k, top) ==
      if f == 0 then (l1, 0)
      else var (l2, ok) := MapPage(l1, STACK_BOTTOM + k * PAGE_SIZE, f);
           if ok then StackPages(l2, k + 1, f) else (l2, 0)
  {
    hide MapPage;
  }

  lemma StackEnds(l: Loader, top: nat)
    ensures StackPages(l, USER_STACK_PAGES, top) == (l, top)
  {}
}

/** ELF files field by field, as the System V gABI lays them out (chapter 4, ELF Header; chapter 5,
    Program Header), and what the loader (kernel/core/elf.c) makes of them: which files it refuses,
    and that it loads exactly the entry point and the segments that the fields name. */
module ElfFile {
  import opened Bytes
  import opened Options
  import opened CStrings
  import opened InitStack
  import opened ElfImage
  import opened ElfFrames

  type u16 = x: nat | x < 0x1_0000

  /** `struct elf64_ehdr`. */
  datatype Ehdr = Ehdr(ident: seq<byte>, kind: u16, machine: u16, version: u32, entry: u64, phoff: u64, shoff: u64,
                       flags: u32, ehsize: u16, phentsize: u16, phnum: u16, shentsize: u16, shnum: u16, shstrndx: u16)

  /** `struct elf64_phdr`. */
  datatype Phdr = Phdr(kind: u32, flags: u32, offset: u64, vaddr: u64, paddr: u64, filesz: u64, memsz: u64, align: u64)

  function Le16(x: u16): (s: seq<byte>)
    ensures |s| == 2
  {
    [x % 256, x / 256]
  }

  function EhdrBytes(e: Ehdr): (s: seq<byte>)
    requires |e.ident| == 16
    ensures |s| == 64
  {
    e.ident + Le16(e.kind) + Le16(e.machine) + Le32(e.version) + Le64(e.entry) + Le64(e.phoff) + Le64(e.shoff)
    + Le32(e.flags) + Le16(e.ehsize) + Le16(e.phentsize) + Le16(e.phnum) + Le16(e.shentsize) + Le16(e.shnum)
    + Le16(e.shstrndx)
  }

  function PhdrBytes(p: Phdr): (s: seq<byte>)
    ensures |s| == 56
  {
    Le32(p.kind) + Le32(p.flags) + Le64(p.offset) + Le64(p.vaddr) + Le64(p.paddr) + Le64(p.filesz) + Le64(p.memsz)
    + Le64(p.align)
  }

  // ---------- headers ----------

  /** 64-bit, least significant byte first, an executable, for AArch64. */
  predicate Checked(e: Ehdr)
    requires |e.ident| == 16
  {
    && e.ident[0] == 0x7f && e.ident[1] == 0x45 && e.ident[2] == 0x4c && e.ident[3] == 0x46   // "ELF"
    && e.ident[4] == 2 && e.ident[5] == 1 && e.kind == 2 && e.machine == 183
  }

  lemma Word16Is(data: seq<byte>, at: nat, x: u16)
    requires at + 2 <= |data| && data[at..at + 2] == Le16(x)
    ensures Word16(data, at) == x
  {
    assert data[at] == data[at..at + 2][0] && data[at + 1] == data[at..at + 2][1];
  }

  /** A file that starts with a header is accepted exactly when the checked fields are right, and
      then the loader has the entry point and the place and shape of the table. */
  lemma HeaderReads(data: seq<byte>, e: Ehdr)
    requires |data| >= 64 && |e.ident| == 16 && data[..64] == EhdrBytes(e)
    ensures ParseHeader(data) == if Checked(e) then Some(Header(e.entry, e.phoff, e.phentsize, e.phnum)) else None
  {
    hide Le16, Le32, Le64, Word16, De64;
    var s := EhdrBytes(e);
    assert forall i :: 0 <= i < 16 ==> data[i] == data[..64][i] == s[i] == e.ident[i];
    assert data[16..18] == data[..64][16..18] == s[16..18] == Le16(e.kind);
    assert data[18..20] == data[..64][18..20] == s[18..20] == Le16(e.machine);
    assert data[24..32] == data[..64][24..32] == s[24..32] == Le64(e.entry);
    assert data[32..40] == data[..64][32..40] == s[32..40] == Le64(e.phoff);
    assert data[54..56] == data[..64][54..56] == s[54..56] == Le16(e.phentsize);
    assert data[56..58] == data[..64][56..58] == s[56..58] == Le16(e.phnum);
    Word16Is(data, 16, e.kind);
    Word16Is(data, 18, e.machine);
    Word16Is(data, 54, e.phentsize);
    Word16Is(data, 56, e.phnum);
    Le64RoundTrip(e.entry);
    Le64RoundTrip(e.phoff);
  }

  /** A file is refused for its header exactly when it is too short for one, or one of the fields
      that are checked is wrong. */
  lemma RefusedExactly(data: seq<byte>)
    ensures ParseHeader(data).None? <==>
            || |data| < 64
            || data[..4] != [0x7f, 0x45, 0x4c, 0x46] || data[4] != 2 || data[5] != 1
            || data[16..18] != [2, 0] || data[18..20] != [183, 0]
  {
    if |data| >= 64 {
      assert data[16..18] == [data[16], data[17]] && data[18..20] == [data[18], data[19]];
    }
  }

  lemma PhdrReads(data: seq<byte>, h: Header, i: nat, p: Phdr)
    requires PhdrInFile(data, h, i)
    requires var at := h.phoff + i * h.phentsize; data[at..at + 56] == PhdrBytes(p)
    ensures ReadPhdr(data, h, i) == Segment(p.kind, p.offset, p.vaddr, p.filesz, p.memsz)
  {
    hide Le32, Le64, De32, De64, PhdrInFile;
    var at := h.phoff + i * h.phentsize;
    assert at + 56 <= |data| by { PhdrEnds(data, h, i); }
    PhdrFields(data[at..at + 56], p);
    assert data[at..at + 4] == data[at..at + 56][..4];
    assert data[at + 8..at + 16] == data[at..at + 56][8..16];
    assert data[at + 16..at + 24] == data[at..at + 56][16..24];
    assert data[at + 32..at + 40] == data[at..at + 56][32..40];
    assert data[at + 40..at + 48] == data[at..at + 56][40..48];
    Le32RoundTrip(p.kind);
    Le64RoundTrip(p.offset);
    Le64RoundTrip(p.vaddr);
    Le64RoundTrip(p.filesz);
    Le64RoundTrip(p.memsz);
  }

  lemma PhdrEnds(data: seq<byte>, h: Header, i: nat)
    requires PhdrInFile(data, h, i)
    ensures h.phoff + i * h.phentsize + 56 <= |data|
  {}

  lemma PhdrFields(s: seq<byte>, p: Phdr)
    requires s == PhdrBytes(p)
    ensures s[..4] == Le32(p.kind) && s[8..16] == Le64(p.offset) && s[16..24] == Le64(p.vaddr)
    ensures s[32..40] == Le64(p.filesz) && s[40..48] == Le64(p.memsz)
  {
    hide Le32, Le64;
  }

  // ---------- files ----------

  /** Program header `i` lies in the file where the ELF header says. */
  predicate HeaderAt(data: seq<byte>, e: Ehdr, p: Phdr, i: nat) {
    var at := e.phoff + i * e.phentsize;
    at + 56 <= |data| && data[at..at + 56] == PhdrBytes(p)
  }

  /** The file has this ELF header and these program headers; anything may lie between and behind. */
  ghost predicate IsElf(data: seq<byte>, e: Ehdr, ps: seq<Phdr>) {
    && |e.ident| == 16 && |data| >= 64 && data[..64] == EhdrBytes(e)
    && e.phnum == |ps| && forall i: nat :: i < |ps| ==> HeaderAt(data, e, ps[i], i)
  }

  /** The segments that the program headers name. */
  function Segments(ps: seq<Phdr>): (segs: seq<Segment>)
    ensures |segs| == |ps|
  {
    seq(|ps|, i requires 0 <= i < |ps| => Segment(ps[i].kind, ps[i].offset, ps[i].vaddr, ps[i].filesz, ps[i].memsz))
  }

  /** The loader reads exactly the fields from such a file. */
  lemma FieldsRead(data: seq<byte>, e: Ehdr, ps: seq<Phdr>)
    requires IsElf(data, e, ps) && Checked(e)
    ensures ParseHeader(data) == Some(Header(e.entry, e.phoff, e.phentsize, e.phnum))
    ensures var h := ParseHeader(data).value; TableInFile(data, h) && Phdrs(data, h, h.phnum) == Segments(ps)
  {
    hide ReadPhdr, PhdrBytes, EhdrBytes, ParseHeader;
    HeaderReads(data, e);
    var h := Header(e.entry, e.phoff, e.phentsize, e.phnum);
    forall i: nat | i < |ps|
      ensures PhdrInFile(data, h, i) && ReadPhdr(data, h, i) == Segments(ps)[i]
    {
      assert HeaderAt(data, e, ps[i], i);
      PhdrReads(data, h, i, ps[i]);
    }
  }

  function Table(ps: seq<Phdr>): (s: seq<byte>)
    ensures |s| == 56 * |ps|
  {
    if ps == [] then [] else Table(ps[..|ps| - 1]) + PhdrBytes(ps[|ps| - 1])
  }

  /** A file as linkers write it: the header, the table right behind it, then the contents. */
  function Write(e: Ehdr, ps: seq<Phdr>, contents: seq<byte>): seq<byte>
    requires |e.ident| == 16 && |ps| < 0x1_0000
  {
    EhdrBytes(Linked(e, ps)) + Table(ps) + contents
  }

  function Linked(e: Ehdr, ps: seq<Phdr>): Ehdr
    requires |ps| < 0x1_0000
  {
    e.(phoff := 64, phentsize := 56, phnum := |ps|)
  }

  lemma {:induction false} TableAt(ps: seq<Phdr>, i: nat)
    requires i < |ps|
    ensures Table(ps)[56 * i..56 * i + 56] == PhdrBytes(ps[i])
    decreases |ps|
  {
    hide PhdrBytes;
    var n := |ps| - 1;
    if i < n {
      TableAt(ps[..n], i);
      assert Table(ps)[56 * i..56 * i + 56] == Table(ps[..n])[56 * i..56 * i + 56];
    }
  }

  lemma WriteIsElf(e: Ehdr, ps: seq<Phdr>, contents: seq<byte>)
    requires |e.ident| == 16 && |ps| < 0x1_0000
    ensures IsElf(Write(e, ps, contents), Linked(e, ps), ps)
  {
    hide PhdrBytes, EhdrBytes;
    var data := Write(e, ps, contents);
    assert data[..64] == EhdrBytes(Linked(e, ps));
    forall i: nat | i < |ps|
      ensures HeaderAt(data, Linked(e, ps), ps[i], i)
    {
      TableAt(ps, i);
      var at := 64 + i * 56;
      assert data[at..at + 56] == Table(ps)[56 * i..56 * i + 56];
    }
  }

  // ---------- loading ----------

  /** `elf_load_user` on such a file. */
  ghost function LoadFile(l: Loader, data: seq<byte>, e: Ehdr, ps: seq<Phdr>, argv: seq<CString>): (Loader, Option<UserImage>)
    requires IsElf(data, e, ps)
  {
    HeaderReads(data, e);
    if Checked(e) then
      FieldsRead(data, e, ps);
      LoadUser(l, data, argv)
    else LoadUser(l, data, argv)
  }

  lemma LoadFileIs(l: Loader, data: seq<byte>, e: Ehdr, ps: seq<Phdr>, argv: seq<CString>)
    requires IsElf(data, e, ps)
    ensures var (n, ok) := LoadImage(l, data, Segments(ps), argv);
      LoadFile(l, data, e, ps, argv) ==
      if !Checked(e) then (l, None)
      else (n, if ok then Some(UserImage(e.entry, (USER_STACK_TOP as int) - Total(argv))) else None)
  {
    hide LoadImage, ParseHeader, Checked, Phdrs, Total, Segments, EhdrBytes, PhdrBytes;
    HeaderReads(data, e);
    if Checked(e) {
      FieldsRead(data, e, ps);
    }
  }

  /** A load that succeeds: the checked fields were right, the program starts at the header's entry
      point, and with page-disjoint segments every address of every segment reads as the file's
      byte at the segment's offset, or zero past the segment's bytes in the file. */
  lemma FileLoaded(l: Loader, data: seq<byte>, e: Ehdr, ps: seq<Phdr>, argv: seq<CString>)
    requires Sound(l) && IsElf(data, e, ps)
    requires AllPlaced(Segments(ps)) && PageDisjoint(Segments(ps)) && AllInFile(|data|, Segments(ps))
    requires LoadFile(l, data, e, ps, argv).1.Some?
    ensures Checked(e)
    ensures var (n, image) := LoadFile(l, data, e, ps, argv);
      && image.value.entry == e.entry
      && forall i: nat, va: nat :: i < |ps| && OfSegment(ps[i], va) ==> UserByte(n, va) == Some(FileByte(data, ps[i], va))
  {
    hide Sound, LoadImage, AllPlaced, PageDisjoint, UserByte, Total, Segments, IsElf, LoadFile, Checked, Promised, AllInFile;
    LoadFileIs(l, data, e, ps, argv);
    SegmentsReadRight(l, data, Segments(ps), argv);
    var n := LoadImage(l, data, Segments(ps), argv).0;
    forall i: nat, va: nat | i < |ps| && OfSegment(ps[i], va)
      ensures UserByte(n, va) == Some(FileByte(data, ps[i], va))
    {
      SegmentIs(ps, i);
      assert InSegment(Segments(ps), i, va);
      PromisedIs(data, ps, i, va);
    }
  }

  predicate OfSegment(p: Phdr, va: nat) {
    p.kind == 1 && p.vaddr <= va < p.vaddr + p.memsz
  }

  /** The byte the file has for address `va`; zero past the bytes in the file. */
  function FileByte(data: seq<byte>, p: Phdr, va: nat): byte
    requires OfSegment(p, va)
  {
    if va - p.vaddr < p.filesz && p.offset + (va - p.vaddr) < |data| then data[p.offset + (va - p.vaddr)] else 0
  }

  lemma SegmentIs(ps: seq<Phdr>, i: nat)
    requires i < |ps|
    ensures Segments(ps)[i] == Segment(ps[i].kind, ps[i].offset, ps[i].vaddr, ps[i].filesz, ps[i].memsz)
  {}

  lemma PromisedIs(data: seq<byte>, ps: seq<Phdr>, i: nat, va: nat)
    requires i < |ps| && OfSegment(ps[i], va)
    ensures Promised(data, Segments(ps)[i], va) == FileByte(data, ps[i], va)
  {}

  /** A file with a checked field wrong is refused without effect. One with all of them right loads
      if its segments lie in the user range, the arguments fit, and two frames are free for each of
      its pages and the stack's, and one more. */
  lemma FileLoads(l: Loader, data: seq<byte>, e: Ehdr, ps: seq<Phdr>, argv: seq<CString>)
    requires Sound(l) && IsElf(data, e, ps)
    ensures !Checked(e) ==> LoadFile(l, data, e, ps, argv) == (l, None)
    ensures Checked(e) && AllPlaced(Segments(ps)) && AllInUser(Segments(ps)) && Fits(argv)
            && TotalPages(Segments(ps), 0) > 0
            && |l.free| >= 2 * TotalPages(Segments(ps), 0) + 2 * USER_STACK_PAGES + 1
            ==> LoadFile(l, data, e, ps, argv).1.Some?
  {
    hide Sound, LoadImage, AllPlaced, AllInUser, Fits, Total, Segments, TotalPages, IsElf, LoadFile, Checked;
    LoadFileIs(l, data, e, ps, argv);
    if AllPlaced(Segments(ps)) && AllInUser(Segments(ps)) && Fits(argv) && TotalPages(Segments(ps), 0) > 0
       && |l.free| >= 2 * TotalPages(Segments(ps), 0) + 2 * USER_STACK_PAGES + 1 {
      LoadSucceeds(l, data, Segments(ps), argv);
    }
  }
}

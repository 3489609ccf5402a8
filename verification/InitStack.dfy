/** The first stack frame of a user program (kernel/core/elf.c, `build_user_init_stack`): argc,
    argument pointers and strings in the top stack page, read back by the program. */
module InitStack {
  import opened Bytes
  import opened CStrings

  const PAGE_SIZE: nat := 4096
  const USER_STACK_TOP: nat := 0x10_4000_0000
  const PAGE_VA: nat := USER_STACK_TOP - PAGE_SIZE
  const MAX_USER_ARGV: nat := 64

  type u64 = x: nat | x < U64

  function Le64(x: u64): (s: seq<byte>)
    ensures |s| == 8
  {
    Le32(x % U32) + Le32(x / U32)
  }

  /** Least significant byte first: the low word's bytes, then the high word's. */
  lemma Le64Bytes(x: u64, q: nat)
    requires q < 8
    ensures Le64(x)[q] == if q < 4 then ByteOf(x % U32, q) else ByteOf(x / U32, q - 4)
  {
    Le32Bytes(x % U32, q % 4);
    Le32Bytes(x / U32, q % 4);
  }

  function De64(s: seq<byte>): (x: u64)
    requires |s| == 8
  {
    De32(s[..4]) + U32 * De32(s[4..])
  }

  lemma Le64RoundTrip(x: u64)
    ensures De64(Le64(x)) == x
  {
    Le32RoundTrip(x % U32);
    Le32RoundTrip(x / U32);
    assert Le64(x)[..4] == Le32(x % U32) && Le64(x)[4..] == Le32(x / U32);
  }

  // ---------- the frame ----------

  function Words(ws: seq<u64>): (s: seq<byte>)
    ensures |s| == 8 * |ws|
  {
    if ws == [] then [] else Words(ws[..|ws| - 1]) + Le64(ws[|ws| - 1])
  }

  /** The argument strings one after another, each with its NUL. */
  function Strings(argv: seq<CString>): seq<byte> {
    if argv == [] then [] else Strings(argv[..|argv| - 1]) + argv[|argv| - 1] + [0]
  }

  function VectorBytes(argc: nat): nat {
    8 + (argc + 1) * 8 + 8
  }

  /** Size of the frame, rounded up to 16. */
  function Total(argv: seq<CString>): nat {
    (VectorBytes(|argv|) + |Strings(argv)| + 15) / 16 * 16
  }

  predicate Fits(argv: seq<CString>) {
    |argv| <= MAX_USER_ARGV && Total(argv) <= PAGE_SIZE
  }

  /** Where argument `i` starts. */
  function ArgVa(argv: seq<CString>, i: nat): nat
    requires i <= |argv| && |Strings(argv)| <= PAGE_SIZE
  {
    USER_STACK_TOP - |Strings(argv)| + |Strings(argv[..i])|
  }

  function Overwrite(p: seq<byte>, off: nat, xs: seq<byte>): (r: seq<byte>)
    requires off + |xs| <= |p|
    ensures |r| == |p|
  {
    p[..off] + xs + p[off + |xs|..]
  }

  lemma OverwriteAt(p: seq<byte>, off: nat, xs: seq<byte>, q: nat)
    requires off + |xs| <= |p| && q < |p|
    ensures Overwrite(p, off, xs)[q] == if off <= q < off + |xs| then xs[q - off] else p[q]
  {}

  lemma OverwriteTwice(p: seq<byte>, off: nat, a: seq<byte>, b: seq<byte>)
    requires off + |a| + |b| <= |p|
    ensures Overwrite(Overwrite(p, off, a), off + |a|, b) == Overwrite(p, off, a + b)
  {}

  // ---------- what the program reads ----------

  /** The 8-byte word at user address `va` of the page. */
  function WordAt(page: seq<byte>, va: nat): u64
    requires |page| == PAGE_SIZE && PAGE_VA <= va && va + 8 <= USER_STACK_TOP
  {
    De64(page[va - PAGE_VA..va - PAGE_VA + 8])
  }

  /** The string at user address `va`. */
  function StringAt(page: seq<byte>, va: nat): CString
    requires |page| == PAGE_SIZE && PAGE_VA <= va <= USER_STACK_TOP
  {
    UpToNul(page[va - PAGE_VA..])
  }

  lemma {:induction false} WordsAt(ws: seq<u64>, k: nat)
    requires k < |ws|
    ensures Words(ws)[8 * k..8 * k + 8] == Le64(ws[k])
    decreases |ws|
  {
    var n := |ws| - 1;
    if k < n {
      WordsAt(ws[..n], k);
      assert Words(ws)[8 * k..8 * k + 8] == Words(ws[..n])[8 * k..8 * k + 8];
    }
  }

  lemma {:induction false} StringsSplit(argv: seq<CString>, i: nat)
    requires i < |argv|
    ensures Strings(argv[..i]) + argv[i] + [0] <= Strings(argv)
    decreases |argv|
  {
    var n := |argv| - 1;
    if i < n {
      StringsSplit(argv[..n], i);
      assert argv[..n][..i] == argv[..i];
    } else {
      assert argv[..i + 1] == argv;
    }
  }

  /** argc, the argument pointers, and the two null words that end the vectors. */
  function Vector(argv: seq<CString>): (ws: seq<u64>)
    requires |Strings(argv)| <= PAGE_SIZE && |argv| <= MAX_USER_ARGV
    ensures |ws| == |argv| + 3
  {
    [|argv|] + Pointers(argv, |argv|) + [0, 0]
  }

  function Pointers(argv: seq<CString>, n: nat): (ws: seq<u64>)
    requires n <= |argv| && |Strings(argv)| <= PAGE_SIZE
    ensures |ws| == n && forall i: nat :: i < n ==> ws[i] == ArgVa(argv, i)
  {
    if n == 0 then [] else
      PrefixShorter(argv, n - 1);
      Pointers(argv, n - 1) + [ArgVa(argv, n - 1)]
  }

  lemma {:induction false} PrefixShorter(argv: seq<CString>, i: nat)
    requires i <= |argv|
    ensures |Strings(argv[..i])| <= |Strings(argv)|
  {
    if i < |argv| {
      StringsSplit(argv, i);
    } else {
      assert argv[..i] == argv;
    }
  }

  lemma FitsStrings(argv: seq<CString>)
    requires Fits(argv)
    ensures VectorBytes(|argv|) + |Strings(argv)| <= Total(argv) <= PAGE_SIZE && Total(argv) % 16 == 0
  {}

  /** The bytes of the strings with their NULs. */
  function StringBytes(argv: seq<CString>): nat {
    if argv == [] then 0 else StringBytes(argv[..|argv| - 1]) + |argv[|argv| - 1]| + 1
  }

  lemma {:induction false} StringsLength(argv: seq<CString>)
    ensures |Strings(argv)| == StringBytes(argv)
  {
    if argv != [] {
      StringsLength(argv[..|argv| - 1]);
    }
  }

  /** Arguments fit if and only if there are at most 64 of them, and they with their NULs, a pointer
      for each, argc and two null words take at most a page. */
  lemma FitsExactly(argv: seq<CString>)
    ensures Fits(argv) <==> |argv| <= 64 && 8 * (|argv| + 3) + StringBytes(argv) <= 4096
  {
    StringsLength(argv);
  }

  /** The page as the loader leaves it. */
  function Frame(argv: seq<CString>): (page: seq<byte>)
    requires Fits(argv)
    ensures |page| == PAGE_SIZE
  {
    FitsStrings(argv);
    Overwrite(Overwrite(Zeros(4096), PAGE_SIZE - |Strings(argv)|, Strings(argv)), PAGE_SIZE - Total(argv), Words(Vector(argv)))
  }

  lemma FrameSize(argv: seq<CString>)
    ensures VectorBytes(|argv|) == 8 * (|argv| + 3)
  {}

  /** The start of the frame is the vector. */
  lemma FrameHead(argv: seq<CString>, q: nat)
    requires Fits(argv) && q < VectorBytes(|argv|)
    ensures |Strings(argv)| <= PAGE_SIZE && Total(argv) <= PAGE_SIZE && VectorBytes(|argv|) <= Total(argv)
    ensures Frame(argv)[PAGE_SIZE - Total(argv) + q] == Words(Vector(argv))[q]
  {
    FitsStrings(argv);
    hide Total, Vector, Words, Strings, Overwrite;
    OverwriteAt(Overwrite(Zeros(4096), PAGE_SIZE - |Strings(argv)|, Strings(argv)), PAGE_SIZE - Total(argv), Words(Vector(argv)),
                PAGE_SIZE - Total(argv) + q);
  }

  lemma FrameWord(argv: seq<CString>, k: nat)
    requires Fits(argv) && k < |argv| + 3
    ensures var sp := USER_STACK_TOP - Total(argv);
      PAGE_VA <= sp && sp + 8 * k + 8 <= USER_STACK_TOP
      && |Strings(argv)| <= PAGE_SIZE && WordAt(Frame(argv), sp + 8 * k) == Vector(argv)[k]
  {
    hide Total, Vector, Words, Strings, Overwrite, Frame, Le64, De64, VectorBytes;
    FitsStrings(argv);
    FrameSize(argv);
    var off := PAGE_SIZE - Total(argv);
    var ws := Words(Vector(argv));
    var read, word := Frame(argv)[off + 8 * k..off + 8 * k + 8], ws[8 * k..8 * k + 8];
    forall q: nat | q < |read|
      ensures read[q] == word[q]
    {
      FrameHead(argv, 8 * k + q);
    }
    assert read == word;
    WordsAt(Vector(argv), k);
    Le64RoundTrip(Vector(argv)[k]);
  }

  /** Argument `i` and its NUL among the strings. */
  lemma StringsFrom(argv: seq<CString>, i: nat)
    requires i < |argv|
    ensures var str, o := Strings(argv), |Strings(argv[..i])|;
      && o + |argv[i]| + 1 == |Strings(argv[..i + 1])| <= |str|
      && str[o + |argv[i]|] == 0 && str[o..] == argv[i] + str[o + |argv[i]|..]
  {
    StringsSplit(argv, i);
    PrefixShorter(argv, i + 1);
    assert argv[..i + 1][..i] == argv[..i];
    assert Strings(argv[..i + 1]) == Strings(argv[..i]) + argv[i] + [0];
    hide Strings;
    var str, o, n := Strings(argv), |Strings(argv[..i])|, |argv[i]|;
    assert str[..o + n + 1] == Strings(argv[..i]) + argv[i] + [0];
    assert str[o..o + n] == argv[i] by { assert str[o..o + n] == str[..o + n + 1][o..o + n]; }
    assert str[o + n] == str[..o + n + 1][o + n];
  }

  lemma FrameString(argv: seq<CString>, i: nat)
    requires Fits(argv) && i < |argv|
    ensures |Strings(argv)| <= PAGE_SIZE
    ensures var va := ArgVa(argv, i);
      && PAGE_VA <= va && va + |argv[i]| + 1 == ArgVa(argv, i + 1) <= USER_STACK_TOP
      && StringAt(Frame(argv), va) == argv[i]
  {
    hide Strings, Total, Frame, VectorBytes, UpToNul;
    FitsStrings(argv);
    StringsFrom(argv, i);
    var str, o := Strings(argv), |Strings(argv[..i])|;
    FrameTail(argv, o);
    UpToNulStops(argv[i], str[o + |argv[i]|..]);
  }

  /** The end of the page is the strings. */
  lemma FrameTail(argv: seq<CString>, o: nat)
    requires Fits(argv) && o <= |Strings(argv)|
    ensures |Strings(argv)| <= PAGE_SIZE && Frame(argv)[PAGE_SIZE - |Strings(argv)| + o..] == Strings(argv)[o..]
  {
    FitsStrings(argv);
    var str := Strings(argv);
    var base, off := PAGE_SIZE - |str|, PAGE_SIZE - Total(argv);
    var p := Overwrite(Zeros(4096), base, str);
    var ws := Words(Vector(argv));
    hide Total, Vector, Words, Strings, Overwrite;
    forall q: nat | q < |str| - o
      ensures Frame(argv)[base + o..][q] == str[o..][q]
    {
      OverwriteAt(Zeros(4096), base, str, base + o + q);
      OverwriteAt(p, off, ws, base + o + q);
    }
  }

  /** From the initial stack pointer the program reads a pointer for each argument, past the end
      of the vectors, and at the pointer exactly the argument. */
  lemma ArgumentReadsBack(argv: seq<CString>, i: nat)
    requires Fits(argv) && i < |argv|
    ensures |Strings(argv)| <= PAGE_SIZE
    ensures var sp := USER_STACK_TOP - Total(argv);
      && PAGE_VA <= sp && sp + 16 + 8 * i <= USER_STACK_TOP
      && var va := WordAt(Frame(argv), sp + 8 + 8 * i);
         sp + VectorBytes(|argv|) <= va < USER_STACK_TOP && StringAt(Frame(argv), va) == argv[i]
  {
    hide Total, Frame, StringAt, WordAt, Strings, Words;
    FitsStrings(argv);
    FrameWord(argv, i + 1);
    FrameString(argv, i);
    assert USER_STACK_TOP - Total(argv) + 8 * (i + 1) == USER_STACK_TOP - Total(argv) + 8 + 8 * i;
    assert Vector(argv)[i + 1] == Pointers(argv, |argv|)[i];
  }

  /** The initial stack pointer is a multiple of 16 inside the page; there the program reads argc,
      and after the argument pointers a null word and an empty environment. */
  lemma VectorReadsBack(argv: seq<CString>)
    requires Fits(argv)
    ensures var sp, argc := USER_STACK_TOP - Total(argv), |argv|;
      && sp % 16 == 0 && PAGE_VA <= sp && sp + VectorBytes(argc) <= USER_STACK_TOP
      && WordAt(Frame(argv), sp) == argc
      && WordAt(Frame(argv), sp + 8 + 8 * argc) == 0
      && WordAt(Frame(argv), sp + 16 + 8 * argc) == 0
  {
    hide Total, Frame, StringAt, WordAt, Strings, Words;
    FitsStrings(argv);
    var sp, argc := USER_STACK_TOP - Total(argv), |argv|;
    FrameWord(argv, 0);
    FrameWord(argv, argc + 1);
    FrameWord(argv, argc + 2);
    assert sp + 8 * 0 == sp && sp + 8 * (argc + 1) == sp + 8 + 8 * argc && sp + 8 * (argc + 2) == sp + 16 + 8 * argc;
  }

  // ---------- as the loader writes it ----------

  lemma OverwriteMore(p: seq<byte>, off: nat, a: seq<byte>, x: byte)
    requires off + |a| + 1 <= |p|
    ensures Overwrite(p, off, a)[off + |a| := x] == Overwrite(p, off, a + [x])
  {}

  lemma OverwriteNothing(p: seq<byte>, off: nat)
    requires off <= |p|
    ensures Overwrite(p, off, []) == p
  {}

  lemma StringsNext(argv: seq<CString>, i: nat)
    requires i < |argv|
    ensures Strings(argv[..i + 1]) == Strings(argv[..i]) + argv[i] + [0]
  {
    assert argv[..i + 1][..i] == argv[..i];
  }

  lemma WordsNext(ws: seq<u64>, k: nat)
    requires k < |ws|
    ensures Words(ws[..k + 1]) == Words(ws[..k]) + Le64(ws[k])
  {
    assert ws[..k + 1][..k] == ws[..k];
  }

  /** The counting loop: the string bytes, unless there are too many arguments. */
  method Count(argv: seq<CString>) returns (ok: bool, bytes: nat)
    ensures ok <==> |argv| <= MAX_USER_ARGV
    ensures ok ==> bytes == |Strings(argv)|
  {
    bytes := 0;
    var argc := 0;
    while argc < |argv|
      invariant 0 <= argc <= |argv| && argc <= MAX_USER_ARGV && bytes == |Strings(argv[..argc])|
    {
      if argc >= MAX_USER_ARGV {
        return false, 0;
      }
      StringsNext(argv, argc);
      bytes := bytes + |argv[argc]| + 1;
      argc := argc + 1;
    }
    assert argv[..argc] == argv;
    ok := true;
  }

  /** The loop that copies the strings to `off` of the zeroed page. */
  method CopyStrings(page: array<byte>, argv: seq<CString>, off: nat)
    requires off + |Strings(argv)| <= page.Length
    modifies page
    ensures page[..] == Overwrite(old(page[..]), off, Strings(argv))
  {
    hide Overwrite, Strings;
    ghost var p := page[..];
    var cursor := 0;
    OverwriteNothing(p, off);
    EmptyStrings();
    for i := 0 to |argv|
      invariant cursor == |Strings(argv[..i])| <= |Strings(argv)| && page[..] == Overwrite(p, off, Strings(argv[..i]))
    {
      ghost var done := Strings(argv[..i]);
      StringsNext(argv, i);
      PrefixShorter(argv, i + 1);
      assert done + argv[i][..0] == done;
      for l := 0 to |argv[i]|
        invariant cursor == |done| + l && page[..] == Overwrite(p, off, done + argv[i][..l])
      {
        OverwriteMore(p, off, done + argv[i][..l], argv[i][l]);
        assert done + argv[i][..l] + [argv[i][l]] == done + argv[i][..l + 1];
        page[off + cursor] := argv[i][l];
        cursor := cursor + 1;
      }
      assert argv[i][..|argv[i]|] == argv[i];
      OverwriteMore(p, off, done + argv[i], 0);
      page[off + cursor] := 0;
      cursor := cursor + 1;
    }
    assert argv[..|argv|] == argv;
  }

  lemma EmptyStrings()
    ensures forall argv: seq<CString> :: Strings(argv[..0]) == []
  {}

  method Store64(page: array<byte>, at: nat, x: u64)
    requires at + 8 <= page.Length
    modifies page
    ensures page[..] == Overwrite(old(page[..]), at, Le64(x))
  {
    hide Le64;
    var bytes := Le64(x);
    for k := 0 to 8
      invariant page[..] == Overwrite(old(page[..]), at, bytes[..k])
    {
      OverwriteMore(old(page[..]), at, bytes[..k], bytes[k]);
      assert bytes[..k] + [bytes[k]] == bytes[..k + 1];
      page[at + k] := bytes[k];
    }
    assert bytes[..8] == bytes;
  }

  method ZeroPage(page: array<byte>)
    requires page.Length == PAGE_SIZE
    modifies page
    ensures page[..] == Zeros(4096)
  {
    for i := 0 to PAGE_SIZE
      invariant forall k: nat :: k < i ==> page[k] == 0
    {
      page[i] := 0;
    }
  }

  /** The stores of argc, the pointers and the two nulls. */
  method StoreVector(page: array<byte>, at: nat, ws: seq<u64>)
    requires at + 8 * |ws| <= page.Length
    modifies page
    ensures page[..] == Overwrite(old(page[..]), at, Words(ws))
  {
    hide Overwrite, Words, Le64;
    ghost var p := page[..];
    OverwriteNothing(p, at);
    assert Words(ws[..0]) == [];
    for k := 0 to |ws|
      invariant page[..] == Overwrite(p, at, Words(ws[..k]))
    {
      WordsNext(ws, k);
      OverwriteTwice(p, at, Words(ws[..k]), Le64(ws[k]));
      Store64(page, at + 8 * k, ws[k]);
    }
    assert ws[..|ws|] == ws;
  }

  /** `build_user_init_stack`: the frame, or failure with the page untouched. */
  method BuildUserInitStack(page: array<byte>, argv: seq<CString>) returns (ok: bool, sp: nat)
    requires page.Length == PAGE_SIZE
    modifies page
    ensures ok <==> Fits(argv)
    ensures ok ==> page[..] == Frame(argv) && sp == USER_STACK_TOP - Total(argv)
    ensures !ok ==> page[..] == old(page[..])
  {
    hide Total, Frame, Vector, Words, Strings, Overwrite, VectorBytes;
    var strings;
    ok, strings := Count(argv);
    if !ok {
      return false, 0;
    }
    var total := (VectorBytes(|argv|) + strings + 15) / 16 * 16;
    TotalIs(argv);
    if total > PAGE_SIZE {
      return false, 0;
    }
    FitsStrings(argv);
    FrameSize(argv);
    FrameIs(argv);
    ZeroPage(page);
    CopyStrings(page, argv, PAGE_SIZE - strings);
    StoreVector(page, PAGE_SIZE - total, Vector(argv));
    sp := USER_STACK_TOP - total;
  }

  lemma TotalIs(argv: seq<CString>)
    ensures Total(argv) == (VectorBytes(|argv|) + |Strings(argv)| + 15) / 16 * 16
  {}

  lemma FrameIs(argv: seq<CString>)
    requires Fits(argv)
    ensures |Strings(argv)| <= PAGE_SIZE && 8 * |Vector(argv)| <= Total(argv) <= PAGE_SIZE
    ensures Frame(argv) == Overwrite(Overwrite(Zeros(4096), PAGE_SIZE - |Strings(argv)|, Strings(argv)),
                                     PAGE_SIZE - Total(argv), Words(Vector(argv)))
  {
    hide Overwrite, Words, Strings, Total;
    FitsStrings(argv);
  }
}

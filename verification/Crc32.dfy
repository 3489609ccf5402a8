/** The journal's CRC-32 (kernel/core/osfs2_journal.c): the bit loop and the buffer loop,
    the polynomial remainder they compute, and what the checksum detects.

    A `uint32_t` is the list of its 32 bits, least significant first; so `>> 1` drops the
    head of the list. Read as a polynomial over GF(2), bit i is the coefficient of x^(31-i). */
module Crc32 {
  import opened Bytes

  type Bits = seq<bool>
  type Word = w: Bits | |w| == 32 witness
    [false, false, false, false, false, false, false, false,
     false, false, false, false, false, false, false, false,
     false, false, false, false, false, false, false, false,
     false, false, false, false, false, false, false, false]

  // 0xEDB88320, least significant bit first.
  const POLY: Word :=
    [false, false, false, false, false, true, false, false,
     true, true, false, false, false, false, false, true,
     false, false, false, true, true, true, false, true,
     true, false, true, true, false, true, true, true]
  const ONES: Word := Copies(32, true)
  const NONE: Word := Copies(32, false)

  function Copies(n: nat, b: bool): (r: Bits)
    ensures |r| == n
    ensures forall i :: 0 <= i < n ==> r[i] == b
  {
    seq(n, _ => b)
  }

  function Xor(a: Bits, b: Bits): (r: Bits)
    requires |a| == |b|
    ensures |r| == |a|
    ensures forall i :: 0 <= i < |r| ==> r[i] == (a[i] != b[i])
  {
    seq(|a|, i requires 0 <= i < |a| => a[i] != b[i])
  }

  function And(a: Bits, b: Bits): (r: Bits)
    requires |a| == |b|
    ensures |r| == |a|
    ensures forall i :: 0 <= i < |r| ==> r[i] == (a[i] && b[i])
  {
    seq(|a|, i requires 0 <= i < |a| => a[i] && b[i])
  }

  function ShiftRight(c: Word): (r: Word)
    ensures forall i :: 0 <= i < 31 ==> r[i] == c[i + 1]
    ensures !r[31]
  {
    c[1..] + [false]
  }

  /** The `k` low bits of a number, least significant first. */
  function NatBits(n: nat, k: nat): (r: Bits)
    ensures |r| == k
  {
    if k == 0 then [] else [n % 2 == 1] + NatBits(n / 2, k - 1)
  }

  function ByteBits(b: byte): (r: Bits)
    ensures |r| == 8
  {
    NatBits(b, 8)
  }

  /** The number a list of bits denotes. */
  function Number(c: Bits): (n: nat)
    ensures n < Pow2(|c|)
    decreases |c|
  {
    if c == [] then 0 else (if c[0] then 1 else 0) + 2 * Number(c[1..])
  }

  function Pow2(n: nat): nat {
    if n == 0 then 1 else 2 * Pow2(n - 1)
  }

  lemma {:induction false} NumberOfBits(n: nat, k: nat)
    requires n < Pow2(k)
    ensures Number(NatBits(n, k)) == n
  {
    if k > 0 {
      NumberOfBits(n / 2, k - 1);
    }
  }

  lemma ByteBitsInjective(a: byte, b: byte)
    requires ByteBits(a) == ByteBits(b)
    ensures a == b
  {
    assert Pow2(4) == 16 && Pow2(8) == 256;
    NumberOfBits(a, 8);
    NumberOfBits(b, 8);
  }

  // ---------- specification of the loops ----------

  /** One turn of the bit loop. */
  function ShiftBit(c: Word): Word {
    if c[0] then Xor(ShiftRight(c), POLY) else ShiftRight(c)
  }

  function Iterate<T>(f: T -> T, n: nat, x: T): T {
    if n == 0 then x else Iterate(f, n - 1, f(x))
  }

  lemma {:induction false} IterateCompose<T>(f: T -> T, m: nat, n: nat, x: T)
    ensures Iterate(f, m + n, x) == Iterate(f, n, Iterate(f, m, x))
  {
    if m > 0 {
      IterateCompose(f, m - 1, n, f(x));
    }
  }

  function Shifts(n: nat, c: Word): Word {
    Iterate(ShiftBit, n, c)
  }

  lemma ShiftsCompose(m: nat, n: nat, c: Word)
    ensures Shifts(m + n, c) == Shifts(n, Shifts(m, c))
  {
    IterateCompose<Word>(ShiftBit, m, n, c);
  }

  /** `bits` in the low end of an otherwise zero word. */
  function Low(bits: Bits): (w: Word)
    requires |bits| <= 32
    ensures forall i :: 0 <= i < 32 ==> w[i] == (i < |bits| && bits[i])
  {
    bits + Copies(32 - |bits|, false)
  }

  function Step(c: Word, b: byte): Word {
    Shifts(8, Xor(c, Low(ByteBits(b))))
  }

  function Fold(c: Word, s: seq<byte>): Word
    decreases |s|
  {
    if s == [] then c else Fold(Step(c, s[0]), s[1..])
  }

  function Checksum(s: seq<byte>): Word {
    Xor(Fold(ONES, s), ONES)
  }

  lemma {:induction false} NumberInjective(c: Bits, d: Bits)
    requires |c| == |d| && Number(c) == Number(d)
    ensures c == d
    decreases |c|
  {
    if c != [] {
      assert c[0] == d[0];
      NumberInjective(c[1..], d[1..]);
      assert c == [c[0]] + c[1..] && d == [d[0]] + d[1..];
    }
  }

  lemma Pow2Is32()
    ensures Pow2(32) == U32
  {
    assert Pow2(8) == 0x100;
    assert Pow2(16) == 0x1_0000;
    assert Pow2(24) == 0x100_0000;
  }

  function ChecksumValue(s: seq<byte>): u32 {
    Pow2Is32();
    Number(Checksum(s))
  }

  // ---------- the loops ----------

  lemma MaskSelects(c: Word)
    ensures Xor(ShiftRight(c), And(POLY, if c[0] then ONES else NONE)) == ShiftBit(c)
  {
    assert And(POLY, ONES) == POLY;
    assert And(POLY, NONE) == NONE;
    assert Xor(ShiftRight(c), NONE) == ShiftRight(c);
  }

  method Crc32Step(crc: Word, b: byte) returns (r: Word)
    ensures r == Step(crc, b)
  {
    r := Xor(crc, Low(ByteBits(b)));
    for i := 0 to 8
      invariant r == Shifts(i, Xor(crc, Low(ByteBits(b))))
    {
      var mask: Word := if r[0] then ONES else NONE;
      MaskSelects(r);
      ShiftsCompose(i, 1, Xor(crc, Low(ByteBits(b))));
      assert Shifts(1, r) == Shifts(0, ShiftBit(r));
      r := Xor(ShiftRight(r), And(POLY, mask));
    }
  }

  method Crc32Buf(crc: Word, buf: seq<byte>) returns (r: Word)
    ensures r == Fold(crc, buf)
  {
    r := crc;
    for i := 0 to |buf|
      invariant r == Fold(crc, buf[..i])
    {
      FoldAppend(crc, buf[..i], [buf[i]]);
      assert buf[..i + 1] == buf[..i] + [buf[i]];
      r := Crc32Step(r, buf[i]);
    }
    assert buf[..|buf|] == buf;
  }

  lemma {:induction false} FoldAppend(c: Word, s: seq<byte>, t: seq<byte>)
    ensures Fold(c, s + t) == Fold(Fold(c, s), t)
    decreases |s|
  {
    if s == [] {
      assert s + t == t;
    } else {
      assert (s + t)[1..] == s[1..] + t;
      FoldAppend(Step(c, s[0]), s[1..], t);
    }
  }

  // ---------- no step loses information ----------

  /** POLY has its top bit set, so the bit shifted out can be read back from the top. */
  lemma ShiftBitInjective(c: Word, d: Word)
    requires ShiftBit(c) == ShiftBit(d)
    ensures c == d
  {
    assert POLY[31];
    assert ShiftBit(c)[31] == c[0] && ShiftBit(d)[31] == d[0];
    forall i | 0 < i < 32
      ensures c[i] == d[i]
    {
      assert ShiftBit(c)[i - 1] == ShiftBit(d)[i - 1];
    }
  }

  lemma {:induction false} ShiftsInjective(n: nat, c: Word, d: Word)
    requires Shifts(n, c) == Shifts(n, d)
    ensures c == d
  {
    if n > 0 {
      ShiftsInjective(n - 1, ShiftBit(c), ShiftBit(d));
      ShiftBitInjective(c, d);
    }
  }

  lemma XorCancels(c: Bits, d: Bits, x: Bits)
    requires |c| == |d| == |x| && Xor(c, x) == Xor(d, x)
    ensures c == d
  {
    forall i | 0 <= i < |c|
      ensures c[i] == d[i]
    {
      assert Xor(c, x)[i] == Xor(d, x)[i];
    }
  }

  // ---------- one bit at a time ----------

  /** All the bits of a byte string, in the order the checksum takes them. */
  function AllBits(s: seq<byte>): (r: Bits)
    ensures |r| == 8 * |s|
    decreases |s|
  {
    if s == [] then [] else ByteBits(s[0]) + AllBits(s[1..])
  }

  function BitStep(c: Word, b: bool): Word {
    ShiftBit(Xor(c, Low([b])))
  }

  function FoldBits(c: Word, bits: Bits): Word
    decreases |bits|
  {
    if bits == [] then c else FoldBits(BitStep(c, bits[0]), bits[1..])
  }

  lemma {:induction false} FoldBitsAppend(c: Word, s: Bits, t: Bits)
    ensures FoldBits(c, s + t) == FoldBits(FoldBits(c, s), t)
    decreases |s|
  {
    if s == [] {
      assert s + t == t;
    } else {
      assert (s + t)[1..] == s[1..] + t;
      FoldBitsAppend(BitStep(c, s[0]), s[1..], t);
    }
  }

  /** `n` positions towards the top end: what `n` shifts bring back down. */
  function Up(n: nat, w: Word): (r: Word)
    requires n <= 32
    ensures forall i :: 0 <= i < 32 ==> r[i] == (n <= i && w[i - n])
  {
    Copies(n, false) + w[..32 - n]
  }

  lemma ShiftBitLinear(c: Word, v: Word)
    requires !v[0]
    ensures ShiftBit(Xor(c, v)) == Xor(ShiftBit(c), ShiftRight(v))
  {}

  lemma XorAssoc(a: Word, b: Word, c: Word)
    ensures Xor(Xor(a, b), c) == Xor(a, Xor(b, c))
  {}

  lemma XorComm(a: Word, b: Word)
    ensures Xor(a, b) == Xor(b, a)
  {}

  lemma BitStepIsWord(c: Word, b: bool, rest: Bits)
    requires |rest| < 32
    ensures Xor(BitStep(c, b), Low(rest)) == ShiftBit(Xor(c, Low([b] + rest)))
  {
    var h, v := Low([b]), Up(1, Low(rest));
    ShiftBitLinear(Xor(c, h), v);
    assert ShiftRight(v) == Low(rest);
    XorAssoc(c, h, v);
    assert Xor(h, v) == Low([b] + rest);
  }

  /** Feeding up to 32 bits is adding them to the state as one word, then shifting. */
  lemma {:induction false} FoldBitsIsWord(c: Word, bits: Bits)
    requires |bits| <= 32
    ensures FoldBits(c, bits) == Shifts(|bits|, Xor(c, Low(bits)))
    decreases |bits|
  {
    if bits == [] {
      assert Xor(c, Low([])) == c;
    } else {
      var rest := bits[1..];
      assert bits == [bits[0]] + rest;
      FoldBitsIsWord(BitStep(c, bits[0]), rest);
      BitStepIsWord(c, bits[0], rest);
    }
  }

  /** The byte loop is the bit-at-a-time register. */
  lemma {:induction false} FoldIsBits(c: Word, s: seq<byte>)
    ensures Fold(c, s) == FoldBits(c, AllBits(s))
    decreases |s|
  {
    if s != [] {
      FoldBitsIsWord(c, ByteBits(s[0]));
      FoldBitsAppend(c, ByteBits(s[0]), AllBits(s[1..]));
      FoldIsBits(Step(c, s[0]), s[1..]);
    }
  }

  // ---------- bursts of up to 32 bits ----------

  lemma LowInjective(s: Bits, t: Bits)
    requires |s| == |t| <= 32 && Low(s) == Low(t)
    ensures s == t
  {
    assert s == Low(s)[..|s|] && t == Low(t)[..|s|];
  }

  lemma ShortFoldInjective(c: Word, s: Bits, t: Bits)
    requires |s| == |t| <= 32 && FoldBits(c, s) == FoldBits(c, t)
    ensures s == t
  {
    var x, y := Low(s), Low(t);
    FoldBitsIsWord(c, s);
    FoldBitsIsWord(c, t);
    ShiftsInjective(|s|, Xor(c, x), Xor(c, y));
    XorComm(c, x);
    XorComm(c, y);
    XorCancels(x, y, c);
    LowInjective(s, t);
  }

  /** Two different states stay different under any common continuation. */
  lemma {:induction false} FoldBitsInjective(c: Word, d: Word, bits: Bits)
    requires FoldBits(c, bits) == FoldBits(d, bits)
    ensures c == d
    decreases |bits|
  {
    if bits != [] {
      var x := Low([bits[0]]);
      FoldBitsInjective(BitStep(c, bits[0]), BitStep(d, bits[0]), bits[1..]);
      ShiftBitInjective(Xor(c, x), Xor(d, x));
      XorCancels(c, d, x);
    }
  }

  lemma {:induction false} AllBitsInjective(s: seq<byte>, t: seq<byte>)
    requires |s| == |t| && AllBits(s) == AllBits(t)
    ensures s == t
    decreases |s|
  {
    if s != [] {
      assert ByteBits(s[0]) == AllBits(s)[..8] && AllBits(s[1..]) == AllBits(s)[8..];
      assert ByteBits(t[0]) == AllBits(t)[..8] && AllBits(t[1..]) == AllBits(t)[8..];
      ByteBitsInjective(s[0], t[0]);
      AllBitsInjective(s[1..], t[1..]);
      assert s == [s[0]] + s[1..] && t == [t[0]] + t[1..];
    }
  }

  /** Inputs of one length whose bits agree outside 32 consecutive ones (so in particular
      inputs that differ only within four consecutive bytes) have different checksums. */
  lemma BurstDetected(s: seq<byte>, t: seq<byte>, k: nat)
    requires |s| == |t| && s != t
    requires forall i :: 0 <= i < 8 * |s| && !(k <= i < k + 32) ==> AllBits(s)[i] == AllBits(t)[i]
    ensures ChecksumValue(s) != ChecksumValue(t)
  {
    if ChecksumValue(s) == ChecksumValue(t) {
      NumberInjective(Checksum(s), Checksum(t));
      XorCancels(Fold(ONES, s), Fold(ONES, t), ONES);
      FoldIsBits(ONES, s);
      FoldIsBits(ONES, t);
      SplitFold(ONES, AllBits(s), AllBits(t), k);
      AllBitsInjective(s, t);
    }
  }

  lemma SplitFold(c: Word, x: Bits, y: Bits, k: nat)
    requires |x| == |y| && FoldBits(c, x) == FoldBits(c, y)
    requires forall i :: 0 <= i < |x| && !(k <= i < k + 32) ==> x[i] == y[i]
    ensures x == y
  {
    var lo := if k < |x| then k else |x|;
    var hi := if k + 32 < |x| then k + 32 else |x|;
    Pieces(x, lo, hi);
    Pieces(y, lo, hi);
    var pre, post := x[..lo], x[hi..];
    assert pre == y[..lo];
    assert post == y[hi..];
    MiddleFold(c, pre, x[lo..hi], y[lo..hi], post);
  }

  lemma Pieces(x: Bits, lo: nat, hi: nat)
    requires lo <= hi <= |x|
    ensures x == x[..lo] + x[lo..hi] + x[hi..]
  {}

  lemma MiddleFold(c: Word, pre: Bits, s: Bits, t: Bits, post: Bits)
    requires |s| == |t| <= 32 && FoldBits(c, pre + s + post) == FoldBits(c, pre + t + post)
    ensures s == t
  {
    FoldBitsAppend(c, pre + s, post);
    FoldBitsAppend(c, pre + t, post);
    FoldBitsInjective(FoldBits(c, pre + s), FoldBits(c, pre + t), post);
    FoldBitsAppend(c, pre, s);
    FoldBitsAppend(c, pre, t);
    ShortFoldInjective(FoldBits(c, pre), s, t);
  }
}

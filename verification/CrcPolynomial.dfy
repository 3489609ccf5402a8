/** What the checksum register holds: the remainder of polynomial division over GF(2) by the
    generator of IEEE 802.3, clause 3.2.9. A polynomial is the finite set of its exponents. */
module CrcPolynomial {
  import opened Bytes
  import opened Crc32

  type Poly = set<nat>

  // x^32+x^26+x^23+x^22+x^16+x^12+x^11+x^10+x^8+x^7+x^5+x^4+x^2+x+1
  const GENERATOR: Poly := {32, 26, 23, 22, 16, 12, 11, 10, 8, 7, 5, 4, 2, 1, 0}

  function Add(a: Poly, b: Poly): Poly {
    (a - b) + (b - a)
  }

  /** Multiplication by x^n. */
  function TimesX(n: nat, a: Poly): (r: Poly)
    ensures forall e: nat :: e in r <==> e >= n && e - n in a
  {
    var r := set e | e in a :: e + n;
    assert forall e: nat | e >= n && e - n in a :: e in r by {
      forall e: nat | e >= n && e - n in a
        ensures e in r
      {
        var f: nat := e - n;
        assert f in a && f + n == e;
      }
    }
    r
  }

  /** A list of coefficients, highest power first. */
  function PolyOf(bits: Bits): (r: Poly)
    ensures forall e: nat :: e in r <==> e < |bits| && bits[|bits| - 1 - e]
  {
    set i | 0 <= i < |bits| && bits[i] :: |bits| - 1 - i
  }

  /** The product of PolyOf(q) and g, by Horner's rule. */
  function Times(q: Bits, g: Poly): Poly
    decreases |q|
  {
    if q == [] then {}
    else Add(TimesX(1, Times(q[..|q| - 1], g)), if q[|q| - 1] then g else {})
  }

  /** What is divided: the message moved up by 32, plus the register's start value on top. */
  function Dividend(c: Word, bits: Bits): Poly {
    Add(TimesX(|bits|, PolyOf(c)), TimesX(32, PolyOf(bits)))
  }

  /** The constant in the code is the standard's generator without its leading term. */
  lemma PolyIsGenerator()
    ensures PolyOf(POLY) == GENERATOR - {32}
  {}

  lemma BitStepAt(c: Word, b: bool, i: nat)
    requires i < 32
    ensures BitStep(c, b)[i] == ((i < 31 && c[i + 1]) != (c[0] != b && POLY[i]))
  {}

  lemma AddHas(a: Poly, b: Poly, e: nat)
    ensures e in Add(a, b) <==> (e in a) != (e in b)
  {}

  lemma BitStepHas(c: Word, b: bool, e: nat)
    ensures e in PolyOf(BitStep(c, b)) <==>
            ((e in TimesX(1, PolyOf(c))) != (b && e == 32)) != (c[0] != b && e in GENERATOR)
  {
    hide BitStep;
    PolyIsGenerator();
    assert e in GENERATOR <==> e == 32 || e in PolyOf(POLY);
    if e < 32 {
      BitStepAt(c, b, 31 - e);
    }
  }

  lemma BitStepPoly(c: Word, b: bool)
    ensures PolyOf(BitStep(c, b)) ==
            Add(Add(TimesX(1, PolyOf(c)), if b then {32} else {}), if c[0] != b then GENERATOR else {})
  {
    var shifted, one: Poly, g: Poly := TimesX(1, PolyOf(c)), if b then {32} else {}, if c[0] != b then GENERATOR else {};
    var l, r := PolyOf(BitStep(c, b)), Add(Add(shifted, one), g);
    hide Add, TimesX, BitStep, PolyOf;
    forall e: nat
      ensures e in l <==> e in r
    {
      BitStepHas(c, b, e);
      AddHas(shifted, one, e);
      AddHas(Add(shifted, one), g, e);
    }
  }

  lemma DividendGrows(c: Word, bits: Bits, b: bool)
    ensures Dividend(c, bits + [b]) == Add(TimesX(1, Dividend(c, bits)), if b then {32} else {})
  {}

  lemma TimesXAdd(a: Poly, b: Poly)
    ensures TimesX(1, Add(a, b)) == Add(TimesX(1, a), TimesX(1, b))
  {}

  lemma Rearrange(qx: Poly, rx: Poly, m: Poly, g: Poly)
    ensures Add(Add(qx, rx), m) == Add(Add(qx, g), Add(Add(rx, m), g))
  {}

  /** The register after any message is the remainder: dividend = quotient * generator + register. */
  lemma {:induction false} RegisterIsRemainder(c: Word, bits: Bits) returns (q: Bits)
    ensures |q| == |bits|
    ensures Dividend(c, bits) == Add(Times(q, GENERATOR), PolyOf(FoldBits(c, bits)))
    decreases |bits|
  {
    if bits == [] {
      q := [];
    } else {
      var n := |bits| - 1;
      var init, b := bits[..n], bits[n];
      assert bits == init + [b];
      var p := RegisterIsRemainder(c, init);
      var r := FoldBits(c, init);
      var t := r[0] != b;
      q := p + [t];
      assert q[..n] == p;
      FoldBitsAppend(c, init, [b]);
      assert FoldBits(r, [b]) == BitStep(r, b);
      DividendGrows(c, init, b);
      TimesXAdd(Times(p, GENERATOR), PolyOf(r));
      BitStepPoly(r, b);
      Rearrange(TimesX(1, Times(p, GENERATOR)), TimesX(1, PolyOf(r)),
                if b then {32} else {}, if t then GENERATOR else {});
    }
  }

  /** A nonzero multiple of a polynomial of degree 32 has degree at least 32. */
  lemma {:induction false} MultipleIsLarge(q: Bits, g: Poly) returns (top: nat)
    requires true in q && 32 in g && forall e :: e in g ==> e <= 32
    ensures 32 <= top && top in Times(q, g)
    ensures forall e :: e in Times(q, g) ==> e <= top
    decreases |q|
  {
    var n := |q| - 1;
    var p := q[..n];
    if true in p {
      var t := MultipleIsLarge(p, g);
      top := t + 1;
      assert top in TimesX(1, Times(p, g));
    } else {
      MultipleOfZero(p, g);
      assert q == p + [q[n]];
      top := 32;
    }
  }

  lemma {:induction false} MultipleOfZero(q: Bits, g: Poly)
    requires true !in q
    ensures Times(q, g) == {}
    decreases |q|
  {
    if q != [] {
      assert !q[|q| - 1];
      MultipleOfZero(q[..|q| - 1], g);
    }
  }

  lemma {:induction false} TimesDistributes(p: Bits, q: Bits, g: Poly)
    requires |p| == |q|
    ensures Add(Times(p, g), Times(q, g)) == Times(Xor(p, q), g)
    decreases |p|
  {
    if p != [] {
      var n := |p| - 1;
      TimesDistributes(p[..n], q[..n], g);
      assert Xor(p, q)[..n] == Xor(p[..n], q[..n]);
      TimesXAdd(Times(p[..n], g), Times(q[..n], g));
    }
  }

  /** The remainder is unique, so the division alone determines the register. */
  lemma RemainderUnique(d: Poly, p: Bits, r: Poly, q: Bits, s: Poly, g: Poly)
    requires |p| == |q| && 32 in g && forall e :: e in g ==> e <= 32
    requires d == Add(Times(p, g), r) == Add(Times(q, g), s)
    requires forall e :: e in r || e in s ==> e < 32
    ensures r == s
  {
    TimesDistributes(p, q, g);
    var x := Xor(p, q);
    DifferenceOfQuotients(Times(p, g), r, Times(q, g), s);
    if true in x {
      var top := MultipleIsLarge(x, g);
      assert false;
    }
    MultipleOfZero(x, g);
    EmptyDifference(r, s);
  }

  lemma DifferenceOfQuotients(a: Poly, r: Poly, b: Poly, s: Poly)
    requires Add(a, r) == Add(b, s)
    ensures Add(a, b) == Add(r, s)
  {
    forall e: nat
      ensures e in Add(a, b) <==> e in Add(r, s)
    {
      assert e in Add(a, r) <==> e in Add(b, s);
    }
  }

  lemma EmptyDifference(r: Poly, s: Poly)
    requires Add(r, s) == {}
    ensures r == s
  {
    assert forall e :: e in r && e !in s ==> e in Add(r, s);
    assert forall e :: e in s && e !in r ==> e in Add(r, s);
  }

  /** The message with its first 32 bits complemented. */
  function Complemented(m: Bits): (r: Bits)
    requires |m| >= 32
    ensures |r| == |m|
  {
    Xor(m[..32], ONES) + m[32..]
  }

  lemma OnesOnTop(m: Bits)
    requires |m| >= 32
    ensures Dividend(ONES, m) == TimesX(32, PolyOf(Complemented(m)))
  {
    forall e: nat
      ensures e in Dividend(ONES, m) <==> e in TimesX(32, PolyOf(Complemented(m)))
    {
      assert e in TimesX(|m|, PolyOf(ONES)) <==> |m| <= e < |m| + 32;
    }
  }

  /** The stored checksum is the complement of the remainder of the message with its first
      32 bits complemented, as the standard has it. */
  lemma ChecksumIsRemainder(s: seq<byte>) returns (q: Bits)
    requires |s| >= 4
    ensures |q| == 8 * |s|
    ensures TimesX(32, PolyOf(Complemented(AllBits(s)))) ==
            Add(Times(q, GENERATOR), PolyOf(Xor(Checksum(s), ONES)))
  {
    q := RegisterIsRemainder(ONES, AllBits(s));
    FoldIsBits(ONES, s);
    assert Xor(Xor(Fold(ONES, s), ONES), ONES) == Fold(ONES, s);
    OnesOnTop(AllBits(s));
  }
}

/** What the checksum in a committed header covers, byte by byte, and what it catches. */
module JournalChecksum {
  import opened Bytes
  import opened Disk
  import opened Journal
  import opened Crc32
  import CrcPolynomial
  import JournalCrash

  /** Bit `i` of a number. */
  predicate BitAt(n: nat, i: nat)
    decreases i
  {
    if i == 0 then n % 2 == 1 else BitAt(n / 2, i - 1)
  }

  /** The destinations as bytes: byte `4 * i + q` is byte `q` of destination `i`. */
  ghost function DestStream(dest: seq<u32>): (s: seq<byte>)
    ensures |s| == 4 * |dest|
  {
    seq(4 * |dest|, p requires 0 <= p < 4 * |dest| => ByteOf(dest[p / 4], p % 4))
  }

  /** The payloads as bytes: byte `4096 * i + q` is byte `q` of payload `i`. */
  ghost function DataStream(data: seq<Block>): (s: seq<byte>)
    ensures |s| == 4096 * |data|
  {
    seq(4096 * |data|, p requires 0 <= p < 4096 * |data| => data[p / 4096][p % 4096])
  }

  /** Everything the checksum runs over. */
  ghost function Stream(dest: seq<u32>, data: seq<Block>): (s: seq<byte>)
    ensures |s| == 4 * |dest| + 4096 * |data|
  {
    DestStream(dest) + DataStream(data)
  }

  /** Bit `p` of a byte string, each byte counted from its low end. */
  ghost predicate StreamBit(s: seq<byte>, p: nat)
    requires p < 8 * |s|
  {
    BitAt(s[p / 8], p % 8)
  }

  /** Two byte strings of one length that differ, but only within 32 consecutive bits. */
  ghost predicate Burst(s: seq<byte>, t: seq<byte>, k: nat) {
    && |s| == |t| && s != t
    && forall p :: 0 <= p < 8 * |s| && !(k <= p < k + 32) ==> StreamBit(s, p) == StreamBit(t, p)
  }

  // ---------- the stream the loops run over ----------

  lemma {:induction false} DestBytesAre(dest: seq<u32>)
    ensures DestBytes(dest) == DestStream(dest)
    decreases |dest|
  {
    if dest != [] {
      var n := |dest| - 1;
      DestBytesAre(dest[..n]);
      DestStreamGrows(dest);
    }
  }

  lemma DestStreamGrows(dest: seq<u32>)
    requires dest != []
    ensures DestStream(dest) == DestStream(dest[..|dest| - 1]) + Le32(dest[|dest| - 1])
  {
    hide Le32, ByteOf;
    var n := |dest| - 1;
    forall p | 0 <= p < 4 * |dest|
      ensures DestStream(dest)[p] == (DestStream(dest[..n]) + Le32(dest[n]))[p]
    {
      if p >= 4 * n {
        Le32Bytes(dest[n], p - 4 * n);
      }
    }
  }

  lemma {:induction false} PayloadIs(data: seq<Block>)
    ensures Payload(data) == DataStream(data)
    decreases |data|
  {
    if data != [] {
      var n := |data| - 1;
      PayloadIs(data[..n]);
      var s := DataStream(data);
      assert |Payload(data)| == 4096 * |data|;
      forall p | 0 <= p < |s|
        ensures Payload(data)[p] == s[p]
      {
        if p < 4096 * n {
          assert DataStream(data[..n])[p] == s[p];
        } else {
          assert p / 4096 == n && p % 4096 == p - 4096 * n;
        }
      }
    }
  }

  /** The checksum of a batch is that of the stream. */
  lemma BatchCrcIs(dest: seq<u32>, data: seq<Block>)
    ensures BatchCrc(dest, data) == ChecksumValue(Stream(dest, data))
  {
    DestBytesAre(dest);
    PayloadIs(data);
  }

  // ---------- bits ----------

  lemma {:induction false} NatBitsAt(n: nat, k: nat, i: nat)
    requires i < k
    ensures NatBits(n, k)[i] == BitAt(n, i)
    decreases i
  {
    if i > 0 {
      NatBitsAt(n / 2, k - 1, i - 1);
    }
  }

  lemma {:induction false} NumberBit(c: Bits, i: nat)
    requires i < |c|
    ensures c[i] == BitAt(Number(c), i)
    decreases i
  {
    var n := Number(c);
    assert n % 2 == (if c[0] then 1 else 0) && n / 2 == Number(c[1..]);
    if i > 0 {
      NumberBit(c[1..], i - 1);
    }
  }

  lemma {:induction false} AllBitsAt(s: seq<byte>, p: nat)
    requires p < 8 * |s|
    ensures AllBits(s)[p] == StreamBit(s, p)
    decreases |s|
  {
    if p < 8 {
      NatBitsAt(s[0], 8, p);
    } else {
      AllBitsAt(s[1..], p - 8);
      assert (p - 8) / 8 == p / 8 - 1 && (p - 8) % 8 == p % 8;
    }
  }

  // ---------- what the header holds ----------

  /** The coefficients of a message of at least 32 bits as IEEE 802.3 reads it: the first bit
      is the highest power, and the first 32 are complemented. */
  ghost function Message(s: seq<byte>): (p: CrcPolynomial.Poly)
    requires |s| >= 4
  {
    set i | 0 <= i < 8 * |s| && StreamBit(s, i) != (i < 32) :: 8 * |s| - 1 - i
  }

  /** A stored value as the standard reads it: complemented, lowest bit the highest power. */
  ghost function StoredRemainder(v: u32): CrcPolynomial.Poly {
    set i | 0 <= i < 32 && !BitAt(v, i) :: 31 - i
  }

  lemma MessageIs(s: seq<byte>)
    requires |s| >= 4
    ensures Message(s) == CrcPolynomial.PolyOf(CrcPolynomial.Complemented(AllBits(s)))
  {
    var m := CrcPolynomial.Complemented(AllBits(s));
    forall i | 0 <= i < 8 * |s|
      ensures m[i] == (StreamBit(s, i) != (i < 32))
    {
      AllBitsAt(s, i);
    }
    var l, r := Message(s), CrcPolynomial.PolyOf(m);
    forall e: nat
      ensures e in l <==> e in r
    {
      var i := 8 * |s| - 1 - e;
      if e in r {
        assert 0 <= i < 8 * |s| && 8 * |s| - 1 - i == e;
      }
    }
  }

  lemma StoredIs(s: seq<byte>)
    ensures StoredRemainder(ChecksumValue(s)) == CrcPolynomial.PolyOf(Xor(Checksum(s), ONES))
  {
    var w := Xor(Checksum(s), ONES);
    forall i | 0 <= i < 32
      ensures w[i] == !BitAt(ChecksumValue(s), i)
    {
      NumberBit(Checksum(s), i);
    }
    var l, r := StoredRemainder(ChecksumValue(s)), CrcPolynomial.PolyOf(w);
    forall e: nat
      ensures e in l <==> e in r
    {
      if e in r {
        assert 0 <= 31 - e < 32 && 31 - (31 - e) == e;
      }
    }
  }

  lemma StreamRemainder(s: seq<byte>) returns (q: Bits)
    requires |s| >= 4
    ensures |q| == 8 * |s|
    ensures CrcPolynomial.TimesX(32, Message(s)) ==
            CrcPolynomial.Add(CrcPolynomial.Times(q, CrcPolynomial.GENERATOR), StoredRemainder(ChecksumValue(s)))
  {
    MessageIs(s);
    StoredIs(s);
    q := CrcPolynomial.ChecksumIsRemainder(s);
  }

  /** The disk once commit has written its payloads and `k` sectors of the header. */
  ghost function HeaderDisk(g: Geometry, d: Sectors, txn: u32, dest: seq<u32>, data: seq<Block>, k: nat): Sectors
    requires 0 < |dest| == |data| <= DATA_BLOCKS && 0 < k <= 8
  {
    Apply(d, CommitWrites(g, txn, dest, data)[..8 * |dest| + k])
  }

  lemma HeaderWritten(g: Geometry, d: Sectors, txn: u32, dest: seq<u32>, data: seq<Block>, k: nat)
    requires 0 < |dest| == |data| <= DATA_BLOCKS && 0 < k <= 8 && OnDevice(d, g.header)
    ensures var h := HeaderOn(g, HeaderDisk(g, d, txn, dest, data, k));
      h.magicOk && h.txn == txn && h.count == |dest| && h.dest[..h.count] == dest && h.crc == BatchCrc(dest, data)
  {
    hide BatchCrc, BatchWrites, EncodeHeader, ParseHeader, Apply;
    var b := EncodeHeader(txn, dest, BatchCrc(dest, data));
    var step1, hdr := BatchWrites(SlotDests(g, |data|), data), BlockWrites(g.header, b);
    assert CommitWrites(g, txn, dest, data)[..8 * |dest| + k] == step1 + hdr[..k];
    ApplyAppend(d, step1, hdr[..k]);
    var d1 := Apply(d, step1);
    ApplyPrefixOfBlock(d1, g.header, b, k);
    var e := Apply(d1, hdr[..k]);
    assert e[8 * g.header + 0] == SectorOf(b, 0);
    JournalCrash.HeaderIs(g, e, b);
    HeaderRoundTrip(txn, dest, BatchCrc(dest, data));
  }

  /** From the commit point on, the header on disk holds the complemented remainder of the whole
      stream: every byte of every destination, then every byte of every payload. */
  lemma HeaderHoldsRemainder(g: Geometry, d: Sectors, txn: u32, dest: seq<u32>, data: seq<Block>, k: nat)
    returns (q: Bits)
    requires 0 < |dest| == |data| <= DATA_BLOCKS && 0 < k <= 8 && OnDevice(d, g.header)
    ensures var s := Stream(dest, data);
      |q| == 8 * |s| &&
      CrcPolynomial.TimesX(32, Message(s)) ==
      CrcPolynomial.Add(CrcPolynomial.Times(q, CrcPolynomial.GENERATOR),
                        StoredRemainder(HeaderOn(g, HeaderDisk(g, d, txn, dest, data, k)).crc))
  {
    hide BatchCrc, HeaderDisk, HeaderOn;
    HeaderWritten(g, d, txn, dest, data, k);
    BatchCrcIs(dest, data);
    q := StreamRemainder(Stream(dest, data));
  }

  lemma {:induction false} BitsDetermine(a: nat, b: nat, k: nat)
    requires a < Pow2(k) && b < Pow2(k)
    requires forall i :: 0 <= i < k ==> BitAt(a, i) == BitAt(b, i)
    ensures a == b
  {
    if k > 0 {
      assert BitAt(a, 0) == BitAt(b, 0);
      forall i | 0 <= i < k - 1
        ensures BitAt(a / 2, i) == BitAt(b / 2, i)
      {
        assert BitAt(a, i + 1) == BitAt(b, i + 1);
      }
      BitsDetermine(a / 2, b / 2, k - 1);
    }
  }

  lemma StoredDetermines(v: u32, w: u32)
    requires StoredRemainder(v) == StoredRemainder(w)
    ensures v == w
  {
    forall i | 0 <= i < 32
      ensures BitAt(v, i) == BitAt(w, i)
    {
      StoredHas(v, i);
      StoredHas(w, i);
    }
    Pow2Is32();
    BitsDetermine(v, w, 32);
  }

  lemma StoredHas(v: u32, i: nat)
    requires i < 32
    ensures 31 - i in StoredRemainder(v) <==> !BitAt(v, i)
  {}

  lemma UniqueRemainder(m: CrcPolynomial.Poly, p: Bits, v: u32, q: Bits, w: u32)
    requires |p| == |q|
    requires m == CrcPolynomial.Add(CrcPolynomial.Times(p, CrcPolynomial.GENERATOR), StoredRemainder(v))
    requires m == CrcPolynomial.Add(CrcPolynomial.Times(q, CrcPolynomial.GENERATOR), StoredRemainder(w))
    ensures v == w
  {
    hide StoredRemainder, CrcPolynomial.Times, CrcPolynomial.Add;
    StoredSmall(v);
    StoredSmall(w);
    CrcPolynomial.RemainderUnique(m, p, StoredRemainder(v), q, StoredRemainder(w), CrcPolynomial.GENERATOR);
    StoredDetermines(v, w);
  }

  /** No other value has that property: the division alone says what the checksum is. */
  lemma RemainderDetermines(dest: seq<u32>, data: seq<Block>, v: u32, q: Bits)
    requires 0 < |dest| == |data|
    requires |q| == 8 * |Stream(dest, data)|
    requires CrcPolynomial.TimesX(32, Message(Stream(dest, data))) ==
             CrcPolynomial.Add(CrcPolynomial.Times(q, CrcPolynomial.GENERATOR), StoredRemainder(v))
    ensures BatchCrc(dest, data) == v
  {
    hide BatchCrc, ChecksumValue, Stream, Message, CrcPolynomial.TimesX, CrcPolynomial.Times, CrcPolynomial.Add,
      StoredRemainder;
    var s := Stream(dest, data);
    BatchCrcIs(dest, data);
    var p := StreamRemainder(s);
    UniqueRemainder(CrcPolynomial.TimesX(32, Message(s)), p, ChecksumValue(s), q, v);
  }

  lemma StoredSmall(v: u32)
    ensures forall e :: e in StoredRemainder(v) ==> e < 32
  {}

  // ---------- what it catches ----------

  /** Streams that differ within 32 consecutive bits have different checksums. */
  lemma BatchBurst(dest: seq<u32>, data: seq<Block>, dest2: seq<u32>, data2: seq<Block>, k: nat)
    requires Burst(Stream(dest, data), Stream(dest2, data2), k)
    ensures BatchCrc(dest, data) != BatchCrc(dest2, data2)
  {
    hide BatchCrc, ChecksumValue, Stream;
    var s, t := Stream(dest, data), Stream(dest2, data2);
    forall p | 0 <= p < 8 * |s| && !(k <= p < k + 32)
      ensures AllBits(s)[p] == AllBits(t)[p]
    {
      AllBitsAt(s, p);
      AllBitsAt(t, p);
    }
    BurstDetected(s, t, k);
    BatchCrcIs(dest, data);
    BatchCrcIs(dest2, data2);
  }

  lemma StreamBitParts(s: seq<byte>, t: seq<byte>, p: nat)
    requires p < 8 * |s + t|
    ensures StreamBit(s + t, p) == if p < 8 * |s| then StreamBit(s, p) else StreamBit(t, p - 8 * |s|)
  {
    if p >= 8 * |s| {
      assert (p - 8 * |s|) / 8 == p / 8 - |s| && (p - 8 * |s|) % 8 == p % 8;
    }
  }

  /** A burst in the payloads alone, of any payloads to the same destinations. */
  lemma PayloadBurst(dest: seq<u32>, data: seq<Block>, data2: seq<Block>, k: nat)
    requires Burst(DataStream(data), DataStream(data2), k)
    ensures BatchCrc(dest, data) != BatchCrc(dest, data2)
  {
    hide BatchCrc, DataStream, DestStream, StreamBit;
    var h, s, t := DestStream(dest), DataStream(data), DataStream(data2);
    assert s == (h + s)[|h|..] && t == (h + t)[|h|..];
    forall p | 0 <= p < 8 * |h + s| && !(k + 8 * |h| <= p < k + 8 * |h| + 32)
      ensures StreamBit(h + s, p) == StreamBit(h + t, p)
    {
      StreamBitParts(h, s, p);
      StreamBitParts(h, t, p);
    }
    BatchBurst(dest, data, dest, data2, k + 8 * |h|);
  }

  /** A burst in the destinations alone. */
  lemma DestinationBurst(dest: seq<u32>, dest2: seq<u32>, data: seq<Block>, k: nat)
    requires Burst(DestStream(dest), DestStream(dest2), k)
    ensures BatchCrc(dest, data) != BatchCrc(dest2, data)
  {
    hide BatchCrc, DataStream, DestStream, StreamBit;
    var s, t, h := DestStream(dest), DestStream(dest2), DataStream(data);
    assert s == (s + h)[..|s|] && t == (t + h)[..|t|];
    forall p | 0 <= p < 8 * |s + h| && !(k <= p < k + 32)
      ensures StreamBit(s + h, p) == StreamBit(t + h, p)
    {
      StreamBitParts(s, h, p);
      StreamBitParts(t, h, p);
    }
    BatchBurst(dest, data, dest2, data, k);
  }

  /** A committed header, written for (dest, data), over slots and destinations that meanwhile
      differ from them in a burst: replay writes nothing home and only zeroes the header. */
  lemma BurstIsRefused(g: Geometry, d: Sectors, dest: seq<u32>, data: seq<Block>, k: nat)
    requires g.slots <= DATA_BLOCKS && Committed(g, HeaderOn(g, d))
    requires HeaderOn(g, d).crc == BatchCrc(dest, data)
    requires var h := HeaderOn(g, d);
      Burst(Stream(h.dest[..h.count], SlotData(g, d, h.count)), Stream(dest, data), k)
    ensures ReplayWrites(g, d) == BlockWrites(g.header, ZERO_BLOCK)
  {
    hide BatchCrc, Stream, Burst, ParseHeader, BlockAt;
    var h := HeaderOn(g, d);
    BatchBurst(h.dest[..h.count], SlotData(g, d, h.count), dest, data, k);
  }

  // ---------- where the fields lie ----------

  /** The header block, byte by byte (kernel/core/osfs2_journal.h). */
  lemma HeaderLayout(txn: u32, dest: seq<u32>, crc: u32)
    requires |dest| <= DATA_BLOCKS
    ensures var b := EncodeHeader(txn, dest, crc);
      && b[..8] == [79, 83, 70, 83, 74, 82, 78, 76]
      && (forall q :: 0 <= q < 4 ==> b[8 + q] == ByteOf(txn, q) && b[12 + q] == ByteOf(|dest|, q)
                                     && b[16 + q] == ByteOf(crc, q) && b[20 + q] == 0)
      && (forall i, q :: 0 <= i < |dest| && 0 <= q < 4 ==> b[24 + 4 * i + q] == ByteOf(dest[i], q))
      && (forall p :: 24 + 4 * |dest| <= p < 4096 ==> b[p] == 0)
  {
    hide ByteOf, Le32, DestBytes;
    var b := EncodeHeader(txn, dest, crc);
    var f := Fields(txn, |dest|, crc);
    forall q | 0 <= q < 4
      ensures b[8 + q] == ByteOf(txn, q) && b[12 + q] == ByteOf(|dest|, q)
              && b[16 + q] == ByteOf(crc, q) && b[20 + q] == 0
    {
      Le32Bytes(txn, q);
      Le32Bytes(|dest|, q);
      Le32Bytes(crc, q);
      assert Le32(0)[q] == 0 by {
        Le32Bytes(0, q);
        ZeroBytes(q);
      }
    }
    forall i, q | 0 <= i < |dest| && 0 <= q < 4
      ensures b[24 + 4 * i + q] == ByteOf(dest[i], q)
    {
      DestBytesAt(dest, i);
      assert b[24 + 4 * i + q] == DestBytes(dest)[4 * i..4 * i + 4][q];
      Le32Bytes(dest[i], q);
    }
  }

  lemma ZeroBytes(q: nat)
    requires q < 4
    ensures ByteOf(0, q) == 0
  {}
}

/** The block device below OSFS-2: 512-byte sectors, eight to a block, written one at a time. */
module Disk {
  import opened Bytes

  const SECTOR: nat := 512
  const BLOCK: nat := 4096

  type Sector = s: seq<byte> | |s| == 512 witness Zeros(512)
  type Block = b: seq<byte> | |b| == 4096 witness Zeros(4096)
  type Sectors = seq<Sector>

  /** One durable sector write. */
  datatype Write = Write(lba: nat, data: Sector)

  function Put(d: Sectors, w: Write): (r: Sectors)
    ensures |r| == |d|
  {
    if w.lba < |d| then d[w.lba := w.data] else d
  }

  /** The disk after the writes `ws`, in order. */
  function Apply(d: Sectors, ws: seq<Write>): (r: Sectors)
    ensures |r| == |d|
  {
    if ws == [] then d else Put(Apply(d, ws[..|ws| - 1]), ws[|ws| - 1])
  }

  lemma ApplyNothing(d: Sectors)
    ensures Apply(d, []) == d
  {}

  lemma {:induction false} ApplyAppend(d: Sectors, u: seq<Write>, w: seq<Write>)
    ensures Apply(d, u + w) == Apply(Apply(d, u), w)
    decreases |w|
  {
    if w == [] {
      assert u + w == u;
    } else {
      var n := |w| - 1;
      assert (u + w)[..|u + w| - 1] == u + w[..n];
      ApplyAppend(d, u, w[..n]);
    }
  }

  /** The disk `now` is disk `d` after the first `p` of the writes `ws`, except that the sector of
      the write after them may hold anything. */
  ghost predicate StoppedAt(d: Sectors, now: Sectors, ws: seq<Write>, p: nat) {
    && p < |ws| && |now| == |d|
    && (forall l: nat :: l < |d| && l != ws[p].lba ==> now[l] == Apply(d, ws[..p])[l])
  }

  /** The writes `ws` stopped at one of those from `first` up to `last`. */
  ghost predicate Stopped(d: Sectors, now: Sectors, ws: seq<Write>, first: nat, last: nat) {
    exists p: nat :: first <= p < last && StoppedAt(d, now, ws, p)
  }

  /** Writes that stopped in the middle part of a longer list stopped in that list. */
  lemma StoppedInside(d: Sectors, now: Sectors, a: seq<Write>, b: seq<Write>, c: seq<Write>, first: nat, last: nat)
    requires Stopped(Apply(d, a), now, b, first, last)
    ensures Stopped(d, now, a + b + c, |a| + first, |a| + last)
  {
    hide Apply;
    var p: nat :| first <= p < last && StoppedAt(Apply(d, a), now, b, p);
    ApplyAppend(d, a, b[..p]);
    assert (a + b + c)[..|a| + p] == a + b[..p];
    assert StoppedAt(d, now, a + b + c, |a| + p);
  }

  lemma StoppedWider(d: Sectors, now: Sectors, ws: seq<Write>, first: nat, last: nat, from: nat, upto: nat)
    requires Stopped(d, now, ws, first, last) && from <= first && last <= upto
    ensures Stopped(d, now, ws, from, upto)
  {}

  // ---------- blocks ----------

  function SectorOf(b: Block, i: nat): Sector
    requires i < 8
  {
    b[512 * i..512 * i + 512]
  }

  function Join(s: seq<Sector>): (b: seq<byte>)
    ensures |b| == 512 * |s|
    decreases |s|
  {
    if s == [] then [] else Join(s[..|s| - 1]) + s[|s| - 1]
  }

  /** The content of block `blk`; all zeros past the end of the device. */
  function BlockAt(d: Sectors, blk: nat): Block {
    if 8 * blk + 8 <= |d| then Join(d[8 * blk..8 * blk + 8]) else Zeros(4096)
  }

  predicate OnDevice(d: Sectors, blk: nat) {
    8 * blk + 8 <= |d|
  }

  /** The sector writes of `raw_write`, in the order it issues them. */
  function BlockWrites(blk: nat, data: Block): (ws: seq<Write>)
    ensures |ws| == 8
    ensures forall i :: 0 <= i < 8 ==> ws[i] == Write(8 * blk + i, SectorOf(data, i))
  {
    seq(8, (i: nat) requires i < 8 => Write(8 * blk + i, SectorOf(data, i)))
  }

  // ---------- what a list of writes leaves alone ----------

  function BlockOf(lba: nat): nat {
    lba / 8
  }

  /** The two disks agree on every sector outside the blocks `s`. */
  ghost predicate SameOutside(d: Sectors, e: Sectors, s: set<nat>) {
    |d| == |e| && forall i :: 0 <= i < |d| && BlockOf(i) !in s ==> d[i] == e[i]
  }

  ghost predicate Within(ws: seq<Write>, s: set<nat>) {
    forall i :: 0 <= i < |ws| ==> BlockOf(ws[i].lba) in s
  }

  lemma {:induction false} ApplyWithin(d: Sectors, ws: seq<Write>, s: set<nat>)
    requires Within(ws, s)
    ensures SameOutside(d, Apply(d, ws), s)
    decreases |ws|
  {
    if ws != [] {
      ApplyWithin(d, ws[..|ws| - 1], s);
    }
  }

  lemma SameBlock(d: Sectors, e: Sectors, s: set<nat>, blk: nat)
    requires SameOutside(d, e, s) && blk !in s
    ensures BlockAt(d, blk) == BlockAt(e, blk)
  {
    if OnDevice(d, blk) {
      var l := 8 * blk;
      forall i | l <= i < l + 8
        ensures d[i] == e[i]
      {
        assert BlockOf(i) == blk;
      }
      assert d[l..l + 8] == e[l..l + 8];
    }
  }

  lemma BlockWritesWithin(blk: nat, data: Block)
    ensures Within(BlockWrites(blk, data), {blk})
  {}

  lemma {:induction false} ApplyPrefixOfBlock(d: Sectors, blk: nat, data: Block, k: nat)
    requires k <= 8
    ensures forall i :: 0 <= i < k && 8 * blk + i < |d| ==> Apply(d, BlockWrites(blk, data)[..k])[8 * blk + i] == SectorOf(data, i)
    ensures forall i :: 0 <= i < |d| && !(8 * blk <= i < 8 * blk + k)
              ==> Apply(d, BlockWrites(blk, data)[..k])[i] == d[i]
  {
    if k > 0 {
      var ws := BlockWrites(blk, data)[..k];
      assert ws[..k - 1] == BlockWrites(blk, data)[..k - 1];
      ApplyPrefixOfBlock(d, blk, data, k - 1);
    }
  }

  lemma {:induction false} JoinPieces(s: seq<Sector>, b: seq<byte>)
    requires |b| == 512 * |s|
    requires forall i :: 0 <= i < |s| ==> s[i] == b[512 * i..512 * i + 512]
    ensures Join(s) == b
    decreases |s|
  {
    if s != [] {
      var n := |s| - 1;
      var c := b[..512 * n];
      forall i | 0 <= i < n
        ensures s[..n][i] == c[512 * i..512 * i + 512]
      {
        assert s[..n][i] == b[512 * i..512 * i + 512] == c[512 * i..512 * i + 512];
      }
      JoinPieces(s[..n], c);
    }
  }

  /** Writing a block and reading it back. */
  lemma WrittenBlock(d: Sectors, blk: nat, data: Block)
    requires OnDevice(d, blk)
    ensures BlockAt(Apply(d, BlockWrites(blk, data)), blk) == data
  {
    var ws := BlockWrites(blk, data);
    assert ws[..8] == ws;
    ApplyPrefixOfBlock(d, blk, data, 8);
    var s := Apply(d, ws)[8 * blk..8 * blk + 8];
    forall i | 0 <= i < 8
      ensures s[i] == data[512 * i..512 * i + 512]
    {
      assert s[i] == Apply(d, ws[..8])[8 * blk + i] == SectorOf(data, i);
    }
    JoinPieces(s, data);
  }

  // ---------- the device ----------

  /** virtio-blk device 1. A transfer may fail at any time; a failed write leaves the sector
      holding anything at all. `log` lists the writes that landed and `faultless` says that no
      transfer has failed yet. */
  class VirtioBlk {
    var sectors: Sectors
    ghost var log: seq<Write>
    ghost var faultless: bool

    constructor (initial: Sectors)
      ensures sectors == initial && log == [] && faultless
    {
      sectors, log, faultless := initial, [], true;
    }

    method ReadSector(lba: nat) returns (ok: bool, data: Sector)
      modifies this`faultless
      ensures ok ==> lba < |sectors| && data == sectors[lba] && faultless == old(faultless)
      ensures !ok ==> !faultless
    {
      var fails: bool := *;
      if lba < |sectors| && !fails {
        return true, sectors[lba];
      }
      faultless := false;
      data := *;
      ok := false;
    }

    method WriteSector(lba: nat, data: Sector) returns (ok: bool)
      modifies this
      ensures |sectors| == |old(sectors)|
      ensures ok ==> lba < |sectors| && faultless == old(faultless)
                     && sectors == Put(old(sectors), Write(lba, data))
                     && log == old(log) + [Write(lba, data)]
      ensures !ok ==> !faultless && forall i :: 0 <= i < |sectors| && i != lba ==> sectors[i] == old(sectors)[i]
    {
      var fails: bool := *;
      if lba < |sectors| && !fails {
        sectors := sectors[lba := data];
        log := log + [Write(lba, data)];
        return true;
      }
      faultless := false;
      if lba < |sectors| {
        var torn: Sector := *;
        sectors := sectors[lba := torn];
      }
      ok := false;
    }

    /** One block, sector by sector from the lowest. */
    method RawRead(blk: u32) returns (ok: bool, data: Block)
      modifies this`faultless
      ensures ok ==> OnDevice(sectors, blk) && data == BlockAt(sectors, blk) && faultless == old(faultless)
      ensures !ok ==> !faultless
    {
      var buf: seq<byte> := [];
      for i := 0 to 8
        invariant faultless == old(faultless) && |buf| == 512 * i
        invariant i > 0 ==> 8 * blk + i <= |sectors|
        invariant forall j :: 0 <= j < i ==> buf[512 * j..512 * j + 512] == sectors[8 * blk + j]
      {
        var got, s := ReadSector(8 * blk + i);
        if !got {
          data := *;
          return false, data;
        }
        OneMoreSector(buf, s, sectors, 8 * blk, i);
        buf := buf + s;
      }
      EightSectors(buf, sectors, blk);
      return true, buf;
    }

    method RawWrite(blk: u32, src: Block) returns (ok: bool)
      modifies this
      ensures |sectors| == |old(sectors)|
      ensures ok ==> OnDevice(sectors, blk) && faultless == old(faultless)
                     && sectors == Apply(old(sectors), BlockWrites(blk, src))
                     && log == old(log) + BlockWrites(blk, src)
      ensures !ok ==> !faultless && SameOutside(old(sectors), sectors, {blk})
                      && Stopped(old(sectors), sectors, BlockWrites(blk, src), 0, 8)
    {
      hide Apply, BlockWrites, SectorOf;
      ghost var ws := BlockWrites(blk, src);
      ghost var d := sectors;
      ApplyNothing(d);
      for i := 0 to 8
        invariant faultless == old(faultless) && |sectors| == |d|
        invariant i > 0 ==> 8 * blk + i <= |sectors|
        invariant sectors == Apply(d, ws[..i]) && log == old(log) + ws[..i]
      {
        ghost var was := sectors;
        var done := WriteSector(8 * blk + i, SectorOf(src, i));
        if !done {
          TornWrite(d, was, sectors, blk, src, i);
          assert StoppedAt(d, sectors, ws, i);
          return false;
        }
        assert ws[..i + 1] == ws[..i] + [ws[i]];
        ApplyOne(d, ws[..i], ws[i]);
      }
      assert ws[..8] == ws;
      return true;
    }
  }

  lemma OneMoreSector(buf: seq<byte>, s: Sector, d: Sectors, l: nat, i: nat)
    requires |buf| == 512 * i && l + i < |d| && s == d[l + i]
    requires forall j :: 0 <= j < i ==> buf[512 * j..512 * j + 512] == d[l + j]
    ensures forall j :: 0 <= j < i + 1 ==> (buf + s)[512 * j..512 * j + 512] == d[l + j]
  {
    forall j | 0 <= j < i + 1
      ensures (buf + s)[512 * j..512 * j + 512] == d[l + j]
    {
      if j < i {
        assert (buf + s)[512 * j..512 * j + 512] == buf[512 * j..512 * j + 512];
      } else {
        assert (buf + s)[512 * j..512 * j + 512] == s;
      }
    }
  }

  lemma ApplyOne(d: Sectors, ws: seq<Write>, w: Write)
    ensures Apply(d, ws + [w]) == Put(Apply(d, ws), w)
  {
    assert (ws + [w])[..|ws|] == ws;
  }

  /** A block write that fails at sector `i`: the sectors before it are new, those after it are old,
      and no other block changed. */
  lemma TornWrite(d: Sectors, was: Sectors, now: Sectors, blk: nat, src: Block, i: nat)
    requires i < 8 && was == Apply(d, BlockWrites(blk, src)[..i]) && |now| == |was|
    requires forall j :: 0 <= j < |now| && j != 8 * blk + i ==> now[j] == was[j]
    ensures SameOutside(d, now, {blk})
    ensures forall j :: 0 <= j < 8 && 8 * blk + j < |d| && j != i ==>
              now[8 * blk + j] == if j < i then SectorOf(src, j) else d[8 * blk + j]
  {
    hide Apply, BlockWrites, SectorOf;
    ApplyPrefixOfBlock(d, blk, src, i);
    BlockWritesWithin(blk, src);
    ApplyWithin(d, BlockWrites(blk, src)[..i], {blk});
    assert BlockOf(8 * blk + i) == blk;
  }

  lemma EightSectors(buf: seq<byte>, d: Sectors, blk: nat)
    requires |buf| == 4096 && OnDevice(d, blk)
    requires forall j :: 0 <= j < 8 ==> buf[512 * j..512 * j + 512] == d[8 * blk + j]
    ensures buf == BlockAt(d, blk)
  {
    JoinPieces(d[8 * blk..8 * blk + 8], buf);
  }
}

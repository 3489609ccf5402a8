/** The write-ahead journal (kernel/core/osfs2_journal.c): header codec, the sector writes that
    commit and replay issue, and the methods that issue them. */
module Journal {
  import opened Bytes
  import opened Disk
  import Crc32

  const DATA_BLOCKS: nat := 32
  const MAGIC: seq<byte> := [79, 83, 70, 83, 74, 82, 78, 76]   // "OSFSJRNL"
  const ZERO_BLOCK: Block := Zeros(4096)

  /** Where the journal lives: header block, first payload slot, number of usable slots. */
  datatype Geometry = Geometry(header: u32, data0: u32, slots: nat)

  /** The slot for payload `i`; block numbers are `uint32_t` and wrap. */
  function Slot(g: Geometry, i: nat): u32 {
    (g.data0 + i) % U32
  }

  function SlotDests(g: Geometry, n: nat): (s: seq<u32>)
    ensures |s| == n
    ensures forall i :: 0 <= i < n ==> s[i] == Slot(g, i)
  {
    seq(n, (i: nat) => Slot(g, i))
  }

  // ---------- header codec ----------

  datatype Header = Header(magicOk: bool, txn: u32, count: u32, crc: u32, dest: seq<u32>)

  function DestBytes(dest: seq<u32>): (s: seq<byte>)
    ensures |s| == 4 * |dest|
    decreases |dest|
  {
    if dest == [] then [] else DestBytes(dest[..|dest| - 1]) + Le32(dest[|dest| - 1])
  }

  function Fields(txn: u32, count: u32, crc: u32): (s: seq<byte>)
    ensures |s| == 24
  {
    MAGIC + Le32(txn) + Le32(count) + Le32(crc) + Le32(0)
  }

  function EncodeHeader(txn: u32, dest: seq<u32>, crc: u32): Block
    requires |dest| <= DATA_BLOCKS
  {
    Fields(txn, |dest|, crc) + DestBytes(dest) + Zeros(4072 - 4 * |dest|)
  }

  /** Reads only the first 152 bytes: all live fields lie in the first sector. */
  function ParseHeader(b: seq<byte>): (h: Header)
    requires |b| >= 152
    ensures |h.dest| == DATA_BLOCKS
  {
    Header(b[..8] == MAGIC, De32(b[8..12]), De32(b[12..16]), De32(b[16..20]),
           seq(32, i requires 0 <= i < 32 => De32(b[24 + 4 * i..28 + 4 * i])))
  }

  /** `header_is_committed`. */
  predicate Committed(g: Geometry, h: Header) {
    h.magicOk && h.count != 0 && h.count <= g.slots
  }

  lemma ParseDependsOnPrefix(b: seq<byte>, c: seq<byte>)
    requires |b| >= 152 && |c| >= 152 && b[..152] == c[..152]
    ensures ParseHeader(b) == ParseHeader(c)
  {
    assert b[..8] == b[..152][..8] == c[..8];
    assert b[8..12] == b[..152][8..12] == c[8..12];
    assert b[12..16] == b[..152][12..16] == c[12..16];
    assert b[16..20] == b[..152][16..20] == c[16..20];
    forall i | 0 <= i < 32
      ensures ParseHeader(b).dest[i] == ParseHeader(c).dest[i]
    {
      assert b[24 + 4 * i..28 + 4 * i] == b[..152][24 + 4 * i..28 + 4 * i] == c[24 + 4 * i..28 + 4 * i];
    }
  }

  lemma {:induction false} DestBytesAt(dest: seq<u32>, i: nat)
    requires i < |dest|
    ensures DestBytes(dest)[4 * i..4 * i + 4] == Le32(dest[i])
    decreases |dest|
  {
    var n := |dest| - 1;
    if i < n {
      DestBytesAt(dest[..n], i);
      assert DestBytes(dest)[4 * i..4 * i + 4] == DestBytes(dest[..n])[4 * i..4 * i + 4];
    }
  }

  lemma ParseFields(txn: u32, count: u32, crc: u32, rest: seq<byte>)
    requires |rest| >= 128
    ensures var h := ParseHeader(Fields(txn, count, crc) + rest);
      h.magicOk && h.txn == txn && h.count == count && h.crc == crc
  {
    var b := Fields(txn, count, crc) + rest;
    assert b[..8] == MAGIC;
    assert b[8..12] == Le32(txn) && b[12..16] == Le32(count) && b[16..20] == Le32(crc);
    Le32RoundTrip(txn);
    Le32RoundTrip(count);
    Le32RoundTrip(crc);
  }

  /** What commit encodes, replay decodes. */
  lemma HeaderRoundTrip(txn: u32, dest: seq<u32>, crc: u32)
    requires |dest| <= DATA_BLOCKS
    ensures var h := ParseHeader(EncodeHeader(txn, dest, crc));
      h.magicOk && h.txn == txn && h.count == |dest| && h.crc == crc && h.dest[..|dest|] == dest
  {
    var rest := DestBytes(dest) + Zeros(4072 - 4 * |dest|);
    var b := EncodeHeader(txn, dest, crc);
    assert b == Fields(txn, |dest|, crc) + rest;
    ParseFields(txn, |dest|, crc, rest);
    forall i | 0 <= i < |dest|
      ensures ParseHeader(b).dest[i] == dest[i]
    {
      DestBytesAt(dest, i);
      assert b[24 + 4 * i..28 + 4 * i] == DestBytes(dest)[4 * i..4 * i + 4];
      Le32RoundTrip(dest[i]);
    }
  }

  lemma ZeroIsUncommitted(g: Geometry, b: seq<byte>)
    requires |b| >= 152 && b[..152] == Zeros(152)
    ensures !Committed(g, ParseHeader(b))
  {
    assert b[..152][0] == 0;
    assert b[..8][0] == 0;
  }

  // ---------- checksum of a batch ----------

  function Payload(data: seq<Block>): (s: seq<byte>)
    decreases |data|
  {
    if data == [] then [] else Payload(data[..|data| - 1]) + data[|data| - 1]
  }

  function BatchCrc(dest: seq<u32>, data: seq<Block>): u32 {
    Crc32.ChecksumValue(DestBytes(dest) + Payload(data))
  }

  lemma DestFoldStep(c: Crc32.Word, dest: seq<u32>, i: nat)
    requires i < |dest|
    ensures Crc32.Fold(c, DestBytes(dest[..i + 1])) == Crc32.Fold(Crc32.Fold(c, DestBytes(dest[..i])), Le32(dest[i]))
  {
    assert dest[..i + 1][..i] == dest[..i];
    Crc32.FoldAppend(c, DestBytes(dest[..i]), Le32(dest[i]));
  }

  lemma PayloadFoldStep(c: Crc32.Word, data: seq<Block>, i: nat)
    requires i < |data|
    ensures Crc32.Fold(c, Payload(data[..i + 1])) == Crc32.Fold(Crc32.Fold(c, Payload(data[..i])), data[i])
  {
    assert data[..i + 1][..i] == data[..i];
    Crc32.FoldAppend(c, Payload(data[..i]), data[i]);
  }

  /** `compute_commit_crc` and `compute_replay_crc`: one loop over the destinations, one over
      the payload blocks. */
  method ComputeCrc(dest: seq<u32>, data: seq<Block>) returns (r: u32)
    requires |dest| == |data|
    ensures r == BatchCrc(dest, data)
  {
    var crc := Crc32.ONES;
    for i := 0 to |dest|
      invariant crc == Crc32.Fold(Crc32.ONES, DestBytes(dest[..i]))
    {
      DestFoldStep(Crc32.ONES, dest, i);
      crc := Crc32.Crc32Buf(crc, Le32(dest[i]));
    }
    assert dest[..|dest|] == dest;
    ghost var c := crc;
    for i := 0 to |data|
      invariant crc == Crc32.Fold(c, Payload(data[..i]))
    {
      PayloadFoldStep(c, data, i);
      crc := Crc32.Crc32Buf(crc, data[i]);
    }
    assert data[..|data|] == data;
    Crc32.FoldAppend(Crc32.ONES, DestBytes(dest), Payload(data));
    Crc32.Pow2Is32();
    r := Crc32.Number(Crc32.Xor(crc, Crc32.ONES));
  }

  // ---------- the writes commit and replay issue ----------

  /** One block write per entry, in order. */
  function BatchWrites(dest: seq<u32>, data: seq<Block>): (ws: seq<Write>)
    requires |dest| == |data|
    ensures |ws| == 8 * |dest|
    decreases |dest|
  {
    if dest == [] then []
    else BatchWrites(dest[..|dest| - 1], data[..|dest| - 1]) + BlockWrites(dest[|dest| - 1], data[|dest| - 1])
  }

  /** Steps 1 to 4: payloads to their slots, committed header, payloads home, zeroed header. */
  function CommitWrites(g: Geometry, txn: u32, dest: seq<u32>, data: seq<Block>): (ws: seq<Write>)
    requires |dest| == |data| <= DATA_BLOCKS
    ensures |ws| == 16 * |dest| + 16
  {
    BatchWrites(SlotDests(g, |data|), data)
    + BlockWrites(g.header, EncodeHeader(txn, dest, BatchCrc(dest, data)))
    + BatchWrites(dest, data)
    + BlockWrites(g.header, ZERO_BLOCK)
  }

  function HeaderOn(g: Geometry, d: Sectors): Header {
    ParseHeader(BlockAt(d, g.header))
  }

  function SlotData(g: Geometry, d: Sectors, n: nat): (s: seq<Block>)
    ensures |s| == n
    ensures forall i :: 0 <= i < n ==> s[i] == BlockAt(d, Slot(g, i))
  {
    seq(n, (i: nat) => BlockAt(d, Slot(g, i)))
  }

  function ReplayWrites(g: Geometry, d: Sectors): seq<Write>
    requires g.slots <= DATA_BLOCKS
  {
    var h := HeaderOn(g, d);
    if !Committed(g, h) then []
    else
      var dest, data := h.dest[..h.count], SlotData(g, d, h.count);
      if BatchCrc(dest, data) != h.crc then BlockWrites(g.header, ZERO_BLOCK)
      else BatchWrites(dest, data) + BlockWrites(g.header, ZERO_BLOCK)
  }

  // ---------- the module ----------

  ghost function Targets(dest: seq<u32>): set<nat> {
    set i | 0 <= i < |dest| :: dest[i]
  }

  /** The blocks a commit may touch. */
  ghost function Footprint(g: Geometry, dest: seq<u32>): set<nat> {
    {g.header} + Targets(SlotDests(g, |dest|)) + Targets(dest)
  }

  /** What a commit may do to the disk, whatever the device does: nothing for a batch of the
      wrong size; everything, up to the final zeroed header, when it reports success; and
      nothing outside its footprint when it reports failure. */
  ghost predicate CommitEffect(g: Geometry, txn: u32, dest: seq<u32>, data: seq<Block>,
                               d: Sectors, e: Sectors, ok: bool)
    requires g.slots <= DATA_BLOCKS && |dest| == |data|
  {
    if |dest| == 0 || |dest| > g.slots then e == d && ok == (|dest| == 0)
    else if ok then SameOutside(Apply(d, CommitWrites(g, txn, dest, data)), e, {g.header})
    else SameOutside(d, e, Footprint(g, dest))
  }

  /** The writes `ws`, and nothing else, took disk `d` with history `l` to `e` and `m`. */
  ghost predicate Performed(d: Sectors, l: seq<Write>, e: Sectors, m: seq<Write>, ws: seq<Write>) {
    e == Apply(d, ws) && m == l + ws
  }

  class Log {
    const dev: VirtioBlk
    var geometry: Geometry
    var nextTxn: u32
    var commits: nat
    var replays: nat
    var journalled: nat

    /** `osfs2_journal_init`: the slot count is clipped to the compiled-in maximum. */
    constructor (dev: VirtioBlk, headerBlock: u32, dataBlocks: u32)
      ensures this.dev == dev && Valid()
      ensures geometry.header == headerBlock && geometry.data0 == (headerBlock + 1) % U32
      ensures geometry.slots == if dataBlocks > DATA_BLOCKS then DATA_BLOCKS else dataBlocks
      ensures nextTxn == 1 && commits == replays == journalled == 0
    {
      this.dev := dev;
      geometry := Geometry(headerBlock, (headerBlock + 1) % U32,
                           if dataBlocks > DATA_BLOCKS then DATA_BLOCKS else dataBlocks);
      nextTxn, commits, replays, journalled := 1, 0, 0, 0;
    }

    predicate Valid()
      reads this
    {
      geometry.slots <= DATA_BLOCKS
    }

    /** Writes one batch of blocks in order, stopping at the first failure. */
    method WriteBatch(dest: seq<u32>, data: seq<Block>) returns (ok: bool)
      requires |dest| == |data|
      modifies dev
      ensures |dev.sectors| == |old(dev.sectors)|
      ensures ok ==> dev.faultless == old(dev.faultless)
                     && dev.sectors == Apply(old(dev.sectors), BatchWrites(dest, data))
                     && dev.log == old(dev.log) + BatchWrites(dest, data)
      ensures !ok ==> !dev.faultless && SameOutside(old(dev.sectors), dev.sectors, Targets(dest))
                      && Stopped(old(dev.sectors), dev.sectors, BatchWrites(dest, data), 0, 8 * |dest|)
    {
      ghost var d, l := dev.sectors, dev.log;
      for i := 0 to |dest|
        invariant dev.faultless == old(dev.faultless)
        invariant dev.sectors == Apply(d, BatchWrites(dest[..i], data[..i]))
        invariant dev.log == l + BatchWrites(dest[..i], data[..i])
      {
        BatchStep(d, dest, data, i);
        var wrote := dev.RawWrite(dest[i], data[i]);
        if !wrote {
          BatchStopped(d, dev.sectors, dest, data, i);
          BatchStoppedAt(d, dev.sectors, dest, data, i);
          return false;
        }
        LogStep(l, dest, data, i);
      }
      assert dest[..|dest|] == dest && data[..|dest|] == data;
      return true;
    }

    /** `write_committed_header`, filling in the zeroed scratch block field by field. */
    method WriteCommittedHeader(txn: u32, dest: seq<u32>, crc: u32) returns (ok: bool)
      requires |dest| <= DATA_BLOCKS
      modifies dev
      ensures |dev.sectors| == |old(dev.sectors)|
      ensures ok ==> dev.faultless == old(dev.faultless)
                     && dev.sectors == Apply(old(dev.sectors), BlockWrites(geometry.header, EncodeHeader(txn, dest, crc)))
                     && dev.log == old(dev.log) + BlockWrites(geometry.header, EncodeHeader(txn, dest, crc))
      ensures !ok ==> !dev.faultless && SameOutside(old(dev.sectors), dev.sectors, {geometry.header})
                      && Stopped(old(dev.sectors), dev.sectors, BlockWrites(geometry.header, EncodeHeader(txn, dest, crc)), 0, 8)
    {
      var scratch := Fields(txn, |dest|, crc) + Zeros(4072);
      for i := 0 to |dest|
        invariant scratch == PartialHeader(txn, dest, crc, i)
        invariant unchanged(dev)
      {
        HeaderStep(txn, dest, crc, i);
        scratch := scratch[..24 + 4 * i] + Le32(dest[i]) + scratch[28 + 4 * i..];
      }
      assert dest[..|dest|] == dest;
      ok := dev.RawWrite(geometry.header, scratch);
    }

    /** `osfs2_journal_commit`. */
    method Commit(dest: seq<u32>, data: seq<Block>) returns (ok: bool)
      requires Valid() && |dest| == |data|
      modifies this`nextTxn, this`commits, this`journalled, dev
      ensures Valid()
      ensures CommitEffect(geometry, old(nextTxn), dest, data, old(dev.sectors), dev.sectors, ok)
      ensures 0 < |dest| <= geometry.slots && dev.faultless ==>
                ok && nextTxn == (old(nextTxn) + 1) % U32
                && Performed(old(dev.sectors), old(dev.log), dev.sectors, dev.log,
                             CommitWrites(geometry, old(nextTxn), dest, data))
      ensures !ok && |dest| <= geometry.slots ==>
                Stopped(old(dev.sectors), dev.sectors, CommitWrites(geometry, old(nextTxn), dest, data), 0, 16 * |dest| + 8)
      ensures ok && |dest| > 0 && dev.sectors != Apply(old(dev.sectors), CommitWrites(geometry, old(nextTxn), dest, data)) ==>
                Stopped(old(dev.sectors), dev.sectors, CommitWrites(geometry, old(nextTxn), dest, data),
                        16 * |dest| + 8, 16 * |dest| + 16)
      ensures |dest| == 0 || |dest| > geometry.slots ==>
                dev.log == old(dev.log) && dev.faultless == old(dev.faultless) && nextTxn == old(nextTxn)
      ensures dev.faultless ==> old(dev.faultless)
      ensures if ok && |dest| > 0 then commits == old(commits) + 1 && journalled == old(journalled) + |dest|
              else commits == old(commits) && journalled == old(journalled)
    {
      hide CommitWrites, BatchWrites, BlockWrites, EncodeHeader, BatchCrc, Apply;
      if |dest| == 0 {
        return true;
      }
      if |dest| > geometry.slots {
        return false;
      }
      ghost var d0 := dev.sectors;

      // Step 1: payloads to the slots.
      var slots := SlotDests(geometry, |dest|);
      ok := WriteBatch(slots, data);
      if !ok {
        StoppedInStep1(geometry, d0, dev.sectors, dest);
        CommitStopped(geometry, nextTxn, d0, dev.sectors, dest, data, 1);
        return;
      }

      // Step 2: the header commits the batch.
      var crc := ComputeCrc(dest, data);
      var txn := nextTxn;
      nextTxn := (nextTxn + 1) % U32;
      ok := WriteCommittedHeader(txn, dest, crc);
      if !ok {
        StoppedInStep2(geometry, d0, dev.sectors, dest, data);
        CommitStopped(geometry, txn, d0, dev.sectors, dest, data, 2);
        return;
      }

      // Step 3: payloads to their destinations.
      ok := WriteBatch(dest, data);
      if !ok {
        StoppedInStep3(geometry, txn, d0, dev.sectors, dest, data);
        CommitStopped(geometry, txn, d0, dev.sectors, dest, data, 3);
        return;
      }

      // Step 4: checkpoint. A failure here is only reported on the console.
      ghost var d3, l3 := dev.sectors, dev.log;
      var zeroed := dev.RawWrite(geometry.header, ZERO_BLOCK);
      Checkpointed(geometry, txn, d0, d3, dev.sectors, dest, data, zeroed);
      CommitLog(geometry, txn, dest, data, old(dev.log), l3);
      if !zeroed {
        CommitStopped(geometry, txn, d0, dev.sectors, dest, data, 4);
      }
      commits := commits + 1;
      journalled := journalled + |dest|;
      ok := true;
    }

    /** `osfs2_journal_replay`. */
    method Replay() returns (ok: bool)
      requires Valid()
      modifies this`nextTxn, this`replays, dev
      ensures Valid() && |dev.sectors| == |old(dev.sectors)|
      ensures geometry.slots == 0 ==> ok && dev.sectors == old(dev.sectors) && dev.log == old(dev.log)
      ensures geometry.slots > 0 && dev.faultless ==>
                ok && Performed(old(dev.sectors), old(dev.log), dev.sectors, dev.log,
                                ReplayWrites(geometry, old(dev.sectors)))
      ensures geometry.slots > 0 && ok ==>
                dev.sectors == Apply(old(dev.sectors), ReplayWrites(geometry, old(dev.sectors)))
      ensures dev.faultless ==> old(dev.faultless)
      ensures !ok ==> !dev.faultless
      ensures !ok && dev.sectors != old(dev.sectors) ==>
                var ws := ReplayWrites(geometry, old(dev.sectors));
                Stopped(old(dev.sectors), dev.sectors, ws, 0, |ws|)
    {
      hide BatchWrites, BlockWrites, BatchCrc, BlockAt, ParseHeader;
      if geometry.slots == 0 {
        return true;
      }
      ghost var d, l := dev.sectors, dev.log;
      var readHeader, raw := dev.RawRead(geometry.header);
      if !readHeader {
        return false;
      }
      var h := ParseHeader(raw);
      if !Committed(geometry, h) {
        assert l + [] == l;
        return true;
      }
      var dest := h.dest[..h.count];
      var payload: seq<Block> := [];
      for i := 0 to h.count
        invariant |payload| == i && payload == SlotData(geometry, d, i)
        invariant dev.faultless == old(dev.faultless) && dev.sectors == d && dev.log == l
      {
        var got, b := dev.RawRead(Slot(geometry, i));
        if !got {
          return false;
        }
        payload := payload + [b];
      }
      var computed := ComputeCrc(dest, payload);
      if computed != h.crc {
        ok := dev.RawWrite(geometry.header, ZERO_BLOCK);
        return;
      }
      ghost var batch, zero := BatchWrites(dest, payload), BlockWrites(geometry.header, ZERO_BLOCK);
      assert ReplayWrites(geometry, d) == batch + zero;
      ok := WriteBatch(dest, payload);
      if !ok {
        ReplayStopped(d, dev.sectors, [], batch, zero);
        return;
      }
      ok := dev.RawWrite(geometry.header, ZERO_BLOCK);
      if !ok {
        ReplayStopped(d, dev.sectors, batch, zero, []);
        return;
      }
      ApplyAppend(d, batch, zero);
      Regroup(l, batch, zero, [], []);
      replays := replays + 1;
      if h.txn >= nextTxn {
        nextTxn := (h.txn + 1) % U32;
      }
    }
  }

  // ---------- lemmas about lists of writes ----------

  lemma BatchPrefix(dest: seq<u32>, data: seq<Block>, i: nat)
    requires |dest| == |data| && i < |dest|
    ensures BatchWrites(dest[..i + 1], data[..i + 1]) ==
            BatchWrites(dest[..i], data[..i]) + BlockWrites(dest[i], data[i])
  {
    assert dest[..i + 1][..i] == dest[..i] && data[..i + 1][..i] == data[..i];
  }

  lemma BatchStep(d: Sectors, dest: seq<u32>, data: seq<Block>, i: nat)
    requires |dest| == |data| && i < |dest|
    ensures Apply(d, BatchWrites(dest[..i + 1], data[..i + 1])) ==
            Apply(Apply(d, BatchWrites(dest[..i], data[..i])), BlockWrites(dest[i], data[i]))
  {
    BatchPrefix(dest, data, i);
    ApplyAppend(d, BatchWrites(dest[..i], data[..i]), BlockWrites(dest[i], data[i]));
  }

  lemma LogStep(l: seq<Write>, dest: seq<u32>, data: seq<Block>, i: nat)
    requires |dest| == |data| && i < |dest|
    ensures l + BatchWrites(dest[..i + 1], data[..i + 1]) ==
            l + BatchWrites(dest[..i], data[..i]) + BlockWrites(dest[i], data[i])
  {
    BatchPrefix(dest, data, i);
  }

  lemma {:induction false} BatchWithin(dest: seq<u32>, data: seq<Block>, s: set<nat>)
    requires |dest| == |data| && forall i :: 0 <= i < |dest| ==> dest[i] in s
    ensures Within(BatchWrites(dest, data), s)
    decreases |dest|
  {
    if dest != [] {
      var n := |dest| - 1;
      BatchWithin(dest[..n], data[..n], s);
      BlockWritesWithin(dest[n], data[n]);
    }
  }

  lemma BatchSameOutside(d: Sectors, dest: seq<u32>, data: seq<Block>)
    requires |dest| == |data|
    ensures SameOutside(d, Apply(d, BatchWrites(dest, data)), Targets(dest))
  {
    BatchWithin(dest, data, Targets(dest));
    ApplyWithin(d, BatchWrites(dest, data), Targets(dest));
  }

  lemma BlockSameOutside(d: Sectors, blk: nat, data: Block)
    ensures SameOutside(d, Apply(d, BlockWrites(blk, data)), {blk})
  {
    BlockWritesWithin(blk, data);
    ApplyWithin(d, BlockWrites(blk, data), {blk});
  }

  lemma SameOutsideTrans(d: Sectors, e: Sectors, f: Sectors, s: set<nat>, t: set<nat>)
    requires SameOutside(d, e, s) && SameOutside(e, f, t)
    ensures SameOutside(d, f, s + t)
  {}

  lemma SameOutsideGrows(d: Sectors, e: Sectors, s: set<nat>, t: set<nat>)
    requires SameOutside(d, e, s) && s <= t
    ensures SameOutside(d, e, t)
  {}

  lemma BatchStopped(d: Sectors, now: Sectors, dest: seq<u32>, data: seq<Block>, i: nat)
    requires |dest| == |data| && i < |dest|
    requires SameOutside(Apply(d, BatchWrites(dest[..i], data[..i])), now, {dest[i]})
    ensures SameOutside(d, now, Targets(dest))
  {
    BatchSameOutside(d, dest[..i], data[..i]);
    SameOutsideTrans(d, Apply(d, BatchWrites(dest[..i], data[..i])), now, Targets(dest[..i]), {dest[i]});
    SameOutsideGrows(d, now, Targets(dest[..i]) + {dest[i]}, Targets(dest));
  }

  /** A batch lists the writes of its blocks one block after another. */
  lemma {:induction false} BatchAround(dest: seq<u32>, data: seq<Block>, i: nat)
    requires |dest| == |data| && i < |dest|
    ensures BatchWrites(dest, data)[..8 * i] == BatchWrites(dest[..i], data[..i])
    ensures BatchWrites(dest, data)[8 * i..8 * i + 8] == BlockWrites(dest[i], data[i])
    decreases |dest|
  {
    hide BlockWrites;
    var n := |dest| - 1;
    assert dest[..n + 1] == dest && data[..n + 1] == data;
    BatchPrefix(dest, data, n);
    if i < n {
      BatchAround(dest[..n], data[..n], i);
      assert dest[..n][..i] == dest[..i] && data[..n][..i] == data[..i];
    }
  }

  lemma BatchStoppedAt(d: Sectors, now: Sectors, dest: seq<u32>, data: seq<Block>, i: nat)
    requires |dest| == |data| && i < |dest|
    requires Stopped(Apply(d, BatchWrites(dest[..i], data[..i])), now, BlockWrites(dest[i], data[i]), 0, 8)
    ensures Stopped(d, now, BatchWrites(dest, data), 0, 8 * |dest|)
  {
    hide Apply, BlockWrites, BatchWrites, Stopped;
    var ws := BatchWrites(dest, data);
    BatchAround(dest, data, i);
    StoppedInside(d, now, ws[..8 * i], ws[8 * i..8 * i + 8], ws[8 * i + 8..], 0, 8);
    assert ws == ws[..8 * i] + ws[8 * i..8 * i + 8] + ws[8 * i + 8..];
    StoppedWider(d, now, ws, 8 * i, 8 * i + 8, 0, 8 * |dest|);
  }

  lemma ReplayStopped(d: Sectors, now: Sectors, a: seq<Write>, b: seq<Write>, c: seq<Write>)
    requires Stopped(Apply(d, a), now, b, 0, |b|)
    ensures var ws := a + b + c; Stopped(d, now, ws, 0, |ws|)
    ensures a == [] ==> a + b + c == b + c
    ensures c == [] ==> a + b + c == a + b
  {
    hide Apply, Stopped;
    StoppedInside(d, now, a, b, c, 0, |b|);
    StoppedWider(d, now, a + b + c, |a|, |a| + |b|, 0, |a + b + c|);
  }

  /** The disk before step `step` of a commit, and the writes of that step. */
  function BeforeStep(g: Geometry, txn: u32, d: Sectors, dest: seq<u32>, data: seq<Block>, step: nat): Sectors
    requires |dest| == |data| <= DATA_BLOCKS
  {
    if step == 1 then d
    else if step == 2 then Apply(d, BatchWrites(SlotDests(g, |dest|), data))
    else if step == 3 then Staged(g, txn, d, dest, data)
    else Apply(Staged(g, txn, d, dest, data), BatchWrites(dest, data))
  }

  function StepWrites(g: Geometry, txn: u32, dest: seq<u32>, data: seq<Block>, step: nat): seq<Write>
    requires |dest| == |data| <= DATA_BLOCKS
  {
    if step == 1 then BatchWrites(SlotDests(g, |dest|), data)
    else if step == 2 then BlockWrites(g.header, EncodeHeader(txn, dest, BatchCrc(dest, data)))
    else if step == 3 then BatchWrites(dest, data)
    else BlockWrites(g.header, ZERO_BLOCK)
  }

  /** A commit whose step `step` stopped is the whole list of writes, stopped there. */
  lemma CommitStopped(g: Geometry, txn: u32, d: Sectors, now: Sectors, dest: seq<u32>, data: seq<Block>, step: nat)
    requires |dest| == |data| <= DATA_BLOCKS && 1 <= step <= 4
    requires var ws := StepWrites(g, txn, dest, data, step);
      Stopped(BeforeStep(g, txn, d, dest, data, step), now, ws, 0, |ws|)
    ensures var n, ws := |dest|, CommitWrites(g, txn, dest, data);
      if step < 4 then Stopped(d, now, ws, 0, 16 * n + 8) else Stopped(d, now, ws, 16 * n + 8, 16 * n + 16)
  {
    hide BatchWrites, BlockWrites, EncodeHeader, BatchCrc, Apply, Stopped;
    var n, ws := |dest|, CommitWrites(g, txn, dest, data);
    var a := BatchWrites(SlotDests(g, n), data);
    var b := BlockWrites(g.header, EncodeHeader(txn, dest, BatchCrc(dest, data)));
    var c := BatchWrites(dest, data);
    var z := BlockWrites(g.header, ZERO_BLOCK);
    assert ws == a + b + c + z;
    ApplyNothing(d);
    ApplyAppend(d, a, b);
    ApplyAppend(d, a + b, c);
    if step == 1 {
      StoppedInside(d, now, [], a, b + c + z, 0, |a|);
      assert ws == [] + a + (b + c + z);
      StoppedWider(d, now, ws, 0, 8 * n, 0, 16 * n + 8);
    } else if step == 2 {
      StoppedInside(d, now, a, b, c + z, 0, 8);
      assert ws == a + b + (c + z);
      StoppedWider(d, now, ws, 8 * n, 8 * n + 8, 0, 16 * n + 8);
    } else if step == 3 {
      StoppedInside(d, now, a + b, c, z, 0, |c|);
      StoppedWider(d, now, ws, 8 * n + 8, 16 * n + 8, 0, 16 * n + 8);
    } else {
      StoppedInside(d, now, a + b + c, z, [], 0, 8);
      assert ws == a + b + c + z + [];
    }
  }

  function PartialHeader(txn: u32, dest: seq<u32>, crc: u32, i: nat): Block
    requires i <= |dest| <= DATA_BLOCKS
  {
    Fields(txn, |dest|, crc) + DestBytes(dest[..i]) + Zeros(4072 - 4 * i)
  }

  lemma HeaderStep(txn: u32, dest: seq<u32>, crc: u32, i: nat)
    requires i < |dest| <= DATA_BLOCKS
    ensures var b := PartialHeader(txn, dest, crc, i);
      b[..24 + 4 * i] + Le32(dest[i]) + b[28 + 4 * i..] == PartialHeader(txn, dest, crc, i + 1)
  {
    assert dest[..i + 1][..i] == dest[..i];
  }

  lemma StoppedInStep1(g: Geometry, d0: Sectors, now: Sectors, dest: seq<u32>)
    requires SameOutside(d0, now, Targets(SlotDests(g, |dest|)))
    ensures SameOutside(d0, now, Footprint(g, dest))
  {
    SameOutsideGrows(d0, now, Targets(SlotDests(g, |dest|)), Footprint(g, dest));
  }

  lemma StoppedInStep2(g: Geometry, d0: Sectors, now: Sectors, dest: seq<u32>, data: seq<Block>)
    requires |dest| == |data|
    requires SameOutside(Apply(d0, BatchWrites(SlotDests(g, |dest|), data)), now, {g.header})
    ensures SameOutside(d0, now, Footprint(g, dest))
  {
    var slots := SlotDests(g, |dest|);
    BatchSameOutside(d0, slots, data);
    SameOutsideTrans(d0, Apply(d0, BatchWrites(slots, data)), now, Targets(slots), {g.header});
    SameOutsideGrows(d0, now, Targets(slots) + {g.header}, Footprint(g, dest));
  }

  /** The disk after step 2. */
  function Staged(g: Geometry, txn: u32, d: Sectors, dest: seq<u32>, data: seq<Block>): Sectors
    requires |dest| == |data| <= DATA_BLOCKS
  {
    Apply(Apply(d, BatchWrites(SlotDests(g, |dest|), data)),
          BlockWrites(g.header, EncodeHeader(txn, dest, BatchCrc(dest, data))))
  }

  lemma StoppedInStep3(g: Geometry, txn: u32, d0: Sectors, now: Sectors, dest: seq<u32>, data: seq<Block>)
    requires |dest| == |data| <= DATA_BLOCKS
    requires SameOutside(Staged(g, txn, d0, dest, data), now, Targets(dest))
    ensures SameOutside(d0, now, Footprint(g, dest))
  {
    var d1 := Apply(d0, BatchWrites(SlotDests(g, |dest|), data));
    var d2 := Staged(g, txn, d0, dest, data);
    BlockSameOutside(d1, g.header, EncodeHeader(txn, dest, BatchCrc(dest, data)));
    StoppedInStep2(g, d0, d2, dest, data);
    SameOutsideTrans(d0, d2, now, Footprint(g, dest), Targets(dest));
    SameOutsideGrows(d0, now, Footprint(g, dest) + Targets(dest), Footprint(g, dest));
  }

  lemma CommitInSteps(g: Geometry, txn: u32, dest: seq<u32>, data: seq<Block>, d: Sectors)
    requires |dest| == |data| <= DATA_BLOCKS
    ensures Apply(d, CommitWrites(g, txn, dest, data)) ==
            Apply(Apply(Staged(g, txn, d, dest, data), BatchWrites(dest, data)), BlockWrites(g.header, ZERO_BLOCK))
  {
    var a := BatchWrites(SlotDests(g, |data|), data);
    var b := BlockWrites(g.header, EncodeHeader(txn, dest, BatchCrc(dest, data)));
    var c := BatchWrites(dest, data);
    ApplyAppend(d, a, b);
    ApplyAppend(d, a + b, c);
    ApplyAppend(d, a + b + c, BlockWrites(g.header, ZERO_BLOCK));
  }

  lemma Regroup<T>(l: seq<T>, a: seq<T>, b: seq<T>, c: seq<T>, z: seq<T>)
    ensures l + a + b + c + z == l + (a + b + c + z)
    ensures l + a + b == l + (a + b)
  {}

  lemma CommitLog(g: Geometry, txn: u32, dest: seq<u32>, data: seq<Block>, l: seq<Write>, l3: seq<Write>)
    requires |dest| == |data| <= DATA_BLOCKS
    requires l3 == l + BatchWrites(SlotDests(g, |dest|), data)
                     + BlockWrites(g.header, EncodeHeader(txn, dest, BatchCrc(dest, data)))
                     + BatchWrites(dest, data)
    ensures l3 + BlockWrites(g.header, ZERO_BLOCK) == l + CommitWrites(g, txn, dest, data)
  {
    Regroup(l, BatchWrites(SlotDests(g, |dest|), data),
            BlockWrites(g.header, EncodeHeader(txn, dest, BatchCrc(dest, data))),
            BatchWrites(dest, data), BlockWrites(g.header, ZERO_BLOCK));
  }

  lemma Checkpointed(g: Geometry, txn: u32, d0: Sectors, d3: Sectors, now: Sectors,
                     dest: seq<u32>, data: seq<Block>, zeroed: bool)
    requires |dest| == |data| <= DATA_BLOCKS
    requires d3 == Apply(Staged(g, txn, d0, dest, data), BatchWrites(dest, data))
    requires if zeroed then now == Apply(d3, BlockWrites(g.header, ZERO_BLOCK)) else SameOutside(d3, now, {g.header})
    ensures zeroed ==> now == Apply(d0, CommitWrites(g, txn, dest, data))
    ensures SameOutside(Apply(d0, CommitWrites(g, txn, dest, data)), now, {g.header})
  {
    CommitInSteps(g, txn, dest, data, d0);
    BlockSameOutside(d3, g.header, ZERO_BLOCK);
  }
}

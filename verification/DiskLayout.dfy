/** Where each field of the on-disk structures lies, byte by byte (kernel/core/osfs2.h and the
    `struct` formats of scripts/mkosfs2.py). All integers are little-endian. */
module DiskLayout {
  import opened Bytes
  import opened CStrings
  import opened Disk
  import opened FsState
  import opened FsDirectory
  import opened OnDisk

  /** Bytes `at`, ..., `at + 3` are those of `x`, least significant first. */
  predicate U32At(s: seq<byte>, at: nat, x: u32)
    requires at + 4 <= |s|
  {
    s[at] == ByteOf(x, 0) && s[at + 1] == ByteOf(x, 1) && s[at + 2] == ByteOf(x, 2) && s[at + 3] == ByteOf(x, 3)
  }

  lemma Le32At(x: u32)
    ensures U32At(Le32(x), 0, x)
  {
    Le32Bytes(x, 0);
    Le32Bytes(x, 1);
    Le32Bytes(x, 2);
    Le32Bytes(x, 3);
  }

  lemma {:induction false} PackAt(before: seq<byte>, ws: seq<u32>, after: seq<byte>, k: nat)
    requires k < |ws|
    ensures U32At(before + Pack(ws) + after, |before| + 4 * k, ws[k])
    decreases |ws|
  {
    hide ByteOf, Le32;
    var n := |ws| - 1;
    var s := before + Pack(ws) + after;
    if k < n {
      PackAt(before, ws[..n], Le32(ws[n]) + after, k);
      assert s == before + Pack(ws[..n]) + (Le32(ws[n]) + after);
    } else {
      Le32At(ws[n]);
      assert s[|before| + 4 * n..|before| + 4 * n + 4] == Le32(ws[n]);
    }
  }

  /** `struct osfs2_inode`: type, size, links, mode, two time stamps, 16 direct pointers, the indirect
      pointer, 36 spare bytes. */
  lemma InodeLayout(x: Inode, e: Extra)
    requires |e.pad| == 36
    ensures var r := InodeBytes(x, e);
      && U32At(r, 0, match x.typ case Free => 0 case File => 1 case Dir => 2)
      && U32At(r, 4, x.size) && U32At(r, 8, x.nlink) && U32At(r, 12, x.mode)
      && U32At(r, 16, e.ctime) && U32At(r, 20, e.mtime)
      && (forall k: nat :: k < 16 ==> U32At(r, 24 + 4 * k, x.direct[k]))
      && U32At(r, 88, x.indirect) && r[92..128] == e.pad
  {
    hide Pack, U32At;
    var ws := InodeWords(x, e);
    assert InodeBytes(x, e) == [] + Pack(ws) + e.pad;
    forall k: nat | k < 23
      ensures U32At(InodeBytes(x, e), 4 * k, ws[k])
    {
      PackAt([], ws, e.pad, k);
    }
    var r := InodeBytes(x, e);
    assert U32At(r, 4 * 0, ws[0]) && U32At(r, 4 * 1, ws[1]) && U32At(r, 4 * 2, ws[2]) && U32At(r, 4 * 3, ws[3]);
    assert U32At(r, 4 * 4, ws[4]) && U32At(r, 4 * 5, ws[5]) && U32At(r, 4 * 22, ws[22]);
    forall k: nat | k < 16
      ensures U32At(r, 24 + 4 * k, x.direct[k])
    {
      assert U32At(r, 4 * (6 + k), ws[6 + k]);
    }
  }

  /** `struct osfs2_superblock`: magic and twelve fields. */
  lemma SuperLayout(sb: Super)
    ensures var b := SuperBytes(sb);
      && b[..8] == [0x4f, 0x53, 0x46, 0x53, 0x2d, 0x30, 0x30, 0x32]
      && U32At(b, 8, sb.blockSize) && U32At(b, 12, sb.totalBlocks) && U32At(b, 16, sb.inodeCount)
      && U32At(b, 20, sb.blockBitmap) && U32At(b, 24, sb.inodeBitmap) && U32At(b, 28, sb.inodeTable)
      && U32At(b, 32, sb.tableBlocks) && U32At(b, 36, sb.dataStart) && U32At(b, 40, sb.root)
      && U32At(b, 44, sb.journalHeader) && U32At(b, 48, sb.journalBlocks) && U32At(b, 52, sb.reserved)
  {
    hide Pack, U32At;
    var ws, b := SuperWords(sb), SuperBytes(sb);
    forall k: nat | k < 12
      ensures U32At(b, 8 + 4 * k, ws[k])
    {
      PackAt(MAGIC, ws, Zeros(4040), k);
    }
    assert U32At(b, 8 + 4 * 0, ws[0]) && U32At(b, 8 + 4 * 1, ws[1]) && U32At(b, 8 + 4 * 2, ws[2]);
    assert U32At(b, 8 + 4 * 3, ws[3]) && U32At(b, 8 + 4 * 4, ws[4]) && U32At(b, 8 + 4 * 5, ws[5]);
    assert U32At(b, 8 + 4 * 6, ws[6]) && U32At(b, 8 + 4 * 7, ws[7]) && U32At(b, 8 + 4 * 8, ws[8]);
    assert U32At(b, 8 + 4 * 9, ws[9]) && U32At(b, 8 + 4 * 10, ws[10]) && U32At(b, 8 + 4 * 11, ws[11]);
  }

  /** `struct osfs2_dirent`: the inode number, then the name padded with NULs. */
  lemma EntryLayout(ino: u32, name: CString)
    requires |name| < 60
    ensures var r := Entry(ino, name);
      && U32At(r, 0, ino)
      && forall k: nat :: k < 60 ==> r[4 + k] == if k < |name| then name[k] else 0
  {
    hide Le32;
    Le32At(ino);
  }

  /** An indirect block is 1024 pointers one after another. */
  lemma TableLayout(b: Block, j: nat, v: u32)
    requires j < 1024
    ensures U32At(TablePut(b, j, v), 4 * j, v)
  {
    hide Le32;
    Le32At(v);
  }

  /** Bit `i` of a bitmap is bit `i % 8`, from the low end, of byte `i / 8`. */
  lemma BitmapLayout(b: Block, i: nat)
    requires i < BITS
    ensures BitmapGet(b, i) <==> b[i / 8] / [1, 2, 4, 8, 16, 32, 64, 128][i % 8] % 2 == 1
  {
    ShrIs(b[i / 8], i % 8);
  }

  lemma ShrIs(x: nat, k: nat)
    requires k < 8
    ensures Shr(x, k) == x / [1, 2, 4, 8, 16, 32, 64, 128][k]
  {
    if k > 0 {
      ShrIs(x / 2, k - 1);
    }
  }
}

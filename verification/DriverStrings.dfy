/** The transfers of the OSFS-2 calls as callers make them, by path string or by inode number
    (kernel/core/osfs2.c): those of the same calls by path. */
module DriverStrings {
  import opened Bytes
  import opened CStrings
  import opened Options
  import opened Disk
  import opened FsState
  import opened FsFile
  import opened FsTruncate
  import opened FsDirectory
  import opened FsTree
  import opened FsCreate
  import opened FsPaths
  import opened PathStrings
  import opened DriverIo
  import FsHandles

  /** The component loop of `walk` from position `p`. */
  function WalkFromIo(fs: Fs, s: CString, p: nat, cur: nat): Trace
    requires p <= |s|
    decreases |s| - p
  {
    match NextComponent(s, p)
    case None => []
    case Some((name, next)) =>
      ReadRecordIo(fs, cur) +
      if cur == 0 || cur >= |fs.inodes| || fs.inodes[cur].typ != Dir then []
      else
        var hit := DirFind(fs, fs.inodes[cur], name, 0, NO_SLOT).0;
        DirFindIo(fs, fs.inodes[cur], name, 0) +
        if !(0 <= hit < DIR_SLOTS) then []
        else DirReadIo(fs, fs.inodes[cur], hit) + WalkFromIo(fs, s, next, Child(fs, cur, name))
  }

  /** `walk`. */
  function WalkStringIo(fs: Fs, s: CString): Trace {
    if s == [] || s == [SLASH] then [] else WalkFromIo(fs, s, 0, ROOT)
  }

  /** `walk_parent`. */
  function WalkParentIo(fs: Fs, s: CString): Trace {
    var place := SplitParent(s);
    if place.None? then []
    else
      ParentReadable(s);
      WalkStringIo(fs, place.value.parent) + ReadRecordIo(fs, WalkString(fs, place.value.parent))
  }

  /** `osfs2_create` and `osfs2_mkdir`. */
  function CreateStringIo(fs: Fs, s: CString, typ: Type): Trace {
    var found := WalkParent(fs, s);
    WalkParentIo(fs, s) + if found.None? then [] else CreateIo(fs, found.value.0, found.value.1, typ)
  }

  /** `osfs2_unlink`. */
  function UnlinkStringIo(fs: Fs, s: CString): Trace {
    var found := WalkParent(fs, s);
    WalkParentIo(fs, s) + if found.None? then [] else UnlinkIo(fs, found.value.0, found.value.1)
  }

  /** `osfs2_rmdir`. */
  function RmdirStringIo(fs: Fs, s: CString): Trace {
    var found := WalkParent(fs, s);
    WalkParentIo(fs, s) + if found.None? then [] else RmdirIo(fs, found.value.0, found.value.1)
  }

  // ---------- strings ----------

  lemma WalkFromIoNext(fs: Fs, s: CString, p: nat, cur: nat)
    requires p <= |s|
    ensures var r := NextComponent(s, p);
      WalkFromIo(fs, s, p, cur) ==
      if r.None? then []
      else
        ReadRecordIo(fs, cur) +
        if cur == 0 || cur >= |fs.inodes| || fs.inodes[cur].typ != Dir then []
        else
          var hit := DirFind(fs, fs.inodes[cur], r.value.0, 0, NO_SLOT).0;
          DirFindIo(fs, fs.inodes[cur], r.value.0, 0) +
          if !(0 <= hit < DIR_SLOTS) then []
          else DirReadIo(fs, fs.inodes[cur], hit) + WalkFromIo(fs, s, r.value.1, Child(fs, cur, r.value.0))
  {}

  lemma WalkNowhereIo(fs: Fs, s: CString, p: nat)
    requires p <= |s|
    ensures WalkFromIo(fs, s, p, 0) == []
  {}

  lemma {:induction false} WalkFromIoIs(fs: Fs, s: CString, p: nat, cur: nat)
    requires p <= |s|
    ensures WalkFromIo(fs, s, p, cur) == WalkIo(fs, cur, CutAll(Split(s[p..])))
    decreases |s| - p
  {
    hide Split, NextComponent, Child, Cut, DirFind, DirFindIo, DirReadIo, ReadRecordIo;
    NextIsFirst(s, p);
    match NextComponent(s, p)
    case None =>
    case Some((name, next)) =>
      if !(cur == 0 || cur >= |fs.inodes| || fs.inodes[cur].typ != Dir) {
        NextLater(s, p);
        WalkFromIoIs(fs, s, next, Child(fs, cur, name));
      }
      assert CutAll(Split(s[p..])) == [name] + CutAll(Split(s[p..])[1..]);
  }

  /** Walking a string makes the transfers of walking its names. */
  lemma WalkStringIoIs(fs: Fs, s: CString)
    requires Readable(s)
    ensures WalkStringIo(fs, s) == WalkIo(fs, ROOT, CutAll(Split(s)))
  {
    hide Child, WalkFromIo;
    if s == [SLASH] {
      assert s[1..] == [];
    }
    if s != [] && s != [SLASH] {
      WalkFromIoIs(fs, s, 0, ROOT);
      assert s[0..] == s;
    }
  }

  lemma ParentByString(fs: Fs, s: CString)
    requires SplitParent(s).Some?
    ensures var (path, found) := (PathOf(s), WalkParent(fs, s));
      && path != [] && WalkParentIo(fs, s) == ParentIo(fs, path) && (found.Some? <==> ParentFound(fs, path))
      && (found.Some? ==> found.value == (FsHandles.Parent(fs, path), path[|path| - 1]))
  {
    hide Split, SplitParent, Walk, WalkIo, WalkStringIo, ReadRecordIo;
    SplitParentIs(s);
    var place := SplitParent(s).value;
    var path := Split(s);
    ParentReadable(s);
    WalkStringIs(fs, place.parent);
    WalkStringIoIs(fs, place.parent);
    assert path[..|path| - 1] == Split(place.parent);
    assert PathOf(s)[..|path| - 1] == CutAll(Split(place.parent));
  }

  lemma NoParentByString(fs: Fs, s: CString)
    requires SplitParent(s).None?
    ensures WalkParent(fs, s) == None && WalkParentIo(fs, s) == []
  {
    hide SplitParent, WalkString, WalkStringIo;
  }

  /** Calls by string make the transfers of the calls on the path the string names, or none. */
  lemma TransfersByString(fs: Fs, s: CString, typ: Type)
    requires typ != Free
    ensures if SplitParent(s).Some? then
              && CreateStringIo(fs, s, typ) == RequestIo(fs, Change(FsHandles.Make(PathOf(s), typ)))
              && UnlinkStringIo(fs, s) == RequestIo(fs, Change(FsHandles.Remove(PathOf(s))))
              && RmdirStringIo(fs, s) == RequestIo(fs, Change(FsHandles.RemoveDir(PathOf(s))))
            else CreateStringIo(fs, s, typ) == UnlinkStringIo(fs, s) == RmdirStringIo(fs, s) == []
  {
    hide SplitParent, CreateIo, UnlinkIo, RmdirIo, PathOf, ParentIo, ParentFound, WalkParent, WalkParentIo;
    if SplitParent(s).Some? {
      ParentByString(fs, s);
    } else {
      NoParentByString(fs, s);
    }
  }

  /** And so do lookups. */
  lemma LookupByString(fs: Fs, s: CString)
    requires Readable(s)
    ensures WalkStringIo(fs, s) == RequestIo(fs, Look(CutAll(Split(s))))
  {
    WalkStringIoIs(fs, s);
  }

  // ---------- numbers ----------

  lemma AllocBlockIoAs(fs: Fs, m: seq<bool>)
    ensures AllocBlockIo(FsHandles.As(fs, m)) == AllocBlockIo(fs)
    ensures AllocBlock(FsHandles.As(fs, m)) == (FsHandles.As(AllocBlock(fs).0, m), AllocBlock(fs).1)
  {}

  lemma ResolveIoAs(fs: Fs, m: seq<bool>, i: nat, lbn: nat)
    requires i < |fs.inodes|
    ensures ResolveIo(FsHandles.As(fs, m), i, lbn) == ResolveIo(fs, i, lbn)
  {
    hide AllocBlock, AllocBlockIo, TableGet, TablePut;
    AllocBlockIoAs(fs, m);
    if fs.inodes[i].indirect == 0 {
      AllocBlockIoAs(NeedIndirect(fs, i).0, m);
    }
  }

  lemma {:induction false} WriteFromIoAs(fs: Fs, m: seq<bool>, i: nat, offset: nat, buf: seq<byte>, done: nat)
    requires i < |fs.inodes| && done <= |buf|
    ensures WriteFromIo(FsHandles.As(fs, m), i, offset, buf, done) == WriteFromIo(fs, i, offset, buf, done)
    decreases |buf| - done
  {
    hide Resolve, ResolveIo, Splice;
    if done < |buf| {
      var pos := offset + done;
      var n := Chunk(pos, |buf| - done);
      FsHandles.ResolveAs(fs, m, i, pos / 4096);
      ResolveIoAs(fs, m, i, pos / 4096);
      var (f1, pb) := Resolve(fs, i, pos / 4096);
      if pb != 0 && pb < |fs.data| {
        WriteFromIoAs(PutBlock(f1, pb, Splice(f1.data[pb], pos % 4096, buf[done..done + n])), m, i, offset, buf, done + n);
      }
    }
  }

  /** A write makes the same transfers whatever the inode bitmap holds. */
  lemma WriteByNumber(fs: Fs, number: nat, offset: nat, buf: seq<byte>)
    ensures WriteIo(fs, number, offset, buf) == RequestIo(fs, Change(FsHandles.Write(number, offset, buf)))
  {
    hide WriteFrom, WriteFromIo;
    var m := FsHandles.Whole(fs).inodeMap;
    if number < |fs.inodes| {
      WriteFromIoAs(fs, m, number, offset, buf, 0);
      FsHandles.WriteFromAs(fs, m, number, offset, buf, 0);
      FsHandles.WriteFileAs(fs, m, number, offset, buf);
    }
  }

  lemma {:induction false} ReadFromIoAs(fs: Fs, m: seq<bool>, x: Inode, offset: nat, len: nat, done: nat)
    requires done <= len
    ensures ReadFromIo(FsHandles.As(fs, m), x, offset, len, done) == ReadFromIo(fs, x, offset, len, done)
    decreases len - done
  {
    if done < len {
      var pos := offset + done;
      assert Lookup(FsHandles.As(fs, m), x, pos / 4096) == Lookup(fs, x, pos / 4096);
      ReadFromIoAs(fs, m, x, offset, len, done + Chunk(pos, len - done));
    }
  }

  lemma ReadByNumber(fs: Fs, number: nat, offset: nat, len: nat)
    ensures ReadIo(fs, number, offset, len) == RequestIo(fs, Fetch(number, offset, len))
  {
    hide ReadFromIo;
    if number < |fs.inodes| && offset < fs.inodes[number].size {
      var left := fs.inodes[number].size - offset;
      ReadFromIoAs(fs, FsHandles.Whole(fs).inodeMap, fs.inodes[number], offset, if len > left then left else len, 0);
    }
  }

  lemma {:induction false} DropDirectIoAs(fs: Fs, m: seq<bool>, i: nat, kept: nat, k: nat)
    requires i < |fs.inodes| && k <= DIRECT
    ensures DropDirectIo(FsHandles.As(fs, m), i, kept, k) == DropDirectIo(fs, i, kept, k)
    decreases DIRECT - k
  {
    if k < DIRECT {
      var x := fs.inodes[i];
      if k >= kept && x.direct[k] != 0 {
        DropDirectIoAs(PutInode(FreeBlock(fs, x.direct[k]), i, x.(direct := x.direct[k := 0])), m, i, kept, k + 1);
      } else {
        DropDirectIoAs(fs, m, i, kept, k + 1);
      }
    }
  }

  lemma {:induction false} DropTableIoAs(fs: Fs, m: seq<bool>, t: Block, kept: nat, j: nat)
    requires j <= INDIRECT
    ensures DropTableIo(FsHandles.As(fs, m), t, kept, j) == DropTableIo(fs, t, kept, j)
    decreases INDIRECT - j
  {
    hide TableGet, TablePut;
    if j < INDIRECT {
      if DIRECT + j >= kept && TableGet(t, j) != 0 {
        DropTableIoAs(FreeBlock(fs, TableGet(t, j)), m, TablePut(t, j, 0), kept, j + 1);
      } else {
        DropTableIoAs(fs, m, t, kept, j + 1);
      }
    }
  }

  /** And so does truncation. */
  lemma TruncateByNumber(fs: Fs, number: nat, size: nat)
    ensures TruncateIo(FsHandles.Whole(fs), number, size) == TruncateIo(fs, number, size)
  {
    hide DropDirect, DropTable, DropDirectIo, DropTableIo, Truncate;
    var m := FsHandles.Whole(fs).inodeMap;
    FsHandles.TruncateAs(fs, m, number, size);
    if number < |fs.inodes| {
      FsHandles.DropDirectAs(fs, m, number, Kept(size), 0);
      DropDirectIoAs(fs, m, number, Kept(size), 0);
      var f1 := DropDirect(fs, number, Kept(size), 0);
      var ind := f1.inodes[number].indirect;
      if 0 < ind < |fs.data| {
        FsHandles.DropTableAs(f1, m, f1.data[ind], Kept(size), 0);
        DropTableIoAs(f1, m, f1.data[ind], Kept(size), 0);
      }
    }
  }
}

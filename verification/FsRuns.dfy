/** Any sequence of OSFS-2 calls (kernel/core/osfs2.c), starting from a sound file system. */
module FsRuns {
  import opened Bytes
  import opened CStrings
  import opened Disk
  import opened FsState
  import opened FsBlocks
  import opened FsFile
  import opened FsTruncate
  import opened FsDirectory
  import opened FsTree
  import opened FsCreate
  import opened FsRemove
  import opened FsPaths
  import opened FsView

  datatype Op =
    | Make(path: Path, typ: Type)
    | Unlink(path: Path)
    | Rmdir(path: Path)
    | Store(path: Path, offset: nat, buf: seq<byte>)
    | Empty(path: Path)

  /** One call; every call looks its path up again. Runs in which callers keep inode numbers are in
      FsHandles. Emptying a file is what `osfs2_unlink` and `O_TRUNC` ask of `osfs2_truncate`. */
  function Apply(fs: Fs, op: Op): Fs {
    match op
    case Make(path, typ) => if typ == Free then fs else CreateAt(fs, path, typ).fs
    case Unlink(path) => UnlinkAt(fs, path).fs
    case Rmdir(path) => RmdirAt(fs, path).fs
    case Store(path, offset, buf) => WriteFile(fs, Walk(fs, ROOT, path), offset, buf).fs
    case Empty(path) => if View(fs, path).Regular? then Truncate(fs, Walk(fs, ROOT, path), 0).fs else fs
  }

  function Run(fs: Fs, ops: seq<Op>): Fs
    decreases |ops|
  {
    if ops == [] then fs else Run(Apply(fs, ops[0]), ops[1..])
  }

  lemma WriteElsewhereFails(fs: Fs, path: Path, offset: nat, buf: seq<byte>)
    requires Tree(fs) && !View(fs, path).Regular?
    ensures WriteFile(fs, Walk(fs, ROOT, path), offset, buf).fs == fs
  {
    hide Owned, Entries, Ranked, Walk, WriteFrom, Contents;
    if Walk(fs, ROOT, path) != 0 {
      WalkLive(fs, path);
    }
  }

  /** Each call keeps the file system sound and changes at most what its own path shows. */
  lemma StepGood(fs: Fs, op: Op)
    requires Good(fs)
    ensures Good(Apply(fs, op))
    ensures forall q: Path :: q != op.path ==> View(Apply(fs, op), q) == View(fs, q)
  {
    hide Good, View, CreateAt, UnlinkAt, RmdirAt, WriteFile, Truncate, Walk, Resize, WriteAt;
    match op
    case Make(path, typ) =>
      if typ != Free {
        CreateView(fs, path, typ);
      }
    case Unlink(path) => UnlinkView(fs, path);
    case Rmdir(path) => RmdirView(fs, path);
    case Store(path, offset, buf) =>
      if View(fs, path).Regular? {
        WriteView(fs, path, offset, buf);
      } else {
        GoodTree(fs);
        WriteElsewhereFails(fs, path, offset, buf);
      }
    case Empty(path) =>
      if View(fs, path).Regular? {
        TruncateView(fs, path, 0);
      }
  }

  lemma GoodTree(fs: Fs)
    requires Good(fs)
    ensures Tree(fs)
  {}

  /** After any run from a sound state the state is sound, and a path no call was about shows what
      it showed at the start. */
  lemma {:induction false} RunGood(fs: Fs, ops: seq<Op>)
    requires Good(fs)
    ensures Good(Run(fs, ops))
    ensures forall q: Path :: (forall k: nat :: k < |ops| ==> ops[k].path != q) ==> View(Run(fs, ops), q) == View(fs, q)
    decreases |ops|
  {
    hide Good, View, Apply;
    if ops != [] {
      StepGood(fs, ops[0]);
      RunGood(Apply(fs, ops[0]), ops[1..]);
      forall q: Path | forall k: nat :: k < |ops| ==> ops[k].path != q
        ensures View(Run(fs, ops), q) == View(fs, q)
      {
        forall k: nat | k < |ops[1..]|
          ensures ops[1..][k].path != q
        {
          assert ops[k + 1].path != q;
        }
      }
    }
  }

  // ---------- the run as a run of a map ----------

  /** What a call returns: an inode number for `Make`, a byte count or -1 for `Store`, and 0 or -1
      otherwise. */
  function Result(fs: Fs, op: Op): int {
    match op
    case Make(path, typ) => if typ == Free then 0 else CreateAt(fs, path, typ).rc
    case Unlink(path) => UnlinkAt(fs, path).rc
    case Rmdir(path) => RmdirAt(fs, path).rc
    case Store(path, offset, buf) => WriteFile(fs, Walk(fs, ROOT, path), offset, buf).rc
    case Empty(path) => if View(fs, path).Regular? then Truncate(fs, Walk(fs, ROOT, path), 0).rc else -1
  }

  function Results(fs: Fs, ops: seq<Op>): (rcs: seq<int>)
    ensures |rcs| == |ops|
    decreases |ops|
  {
    if ops == [] then [] else [Result(fs, ops[0])] + Results(Apply(fs, ops[0]), ops[1..])
  }

  /** A file system as its callers know it: a node for every path. */
  type Paths = imap<Path, Node>

  ghost function Shown(fs: Fs): (m: Paths)
    ensures forall q: Path :: q in m && m[q] == View(fs, q)
  {
    imap q: Path | true :: View(fs, q)
  }

  ghost predicate Total(m: Paths) {
    forall q: Path :: q in m
  }

  ghost predicate Childless(m: Paths, path: Path)
    requires Total(m)
  {
    forall n: CString :: m[path + [n]] == Missing
  }

  /** The results the map machine allows. Only `Make` and `Store` leave a choice, as the disk may
      be full: what a call may return otherwise is settled by the map. */
  ghost predicate Allowed(m: Paths, op: Op, rc: int)
    requires Total(m)
  {
    match op
    case Make(path, typ) =>
      && rc >= 0
      && (rc != 0 ==>
            && typ != Free && path != [] && m[path[..|path| - 1]] == Folder
            && (m[path] != Missing ==> typ == File && m[path].Regular?))
    case Unlink(path) => rc == if m[path].Regular? then 0 else -1
    case Rmdir(path) => rc == if path != [] && m[path] == Folder && Childless(m, path) then 0 else -1
    case Store(path, offset, buf) =>
      if buf == [] then rc == 0
      else if offset + |buf| > MAX_BYTES || !m[path].Regular? then rc == -1
      else rc == -1 || 0 < rc <= |buf|
    case Empty(path) => rc == if m[path].Regular? then 0 else -1
  }

  /** One call of the map machine, told its result. */
  ghost function MapStep(m: Paths, op: Op, rc: int): (n: Paths)
    requires Total(m) && Allowed(m, op, rc)
    ensures Total(n)
  {
    match op
    case Make(path, typ) =>
      if rc != 0 && m[path] == Missing then m[path := if typ == Dir then Folder else Regular([])] else m
    case Unlink(path) => if rc == 0 then m[path := Missing] else m
    case Rmdir(path) => if rc == 0 then m[path := Missing] else m
    case Store(path, offset, buf) =>
      if rc > 0 then m[path := Regular(WriteAt(m[path].bytes, offset, buf[..rc]))] else m
    case Empty(path) => if rc == 0 then m[path := Regular([])] else m
  }

  /** `n` is where the map machine can go from `m` by the calls `ops` with the results `rcs`. */
  ghost predicate MapRun(m: Paths, ops: seq<Op>, rcs: seq<int>, n: Paths)
    requires Total(m) && |rcs| == |ops|
    decreases |ops|
  {
    if ops == [] then n == m
    else Allowed(m, ops[0], rcs[0]) && MapRun(MapStep(m, ops[0], rcs[0]), ops[1..], rcs[1..], n)
  }

  lemma MakeIs(fs: Fs, path: Path, typ: Type)
    requires Good(fs) && typ != Free
    ensures var m, rc := Shown(fs), CreateAt(fs, path, typ).rc;
      && Allowed(m, Make(path, typ), rc)
      && Shown(CreateAt(fs, path, typ).fs) == MapStep(m, Make(path, typ), rc)
  {
    hide Good, Walk, Create, Contents;
    CreateView(fs, path, typ);
    hide View;
    if CreateAt(fs, path, typ).rc != 0 {
      FolderAt(fs, path[..|path| - 1]);
      assert View(fs, path) == Missing || View(fs, path) == Folder || View(fs, path).Regular?;
    }
  }

  lemma FolderAt(fs: Fs, path: Path)
    ensures var d := Walk(fs, ROOT, path);
      d != 0 && d < |fs.inodes| && fs.inodes[d].typ == Dir ==> View(fs, path) == Folder
  {
    hide Walk;
  }

  lemma StoreIs(fs: Fs, path: Path, offset: nat, buf: seq<byte>)
    requires Good(fs)
    ensures var m, op := Shown(fs), Store(path, offset, buf);
      && Allowed(m, op, Result(fs, op))
      && Shown(Apply(fs, op)) == MapStep(m, op, Result(fs, op))
  {
    hide Good, View, WriteFile, Walk, WriteAt;
    StoreResult(fs, path, offset, buf);
    if View(fs, path).Regular? {
      WriteView(fs, path, offset, buf);
    } else {
      GoodTree(fs);
      WriteElsewhereFails(fs, path, offset, buf);
    }
  }

  lemma StoreResult(fs: Fs, path: Path, offset: nat, buf: seq<byte>)
    requires Good(fs)
    ensures var rc := WriteFile(fs, Walk(fs, ROOT, path), offset, buf).rc;
      if buf == [] then rc == 0
      else if offset + |buf| > MAX_BYTES || !View(fs, path).Regular? then rc == -1
      else rc == -1 || 0 < rc <= |buf|
  {
    hide Owned, Entries, Ranked, Walk, WriteFrom, Contents, ZeroTail;
    if Walk(fs, ROOT, path) != 0 {
      WalkLive(fs, path);
    }
    if View(fs, path).Regular? {
      hide View;
      WriteView(fs, path, offset, buf);
    }
  }

  /** Every call is a step of the map machine. */
  lemma StepIsMapStep(fs: Fs, op: Op)
    requires Good(fs)
    ensures Allowed(Shown(fs), op, Result(fs, op))
    ensures Shown(Apply(fs, op)) == MapStep(Shown(fs), op, Result(fs, op))
  {
    hide Good, View, CreateAt, UnlinkAt, RmdirAt, WriteFile, Truncate, Walk, WriteAt;
    match op
    case Make(path, typ) =>
      if typ != Free {
        MakeIs(fs, path, typ);
      }
    case Unlink(path) => UnlinkView(fs, path);
    case Rmdir(path) =>
      RmdirView(fs, path);
      assert NothingUnder(fs, path) <==> Childless(Shown(fs), path);
    case Store(path, offset, buf) => StoreIs(fs, path, offset, buf);
    case Empty(path) =>
      if View(fs, path).Regular? {
        TruncateView(fs, path, 0);
        ResizedToNothing(View(fs, path).bytes);
      }
  }

  lemma ResizedToNothing(bytes: seq<byte>)
    ensures Resize(bytes, 0) == []
  {}

  /** Any sequence of calls is a run of the map machine from what the paths show at the start to
      what they show at the end, told the calls' results. */
  lemma {:induction false} RunIsMapRun(fs: Fs, ops: seq<Op>)
    requires Good(fs)
    ensures MapRun(Shown(fs), ops, Results(fs, ops), Shown(Run(fs, ops)))
    decreases |ops|
  {
    hide Good, View, Apply, Result, Allowed, MapStep, Shown;
    if ops != [] {
      StepIsMapStep(fs, ops[0]);
      StepGood(fs, ops[0]);
      RunIsMapRun(Apply(fs, ops[0]), ops[1..]);
      assert Results(fs, ops)[1..] == Results(Apply(fs, ops[0]), ops[1..]);
    }
  }

  /** The results decide where the map machine goes. */
  lemma {:induction false} MapRunDecided(m: Paths, ops: seq<Op>, rcs: seq<int>, n: Paths, o: Paths)
    requires Total(m) && |rcs| == |ops| && MapRun(m, ops, rcs, n) && MapRun(m, ops, rcs, o)
    ensures n == o
    decreases |ops|
  {
    hide Allowed, MapStep;
    if ops != [] {
      MapRunDecided(MapStep(m, ops[0], rcs[0]), ops[1..], rcs[1..], n, o);
    }
  }

  /** Two sound disks that show the same and report the same results show the same after any
      sequence of calls, wherever either keeps its inodes and blocks; and then a read of any file
      gives the same bytes on both. */
  lemma SameResultsSameFiles(fs: Fs, gs: Fs, ops: seq<Op>, path: Path, offset: nat, len: nat)
    requires Good(fs) && Good(gs) && Shown(fs) == Shown(gs) && Results(fs, ops) == Results(gs, ops)
    ensures Shown(Run(fs, ops)) == Shown(Run(gs, ops))
    ensures View(Run(fs, ops), path).Regular? ==>
              ReadFile(Run(fs, ops), Walk(Run(fs, ops), ROOT, path), offset, len)
              == ReadFile(Run(gs, ops), Walk(Run(gs, ops), ROOT, path), offset, len)
  {
    hide Good, View, Apply, Shown, MapRun, Run, Results, ReadFile, Walk;
    RunIsMapRun(fs, ops);
    RunIsMapRun(gs, ops);
    MapRunDecided(Shown(fs), ops, Results(fs, ops), Shown(Run(fs, ops)), Shown(Run(gs, ops)));
    RunGood(fs, ops);
    RunGood(gs, ops);
    assert View(Run(fs, ops), path) == View(Run(gs, ops), path);
    if View(Run(fs, ops), path).Regular? {
      ReadView(Run(fs, ops), path, offset, len);
      ReadView(Run(gs, ops), path, offset, len);
    }
  }

  // ---------- the starting point ----------

  /** An image that holds an empty root directory only, whatever the blocks contain. */
  ghost predicate Blank(fs: Fs) {
    && Owned(fs) && |fs.inodes| <= U32 && IsDir(fs, ROOT) && fs.inodes[ROOT].size == 0
    && (forall i: nat :: Live(fs, i) <==> i == ROOT)
  }

  /** A blank image is sound and shows the root directory and nothing else. */
  lemma BlankGood(fs: Fs, path: Path)
    requires Blank(fs)
    ensures Good(fs) && View(fs, path) == if path == [] then Folder else Missing
  {
    forall d: nat, g: nat, i: nat
      ensures !Names(fs, d, g, i)
    {
    }
    assert Ranked(fs, seq(|fs.inodes|, (_: nat) => 0));
    assert Tree(fs) by { hide FileBlock, Slot, Owned; }
    if path != [] {
      hide Tree, Names, Child;
      BlankStep(fs, path[0]);
    }
  }

  lemma BlankStep(fs: Fs, name: CString)
    requires Blank(fs) && Tree(fs)
    ensures Child(fs, ROOT, name) == 0
  {
    hide Owned, Entries, Child, SlotIno, SlotName;
    ChildIs(fs, ROOT, name);
  }

  // ---------- truncating a directory ----------

  lemma EmptiedDirNames(fs: Fs, d: nat)
    requires Tree(fs) && IsDir(fs, d)
    ensures var gs := Truncate(fs, d, 0).fs;
      && Owned(gs) && SameDirs(fs, gs) && gs.inodes[d].size == 0
      && (forall e: nat, h: nat, j: nat :: Names(gs, e, h, j) <==> Names(fs, e, h, j) && e != d)
      && (forall e: nat, h: nat, j: nat :: Names(fs, e, h, j) && e != d ==> SlotName(gs, e, h) == SlotName(fs, e, h))
  {
    hide FileBlock, Truncate, Released, Owned, RecordAt, RecordIno, RecordName, Entries, Ranked;
    TruncateSemantics(fs, d, 0);
    var gs := Truncate(fs, d, 0).fs;
    forall e: nat, h: nat | IsDir(fs, e) && e != d && h < DIR_SLOTS
      ensures Slot(gs, e, h) == Slot(fs, e, h)
    {
      assert FileBlock(gs, e, h / PER_BLOCK) == FileBlock(fs, e, h / PER_BLOCK);
    }
    hide Slot;
    forall e: nat, h: nat, j: nat
      ensures Names(gs, e, h, j) <==> Names(fs, e, h, j) && e != d
      ensures Names(fs, e, h, j) && e != d ==> SlotName(gs, e, h) == SlotName(fs, e, h)
    {
    }
  }

  /** `osfs2_truncate` accepts directories too; emptying one keeps the tree if and only if it has
      no entries, which is why `osfs2_rmdir` checks first. */
  lemma EmptyDirectory(fs: Fs, d: nat)
    requires Tree(fs) && IsDir(fs, d)
    ensures Tree(Truncate(fs, d, 0).fs) <==> forall h: nat, j: nat :: !Names(fs, d, h, j)
  {
    hide Truncate, Owned, Names, SlotName, DirShape;
    EmptiedDirNames(fs, d);
    var gs := Truncate(fs, d, 0).fs;
    if forall h: nat, j: nat :: !Names(fs, d, h, j) {
      SameNamesKeep(fs, gs);
    } else {
      var h: nat, j: nat :| Names(fs, d, h, j);
      assert Live(gs, j) && j != ROOT;
      assert !Named(gs, j);
    }
  }
}

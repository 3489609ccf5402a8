/** OSFS-2 as a map from paths to directories and byte sequences: what each call of
    kernel/core/osfs2.c does to that map. */
module FsView {
  import opened Bytes
  import opened CStrings
  import opened Disk
  import opened FsState
  import opened FsBlocks
  import opened FsFile
  import opened FsTruncate
  import opened FsDirectory
  import opened FsTree
  import opened FsCreate
  import opened FsRemove
  import opened FsPaths

  datatype Node = Missing | Folder | Regular(bytes: seq<byte>)

  function NodeOf(fs: Fs, i: nat): Node {
    if i == 0 || i >= |fs.inodes| then Missing
    else if fs.inodes[i].typ == Dir then Folder
    else if fs.inodes[i].size <= MAX_BYTES then Regular(Contents(fs, i))
    else Missing
  }

  function View(fs: Fs, path: Path): Node {
    NodeOf(fs, Walk(fs, ROOT, path))
  }

  /** The tree invariant, and no stale bytes past the end of any file. */
  ghost predicate Good(fs: Fs) {
    Tree(fs) && forall i: nat :: Live(fs, i) && fs.inodes[i].typ == File ==> ZeroTail(fs, i)
  }

  // ---------- calls by path ----------

  /** `osfs2_create` and `osfs2_mkdir`. */
  function CreateAt(fs: Fs, path: Path, typ: Type): Done {
    if path == [] then Done(fs, 0)
    else
      var d := Walk(fs, ROOT, path[..|path| - 1]);
      if d == 0 || d >= |fs.inodes| || fs.inodes[d].typ != Dir then Done(fs, 0)
      else Create(fs, d, path[|path| - 1], typ)
  }

  /** `osfs2_unlink`. */
  function UnlinkAt(fs: Fs, path: Path): Done {
    if path == [] then Done(fs, -1)
    else
      var d := Walk(fs, ROOT, path[..|path| - 1]);
      if d == 0 || d >= |fs.inodes| || fs.inodes[d].typ != Dir then Done(fs, -1)
      else Unlink(fs, d, path[|path| - 1])
  }

  /** `osfs2_rmdir`. */
  function RmdirAt(fs: Fs, path: Path): Done {
    if path == [] then Done(fs, -1)
    else
      var d := Walk(fs, ROOT, path[..|path| - 1]);
      if d == 0 || d >= |fs.inodes| || fs.inodes[d].typ != Dir then Done(fs, -1)
      else Rmdir(fs, d, path[|path| - 1])
  }

  // ---------- what a changed entry does to walks ----------

  /** Two states agree on every step of a walk. */
  ghost predicate SameSteps(fs: Fs, gs: Fs) {
    forall e: nat, n: CString :: Live(fs, e) ==> Step(gs, e, n) == Step(fs, e, n)
  }

  lemma WalkLive(fs: Fs, path: Path)
    requires Tree(fs) && Walk(fs, ROOT, path) != 0
    ensures Live(fs, Walk(fs, ROOT, path))
  {
    hide Owned, Shapes, Entries, Walk, Ranked;
    var depth: seq<nat> :| Ranked(fs, depth);
    WalkDepth(fs, path, depth);
  }

  lemma StepNowhere(fs: Fs, n: CString)
    ensures Step(fs, 0, n) == 0
  {}

  lemma {:induction false} SameStepsSameWalks(fs: Fs, gs: Fs, path: Path)
    requires Tree(fs) && SameSteps(fs, gs)
    ensures Walk(gs, ROOT, path) == Walk(fs, ROOT, path)
    decreases |path|
  {
    hide Tree, Walk, Step;
    if path == [] {
      WalkStart(fs);
      WalkStart(gs);
    } else {
      var p, n := path[..|path| - 1], path[|path| - 1];
      assert path == p + [n];
      WalkLast(fs, ROOT, p, n);
      WalkLast(gs, ROOT, p, n);
      SameStepsSameWalks(fs, gs, p);
      StepNowhere(fs, n);
      StepNowhere(gs, n);
      if Walk(fs, ROOT, p) != 0 {
        WalkLive(fs, p);
      }
    }
  }

  /** Where names and their entries are the same, so are the steps. */
  lemma SameNamesSameSteps(fs: Fs, gs: Fs)
    requires Tree(fs) && Tree(gs) && SameDirs(fs, gs)
    requires forall e: nat, h: nat, j: nat :: Names(gs, e, h, j) <==> Names(fs, e, h, j)
    requires forall e: nat, h: nat, j: nat :: Names(fs, e, h, j) ==> SlotName(gs, e, h) == SlotName(fs, e, h)
    ensures SameSteps(fs, gs)
  {
    hide Owned, Shapes, Entries, Names, SlotName, Child;
    forall e: nat, n: CString | Live(fs, e)
      ensures Step(gs, e, n) == Step(fs, e, n)
    {
      if IsDir(fs, e) {
        ChildIs(fs, e, n);
        ChildIs(gs, e, n);
      }
    }
  }

  lemma EnteredStep(fs: Fs, gs: Fs, d: nat, g: nat, i: u32, name: CString, e: nat, n: CString)
    requires Tree(fs) && Tree(gs) && Added(fs, gs, d, g, i, name) && Child(fs, d, name) == 0
    requires Live(fs, e) || e == i
    ensures Step(gs, e, n) == if e == d && n == name then i else if e == i then 0 else Step(fs, e, n)
  {
    hide Owned, Entries, SlotIno, SlotName, Child, Slot, DirShape;
    AddedNames(fs, gs, d, g, i, name);
    hide Names;
    NamesIn(fs);
    assert Names(gs, d, g, i);
    if IsDir(gs, e) {
      ChildIs(gs, e, n);
      if e != i {
        ChildIs(fs, e, n);
      }
    }
  }

  lemma {:induction false} EnteredWalk(fs: Fs, gs: Fs, p: Path, g: nat, i: u32, name: CString, path: Path)
    requires Tree(fs) && Tree(gs) && Walk(fs, ROOT, p) != 0
    requires Added(fs, gs, Walk(fs, ROOT, p), g, i, name) && Child(fs, Walk(fs, ROOT, p), name) == 0
    ensures Walk(gs, ROOT, path) == if path == p + [name] then i else Walk(fs, ROOT, path)
    ensures Walk(fs, ROOT, p + [name]) == 0
    decreases |path|
  {
    hide Tree, Walk, Step, Child, Added;
    var d := Walk(fs, ROOT, p);
    WalkLast(fs, ROOT, p, name);
    AddedApart(fs, gs, d, g, i, name);
    ChildStep(fs, d, name);
    if path == [] {
      WalkStart(fs);
      WalkStart(gs);
    } else {
      var q, n := path[..|path| - 1], path[|path| - 1];
      assert path == q + [n];
      WalkLast(fs, ROOT, q, n);
      WalkLast(gs, ROOT, q, n);
      EnteredWalk(fs, gs, p, g, i, name, q);
      StepNowhere(fs, n);
      StepNowhere(gs, n);
      var e := Walk(gs, ROOT, q);
      if q == p + [name] {
        EnteredStep(fs, gs, d, g, i, name, i, n);
      } else if e != 0 {
        WalkLive(fs, q);
        NotNew(fs, gs, d, g, i, name, e);
        EnteredStep(fs, gs, d, g, i, name, e, n);
        if e == d {
          PathsDistinct(fs, p, q);
        }
      }
    }
  }

  lemma ChildStep(fs: Fs, d: nat, name: CString)
    requires d < |fs.inodes| && Child(fs, d, name) == 0
    ensures Step(fs, d, name) == 0
  {}

  lemma AddedApart(fs: Fs, gs: Fs, d: nat, g: nat, i: u32, name: CString)
    requires Added(fs, gs, d, g, i, name)
    ensures d < |fs.inodes| && d != i
  {}

  lemma NotNew(fs: Fs, gs: Fs, d: nat, g: nat, i: u32, name: CString, e: nat)
    requires Added(fs, gs, d, g, i, name) && Live(fs, e)
    ensures e != i
  {}

  lemma RemovedStep(fs: Fs, gs: Fs, d: nat, g: nat, i: nat, e: nat, n: CString)
    requires Tree(fs) && Tree(gs) && Removed(fs, gs, d, g, i) && Live(gs, e)
    ensures Step(gs, e, n) == if e == d && n == SlotName(fs, d, g) then 0 else Step(fs, e, n)
  {
    hide Owned, Shapes, SlotIno, SlotName, Child, Slot;
    RemovedNames(fs, gs, d, g, i);
    hide Names;
    NamesIn(fs);
    if IsDir(gs, e) {
      ChildIs(gs, e, n);
      ChildIs(fs, e, n);
    }
  }

  /** Below what was removed there was nothing. */
  lemma NothingBelow(fs: Fs, gs: Fs, d: nat, g: nat, i: nat, n: CString)
    requires Tree(fs) && Removed(fs, gs, d, g, i)
    ensures Step(fs, i, n) == 0
  {
    hide Owned, Shapes, SlotIno, SlotName, Child, Slot;
    NamesIn(fs);
    hide Names;
    NamedLive(fs);
    if IsDir(fs, i) {
      ChildIs(fs, i, n);
    }
  }

  lemma {:induction false} RemovedWalk(fs: Fs, gs: Fs, p: Path, g: nat, i: nat, name: CString, path: Path)
    requires Tree(fs) && Tree(gs) && Walk(fs, ROOT, p) != 0
    requires Removed(fs, gs, Walk(fs, ROOT, p), g, i)
    requires g < DIR_SLOTS && Walk(fs, ROOT, p) < |fs.inodes| && SlotName(fs, Walk(fs, ROOT, p), g) == name
    ensures Walk(fs, ROOT, p + [name]) == i
    ensures Walk(gs, ROOT, path) == if path == p + [name] then 0 else Walk(fs, ROOT, path)
    decreases |path|
  {
    hide Tree, Walk, Step, Removed, SlotName;
    var d := Walk(fs, ROOT, p);
    RemovedNamed(fs, gs, d, g, i);
    StepTo(fs, d, g, i);
    WalkLast(fs, ROOT, p, name);
    if path == [] {
      WalkStart(fs);
      WalkStart(gs);
    } else {
      var q, n := path[..|path| - 1], path[|path| - 1];
      assert path == q + [n];
      WalkLast(fs, ROOT, q, n);
      WalkLast(gs, ROOT, q, n);
      RemovedWalk(fs, gs, p, g, i, name, q);
      StepNowhere(fs, n);
      StepNowhere(gs, n);
      var e := Walk(gs, ROOT, q);
      if q == p + [name] {
        NothingBelow(fs, gs, d, g, i, n);
      } else if e != 0 {
        WalkLive(gs, q);
        RemovedStep(fs, gs, d, g, i, e, n);
        if e == d {
          PathsDistinct(fs, p, q);
        }
      }
    }
  }

  lemma RemovedNamed(fs: Fs, gs: Fs, d: nat, g: nat, i: nat)
    requires Removed(fs, gs, d, g, i)
    ensures Names(fs, d, g, i) && ROOT < i
  {}

  // ---------- contents ----------

  /** A file whose record and blocks did not change reads the same. */
  lemma SameFile(fs: Fs, gs: Fs, i: nat)
    requires i < |fs.inodes| == |gs.inodes| && gs.inodes[i] == fs.inodes[i]
    requires forall lbn: nat :: lbn < MAX_BLOCKS ==> FileBlock(gs, i, lbn) == FileBlock(fs, i, lbn)
    ensures NodeOf(gs, i) == NodeOf(fs, i)
    ensures ZeroTail(fs, i) ==> ZeroTail(gs, i)
  {
    hide FileBlock;
    forall p: nat | p < MAX_BYTES
      ensures ByteAt(gs, i, p) == ByteAt(fs, i, p)
    {
      assert FileBlock(gs, i, p / 4096) == FileBlock(fs, i, p / 4096);
    }
    if fs.inodes[i].size <= MAX_BYTES {
      assert Contents(gs, i) == Contents(fs, i);
    }
  }

  /** By path nothing changed. */
  lemma SameTreeView(fs: Fs, gs: Fs)
    requires Good(fs) && Tree(gs) && SameTree(fs, gs)
    ensures Good(gs) && forall q: Path :: View(gs, q) == View(fs, q)
  {
    hide FileBlock, Owned, Entries, NodeOf, Walk, ZeroTail, Ranked, Names, SlotName;
    SameTreeKeeps(fs, gs);
    SameNamesSameSteps(fs, gs);
    forall i: nat | Live(fs, i)
      ensures NodeOf(gs, i) == NodeOf(fs, i)
      ensures ZeroTail(fs, i) ==> ZeroTail(gs, i)
    {
      SameFile(fs, gs, i);
    }
    forall q: Path
      ensures View(gs, q) == View(fs, q)
    {
      SameStepsSameWalks(fs, gs, q);
      SameNode(fs, gs, q);
    }
  }

  lemma SameNode(fs: Fs, gs: Fs, q: Path)
    requires Tree(fs) && Walk(gs, ROOT, q) == Walk(fs, ROOT, q)
    requires forall i: nat :: Live(fs, i) ==> NodeOf(gs, i) == NodeOf(fs, i)
    ensures View(gs, q) == View(fs, q)
  {
    hide Walk, Tree;
    if Walk(fs, ROOT, q) != 0 {
      WalkLive(fs, q);
    }
  }

  /** A new empty file or directory. */
  lemma NewNode(gs: Fs, i: nat, typ: Type)
    requires 0 < i < |gs.inodes| && gs.inodes[i] == NewInode(typ) && typ != Free
    ensures NodeOf(gs, i) == if typ == Dir then Folder else Regular([])
  {}

  lemma EnteredView(fs: Fs, gs: Fs, p: Path, name: CString, i: u32, typ: Type, q: Path)
    requires Good(fs) && Tree(gs) && typ != Free && IsDir(fs, Walk(fs, ROOT, p)) && Walk(fs, ROOT, p) != 0
    requires Entered(fs, gs, Walk(fs, ROOT, p), i, name, typ) && Child(fs, Walk(fs, ROOT, p), name) == 0
    ensures View(gs, q) == if q == p + [name] then (if typ == Dir then Folder else Regular([])) else View(fs, q)
  {
    hide FileBlock, Tree, Walk, Child, ZeroTail, NewInode;
    var d := Walk(fs, ROOT, p);
    var g: nat :| Added(fs, gs, d, g, i, name);
    EnteredWalk(fs, gs, p, g, i, name, q);
    NewNode(gs, i, typ);
    var j := Walk(fs, ROOT, q);
    if q != p + [name] && j != 0 {
      WalkLive(fs, q);
      if j == d {
        assert gs.inodes[j].typ == Dir;
      } else {
        SameFile(fs, gs, j);
      }
    }
  }

  lemma EnteredGood(fs: Fs, gs: Fs, d: nat, name: CString, i: u32, typ: Type)
    requires Good(fs) && Tree(gs) && IsDir(fs, d) && Entered(fs, gs, d, i, name, typ) && typ != Free
    requires forall lbn: nat :: lbn < MAX_BLOCKS ==> FileBlock(gs, i, lbn) == ZERO
    ensures Good(gs)
  {
    hide FileBlock, Tree, NewInode, Slot, DirShape;
    var g: nat :| Added(fs, gs, d, g, i, name);
    forall j: nat | Live(gs, j) && gs.inodes[j].typ == File
      ensures ZeroTail(gs, j)
    {
      if j == i {
        ZeroFile(gs, i);
      } else {
        SameFile(fs, gs, j);
      }
    }
  }

  lemma ZeroFile(gs: Fs, i: nat)
    requires i < |gs.inodes| && forall lbn: nat :: lbn < MAX_BLOCKS ==> FileBlock(gs, i, lbn) == ZERO
    ensures ZeroTail(gs, i)
  {
    hide FileBlock;
    forall p: nat | gs.inodes[i].size <= p < MAX_BYTES
      ensures ByteAt(gs, i, p) == 0
    {
      assert FileBlock(gs, i, p / 4096) == ZERO;
    }
  }

  /** An inode record without pointers shows only zeroes. */
  lemma NewFileIsZero(gs: Fs, i: nat, typ: Type)
    requires i < |gs.inodes| && gs.inodes[i] == NewInode(typ)
    ensures forall lbn: nat :: lbn < MAX_BLOCKS ==> FileBlock(gs, i, lbn) == ZERO
  {}

  // ---------- the calls ----------

  /** Creating: a free name in an existing directory becomes a new empty file or directory, or
      inodes, slots or blocks ran out and nothing changes; a name in use, or no parent, changes
      nothing. */
  lemma CreateView(fs: Fs, path: Path, typ: Type)
    requires Good(fs) && (typ == File || typ == Dir)
    ensures var (gs, rc) := (CreateAt(fs, path, typ).fs, CreateAt(fs, path, typ).rc);
      && Good(gs) && rc >= 0
      && (rc != 0 && View(fs, path) == Missing ==>
            forall q: Path :: View(gs, q) == if q == path then (if typ == Dir then Folder else Regular([])) else View(fs, q))
      && (rc == 0 || View(fs, path) != Missing ==> forall q: Path :: View(gs, q) == View(fs, q))
      && (rc != 0 ==> rc == Walk(gs, ROOT, path))
      && (rc != 0 && View(fs, path) != Missing ==> typ == File && View(fs, path) != Folder)
  {
    hide FileBlock, Owned, Walk, Child, ZeroTail, Entered, Create, NewInode, Shapes, Entries, Ranked, SameTree, InodesFull, DirFull, Full;
    if path != [] {
      var p, name := path[..|path| - 1], path[|path| - 1];
      assert path == p + [name];
      var d := Walk(fs, ROOT, p);
      WalkLast(fs, ROOT, p, name);
      if d != 0 && d < |fs.inodes| && fs.inodes[d].typ == Dir {
        WalkLive(fs, p);
        CreateUnder(fs, p, name, typ);
      }
    }
  }

  lemma CreateUnder(fs: Fs, p: Path, name: CString, typ: Type)
    requires Good(fs) && (typ == File || typ == Dir) && IsDir(fs, Walk(fs, ROOT, p)) && Walk(fs, ROOT, p) != 0
    ensures var (gs, rc) := (Create(fs, Walk(fs, ROOT, p), name, typ).fs, Create(fs, Walk(fs, ROOT, p), name, typ).rc);
      && Good(gs) && rc >= 0
      && (rc != 0 && View(fs, p + [name]) == Missing ==>
            forall q: Path :: View(gs, q) == if q == p + [name] then (if typ == Dir then Folder else Regular([])) else View(fs, q))
      && (rc == 0 || View(fs, p + [name]) != Missing ==> forall q: Path :: View(gs, q) == View(fs, q))
      && (rc != 0 ==> rc == Walk(gs, ROOT, p + [name]))
      && (rc != 0 && View(fs, p + [name]) != Missing ==> typ == File && View(fs, p + [name]) != Folder)
  {
    hide FileBlock, Walk, Child, ZeroTail, Entered, Create, NewInode, Tree, SameTree, InodesFull, DirFull, Full, Contents;
    var d := Walk(fs, ROOT, p);
    CreateSemantics(fs, d, name, typ);
    var gs, rc := Create(fs, d, name, typ).fs, Create(fs, d, name, typ).rc;
    WalkLast(fs, ROOT, p, name);
    var c := Child(fs, d, name);
    if GoodName(name) && c == 0 {
      if rc != 0 {
        EnteredParts(fs, gs, d, rc, name, typ);
        NewFileIsZero(gs, rc, typ);
        EnteredGood(fs, gs, d, name, rc, typ);
        var g: nat :| Added(fs, gs, d, g, rc, name);
        EnteredWalk(fs, gs, p, g, rc, name, p + [name]);
        forall q: Path
          ensures View(gs, q) == if q == p + [name] then (if typ == Dir then Folder else Regular([])) else View(fs, q)
        {
          EnteredView(fs, gs, p, name, rc, typ, q);
        }
      } else {
        SameTreeView(fs, gs);
      }
    } else if GoodName(name) {
      ChildLive(fs, d, name);
    }
  }

  lemma EnteredParts(fs: Fs, gs: Fs, d: nat, i: int, name: CString, typ: Type)
    requires Entered(fs, gs, d, i, name, typ)
    ensures ROOT < i < |gs.inodes| && i < U32 && gs.inodes[i] == NewInode(typ)
    ensures exists g: nat :: Added(fs, gs, d, g, i, name)
  {
    hide Added, FileBlock;
  }

  lemma ChildLive(fs: Fs, d: nat, name: CString)
    requires Tree(fs) && IsDir(fs, d) && Child(fs, d, name) != 0
    ensures Live(fs, Child(fs, d, name)) && fs.inodes[Child(fs, d, name)].typ != Free
    ensures fs.inodes[Child(fs, d, name)].size <= MAX_BYTES
  {
    hide Owned, Child, SlotIno, SlotName, Names;
    ChildIs(fs, d, name);
  }

  lemma UnlinkedView(fs: Fs, gs: Fs, p: Path, name: CString, i: nat)
    requires Good(fs) && Tree(gs) && Walk(fs, ROOT, p) != 0 && Unlinked(fs, gs, Walk(fs, ROOT, p), i, name)
    ensures Good(gs) && forall q: Path :: View(gs, q) == if q == p + [name] then Missing else View(fs, q)
  {
    hide FileBlock, Tree, Walk, ZeroTail, NodeOf, Slot, Names;
    var d := Walk(fs, ROOT, p);
    WalkLive(fs, p);
    var g: nat :| g < DIR_SLOTS && Removed(fs, gs, d, g, i) && SlotName(fs, d, g) == name;
    NamesDir(fs, d, g, i);
    forall j: nat | Live(gs, j)
      ensures NodeOf(gs, j) == NodeOf(fs, j)
      ensures fs.inodes[j].typ == File && ZeroTail(fs, j) ==> ZeroTail(gs, j)
    {
      if j == d {
        DirNode(fs, gs, d);
      } else {
        SameFile(fs, gs, j);
      }
    }
    forall q: Path
      ensures View(gs, q) == if q == p + [name] then Missing else View(fs, q)
    {
      RemovedWalk(fs, gs, p, g, i, name, q);
      if Walk(gs, ROOT, q) != 0 {
        WalkLive(gs, q);
      } else {
        Nowhere(fs);
        Nowhere(gs);
      }
    }
  }

  lemma Nowhere(fs: Fs)
    ensures NodeOf(fs, 0) == Missing
  {}

  lemma NamesDir(fs: Fs, d: nat, g: nat, i: nat)
    requires Names(fs, d, g, i)
    ensures IsDir(fs, d)
  {}

  lemma DirNode(fs: Fs, gs: Fs, d: nat)
    requires IsDir(fs, d) && IsDir(gs, d)
    ensures NodeOf(gs, d) == NodeOf(fs, d)
  {}

  /** Unlinking takes exactly a file's path out of the map, and fails without effect on anything
      else. */
  lemma UnlinkView(fs: Fs, path: Path)
    requires Good(fs)
    ensures var (gs, rc) := (UnlinkAt(fs, path).fs, UnlinkAt(fs, path).rc);
      && Good(gs) && rc == (if View(fs, path).Regular? then 0 else -1)
      && (forall q: Path :: View(gs, q) == if rc == 0 && q == path then Missing else View(fs, q))
  {
    hide FileBlock, Owned, Walk, Child, ZeroTail, Unlink, Unlinked, Shapes, Entries, Ranked, Contents;
    RootDir(fs);
    WalkStart(fs);
    if path != [] {
      var p, name := path[..|path| - 1], path[|path| - 1];
      assert path == p + [name];
      var d := Walk(fs, ROOT, p);
      WalkLast(fs, ROOT, p, name);
      if d != 0 && d < |fs.inodes| && fs.inodes[d].typ == Dir {
        WalkLive(fs, p);
        UnlinkSemantics(fs, d, name);
        var c := Child(fs, d, name);
        if c != 0 {
          ChildLive(fs, d, name);
          if fs.inodes[c].typ == File {
            UnlinkedView(fs, Unlink(fs, d, name).fs, p, name, c);
          }
        }
      }
    }
  }

  lemma RootDir(fs: Fs)
    requires Tree(fs)
    ensures IsDir(fs, ROOT) && NodeOf(fs, ROOT) == Folder
  {
    hide Owned, Entries, Ranked;
  }

  /** A directory holds nothing: no path goes through it. */
  ghost predicate NothingUnder(fs: Fs, path: Path) {
    forall n: CString :: View(fs, path + [n]) == Missing
  }

  lemma NoNames(fs: Fs, c: nat, path: Path)
    requires Tree(fs) && IsDir(fs, c) && Walk(fs, ROOT, path) == c
    ensures NothingUnder(fs, path) <==> forall h: nat, j: nat :: !Names(fs, c, h, j)
  {
    hide Owned, Walk, Child, SlotIno, SlotName, NodeOf;
    if NothingUnder(fs, path) {
      forall h: nat, j: nat
        ensures !Names(fs, c, h, j)
      {
        if Names(fs, c, h, j) {
          NamesLink(fs, c, h, j, path);
        }
      }
    }
    if forall h: nat, j: nat :: !Names(fs, c, h, j) {
      forall n: CString
        ensures View(fs, path + [n]) == Missing
      {
        ChildIs(fs, c, n);
        WalkLast(fs, ROOT, path, n);
        Nowhere(fs);
      }
    }
  }

  lemma NamesLink(fs: Fs, c: nat, h: nat, j: nat, path: Path)
    requires Tree(fs) && Names(fs, c, h, j) && Walk(fs, ROOT, path) == c
    ensures c < |fs.inodes| && h < DIR_SLOTS && View(fs, path + [SlotName(fs, c, h)]) != Missing
  {
    hide Owned, Walk, Child, SlotIno, SlotName, Contents, Step, Ranked;
    StepTo(fs, c, h, j);
    WalkLast(fs, ROOT, path, SlotName(fs, c, h));
    assert Live(fs, j);
  }

  /** Removing a directory takes exactly its path out of the map, when it is an empty directory
      other than the root; otherwise it fails without effect. */
  lemma RmdirView(fs: Fs, path: Path)
    requires Good(fs)
    ensures var (gs, rc) := (RmdirAt(fs, path).fs, RmdirAt(fs, path).rc);
      && Good(gs) && rc == (if path != [] && View(fs, path) == Folder && NothingUnder(fs, path) then 0 else -1)
      && (forall q: Path :: View(gs, q) == if rc == 0 && q == path then Missing else View(fs, q))
  {
    hide FileBlock, Owned, Walk, Child, ZeroTail, Rmdir, Unlinked, Shapes, Entries, Ranked, Contents, Names, NothingUnder;
    if path != [] {
      var p, name := path[..|path| - 1], path[|path| - 1];
      assert path == p + [name];
      var d := Walk(fs, ROOT, p);
      WalkLast(fs, ROOT, p, name);
      if d != 0 && d < |fs.inodes| && fs.inodes[d].typ == Dir {
        WalkLive(fs, p);
        RmdirSemantics(fs, d, name);
        var c := Child(fs, d, name);
        if c != 0 {
          ChildLive(fs, d, name);
          if IsDir(fs, c) {
            NoNames(fs, c, path);
            if NothingUnder(fs, path) {
              UnlinkedView(fs, Rmdir(fs, d, name).fs, p, name, c);
            }
          }
        }
      }
    }
  }

  // ---------- writing and truncating by inode ----------

  /** Only file `i` changed. */
  ghost predicate OnlyFile(fs: Fs, gs: Fs, i: nat) {
    && Live(fs, i) && fs.inodes[i].typ == File
    && |gs.inodes| == |fs.inodes| && gs.inodeMap == fs.inodeMap
    && gs.inodes[i].typ == File && gs.inodes[i].size <= MAX_BYTES
    && (forall j: nat :: Live(fs, j) && j != i ==> gs.inodes[j] == fs.inodes[j])
    && (forall j: nat, lbn: nat :: Live(fs, j) && j != i && lbn < MAX_BLOCKS ==> FileBlock(gs, j, lbn) == FileBlock(fs, j, lbn))
  }

  lemma OnlyFileView(fs: Fs, gs: Fs, i: nat, path: Path)
    requires Good(fs) && Owned(gs) && OnlyFile(fs, gs, i) && ZeroTail(gs, i) && Walk(fs, ROOT, path) == i
    ensures Good(gs) && forall q: Path :: View(gs, q) == if q == path then Regular(Contents(gs, i)) else View(fs, q)
  {
    hide FileBlock, Owned, Entries, NodeOf, Walk, ZeroTail, Ranked, RecordAt, RecordIno, RecordName, DirShape;
    forall e: nat, h: nat | IsDir(fs, e) && h < DIR_SLOTS
      ensures Slot(gs, e, h) == Slot(fs, e, h)
    {
      assert FileBlock(gs, e, h / PER_BLOCK) == FileBlock(fs, e, h / PER_BLOCK);
    }
    hide Slot, Names, SlotName;
    SameSlotsKeep(fs, gs);
    SameNamesSameSteps(fs, gs);
    forall j: nat | Live(fs, j) && j != i
      ensures NodeOf(gs, j) == NodeOf(fs, j)
      ensures ZeroTail(fs, j) ==> ZeroTail(gs, j)
    {
      SameFile(fs, gs, j);
    }
    FileNode(gs, i);
    Nowhere(fs);
    Nowhere(gs);
    forall q: Path
      ensures View(gs, q) == if q == path then Regular(Contents(gs, i)) else View(fs, q)
    {
      SameStepsSameWalks(fs, gs, q);
      if Walk(fs, ROOT, q) != 0 {
        WalkLive(fs, q);
        if Walk(fs, ROOT, q) == i {
          PathsDistinct(fs, path, q);
        }
      }
    }
  }

  lemma FileNode(fs: Fs, i: nat)
    requires Live(fs, i) && fs.inodes[i].typ == File && fs.inodes[i].size <= MAX_BYTES
    ensures NodeOf(fs, i) == Regular(Contents(fs, i))
  {}

  /** Blocks agree where all their bytes do. */
  lemma BytesMakeBlock(fs: Fs, gs: Fs, j: nat, lbn: nat)
    requires j < |fs.inodes| == |gs.inodes| && lbn < MAX_BLOCKS
    requires forall p: nat :: p < MAX_BYTES ==> ByteAt(gs, j, p) == ByteAt(fs, j, p)
    ensures FileBlock(gs, j, lbn) == FileBlock(fs, j, lbn)
  {
    hide FileBlock;
    var a, b := FileBlock(fs, j, lbn), FileBlock(gs, j, lbn);
    forall k: nat | k < 4096
      ensures b[k] == a[k]
    {
      assert ByteAt(gs, j, 4096 * lbn + k) == ByteAt(fs, j, 4096 * lbn + k);
      assert (4096 * lbn + k) / 4096 == lbn && (4096 * lbn + k) % 4096 == k;
    }
  }

  /** Writing an open file changes its bytes as a write to a byte sequence does, for as many
      bytes as it reports, and nothing else in the tree. */
  lemma WriteView(fs: Fs, path: Path, offset: nat, buf: seq<byte>)
    requires Good(fs) && View(fs, path).Regular?
    ensures var (gs, rc) := (WriteFile(fs, Walk(fs, ROOT, path), offset, buf).fs, WriteFile(fs, Walk(fs, ROOT, path), offset, buf).rc);
      && Good(gs) && -1 <= rc <= |buf|
      && (forall q: Path :: View(gs, q) ==
            if q == path && rc > 0 then Regular(WriteAt(View(fs, path).bytes, offset, buf[..rc])) else View(fs, q))
  {
    hide FileBlock, Owned, Walk, ZeroTail, Contents, WriteFile, WriteAt, ByteAt, Entries, Ranked;
    RegularIsFile(fs, path);
    var i := Walk(fs, ROOT, path);
    var gs, rc := WriteFile(fs, i, offset, buf).fs, WriteFile(fs, i, offset, buf).rc;
    WriteSemantics(fs, i, offset, buf);
    if rc > 0 {
      WriteRefines(fs, i, offset, buf);
      WroteOnlyFile(fs, gs, i, offset, buf, rc);
      OnlyFileView(fs, gs, i, path);
    } else if rc == -1 {
      SameTableKeeps(fs, gs);
    }
  }

  lemma SameTableKeeps(fs: Fs, gs: Fs)
    requires Good(fs) && Owned(gs) && SameContent(fs, gs) && gs.inodes == fs.inodes
    ensures Good(gs) && forall q: Path :: View(gs, q) == View(fs, q)
  {
    hide FileBlock, Owned, Entries, Ranked, Shapes, ZeroTail;
    assert SameTree(fs, gs);
    SameTreeKeeps(fs, gs);
    SameTreeView(fs, gs);
  }

  lemma RegularIsFile(fs: Fs, path: Path)
    requires Tree(fs) && View(fs, path).Regular?
    ensures var i := Walk(fs, ROOT, path);
      && Live(fs, i) && fs.inodes[i].typ == File && fs.inodes[i].size <= MAX_BYTES
      && View(fs, path) == Regular(Contents(fs, i))
  {
    hide Owned, Entries, Ranked, Walk, Contents;
    WalkLive(fs, path);
  }

  lemma WroteOnlyFile(fs: Fs, gs: Fs, i: nat, offset: nat, buf: seq<byte>, k: nat)
    requires Live(fs, i) && fs.inodes[i].typ == File && k <= |buf| && offset + k <= MAX_BYTES && fs.inodes[i].size <= MAX_BYTES
    requires Wrote(fs, gs, i, offset, buf, offset, offset + k)
    requires SizeOnly(fs, gs, i, if offset + k > fs.inodes[i].size then offset + k else fs.inodes[i].size)
    ensures OnlyFile(fs, gs, i)
  {
    hide ByteAt, FileBlock;
    forall j: nat, lbn: nat | Live(fs, j) && j != i && lbn < MAX_BLOCKS
      ensures FileBlock(gs, j, lbn) == FileBlock(fs, j, lbn)
    {
      BytesMakeBlock(fs, gs, j, lbn);
    }
  }

  /** Truncating a file to a block-aligned size resizes its byte sequence and changes nothing else
      in the tree. */
  lemma TruncateView(fs: Fs, path: Path, size: nat)
    requires Good(fs) && View(fs, path).Regular? && size <= MAX_BYTES && size % 4096 == 0
    ensures var (gs, rc) := (Truncate(fs, Walk(fs, ROOT, path), size).fs, Truncate(fs, Walk(fs, ROOT, path), size).rc);
      && rc == 0 && Good(gs)
      && (forall q: Path :: View(gs, q) == if q == path then Regular(Resize(View(fs, path).bytes, size)) else View(fs, q))
  {
    hide FileBlock, Owned, Walk, ZeroTail, Contents, Truncate, Resize, Entries, Ranked, Released;
    RegularIsFile(fs, path);
    var i := Walk(fs, ROOT, path);
    TruncateSemantics(fs, i, size);
    TruncateRefines(fs, i, size);
    AlignedTruncate(fs, i, size);
    OnlyFileView(fs, Truncate(fs, i, size).fs, i, path);
  }

  /** Reading returns exactly the stretch of the file's bytes that was asked for and exists. */
  lemma ReadView(fs: Fs, path: Path, offset: nat, len: nat)
    requires Good(fs) && View(fs, path).Regular?
    ensures var bytes := View(fs, path).bytes;
      ReadFile(fs, Walk(fs, ROOT, path), offset, len) == Got(
        if offset >= |bytes| then [] else if len > |bytes| - offset then bytes[offset..] else bytes[offset..offset + len])
  {
    hide FileBlock, Owned, Walk, ZeroTail, ReadFile, Entries, Ranked, ByteAt;
    RegularIsFile(fs, path);
    var i := Walk(fs, ROOT, path);
    ReadSemantics(fs, i, offset, len);
  }
}

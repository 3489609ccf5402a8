/** Paths of OSFS-2 (kernel/core/osfs2.c, `walk`): every inode in use has exactly one path, and
    the file system behaves as a map from paths to directories and byte sequences. */
module FsPaths {
  import opened Bytes
  import opened CStrings
  import opened Disk
  import opened FsState
  import opened FsBlocks
  import opened FsFile
  import opened FsTruncate
  import opened FsDirectory
  import opened FsTree
  import opened FsCreate
  import opened FsRemove

  type Path = seq<CString>

  /** `walk` from inode `cur`, on a path already split at its slashes; 0 if there is no such path. */
  function Walk(fs: Fs, cur: nat, path: Path): nat
    decreases |path|
  {
    if path == [] then cur
    else if cur == 0 || cur >= |fs.inodes| || fs.inodes[cur].typ != Dir then 0
    else
      var next := Child(fs, cur, path[0]);
      if next == 0 then 0 else Walk(fs, next, path[1..])
  }

  /** One step of a walk, for 0 as well. */
  function Step(fs: Fs, cur: nat, name: CString): nat {
    if cur == 0 || cur >= |fs.inodes| || fs.inodes[cur].typ != Dir then 0 else Child(fs, cur, name)
  }

  /** A walk, seen from its last component. */
  lemma {:induction false} WalkLast(fs: Fs, cur: nat, path: Path, name: CString)
    ensures Walk(fs, cur, path + [name]) == Step(fs, Walk(fs, cur, path), name)
    decreases |path|
  {
    hide Child;
    if path == [] {
      assert path + [name] == [name];
      assert [name][1..] == [];
      assert Walk(fs, cur, [name]) == Step(fs, cur, name);
    } else {
      assert (path + [name])[1..] == path[1..] + [name];
      WalkLast(fs, Step(fs, cur, path[0]), path[1..], name);
    }
  }

  /** A child in use is named by an entry of its directory, one level down. */
  lemma StepDown(fs: Fs, d: nat, name: CString, depth: seq<nat>)
    requires Tree(fs) && Ranked(fs, depth) && Live(fs, d) && Step(fs, d, name) != 0
    ensures IsDir(fs, d) && Live(fs, Step(fs, d, name)) && depth[Step(fs, d, name)] == depth[d] + 1
    ensures exists g: nat :: Names(fs, d, g, Step(fs, d, name)) && SlotName(fs, d, g) == name
  {
    hide Owned, Child, SlotName, SlotIno;
    ChildIs(fs, d, name);
    var g: nat :| Names(fs, d, g, Child(fs, d, name)) && SlotName(fs, d, g) == name;
  }

  lemma {:induction false} WalkDepth(fs: Fs, path: Path, depth: seq<nat>)
    requires Tree(fs) && Ranked(fs, depth) && Walk(fs, ROOT, path) != 0
    ensures Live(fs, Walk(fs, ROOT, path)) && depth[Walk(fs, ROOT, path)] == depth[ROOT] + |path|
    decreases |path|
  {
    hide Owned, Step, Walk, Entries;
    if path == [] {
      WalkStart(fs);
    } else {
      var p, n := path[..|path| - 1], path[|path| - 1];
      assert path == p + [n];
      WalkLast(fs, ROOT, p, n);
      StepFromSomewhere(fs, Walk(fs, ROOT, p), n);
      WalkDepth(fs, p, depth);
      StepDown(fs, Walk(fs, ROOT, p), n, depth);
    }
  }

  lemma WalkStart(fs: Fs)
    ensures Walk(fs, ROOT, []) == ROOT
  {}

  lemma StepFromSomewhere(fs: Fs, cur: nat, name: CString)
    requires Step(fs, cur, name) != 0
    ensures cur != 0
  {}

  /** An inode is the child of one directory under one name. */
  lemma SameStep(fs: Fs, d: nat, m: CString, e: nat, n: CString)
    requires Tree(fs) && Live(fs, d) && Live(fs, e) && Step(fs, d, m) == Step(fs, e, n) != 0
    ensures d == e && m == n
  {
    hide Owned, Child, SlotName, SlotIno, Shapes;
    var depth: seq<nat> :| Ranked(fs, depth);
    StepDown(fs, d, m, depth);
    StepDown(fs, e, n, depth);
  }

  /** No two paths lead to the same inode. */
  lemma {:induction false} PathsDistinct(fs: Fs, p: Path, q: Path)
    requires Tree(fs) && Walk(fs, ROOT, p) == Walk(fs, ROOT, q) != 0
    ensures p == q
    decreases |p|
  {
    hide Owned, Step, Walk, Shapes, Entries, Ranked, Live;
    var depth: seq<nat> :| Ranked(fs, depth);
    WalkDepth(fs, p, depth);
    WalkDepth(fs, q, depth);
    if p != [] {
      var p', m := p[..|p| - 1], p[|p| - 1];
      var q', n := q[..|q| - 1], q[|q| - 1];
      assert p == p' + [m] && q == q' + [n];
      WalkLast(fs, ROOT, p', m);
      WalkLast(fs, ROOT, q', n);
      var d, e := Walk(fs, ROOT, p'), Walk(fs, ROOT, q');
      StepFromSomewhere(fs, d, m);
      StepFromSomewhere(fs, e, n);
      WalkDepth(fs, p', depth);
      WalkDepth(fs, q', depth);
      SameStep(fs, d, m, e, n);
      PathsDistinct(fs, p', q');
    }
  }

  lemma StepTo(fs: Fs, d: nat, g: nat, i: nat)
    requires Tree(fs) && Names(fs, d, g, i)
    ensures d < |fs.inodes| && g < DIR_SLOTS && Step(fs, d, SlotName(fs, d, g)) == i
  {
    hide Owned, Child, SlotName, SlotIno;
    ChildIs(fs, d, SlotName(fs, d, g));
  }

  /** Every inode in use is reached from the root. */
  lemma {:induction false} EveryInodeHasPath(fs: Fs, i: nat, depth: seq<nat>) returns (path: Path)
    requires Tree(fs) && Live(fs, i) && Ranked(fs, depth)
    ensures Walk(fs, ROOT, path) == i
    decreases depth[i]
  {
    hide Owned, Step, Walk, Shapes, SlotName, SlotIno;
    if i == ROOT {
      path := [];
      WalkStart(fs);
    } else {
      assert Named(fs, i);
      var d: nat, g: nat :| d < |fs.inodes| && g < DIR_SLOTS && Names(fs, d, g, i);
      var p := EveryInodeHasPath(fs, d, depth);
      StepTo(fs, d, g, i);
      path := p + [SlotName(fs, d, g)];
      WalkLast(fs, ROOT, p, SlotName(fs, d, g));
    }
  }
}

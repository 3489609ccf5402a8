/** Path strings of OSFS-2 (kernel/core/osfs2.c, `path_next_component`, `walk`, `walk_parent`): how
    a string is cut at its slashes, and that calls by string are the calls by path. */
module PathStrings {
  import opened Bytes
  import opened Options
  import opened CStrings
  import opened FsState
  import opened FsBlocks
  import opened FsFile
  import opened FsDirectory
  import opened FsTree
  import opened FsCreate
  import opened FsPaths
  import opened FsView

  const SLASH: byte := 47
  const PARENT_MAX: nat := 256      // parent_buf, the NUL included

  predicate SlashFree(name: seq<byte>) {
    SLASH !in name
  }

  predicate OnlySlashes(s: CString) {
    forall i :: 0 <= i < |s| ==> s[i] == SLASH
  }

  // ---------- components ----------

  /** Past the slashes at `p`. */
  function SkipSlashes(s: CString, p: nat): (q: nat)
    requires p <= |s|
    ensures p <= q <= |s| && (q < |s| ==> s[q] != SLASH) && forall i :: p <= i < q ==> s[i] == SLASH
    decreases |s| - p
  {
    if p < |s| && s[p] == SLASH then SkipSlashes(s, p + 1) else p
  }

  /** Past the characters up to the next slash. */
  function SkipName(s: CString, p: nat): (q: nat)
    requires p <= |s|
    ensures p <= q <= |s| && (q < |s| ==> s[q] == SLASH) && forall i :: p <= i < q ==> s[i] != SLASH
    decreases |s| - p
  {
    if p < |s| && s[p] != SLASH then SkipName(s, p + 1) else p
  }

  /** What fits into a name buffer. */
  function Cut(name: CString): (r: CString)
    ensures |r| < NAME_MAX
  {
    if |name| < NAME_MAX then name else name[..NAME_MAX - 1]
  }

  function CutAll(path: Path): (r: Path)
    ensures |r| == |path|
  {
    if path == [] then [] else [Cut(path[0])] + CutAll(path[1..])
  }

  /** Each name stands as it is, or by its first 59 bytes. */
  lemma {:induction false} CutAllIs(path: Path, k: nat)
    requires k < |path|
    ensures CutAll(path)[k] == if |path[k]| <= 59 then path[k] else path[k][..59]
  {
    if k > 0 {
      CutAllIs(path[1..], k - 1);
    }
  }

  /** `path_next_component` at `p`: the component, cut to the buffer, and where to go on. */
  function NextComponent(s: CString, p: nat): (r: Option<(CString, nat)>)
    requires p <= |s|
    ensures r.Some? ==> p < r.value.1 <= |s|
  {
    var a := SkipSlashes(s, p);
    if a == |s| then None else Some((Cut(s[a..SkipName(s, a)]), SkipSlashes(s, SkipName(s, a))))
  }

  /** The names between the slashes. */
  function Split(s: CString): (path: Path)
    decreases |s|
  {
    if s == [] then []
    else if s[0] == SLASH then Split(s[1..])
    else [s[..SkipName(s, 0)]] + Split(s[SkipName(s, 0)..])
  }

  /** A path written with a slash before each name. */
  function Join(path: Path): CString {
    if path == [] then [] else [SLASH] + path[0] + Join(path[1..])
  }

  predicate Components(path: Path) {
    forall k :: 0 <= k < |path| ==> path[k] != [] && SlashFree(path[k])
  }

  lemma {:induction false} SplitIsComponents(s: CString)
    ensures Components(Split(s))
    decreases |s|
  {
    if s != [] {
      SplitIsComponents(if s[0] == SLASH then s[1..] else s[SkipName(s, 0)..]);
    }
  }

  lemma {:induction false} SkipNameOf(name: CString, rest: CString, k: nat)
    requires SlashFree(name) && k <= |name| && (rest == [] || rest[0] == SLASH)
    ensures SkipName(name + rest, k) == |name|
    decreases |name| - k
  {
    if k < |name| {
      assert (name + rest)[k] == name[k];
      SkipNameOf(name, rest, k + 1);
    }
  }

  lemma JoinHead(path: Path)
    ensures Join(path) == [] || Join(path)[0] == SLASH
  {}

  /** Splitting undoes joining: every path of slash-free names can be given as a string. */
  lemma {:induction false} SplitJoin(path: Path)
    requires Components(path)
    ensures Split(Join(path)) == path
    decreases |path|
  {
    if path != [] {
      var name, rest := path[0], Join(path[1..]);
      JoinHead(path[1..]);
      var t := name + rest;
      assert Join(path)[1..] == t;
      assert t[0] == name[0];
      SkipNameOf(name, rest, 0);
      assert t[..|name|] == name && t[|name|..] == rest;
      SplitJoin(path[1..]);
    }
  }

  // ---------- walking ----------

  /** The loop of `walk` from position `p` and directory `cur`. */
  function WalkFrom(fs: Fs, s: CString, p: nat, cur: nat): nat
    requires p <= |s|
    decreases |s| - p
  {
    match NextComponent(s, p)
    case None => cur
    case Some((name, next)) =>
      if cur == 0 || cur >= |fs.inodes| || fs.inodes[cur].typ != Dir then 0
      else WalkFrom(fs, s, next, Child(fs, cur, name))
  }

  /** The code reads an uninitialised buffer on a path of two or more slashes and nothing else. */
  predicate Readable(s: CString) {
    |s| <= 1 || !OnlySlashes(s)
  }

  /** `walk`. */
  function WalkString(fs: Fs, s: CString): nat
    requires Readable(s)
  {
    if s == [] || s == [SLASH] then ROOT else WalkFrom(fs, s, 0, ROOT)
  }

  lemma {:induction false} SplitSkips(s: CString, p: nat)
    requires p <= |s|
    ensures Split(s[p..]) == Split(s[SkipSlashes(s, p)..])
    decreases |s| - p
  {
    if p < |s| && s[p] == SLASH {
      assert s[p..][1..] == s[p + 1..];
      SplitSkips(s, p + 1);
    }
  }

  lemma {:induction false} SkipNameFrom(s: CString, a: nat, k: nat)
    requires a + k <= |s|
    ensures a + SkipName(s[a..], k) == SkipName(s, a + k)
    decreases |s| - a - k
  {
    if a + k < |s| && s[a + k] != SLASH {
      SkipNameFrom(s, a, k + 1);
    }
  }

  /** What the scanner yields at `p` is the first name of the rest, cut; then comes the rest. */
  lemma NextIsFirst(s: CString, p: nat)
    requires p <= |s|
    ensures match NextComponent(s, p)
      case None => Split(s[p..]) == []
      case Some((name, next)) =>
        var path := Split(s[p..]); path != [] && name == Cut(path[0]) && Split(s[next..]) == path[1..]
  {
    var a := SkipSlashes(s, p);
    SplitSkips(s, p);
    if a < |s| {
      var b := SkipName(s, a);
      SkipNameFrom(s, a, 0);
      assert s[a..][..b - a] == s[a..b] && s[a..][b - a..] == s[b..];
      SplitSkips(s, b);
    } else {
      assert s[a..] == [];
    }
  }

  lemma WalkNowhere(fs: Fs, path: Path)
    ensures Walk(fs, 0, path) == 0
  {}

  lemma {:induction false} WalkFromIsWalk(fs: Fs, s: CString, p: nat, cur: nat)
    requires p <= |s|
    ensures WalkFrom(fs, s, p, cur) == Walk(fs, cur, CutAll(Split(s[p..])))
    decreases |s| - p
  {
    hide Split, NextComponent, Child, Cut;
    NextIsFirst(s, p);
    match NextComponent(s, p)
    case None =>
    case Some((name, next)) =>
      if !(cur == 0 || cur >= |fs.inodes| || fs.inodes[cur].typ != Dir) {
        NextLater(s, p);
        WalkFromIsWalk(fs, s, next, Child(fs, cur, name));
        WalkNowhere(fs, CutAll(Split(s[next..])));
        assert CutAll(Split(s[p..])) == [name] + CutAll(Split(s[p..])[1..]);
      }
  }

  lemma NextLater(s: CString, p: nat)
    requires p <= |s| && NextComponent(s, p).Some?
    ensures p < NextComponent(s, p).value.1 <= |s|
  {}

  /** Walking a string is walking its names, those too long for the buffer cut to 59 bytes. */
  lemma WalkStringIs(fs: Fs, s: CString)
    requires Readable(s)
    ensures WalkString(fs, s) == Walk(fs, ROOT, CutAll(Split(s)))
  {
    hide Child;
    if s == [SLASH] {
      assert s[1..] == [];
    }
    if s != [] && s != [SLASH] {
      WalkFromIsWalk(fs, s, 0, ROOT);
      assert s[0..] == s;
    }
  }

  // ---------- parent and leaf ----------

  /** The last position from `p` on that follows a slash and holds none, else `start`. */
  function LeafStart(s: CString, p: nat, start: nat): (r: nat)
    requires p <= |s| && start <= p
    ensures start <= r <= |s|
    decreases |s| - p
  {
    if p == |s| then start
    else if s[p] == SLASH && p + 1 < |s| && s[p + 1] != SLASH then LeafStart(s, p + 1, p + 1)
    else LeafStart(s, p + 1, start)
  }

  /** `s[..e]` without its trailing slashes, but not below `low`. */
  function TrimEnd(s: CString, low: nat, e: nat): (r: nat)
    requires low <= e <= |s|
    ensures low <= r <= e && (r > low ==> s[r - 1] != SLASH) && forall i :: r <= i < e ==> s[i] == SLASH
    decreases e
  {
    if e > low && s[e - 1] == SLASH then TrimEnd(s, low, e - 1) else e
  }

  datatype Place = Place(parent: CString, leaf: CString)

  /** The string part of `walk_parent`. */
  function SplitParent(s: CString): Option<Place> {
    var a := SkipSlashes(s, 0);
    if a == |s| then None
    else
      var at := LeafStart(s, a, a);
      var leaf := s[at..TrimEnd(s, at, |s|)];
      var parent := s[..TrimEnd(s, 0, at)];
      if leaf == [] || |leaf| >= NAME_MAX || !SlashFree(leaf) || |parent| >= PARENT_MAX then None
      else Some(Place(parent, leaf))
  }

  lemma TrimmedReadable(s: CString, e: nat)
    requires e <= |s|
    ensures Readable(s[..TrimEnd(s, 0, e)])
  {
    var r := TrimEnd(s, 0, e);
    if r > 0 {
      assert s[..r][r - 1] != SLASH;
    }
  }

  /** `walk_parent`: the parent directory and the last name. */
  function WalkParent(fs: Fs, s: CString): Option<(nat, CString)> {
    var place := SplitParent(s);
    if place.None? then None
    else
      ParentReadable(s);
      var d := WalkString(fs, place.value.parent);
      if d == 0 || d >= |fs.inodes| || fs.inodes[d].typ != Dir then None else Some((d, place.value.leaf))
  }

  lemma ParentReadable(s: CString)
    requires SplitParent(s).Some?
    ensures Readable(SplitParent(s).value.parent)
  {
    var a := SkipSlashes(s, 0);
    TrimmedReadable(s, LeafStart(s, a, a));
  }

  /** Slashes at the end name nothing. */
  lemma {:induction false} SplitTrims(s: CString, t: CString)
    requires OnlySlashes(t)
    ensures Split(s + t) == Split(s)
    decreases |s| + |t|
  {
    if s == [] {
      if t != [] {
        assert s + t == t;
        SplitTrims([], t[1..]);
        assert [] + t[1..] == t[1..];
      } else {
        assert s + t == s;
      }
    } else if s[0] == SLASH {
      assert (s + t)[1..] == s[1..] + t;
      SplitTrims(s[1..], t);
    } else {
      var b := SkipName(s, 0);
      SkipNameAppend(s, t, 0);
      assert (s + t)[..b] == s[..b] && (s + t)[b..] == s[b..] + t;
      SplitTrims(s[b..], t);
    }
  }

  lemma {:induction false} SkipNameAppend(s: CString, t: CString, k: nat)
    requires k <= |s| && (t == [] || t[0] == SLASH)
    ensures SkipName(s + t, k) == SkipName(s, k)
    decreases |s| - k
  {
    if k < |s| && s[k] != SLASH {
      assert (s + t)[k] == s[k];
      SkipNameAppend(s, t, k + 1);
    } else if k < |s| {
      assert (s + t)[k] == s[k];
    }
  }

  /** A name after a slash, or at the start, is one more name. */
  lemma {:induction false} SplitSnoc(s: CString, name: CString)
    requires name != [] && SlashFree(name) && (s == [] || s[|s| - 1] == SLASH)
    ensures Split(s + name) == Split(s) + [name]
    decreases |s|
  {
    if s == [] {
      assert s + name == name + [];
      SkipNameOf(name, [], 0);
      assert name[..|name|] == name && name[|name|..] == [];
    } else if s[0] == SLASH {
      assert (s + name)[1..] == s[1..] + name;
      SplitSnoc(s[1..], name);
    } else {
      var b := SkipName(s, 0);
      assert b < |s|;
      SkipNameInner(s, name, 0);
      assert (s + name)[..b] == s[..b] && (s + name)[b..] == s[b..] + name;
      SplitSnoc(s[b..], name);
    }
  }

  lemma {:induction false} SkipNameInner(s: CString, t: CString, k: nat)
    requires k <= |s| && SkipName(s, k) < |s|
    ensures SkipName(s + t, k) == SkipName(s, k)
    decreases |s| - k
  {
    assert (s + t)[k] == s[k];
    if s[k] != SLASH {
      SkipNameInner(s, t, k + 1);
    }
  }

  /** From the leaf's start on there is no name after a slash, and a slash stands before it. */
  lemma {:induction false} LeafStartIs(s: CString, p: nat, start: nat)
    requires start <= p <= |s| && start < |s| && s[start] != SLASH
    requires start == 0 || s[start - 1] == SLASH
    requires forall i :: start <= i < p && s[i] == SLASH ==> i + 1 >= |s| || s[i + 1] == SLASH
    ensures var r := LeafStart(s, p, start);
      && r < |s| && s[r] != SLASH && (r == 0 || s[r - 1] == SLASH)
      && forall i :: r <= i < |s| && s[i] == SLASH ==> i + 1 >= |s| || s[i + 1] == SLASH
    decreases |s| - p
  {
    if p < |s| {
      if s[p] == SLASH && p + 1 < |s| && s[p + 1] != SLASH {
        LeafStartIs(s, p + 1, p + 1);
      } else {
        LeafStartIs(s, p + 1, start);
      }
    }
  }

  /** Once a slash, slashes to the end. */
  lemma {:induction false} SlashTail(s: CString, at: nat, i: nat, e: nat)
    requires at <= i <= e < |s| && s[i] == SLASH
    requires forall k :: at <= k < |s| && s[k] == SLASH ==> k + 1 >= |s| || s[k + 1] == SLASH
    ensures s[e] == SLASH
    decreases e - i
  {
    if i < e {
      SlashTail(s, at, i, e - 1);
    }
  }

  /** The string falls apart at the leaf. */
  lemma LeafIs(s: CString, at: nat)
    requires at < |s| && s[at] != SLASH && (at == 0 || s[at - 1] == SLASH)
    requires forall i :: at <= i < |s| && s[i] == SLASH ==> i + 1 >= |s| || s[i + 1] == SLASH
    ensures var e, k := TrimEnd(s, at, |s|), TrimEnd(s, 0, at);
      s[at..e] != [] && SlashFree(s[at..e]) && Split(s) == Split(s[..k]) + [s[at..e]]
  {
    hide Split;
    var e, k := TrimEnd(s, at, |s|), TrimEnd(s, 0, at);
    assert e > at;
    forall i | at <= i < e
      ensures s[i] != SLASH
    {
      if s[i] == SLASH {
        SlashTail(s, at, i, e - 1);
      }
    }
    var leaf := s[at..e];
    assert SlashFree(leaf);
    assert s[..at] + leaf == s[..e];
    SplitSnoc(s[..at], leaf);
    assert s[..e] + s[e..] == s;
    SplitTrims(s[..e], s[e..]);
    assert s[..k] + s[k..at] == s[..at];
    SplitTrims(s[..k], s[k..at]);
  }

  /** The leaf is the last name and the parent string names the rest, in full. */
  lemma SplitParentIs(s: CString)
    ensures var path := Split(s);
      var at := var a := SkipSlashes(s, 0); if a == |s| then 0 else LeafStart(s, a, a);
      match SplitParent(s)
      case None => path == [] || |path[|path| - 1]| >= NAME_MAX || TrimEnd(s, 0, at) >= PARENT_MAX
      case Some(place) => Split(place.parent) + [place.leaf] == path && |place.leaf| < NAME_MAX && |place.parent| < PARENT_MAX
  {
    hide Split, SlashFree;
    var a := SkipSlashes(s, 0);
    if a == |s| {
      SplitSkips(s, 0);
      assert s[0..] == s && s[a..] == [];
      SplitEmpty();
    } else {
      LeafStartIs(s, a, a);
      LeafIs(s, LeafStart(s, a, a));
    }
  }

  lemma SplitEmpty()
    ensures Split([]) == []
  {}

  // ---------- calls by string ----------

  /** The path a string names, its names but the last cut to the buffer. */
  function PathOf(s: CString): Path {
    var path := Split(s);
    if path == [] then [] else CutAll(path[..|path| - 1]) + [path[|path| - 1]]
  }

  /** `osfs2_create` and `osfs2_mkdir`. */
  function CreateString(fs: Fs, s: CString, typ: Type): Done {
    match WalkParent(fs, s)
    case None => Done(fs, 0)
    case Some((d, leaf)) => Create(fs, d, leaf, typ)
  }

  /** `osfs2_unlink`. */
  function UnlinkString(fs: Fs, s: CString): Done {
    match WalkParent(fs, s)
    case None => Done(fs, -1)
    case Some((d, leaf)) => Unlink(fs, d, leaf)
  }

  /** `osfs2_rmdir`. */
  function RmdirString(fs: Fs, s: CString): Done {
    match WalkParent(fs, s)
    case None => Done(fs, -1)
    case Some((d, leaf)) => Rmdir(fs, d, leaf)
  }

  /** Each call by string is the call by the path the string names, or fails without effect because
      the last name or the part before it is too long. */
  lemma CallsByString(fs: Fs, s: CString, typ: Type)
    ensures if SplitParent(s).Some? then
              && CreateString(fs, s, typ) == CreateAt(fs, PathOf(s), typ)
              && UnlinkString(fs, s) == UnlinkAt(fs, PathOf(s))
              && RmdirString(fs, s) == RmdirAt(fs, PathOf(s))
            else
              CreateString(fs, s, typ) == Done(fs, 0) && UnlinkString(fs, s) == RmdirString(fs, s) == Done(fs, -1)
  {
    hide Split, SplitParent, Create, Unlink, Rmdir, Walk;
    SplitParentIs(s);
    if SplitParent(s).Some? {
      var place := SplitParent(s).value;
      var path := Split(s);
      ParentReadable(s);
      WalkStringIs(fs, place.parent);
      assert path[..|path| - 1] == Split(place.parent);
      assert PathOf(s)[..|path| - 1] == CutAll(Split(place.parent));
    }
  }

  /** No string leads into an entry whose name has a slash. */
  lemma {:induction false} CutComponents(path: Path, k: nat)
    requires Components(path) && k < |path|
    ensures CutAll(path)[k] == Cut(path[k]) && SlashFree(CutAll(path)[k])
    decreases |path|
  {
    if k > 0 {
      CutComponents(path[1..], k - 1);
    }
  }

  /** Names that fit are not cut. */
  lemma {:induction false} CutShort(path: Path)
    requires forall k :: 0 <= k < |path| ==> |path[k]| < NAME_MAX
    ensures CutAll(path) == path
    decreases |path|
  {
    if path != [] {
      CutShort(path[1..]);
    }
  }

  /** The string of a path with names that fit leads where the path leads. */
  lemma WalkJoined(fs: Fs, path: Path)
    requires Components(path) && forall k :: 0 <= k < |path| ==> |path[k]| < NAME_MAX
    ensures Readable(Join(path)) && WalkString(fs, Join(path)) == Walk(fs, ROOT, path)
  {
    hide Walk;
    SplitJoin(path);
    CutShort(path);
    if path != [] {
      assert Join(path)[1] == path[0][0] != SLASH;
    }
    WalkStringIs(fs, Join(path));
  }
}

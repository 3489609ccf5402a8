/** The full-copy fork, `address_space_clone` (kernel/arch/address_space.c), as the kernel has it:
    when it really copies what the parent sees, and that it is then what copy-on-write imitates. */
module EagerClone {
  import opened Paging
  import opened PagingInvariant
  import opened PagingLifecycle
  import opened ForkRefinement

  /** Page `v` is the space's own and copy-on-write. */
  predicate CowAt(pt: map<nat, Desc>, v: nat) {
    v in pt && pt[v].Map? && pt[v].owner.Space? && pt[v].cow
  }

  function ReadOnly(x: Entry): Entry {
    if x.Visible? then x.(writable := false) else x
  }

  /** The parent's view with its copy-on-write pages turned read-only. */
  function Copied(view: map<nat, Entry>, pt: map<nat, Desc>): map<nat, Entry> {
    map v | v in view :: if CowAt(pt, v) then ReadOnly(view[v]) else view[v]
  }

  // ---------- the walk ----------

  /** The child shows the part of `target` below page `k`. */
  ghost predicate ShownTo(e: map<nat, SpaceView>, target: map<nat, Entry>, dst: nat, k: nat) {
    && dst in e
    && (forall v :: v in e[dst].view <==> v in target && v < k)
    && (forall v :: v in e[dst].view && v in target ==> e[dst].view[v] == target[v])
  }

  /** What the walk leaves alone: everything but the child, down to the parent's entries. */
  ghost predicate CopyStep(m: Machine, n: Machine, src: nat, dst: nat) {
    && Inv(n) && n.spaces.Keys == m.spaces.Keys && n.next == m.next
    && src in m.spaces && dst in m.spaces
    && SameBut(Abs(m), Abs(n), dst)
    && dst in Abs(m) && dst in Abs(n) && Abs(n)[dst].users == Abs(m)[dst].users
    && (forall b :: b in m.spaces && b != dst ==> n.spaces[b] == m.spaces[b])
  }

  ghost predicate CleanChild(m: Machine, dst: nat, k: nat) {
    dst in m.spaces && forall v :: v in m.spaces[dst].pt ==> v < k && !CowAt(m.spaces[dst].pt, v)
  }

  function Target(m: Machine, src: nat): map<nat, Entry>
    requires src in m.spaces
  {
    AbsKeys(m);
    Copied(Abs(m)[src].view, m.spaces[src].pt)
  }

  lemma SameTarget(m: Machine, n: Machine, src: nat, dst: nat)
    requires CopyStep(m, n, src, dst) && src != dst
    ensures Target(n, src) == Target(m, src)
  {
    hide Abs, Inv;
    AbsKeys(m);
  }

  lemma CopyTrans(m: Machine, n: Machine, p: Machine, src: nat, dst: nat)
    requires CopyStep(m, n, src, dst) && CopyStep(n, p, src, dst)
    ensures CopyStep(m, p, src, dst)
  {
    hide Abs, Inv;
  }

  lemma CopyNothing(m: Machine, src: nat, dst: nat)
    requires Inv(m) && src in m.spaces && dst in m.spaces
    ensures CopyStep(m, m, src, dst)
  {
    AbsKeys(m);
  }

  lemma TargetAt(m: Machine, src: nat, v: nat)
    requires Base(m) && src in m.spaces
    ensures v in Target(m, src) <==> v in m.spaces[src].pt && Private(m.spaces[src].pt[v])
    ensures v in Target(m, src) ==>
      var d := m.spaces[src].pt[v];
      Target(m, src)[v] == if d.Guard? then NoAccess else Visible(Frame(m, d.frame), d.rw, d.exec)
  {
    hide Abs, View, Base;
    AbsKeys(m);
    ViewHas(m, src, v);
    if v in m.spaces[src].pt && Private(m.spaces[src].pt[v]) {
      SeenThere(m, src, v);
      if m.spaces[src].pt[v].Map? {
        RwNotCow(m, src, v);
      }
    }
  }

  /** One entry: the child shows the target there, or frames have run out and nothing shows. */
  lemma CopyEntryKeeps(m: Machine, src: nat, dst: nat, v: nat)
    requires Inv(m) && src in m.spaces && dst in m.spaces && src != dst
    requires v < PER_TABLE * PER_TABLE && CleanChild(m, dst, v)
    ensures var (n, ok) := CopyEntry(m, src, dst, v);
      && CopyStep(m, n, src, dst)
      && (ok ==> CleanChild(n, dst, v + 1))
      && dst in Abs(m)
      && Abs(n) == if ok && v in Target(m, src) then With(Abs(m), dst, v, Target(m, src)[v]) else Abs(m)
  {
    hide CountOk, Holders, View, Base, Abs, Target, Unused;
    AbsKeys(m);
    InvBase(m);
    TargetAt(m, src, v);
    var pt := m.spaces[src].pt;
    if v in pt && Private(pt[v]) {
      WithIsLocal(Abs(m), dst, v, Target(m, src)[v]);
      AbsKeys(CopyEntry(m, src, dst, v).0);
      if pt[v].Guard? {
        NeedTableKeeps(m, dst, v);
        InstallGuardKeeps(m, dst, v);
      } else {
        CopyPageKeeps(m, src, dst, v);
      }
    }
  }

  lemma InvBase(m: Machine)
    requires Inv(m)
    ensures Base(m)
  {}

  lemma CopyPageKeeps(m: Machine, src: nat, dst: nat, v: nat)
    requires Inv(m) && src in m.spaces && dst in m.spaces && src != dst
    requires v < PER_TABLE * PER_TABLE && v !in m.spaces[dst].pt
    requires v in m.spaces[src].pt && m.spaces[src].pt[v].Map? && m.spaces[src].pt[v].owner.Space?
    ensures var ((n, ok), d) := (CopyEntry(m, src, dst, v), m.spaces[src].pt[v]);
      && Inv(n) && n.next == m.next && dst in Abs(m)
      && Abs(n) == (if ok then With(Abs(m), dst, v, Visible(Frame(m, d.frame), d.rw, d.exec)) else Abs(m))
      && (forall b :: b in m.spaces && b != dst ==> n.spaces[b] == m.spaces[b])
      && (ok ==> exists f :: n.spaces[dst].pt == m.spaces[dst].pt[v := Map(f, d.rw, false, d.exec, Space)])
  {
    hide CountOk, Holders, View, Base, Abs, Unused;
    AbsKeys(m);
    AllocKeeps(m);
    var d := m.spaces[src].pt[v];
    var (m1, f) := Alloc(m);
    if f != 0 {
      assert Maps(m, src, v, d.frame);
      MappedIsOther(m, src, v, d.frame);
      PutUnused(m1, f, Frame(m1, d.frame));
      var m2 := PutFrame(m1, f, Frame(m1, d.frame));
      NeedTableKeeps(m2, dst, v);
      var (m3, ok) := NeedTable(m2, dst, v);
      if ok {
        SetFreshKeeps(m3, dst, v, Map(f, d.rw, false, d.exec, Space));
      } else {
        ReleaseKeeps(m3, f);
      }
    }
  }

  lemma MappedIsOther(m: Machine, a: nat, v: nat, f: nat)
    requires Inv(m) && Maps(m, a, v, f)
    ensures f !in m.free && (m.free != [] ==> m.free[0] != f)
  {}

  lemma ShowOne(e: map<nat, SpaceView>, target: map<nat, Entry>, dst: nat, v: nat)
    requires ShownTo(e, target, dst, v)
    ensures ShownTo(if v in target then With(e, dst, v, target[v]) else e, target, dst, v + 1)
  {}

  lemma {:induction false} CopyTableKeeps(m: Machine, src: nat, dst: nat, i: nat, j: nat)
    requires Inv(m) && src in m.spaces && dst in m.spaces && src != dst
    requires i < PER_TABLE && j <= PER_TABLE && CleanChild(m, dst, PER_TABLE * i + j)
    requires ShownTo(Abs(m), Target(m, src), dst, PER_TABLE * i + j)
    ensures var (n, ok) := CopyTable(m, src, dst, i, j);
      && CopyStep(m, n, src, dst)
      && (ok ==> CleanChild(n, dst, PER_TABLE * i + PER_TABLE)
                 && ShownTo(Abs(n), Target(m, src), dst, PER_TABLE * i + PER_TABLE))
    decreases PER_TABLE - j
  {
    hide Inv, Abs, CopyEntry, ShownTo, CleanChild, Target;
    if j == PER_TABLE {
      CopyNothing(m, src, dst);
    } else {
      var v := PER_TABLE * i + j;
      PageInRange(i, j);
      CopyEntryKeeps(m, src, dst, v);
      var (n, ok) := CopyEntry(m, src, dst, v);
      if ok {
        ShowOne(Abs(m), Target(m, src), dst, v);
        SameTarget(m, n, src, dst);
        CopyTableKeeps(n, src, dst, i, j + 1);
        CopyTrans(m, n, CopyTable(n, src, dst, i, j + 1).0, src, dst);
      }
    }
  }

  /** A table the parent does not have holds nothing to copy. */
  lemma SkipCopy(m: Machine, src: nat, dst: nat, i: nat)
    requires Inv(m) && src in m.spaces && dst in m.spaces && L3(i) !in m.spaces[src].tables
    requires ShownTo(Abs(m), Target(m, src), dst, PER_TABLE * i) && CleanChild(m, dst, PER_TABLE * i)
    ensures ShownTo(Abs(m), Target(m, src), dst, PER_TABLE * (i + 1)) && CleanChild(m, dst, PER_TABLE * (i + 1))
  {
    InvBase(m);
    hide Abs, View, Inv, Target, Base;
    forall v: nat | PER_TABLE * i <= v < PER_TABLE * (i + 1)
      ensures v !in Target(m, src)
    {
      TableRange(v, i);
      TargetAt(m, src, v);
      if v in m.spaces[src].pt {
        EntryPlace(m, src, v);
      }
    }
  }

  lemma {:induction false} CopyTablesKeeps(m: Machine, src: nat, dst: nat, i: nat)
    requires Inv(m) && src in m.spaces && dst in m.spaces && src != dst
    requires i <= PER_TABLE && CleanChild(m, dst, PER_TABLE * i)
    requires ShownTo(Abs(m), Target(m, src), dst, PER_TABLE * i)
    ensures var (n, ok) := CopyTables(m, src, dst, i);
      && CopyStep(m, n, src, dst)
      && (ok ==> CleanChild(n, dst, PER_TABLE * PER_TABLE)
                 && ShownTo(Abs(n), Target(m, src), dst, PER_TABLE * PER_TABLE))
    decreases PER_TABLE - i
  {
    hide Inv, Abs, CopyTable, ShownTo, CleanChild, Target;
    if i == PER_TABLE {
      CopyNothing(m, src, dst);
    } else if L3(i) !in m.spaces[src].tables {
      SkipCopy(m, src, dst, i);
      CopyTablesKeeps(m, src, dst, i + 1);
    } else {
      CopyTableKeeps(m, src, dst, i, 0);
      var (n, ok) := CopyTable(m, src, dst, i, 0);
      if ok {
        SameTarget(m, n, src, dst);
        CopyTablesKeeps(n, src, dst, i + 1);
        CopyTrans(m, n, CopyTables(n, src, dst, i + 1).0, src, dst);
      }
    }
  }

  lemma ShownAll(m: Machine, src: nat, dst: nat, e: map<nat, SpaceView>)
    requires Inv(m) && src in m.spaces
    requires ShownTo(e, Target(m, src), dst, PER_TABLE * PER_TABLE)
    ensures e[dst].view == Target(m, src)
  {
    InvBase(m);
    hide Abs, View, Inv, Target, Base;
    forall v | v in Target(m, src)
      ensures v < PER_TABLE * PER_TABLE
    {
      TargetAt(m, src, v);
      EntryPlace(m, src, v);
    }
  }

  // ---------- the whole call ----------

  /** The child of a full copy sees the parent's view with copy-on-write pages turned read-only; a
      copy that fails part-way changes nothing for anybody. No other space's entries change. */
  lemma CloneKeeps(m: Machine, src: nat, heapOk: bool)
    requires Inv(m) && src in m.spaces
    ensures var (n, dst) := Clone(m, src, heapOk);
      && Inv(n) && src in Abs(m)
      && (dst != 0 ==> dst !in m.spaces && CleanChild(n, dst, PER_TABLE * PER_TABLE))
      && (forall b :: b in n.spaces && (dst == 0 || b != dst) ==> b in m.spaces && n.spaces[b].pt == m.spaces[b].pt)
      && Abs(n) == if dst != 0 then Abs(m)[dst := SpaceView(Target(m, src), 1)] else Abs(m)
  {
    hide CountOk, Holders, View, Base, Abs, Target, CleanChild, CopyTables, Inv, Create, Destroy;
    AbsKeys(m);
    CreateKeeps(m, heapOk);
    NextPositive(m);
    CreateSpaces(m, heapOk);
    var (m1, dst) := Create(m, heapOk);
    if dst != 0 {
      NewTarget(m, m1, src, dst);
      CopyTablesKeeps(m1, src, dst, 0);
      var (m2, ok) := CopyTables(m1, src, dst, 0);
      AbsKeys(m2);
      if ok {
        ShownAll(m1, src, dst, Abs(m2));
        PutBrkKeeps(m2, dst, m2.spaces[src].brk);
        CleanBrk(m2, dst, m2.spaces[src].brk, PER_TABLE * PER_TABLE);
        AddedAbs(Abs(m), Abs(m2), Target(m, src), dst);
      } else {
        UsersOf(m2, dst);
        DestroyKeeps(m2, dst);
        DestroyOthers(m2, dst);
        UndoAbs(Abs(m), Abs(m2), dst);
      }
    }
  }

  lemma CreateSpaces(m: Machine, heapOk: bool)
    requires m.next > 0
    ensures var (n, a) := Create(m, heapOk); a == 0 ==> n.spaces == m.spaces
  {}

  lemma NewTarget(m: Machine, m1: Machine, src: nat, dst: nat)
    requires src in m.spaces && dst !in m.spaces && m1.spaces.Keys == m.spaces.Keys + {dst}
    requires m1.spaces[src] == m.spaces[src] && m1.spaces[dst].pt == map[]
    requires Abs(m1) == Abs(m)[dst := SpaceView(map[], 1)]
    ensures Target(m1, src) == Target(m, src)
    ensures ShownTo(Abs(m1), Target(m1, src), dst, 0) && CleanChild(m1, dst, 0)
  {
    AbsKeys(m);
    hide Abs, Copied;
  }

  lemma CleanBrk(m: Machine, dst: nat, brk: nat, k: nat)
    requires CleanChild(m, dst, k)
    ensures CleanChild(PutBrk(m, dst, brk), dst, k)
    ensures forall b :: b in m.spaces ==> PutBrk(m, dst, brk).spaces[b].pt == m.spaces[b].pt
  {}

  lemma AddedAbs(e: map<nat, SpaceView>, e2: map<nat, SpaceView>, view: map<nat, Entry>, dst: nat)
    requires dst !in e && SameBut(e[dst := SpaceView(map[], 1)], e2, dst)
    requires e2[dst].view == view && e2[dst].users == 1
    ensures e2 == e[dst := SpaceView(view, 1)]
  {
    assert e2[dst] == SpaceView(view, 1);
  }

  /** Destroying a space leaves every other space's entries. */
  lemma DestroyOthers(m: Machine, a: nat)
    requires Inv(m) && a in m.spaces
    ensures forall b :: b in Destroy(m, a).spaces && b != a ==> b in m.spaces && Destroy(m, a).spaces[b].pt == m.spaces[b].pt
    ensures m.spaces[a].users <= 1 ==> a !in Destroy(m, a).spaces
    ensures m.spaces[a].users > 1 ==> Destroy(m, a).spaces[a].pt == m.spaces[a].pt
  {
    hide Inv, Abs, Teardown;
    if m.spaces[a].users <= 1 {
      TeardownKeeps(m, a, 0);
    }
  }

  /** The copy is exact if and only if nothing in the source is copy-on-write. */
  lemma CloneIsExact(m: Machine, src: nat, heapOk: bool)
    requires Inv(m) && src in m.spaces && Clone(m, src, heapOk).1 != 0
    ensures var (n, dst) := Clone(m, src, heapOk);
      && dst in Abs(n) && src in Abs(m)
      && (Abs(n)[dst].view == Abs(m)[src].view <==> forall v :: !CowAt(m.spaces[src].pt, v))
  {
    hide CountOk, Holders, View, Base, Abs, Target, Clone, CleanChild;
    CloneKeeps(m, src, heapOk);
    InvBase(m);
    var view := Abs(m)[src].view;
    AbsKeys(m);
    if v :| CowAt(m.spaces[src].pt, v) {
      TargetAt(m, src, v);
      SeenThere(m, src, v);
      RwNotCow(m, src, v);
      assert Target(m, src)[v] != view[v];
    } else {
      SameWithoutCow(m, src);
    }
  }

  /** What goes wrong otherwise: a copy-on-write page, which the parent may write, is one that the
      child of a full copy may not. */
  lemma CopiedReadOnly(m: Machine, src: nat, v: nat, heapOk: bool)
    requires Inv(m) && src in m.spaces && CowAt(m.spaces[src].pt, v) && Clone(m, src, heapOk).1 != 0
    ensures var (n, dst) := Clone(m, src, heapOk);
      dst in Abs(n) && CanWrite(Abs(m), src, v) && v in Abs(n)[dst].view && !CanWrite(Abs(n), dst, v)
  {
    hide CountOk, Holders, View, Base, Abs, Target, Clone, CleanChild;
    CloneKeeps(m, src, heapOk);
    InvBase(m);
    AbsKeys(m);
    TargetAt(m, src, v);
    SeenThere(m, src, v);
    RwNotCow(m, src, v);
  }

  lemma SameWithoutCow(m: Machine, src: nat)
    requires src in m.spaces && forall v :: !CowAt(m.spaces[src].pt, v)
    ensures src in Abs(m) && Target(m, src) == Abs(m)[src].view
  {
    AbsKeys(m);
    hide Abs;
  }

  // ---------- runs with full copies ----------

  ghost predicate NoCow(m: Machine) {
    forall a, v :: a in m.spaces ==> !CowAt(m.spaces[a].pt, v)
  }

  /** The kernel with `address_space_clone` for every fork. */
  function ExecFull(m: Machine, op: Op): (Machine, nat)
    requires Allowed(m, op)
  {
    if op.Fork? then Clone(m, op.src, op.heapOk) else Exec(m, op)
  }

  predicate AllowedFull(m: Machine, ops: seq<Op>)
    decreases |ops|
  {
    ops == [] || (Allowed(m, ops[0]) && AllowedFull(ExecFull(m, ops[0]).0, ops[1..]))
  }

  function ExecAllFull(m: Machine, ops: seq<Op>): (r: (Machine, seq<nat>))
    requires AllowedFull(m, ops)
    ensures |r.1| == |ops|
    decreases |ops|
  {
    if ops == [] then (m, [])
    else
      var (n, r) := ExecFull(m, ops[0]);
      var (p, rs) := ExecAllFull(n, ops[1..]);
      (p, [r] + rs)
  }

  lemma NoCowFrom(m: Machine, n: Machine)
    requires NoCow(m)
    requires forall a, v :: a in n.spaces && CowAt(n.spaces[a].pt, v) ==>
      a in m.spaces && v in m.spaces[a].pt && n.spaces[a].pt[v] == m.spaces[a].pt[v]
    ensures NoCow(n)
  {
    forall a, v | a in n.spaces
      ensures !CowAt(n.spaces[a].pt, v)
    {
      assert a in m.spaces ==> !CowAt(m.spaces[a].pt, v);
    }
  }

  lemma FullKeepsNoCow(m: Machine, op: Op)
    requires Inv(m) && NoCow(m) && Allowed(m, op)
    ensures NoCow(ExecFull(m, op).0)
  {
    hide Inv, Abs, Target, Clone, Destroy, CountOk, NoCow, Store, MakeWritable, Create, Unmap, MapFresh, MapForeign, InstallGuard;
    var n := ExecFull(m, op).0;
    match op
    case Fork(src, heapOk) =>
      CloneKeeps(m, src, heapOk);
      NoCowFrom(m, n);
    case NewSpace(heapOk) =>
      NextPositive(m);
      CreateSpaces(m, heapOk);
      CreateKeeps(m, heapOk);
      NoCowFrom(m, n);
    case Leave(a) =>
      DestroyOthers(m, a);
      NoCowFrom(m, n);
    case StoreWord(a, v, w, x) =>
      NoCowStore(m, a, v, w, x);
      NoCowFrom(m, n);
    case Touch(a, v) => NoCowAt(m, a, v);
    case DropPage(a, v) => NoCowUnmap(m, a, v);
    case AddPage(a, v, rw, exec) => NoCowMapped(m, op);
    case AddForeign(a, v, f, owner) => NoCowMapped(m, op);
    case AddGuard(a, v) => NoCowMapped(m, op);
    case MoveBreak(a, brk) => NoCowFrom(m, n);
    case AddThread(a) => NoCowFrom(m, n);
  }

  lemma NoCowUnmap(m: Machine, a: nat, v: nat)
    requires Inv(m) && NoCow(m) && a in m.spaces
    ensures NoCow(Unmap(m, a, v))
  {
    hide Inv, Abs, NoCow, Drop;
    DropKeeps(m, a, v);
    NoCowFrom(m, Unmap(m, a, v));
  }

  lemma NoCowMapped(m: Machine, op: Op)
    requires NoCow(m) && Allowed(m, op) && (op.AddPage? || op.AddForeign? || op.AddGuard?)
    ensures NoCow(Exec(m, op).0)
  {
    hide NoCow, NeedTable, Alloc, Release;
    NoCowFrom(m, Exec(m, op).0);
  }

  lemma NextPositive(m: Machine)
    requires Inv(m)
    ensures m.next > 0
  {}

  lemma NoCowStore(m: Machine, a: nat, v: nat, w: nat, x: nat)
    requires NoCow(m) && a in m.spaces && w < WORDS && (v in m.spaces[a].pt ==> Private(m.spaces[a].pt[v]))
    ensures Store(m, a, v, w, x).0.spaces == m.spaces
  {
    hide MakeWritable;
    NoCowAt(m, a, v);
  }

  lemma NoCowAt(m: Machine, a: nat, v: nat)
    requires NoCow(m) && a in m.spaces && (v in m.spaces[a].pt ==> Private(m.spaces[a].pt[v]))
    ensures MakeWritable(m, a, v).0 == m
  {
    assert !CowAt(m.spaces[a].pt, v);
  }

  lemma FullRefines(m: Machine, op: Op)
    requires Inv(m) && NoCow(m) && Allowed(m, op)
    ensures var (n, r) := ExecFull(m, op);
      Inv(n) && NoCow(n) && Abs(n) == EagerExec(Abs(m), op, r)
  {
    hide Inv, Abs, Target, Clone, Exec, NoCow;
    FullKeepsNoCow(m, op);
    if op.Fork? {
      CloneKeeps(m, op.src, op.heapOk);
      NoCowIn(m, op.src);
      SameWithoutCow(m, op.src);
    } else {
      ExecRefines(m, op);
    }
  }

  lemma NoCowIn(m: Machine, a: nat)
    requires NoCow(m) && a in m.spaces
    ensures forall v :: !CowAt(m.spaces[a].pt, v)
  {}

  /** From a state without copy-on-write pages, every run with full copies goes exactly as the
      abstract machine says: none of its forks ever meets a copy-on-write page. */
  lemma {:induction false} FullRunIsEager(m: Machine, ops: seq<Op>)
    requires Inv(m) && NoCow(m) && AllowedFull(m, ops)
    ensures var (n, rs) := ExecAllFull(m, ops);
      Inv(n) && NoCow(n) && Abs(n) == EagerAll(Abs(m), ops, rs)
    decreases |ops|
  {
    hide Inv, Abs, ExecFull, EagerExec, Allowed, NoCow;
    if ops != [] {
      FullRefines(m, ops[0]);
      var n := ExecFull(m, ops[0]).0;
      FullRunIsEager(n, ops[1..]);
      assert ExecAllFull(m, ops).1[1..] == ExecAllFull(n, ops[1..]).1;
    }
  }

  /** The kernel with copy-on-write forks beside the kernel whose forks are all
      `address_space_clone`: started alike and reporting the same results, after any run every
      space sees the same in both. */
  lemma CopyOnWriteIsFullCopy(m: Machine, full: Machine, ops: seq<Op>)
    requires Inv(m) && AllowedRun(m, ops)
    requires Inv(full) && NoCow(full) && AllowedFull(full, ops)
    requires Abs(m) == Abs(full) && ExecAll(m, ops).1 == ExecAllFull(full, ops).1
    ensures Abs(ExecAll(m, ops).0) == Abs(ExecAllFull(full, ops).0)
  {
    hide Inv, Abs, ExecAll, ExecAllFull, AllowedRun, AllowedFull, NoCow, EagerAll;
    CopyOnWriteIsInvisible(m, ops);
    FullRunIsEager(full, ops);
  }
}

/** Copy-on-write fork is invisible: every run of the machine looks, space by space, like a run of
    a machine in which every fork copies every page at once. */
module ForkRefinement {
  import opened Paging
  import opened PagingInvariant
  import opened PagingLifecycle

  // ---------- the clone walk ----------

  /** Below page `k` the child shows exactly what the parent shows; from `k` on, nothing yet. */
  ghost predicate CopiedTo(e: map<nat, SpaceView>, src: nat, dst: nat, k: nat) {
    && src in e && dst in e
    && (forall v :: v in e[dst].view ==> v < k)
    && (forall v :: 0 <= v < k ==> (v in e[dst].view <==> v in e[src].view))
    && (forall v :: 0 <= v < k && v in e[dst].view ==> e[dst].view[v] == e[src].view[v])
  }

  /** What a step of the walk keeps besides the copy itself. */
  ghost predicate WalkStep(m: Machine, n: Machine, src: nat, dst: nat) {
    && Inv(n) && n.spaces.Keys == m.spaces.Keys && n.next == m.next
    && src in m.spaces && dst in m.spaces
    && SameBut(Abs(m), Abs(n), dst)
    && dst in Abs(m) && dst in Abs(n) && Abs(n)[dst].users == Abs(m)[dst].users
    && n.spaces[src].tables == m.spaces[src].tables
    && n.spaces[src].pt.Keys == m.spaces[src].pt.Keys
  }

  lemma WalkTrans(m: Machine, n: Machine, p: Machine, src: nat, dst: nat)
    requires WalkStep(m, n, src, dst) && WalkStep(n, p, src, dst)
    ensures WalkStep(m, p, src, dst)
  {
    hide Abs, Inv;
  }

  /** One entry: the child's view at `v` becomes the parent's, or frames have run out and nothing
      has changed. */
  lemma CloneEntryKeeps(m: Machine, src: nat, dst: nat, v: nat)
    requires Inv(m) && src in m.spaces && dst in m.spaces && src != dst && |m.spaces| < RC_LIMIT
    requires v < PER_TABLE * PER_TABLE && v !in m.spaces[dst].pt
    ensures var (n, ok) := CloneEntry(m, src, dst, v);
      && WalkStep(m, n, src, dst)
      && (!ok ==> n == m && m.free == [])
      && (ok ==> n.spaces[dst].pt.Keys <= m.spaces[dst].pt.Keys + {v})
      && src in Abs(m) && dst in Abs(m)
      && (ok ==> Abs(n) == if v in Abs(m)[src].view then With(Abs(m), dst, v, Abs(m)[src].view[v]) else Abs(m))
  {
    hide CountOk, Holders, View, Base, Abs;
    var pt := m.spaces[src].pt;
    AbsKeys(m);
    ViewHas(m, src, v);
    if v in pt && Private(pt[v]) {
      NeedTableKeeps(m, dst, v);
      var (n, ok) := NeedTable(m, dst, v);
      SeenThere(m, src, v);
      if ok {
        if pt[v].Guard? {
          SetForeignKeeps(n, dst, v, Guard);
        } else {
          ShareOneKeeps(n, src, dst, v);
        }
        WithIsLocal(Abs(m), dst, v, Abs(m)[src].view[v]);
        AbsKeys(CloneEntry(m, src, dst, v).0);
      }
    }
  }

  lemma ViewHas(m: Machine, a: nat, v: nat)
    requires a in m.spaces
    ensures a in Abs(m)
    ensures v in Abs(m)[a].view <==> v in m.spaces[a].pt && Private(m.spaces[a].pt[v])
  {}

  lemma WithIsLocal(e: map<nat, SpaceView>, a: nat, v: nat, x: Entry)
    requires a in e
    ensures SameBut(e, With(e, a, v, x), a) && With(e, a, v, x)[a].users == e[a].users
  {}

  lemma CopyOne(e: map<nat, SpaceView>, src: nat, dst: nat, v: nat)
    requires src != dst && CopiedTo(e, src, dst, v)
    ensures CopiedTo(if v in e[src].view then With(e, dst, v, e[src].view[v]) else e, src, dst, v + 1)
  {}

  /** The rest of one table. */
  lemma {:induction false} CloneTableKeeps(m: Machine, src: nat, dst: nat, i: nat, j: nat)
    requires Inv(m) && src in m.spaces && dst in m.spaces && src != dst && |m.spaces| < RC_LIMIT
    requires i < PER_TABLE && j <= PER_TABLE
    requires forall v :: v in m.spaces[dst].pt ==> v < PER_TABLE * i + j
    requires CopiedTo(Abs(m), src, dst, PER_TABLE * i + j)
    ensures var (n, ok) := CloneTable(m, src, dst, i, j);
      && WalkStep(m, n, src, dst)
      && (ok ==> (forall v :: v in n.spaces[dst].pt ==> v < PER_TABLE * i + PER_TABLE)
                 && CopiedTo(Abs(n), src, dst, PER_TABLE * i + PER_TABLE))
    decreases PER_TABLE - j
  {
    hide Inv, Abs, CloneEntry, CopiedTo;
    if j == PER_TABLE {
      StandStill(m, src, dst);
    } else {
      var v := PER_TABLE * i + j;
      PageInRange(i, j);
      CloneEntryKeeps(m, src, dst, v);
      var (n, ok) := CloneEntry(m, src, dst, v);
      if ok {
        CopyOne(Abs(m), src, dst, v);
        SameCount(m, n);
        CloneTableKeeps(n, src, dst, i, j + 1);
        WalkTrans(m, n, CloneTable(n, src, dst, i, j + 1).0, src, dst);
      }
    }
  }

  lemma PageInRange(i: nat, j: nat)
    requires i < PER_TABLE && j < PER_TABLE
    ensures PER_TABLE * i + j < PER_TABLE * PER_TABLE
  {}

  lemma StandStill(m: Machine, src: nat, dst: nat)
    requires Inv(m) && src in m.spaces && dst in m.spaces
    ensures WalkStep(m, m, src, dst)
  {
    AbsKeys(m);
  }

  lemma SameCount(m: Machine, n: Machine)
    requires n.spaces.Keys == m.spaces.Keys
    ensures |n.spaces| == |m.spaces|
  {
    SameKeysCard(m, n);
  }

  /** A table the parent does not have holds nothing to copy. */
  lemma SkipTable(m: Machine, src: nat, dst: nat, i: nat)
    requires Inv(m) && src in m.spaces && dst in m.spaces && L3(i) !in m.spaces[src].tables
    requires CopiedTo(Abs(m), src, dst, PER_TABLE * i)
    ensures CopiedTo(Abs(m), src, dst, PER_TABLE * (i + 1))
  {
    hide Abs, View;
    forall v: nat | PER_TABLE * i <= v < PER_TABLE * (i + 1)
      ensures v !in Abs(m)[src].view
    {
      TableRange(v, i);
      ViewHas(m, src, v);
      if v in m.spaces[src].pt {
        EntryPlace(m, src, v);
      }
    }
  }

  lemma {:induction false} CloneTablesKeeps(m: Machine, src: nat, dst: nat, i: nat)
    requires Inv(m) && src in m.spaces && dst in m.spaces && src != dst && |m.spaces| < RC_LIMIT
    requires i <= PER_TABLE
    requires forall v :: v in m.spaces[dst].pt ==> v < PER_TABLE * i
    requires CopiedTo(Abs(m), src, dst, PER_TABLE * i)
    ensures var (n, ok) := CloneTables(m, src, dst, i);
      && WalkStep(m, n, src, dst)
      && (ok ==> CopiedTo(Abs(n), src, dst, PER_TABLE * PER_TABLE))
    decreases PER_TABLE - i
  {
    hide Inv, Abs, CloneTable, CopiedTo;
    if i == PER_TABLE {
      StandStill(m, src, dst);
    } else if L3(i) !in m.spaces[src].tables {
      SkipTable(m, src, dst, i);
      CloneTablesKeeps(m, src, dst, i + 1);
    } else {
      CloneTableKeeps(m, src, dst, i, 0);
      var (n, ok) := CloneTable(m, src, dst, i, 0);
      if ok {
        SameCount(m, n);
        CloneTablesKeeps(n, src, dst, i + 1);
        WalkTrans(m, n, CloneTables(n, src, dst, i + 1).0, src, dst);
      }
    }
  }

  lemma CopiedAll(m: Machine, src: nat, dst: nat)
    requires Inv(m) && src in m.spaces && dst in m.spaces
    requires CopiedTo(Abs(m), src, dst, PER_TABLE * PER_TABLE)
    ensures Abs(m)[dst].view == Abs(m)[src].view
  {
    hide Abs, View;
    forall v | v in Abs(m)[src].view
      ensures v < PER_TABLE * PER_TABLE
    {
      ViewHas(m, src, v);
      EntryPlace(m, src, v);
    }
  }

  /** Fork gives the child an exact copy of what the parent sees, with one user, and changes
      nobody's view, the parent's included; a fork that fails part-way changes no view at all. */
  lemma CloneCowKeeps(m: Machine, src: nat, heapOk: bool)
    requires Inv(m) && src in m.spaces && |m.spaces| + 1 < RC_LIMIT
    ensures var (n, dst) := CloneCow(m, src, heapOk);
      && Inv(n) && src in Abs(m)
      && (dst != 0 ==> dst !in Abs(m))
      && Abs(n) == if dst != 0 then Abs(m)[dst := SpaceView(Abs(m)[src].view, 1)] else Abs(m)
  {
    hide CountOk, Holders, View, Base, Abs;
    AbsKeys(m);
    CreateKeeps(m, heapOk);
    var (m1, dst) := Create(m, heapOk);
    if dst != 0 {
      OneMoreKey(m, m1, dst);
      StartCopy(m, m1, src, dst);
      CloneTablesKeeps(m1, src, dst, 0);
      var (m2, ok) := CloneTables(m1, src, dst, 0);
      AbsKeys(m2);
      if ok {
        CopiedAll(m2, src, dst);
        PutBrkKeeps(m2, dst, m2.spaces[src].brk);
        ForkAbs(Abs(m), Abs(m2), src, dst);
      } else {
        UsersOf(m2, dst);
        DestroyKeeps(m2, dst);
        UndoAbs(Abs(m), Abs(m2), dst);
      }
    }
  }

  lemma UsersOf(m: Machine, a: nat)
    requires a in m.spaces
    ensures a in Abs(m) && Abs(m)[a].users == m.spaces[a].users
  {}

  lemma OneMoreKey(m: Machine, n: Machine, a: nat)
    requires a !in m.spaces && n.spaces.Keys == m.spaces.Keys + {a}
    ensures |n.spaces| == |m.spaces| + 1
  {
    assert |m.spaces| == |m.spaces.Keys| && |n.spaces| == |n.spaces.Keys|;
  }

  lemma StartCopy(m: Machine, n: Machine, src: nat, dst: nat)
    requires src in m.spaces && dst !in m.spaces && src in Abs(m)
    requires Abs(n) == Abs(m)[dst := SpaceView(map[], 1)]
    ensures CopiedTo(Abs(n), src, dst, 0)
  {}

  lemma PutBrkKeeps(m: Machine, a: nat, brk: nat)
    requires Inv(m) && a in m.spaces
    ensures Inv(PutBrk(m, a, brk)) && Abs(PutBrk(m, a, brk)) == Abs(m)
  {
    hide CountOk, Holders, View, Base, Abs;
    var n := PutBrk(m, a, brk);
    InvUsers(m);
    assert AllUsed(m);
    SameMapsKeeps(m, n);
    TablesOnly(m, n);
  }

  lemma ForkAbs(e: map<nat, SpaceView>, e2: map<nat, SpaceView>, src: nat, dst: nat)
    requires src in e && dst !in e && SameBut(e[dst := SpaceView(map[], 1)], e2, dst)
    requires e2[dst].view == e2[src].view && e2[dst].users == 1
    ensures e2 == e[dst := SpaceView(e[src].view, 1)]
  {
    assert e2[src] == e[src];
    assert e2[dst] == SpaceView(e[src].view, 1);
  }

  lemma UndoAbs(e: map<nat, SpaceView>, e2: map<nat, SpaceView>, dst: nat)
    requires dst !in e && SameBut(e[dst := SpaceView(map[], 1)], e2, dst)
    ensures e2 - {dst} == e
  {}

  // ---------- runs ----------

  /** What can happen to the machine, in any order. */
  datatype Op =
    | NewSpace(heapOk: bool)                                        // address_space_create
    | Fork(src: nat, heapOk: bool)                                  // address_space_clone_cow
    | StoreWord(a: nat, v: nat, w: nat, x: nat)                     // a user store, with its fault
    | Touch(a: nat, v: nat)                                         // a write fault or make_writable alone
    | AddPage(a: nat, v: nat, rw: bool, exec: bool)                 // brk growth, anonymous mmap fault
    | DropPage(a: nat, v: nat)                                      // brk shrinkage, munmap
    | AddForeign(a: nat, v: nat, f: nat, owner: Owner)              // page-cache or window page
    | AddGuard(a: nat, v: nat)                                      // address_space_install_guard
    | MoveBreak(a: nat, brk: nat)                                   // the last step of set_brk
    | AddThread(a: nat)                                             // address_space_share
    | Leave(a: nat)                                                 // address_space_destroy

  /** The callers' obligations: spaces exist, pages are user pages, pages and guards go to
      entries that may be written over and foreign pages to empty ones, stores and faults hit private pages, and fewer than 65536 spaces exist. */
  predicate Allowed(m: Machine, op: Op) {
    match op
    case NewSpace(heapOk) => true
    case Fork(src, heapOk) => src in m.spaces && |m.spaces| + 1 < RC_LIMIT
    case StoreWord(a, v, w, x) =>
      a in m.spaces && w < WORDS && (v in m.spaces[a].pt ==> Private(m.spaces[a].pt[v]))
    case Touch(a, v) => a in m.spaces && (v in m.spaces[a].pt ==> Private(m.spaces[a].pt[v]))
    case AddPage(a, v, rw, exec) => a in m.spaces && v < PER_TABLE * PER_TABLE && Replaceable(m, a, v)
    case DropPage(a, v) => a in m.spaces && (v in m.spaces[a].pt ==> Private(m.spaces[a].pt[v]))
    case AddForeign(a, v, f, owner) =>
      a in m.spaces && v < PER_TABLE * PER_TABLE && v !in m.spaces[a].pt && !owner.Space?
    case AddGuard(a, v) => a in m.spaces && v < PER_TABLE * PER_TABLE && Replaceable(m, a, v)
    case MoveBreak(a, brk) => a in m.spaces
    case AddThread(a) => a in m.spaces
    case Leave(a) => a in m.spaces
  }

  /** What the machine does; the second result is what the caller learns (a pointer, or 0 or 1). */
  function Exec(m: Machine, op: Op): (Machine, nat)
    requires Allowed(m, op)
  {
    match op
    case NewSpace(heapOk) => Create(m, heapOk)
    case Fork(src, heapOk) => CloneCow(m, src, heapOk)
    case StoreWord(a, v, w, x) => var (n, ok) := Store(m, a, v, w, x); (n, Bit(ok))
    case Touch(a, v) => var (n, ok) := MakeWritable(m, a, v); (n, Bit(ok))
    case AddPage(a, v, rw, exec) => var (n, ok) := MapFresh(m, a, v, rw, exec); (n, Bit(ok))
    case DropPage(a, v) => (Unmap(m, a, v), 1)
    case AddForeign(a, v, f, owner) => var (n, ok) := MapForeign(m, a, v, f, owner); (n, Bit(ok))
    case AddGuard(a, v) => var (n, ok) := InstallGuard(m, a, v); (n, Bit(ok))
    case MoveBreak(a, brk) => (PutBrk(m, a, brk), 1)
    case AddThread(a) => (PutSpace(m, a, m.spaces[a].(users := m.spaces[a].users + 1)), 1)
    case Leave(a) => (Destroy(m, a), 1)
  }

  function Bit(ok: bool): nat {
    if ok then 1 else 0
  }

  /** The machine with eager forks: every space has its own copy of every page, fork copies them
      all at once, and a store touches one word of one space. It is told which operations the real
      machine reported as done. */
  function EagerExec(e: map<nat, SpaceView>, op: Op, result: nat): map<nat, SpaceView> {
    match op
    case NewSpace(heapOk) => if result != 0 then e[result := SpaceView(map[], 1)] else e
    case Fork(src, heapOk) =>
      if result != 0 && src in e then e[result := SpaceView(e[src].view, 1)] else e
    case StoreWord(a, v, w, x) =>
      if result == 1 then Stored(e, a, v, w, x) else e
    case Touch(a, v) => e
    case AddPage(a, v, rw, exec) =>
      if result == 1 && a in e then With(e, a, v, Visible(ZeroPage(), rw, exec)) else e
    case DropPage(a, v) =>
      if a in e && v in e[a].view && e[a].view[v].Visible? then Without(e, a, v) else e
    case AddForeign(a, v, f, owner) => e
    case AddGuard(a, v) => if result == 1 && a in e then With(e, a, v, NoAccess) else e
    case MoveBreak(a, brk) => e
    case AddThread(a) => if a in e then e[a := e[a].(users := e[a].users + 1)] else e
    case Leave(a) =>
      if a !in e then e
      else if e[a].users > 1 then e[a := e[a].(users := e[a].users - 1)]
      else e - {a}
  }

  lemma ExecRefines(m: Machine, op: Op)
    requires Inv(m) && Allowed(m, op)
    ensures var (n, r) := Exec(m, op);
      Inv(n) && Abs(n) == EagerExec(Abs(m), op, r)
  {
    hide CountOk, Holders, View, Base, Abs;
    AbsKeys(m);
    match op
    case NewSpace(heapOk) => CreateKeeps(m, heapOk);
    case Fork(src, heapOk) => CloneCowKeeps(m, src, heapOk);
    case StoreWord(a, v, w, x) => StoreKeeps(m, a, v, w, x);
    case Touch(a, v) => MakeWritableKeeps(m, a, v);
    case AddPage(a, v, rw, exec) => MapFreshKeeps(m, a, v, rw, exec);
    case DropPage(a, v) =>
      UnmapKeeps(m, a, v);
      ViewHas(m, a, v);
      if v in m.spaces[a].pt {
        SeenThere(m, a, v);
      }
    case AddForeign(a, v, f, owner) => MapForeignKeeps(m, a, v, f, owner);
    case AddGuard(a, v) => InstallGuardKeeps(m, a, v);
    case MoveBreak(a, brk) => PutBrkKeeps(m, a, brk);
    case AddThread(a) =>
      UsersOf(m, a);
      UsersOnly(m, a, m.spaces[a].users + 1);
    case Leave(a) =>
      UsersOf(m, a);
      DestroyKeeps(m, a);
  }

  /** A run is allowed if each operation is, in the state it meets. */
  predicate AllowedRun(m: Machine, ops: seq<Op>)
    decreases |ops|
  {
    ops == [] || (Allowed(m, ops[0]) && AllowedRun(Exec(m, ops[0]).0, ops[1..]))
  }

  function ExecAll(m: Machine, ops: seq<Op>): (Machine, seq<nat>)
    requires AllowedRun(m, ops)
    decreases |ops|
  {
    if ops == [] then (m, [])
    else
      var (n, r) := Exec(m, ops[0]);
      var (p, rs) := ExecAll(n, ops[1..]);
      (p, [r] + rs)
  }

  function EagerAll(e: map<nat, SpaceView>, ops: seq<Op>, results: seq<nat>): map<nat, SpaceView>
    requires |ops| == |results|
    decreases |ops|
  {
    if ops == [] then e else EagerAll(EagerExec(e, ops[0], results[0]), ops[1..], results[1..])
  }

  /** For every run, whatever tree of forks, stores, faults, failures and exits it makes: the
      invariant holds throughout, and every space sees exactly what it would see had every fork
      copied every page eagerly. */
  lemma {:induction false} CopyOnWriteIsInvisible(m: Machine, ops: seq<Op>)
    requires Inv(m) && AllowedRun(m, ops)
    ensures |ExecAll(m, ops).1| == |ops|
    ensures var (n, rs) := ExecAll(m, ops);
      Inv(n) && Abs(n) == EagerAll(Abs(m), ops, rs)
    decreases |ops|
  {
    hide Inv, Abs, Exec, EagerExec, Allowed;
    if ops != [] {
      ExecRefines(m, ops[0]);
      CopyOnWriteIsInvisible(Exec(m, ops[0]).0, ops[1..]);
      var (p, rs) := ExecAll(Exec(m, ops[0]).0, ops[1..]);
      assert ([Exec(m, ops[0]).1] + rs)[1..] == rs;
    }
  }

  /** A store in the copy-on-write machine goes through whenever it would in the eager one,
      unless a shared page must be copied and no frame is free. */
  lemma StoreFailsOnlyWithoutFrames(m: Machine, a: nat, v: nat, w: nat, x: nat)
    requires Inv(m) && Allowed(m, StoreWord(a, v, w, x))
    ensures Exec(m, StoreWord(a, v, w, x)).1 == 1 <==>
            CanWrite(Abs(m), a, v)
            && (m.spaces[a].pt[v].rw || |Holders(m, m.spaces[a].pt[v].frame)| <= 1 || m.free != [])
  {
    hide View, Base, Abs, Holders;
    StoreKeeps(m, a, v, w, x);
    ViewHas(m, a, v);
    if v in m.spaces[a].pt {
      SeenThere(m, a, v);
      if m.spaces[a].pt[v].Map? {
        assert CountOk(m, m.spaces[a].pt[v].frame);
      }
    }
  }

  /** With no spaces and every frame free or lost, the invariant holds to begin with. */
  lemma InitialState(m: Machine)
    requires PoolOk(m) && m.spaces == map[] && m.next > 0
    requires forall i :: 0 <= i < |m.rc| ==> m.rc[i] == 0
    ensures Inv(m)
  {
    forall f
      ensures CountOk(m, f)
    {
      NoHolders(m, f);
    }
  }
}

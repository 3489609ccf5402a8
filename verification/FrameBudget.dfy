/** How many frames a run needs, worked out beforehand from what the spaces see, so that no operation
    fails for want of one; and that copy-on-write and full-copy kernels with that many free frames
    cannot be told apart (kernel/arch/address_space.c, kernel/core/pmem.c). */
module FrameBudget {
  import opened Paging
  import opened PagingInvariant
  import opened PagingLifecycle
  import opened ForkRefinement
  import opened EagerClone

  /** At most so many frames an operation takes: two for the L1 and L2 of a new space, one for an
      L3 and one for the copy of each page forked, and one for a table or for a page elsewhere. */
  function Cost(e: map<nat, SpaceView>, op: Op): nat {
    match op
    case NewSpace(heapOk) => 2
    case Fork(src, heapOk) => if src in e then 2 + 2 * |e[src].view| else 2
    case StoreWord(a, v, w, x) => 1
    case Touch(a, v) => 1
    case AddPage(a, v, rw, exec) => 2
    case AddForeign(a, v, f, owner) => 1
    case AddGuard(a, v) => 1
    case _ => 0
  }

  /** What the operation returns when frames do not run out: the next pointer for a new space if
      the heap has room for it, and success of a store exactly on a page seen as writable. */
  function Expected(e: map<nat, SpaceView>, next: nat, op: Op): nat {
    match op
    case NewSpace(heapOk) => if heapOk then next else 0
    case Fork(src, heapOk) => if heapOk then next else 0
    case StoreWord(a, v, w, x) => Bit(CanWrite(e, a, v))
    case Touch(a, v) => Bit(CanWrite(e, a, v))
    case _ => 1
  }

  function NextAfter(next: nat, op: Op): nat {
    if (op.NewSpace? || op.Fork?) && op.heapOk then next + 1 else next
  }

  /** The frames a whole run may take, following the machine with eager forks. */
  function RunCost(e: map<nat, SpaceView>, next: nat, ops: seq<Op>): nat
    decreases |ops|
  {
    if ops == [] then 0
    else Cost(e, ops[0]) + RunCost(EagerExec(e, ops[0], Expected(e, next, ops[0])), NextAfter(next, ops[0]), ops[1..])
  }

  function RunExpected(e: map<nat, SpaceView>, next: nat, ops: seq<Op>): (rs: seq<nat>)
    ensures |rs| == |ops|
    decreases |ops|
  {
    if ops == [] then []
    else
      var r := Expected(e, next, ops[0]);
      [r] + RunExpected(EagerExec(e, ops[0], r), NextAfter(next, ops[0]), ops[1..])
  }

  /** From `m` to `n` at most `cost` frames left the free list and the next pointer became `next`. */
  ghost predicate Spent(m: Machine, n: Machine, cost: nat, next: nat) {
    |n.free| + cost >= |m.free| && n.next == next
  }

  // ---------- one page ----------

  lemma NeedTableSpends(m: Machine, a: nat, v: nat)
    requires Inv(m) && a in m.spaces && v < PER_TABLE * PER_TABLE
    ensures Spent(m, NeedTable(m, a, v).0, 1, m.next)
    ensures |m.free| >= 1 ==> NeedTable(m, a, v).1
  {
    hide Inv, Abs, Unused;
    NeedTableKeeps(m, a, v);
  }

  lemma MapFreshSpends(m: Machine, a: nat, v: nat, rw: bool, exec: bool)
    requires Inv(m) && a in m.spaces && v < PER_TABLE * PER_TABLE
    ensures Spent(m, MapFresh(m, a, v, rw, exec).0, 2, m.next)
    ensures |m.free| >= 2 ==> MapFresh(m, a, v, rw, exec).1
  {
    hide Inv, Abs, Unused, NeedTable, PutFrame;
    AllocKeeps(m);
    var n := Alloc(m).0;
    NeedTableSpends(n, a, v);
  }

  lemma CloneEntrySpends(m: Machine, src: nat, dst: nat, v: nat)
    requires Inv(m) && src in m.spaces && dst in m.spaces && src != dst && v < PER_TABLE * PER_TABLE
    ensures var ((n, ok), pt) := (CloneEntry(m, src, dst, v), m.spaces[src].pt);
      if v in pt && Private(pt[v]) then (|m.free| >= 1 ==> ok) && Spent(m, n, 1, m.next) else n == m && ok
  {
    hide Inv, Abs, Unused, NeedTable, SetRc;
    NeedTableSpends(m, dst, v);
  }

  lemma CopyEntrySpends(m: Machine, src: nat, dst: nat, v: nat)
    requires Inv(m) && src in m.spaces && dst in m.spaces && src != dst && v < PER_TABLE * PER_TABLE
    ensures var ((n, ok), pt) := (CopyEntry(m, src, dst, v), m.spaces[src].pt);
      if v in pt && Private(pt[v]) then (|m.free| >= 2 ==> ok) && Spent(m, n, 2, m.next) else n == m && ok
  {
    hide Inv, Abs, Unused, NeedTable, PutFrame;
    var pt := m.spaces[src].pt;
    if v in pt && Private(pt[v]) {
      if pt[v].Guard? {
        NeedTableSpends(m, dst, v);
      } else {
        AllocKeeps(m);
        var (m1, f) := Alloc(m);
        if f != 0 {
          PutUnused(m1, f, Frame(m1, pt[v].frame));
          NeedTableSpends(PutFrame(m1, f, Frame(m1, pt[v].frame)), dst, v);
        }
      }
    }
  }

  lemma CowFaultSpends(m: Machine, a: nat, v: nat)
    requires a in m.spaces
    ensures Spent(m, CowFault(m, a, v).0, 1, m.next)
  {
    hide PutFrame, SetRc;
  }

  lemma MakeWritableSpends(m: Machine, a: nat, v: nat)
    requires a in m.spaces
    ensures Spent(m, MakeWritable(m, a, v).0, 1, m.next)
  {
    hide CowFault;
    CowFaultSpends(m, a, v);
  }

  lemma AtHand(m: Machine, a: nat, v: nat)
    requires a in m.spaces && m.free != [] && CanWrite(Abs(m), a, v)
    ensures FrameAtHand(m, a, v)
  {
    hide Abs, View;
    ViewHas(m, a, v);
    SeenThere(m, a, v);
  }

  lemma StoreSpends(m: Machine, a: nat, v: nat, w: nat, x: nat)
    requires Inv(m) && Allowed(m, StoreWord(a, v, w, x))
    ensures Spent(m, Store(m, a, v, w, x).0, 1, m.next) && Spent(m, MakeWritable(m, a, v).0, 1, m.next)
    ensures |m.free| >= 1 ==> Store(m, a, v, w, x).1 == CanWrite(Abs(m), a, v) && MakeWritable(m, a, v).1 == CanWrite(Abs(m), a, v)
  {
    hide Inv, Abs, PutFrame, CanWrite, MakeWritable, FrameAtHand;
    StoreKeeps(m, a, v, w, x);
    MakeWritableKeeps(m, a, v);
    if m.free != [] && CanWrite(Abs(m), a, v) {
      AtHand(m, a, v);
    }
    MakeWritableSpends(m, a, v);
  }

  // ---------- giving frames back ----------

  lemma DropSpends(m: Machine, a: nat, v: nat)
    requires a in m.spaces
    ensures Spent(m, Drop(m, a, v), 0, m.next)
  {
    hide PutFrame, SetRc;
  }

  lemma {:induction false} DropTableSpends(m: Machine, a: nat, i: nat, j: nat)
    requires a in m.spaces && j <= PER_TABLE
    ensures Spent(m, DropTable(m, a, i, j), 0, m.next)
    decreases PER_TABLE - j
  {
    hide Drop;
    if j < PER_TABLE {
      var v := PER_TABLE * i + j;
      DropSpends(m, a, v);
      DropTableSpends(Drop(m, a, v), a, i, j + 1);
    }
  }

  lemma FreeTableSpends(m: Machine, a: nat, t: TableSlot)
    requires a in m.spaces
    ensures Spent(m, FreeTable(m, a, t), 0, m.next)
  {
    hide PutFrame;
  }

  lemma {:induction false} TeardownSpends(m: Machine, a: nat, i: nat)
    requires a in m.spaces && i <= PER_TABLE
    ensures Spent(m, Teardown(m, a, i), 0, m.next)
    decreases PER_TABLE - i
  {
    hide DropTable, FreeTable;
    if i == PER_TABLE {
    } else if L3(i) !in m.spaces[a].tables {
      TeardownSpends(m, a, i + 1);
    } else {
      var n := DropTable(m, a, i, 0);
      DropTableSpends(m, a, i, 0);
      FreeTableSpends(n, a, L3(i));
      TeardownSpends(FreeTable(n, a, L3(i)), a, i + 1);
    }
  }

  lemma DestroySpends(m: Machine, a: nat)
    requires a in m.spaces
    ensures Spent(m, Destroy(m, a), 0, m.next)
  {
    hide Teardown, PutFrame, TablePage;
    TeardownSpends(m, a, 0);
  }

  // ---------- the walks ----------

  /** The pages of `view` from `k` on. */
  function From(view: map<nat, Entry>, k: nat): set<nat> {
    set v | v in view && v >= k
  }

  lemma FromNext(view: map<nat, Entry>, k: nat)
    ensures |From(view, k)| == |From(view, k + 1)| + if k in view then 1 else 0
  {
    if k in view {
      assert From(view, k) == From(view, k + 1) + {k};
    } else {
      assert From(view, k) == From(view, k + 1);
    }
  }

  lemma FromStart(view: map<nat, Entry>)
    ensures |From(view, 0)| == |view|
  {
    assert From(view, 0) == view.Keys;
  }

  lemma FromLater(view: map<nat, Entry>, k: nat, l: nat)
    requires k <= l
    ensures |From(view, l)| <= |From(view, k)|
  {
    SubsetCard(From(view, l), From(view, k));
  }

  /** A walk with two frames at hand for each page to come gets through. */
  ghost predicate Afford(m: Machine, view: map<nat, Entry>, k: nat, spare: nat) {
    |m.free| >= spare + 2 * |From(view, k)|
  }

  lemma {:induction false} CloneTableSpends(m: Machine, src: nat, dst: nat, i: nat, j: nat, spare: nat)
    requires Inv(m) && src in m.spaces && dst in m.spaces && src != dst && |m.spaces| < RC_LIMIT
    requires i < PER_TABLE && j <= PER_TABLE
    requires forall v :: v in m.spaces[dst].pt ==> v < PER_TABLE * i + j
    requires src in Abs(m) && Afford(m, Abs(m)[src].view, PER_TABLE * i + j, spare)
    ensures var (n, ok) := CloneTable(m, src, dst, i, j);
      ok && n.next == m.next && Afford(n, Abs(m)[src].view, PER_TABLE * i + PER_TABLE, spare)
    decreases PER_TABLE - j
  {
    hide Inv, Abs, CloneEntry, From;
    if j < PER_TABLE {
      var v := PER_TABLE * i + j;
      PageInRange(i, j);
      CloneEntryKeeps(m, src, dst, v);
      CloneEntrySpends(m, src, dst, v);
      ViewHas(m, src, v);
      FromNext(Abs(m)[src].view, v);
      var n := CloneEntry(m, src, dst, v).0;
      AbsKeys(m);
      AbsKeys(n);
      SameCount(m, n);
      CloneTableSpends(n, src, dst, i, j + 1, spare);
    }
  }

  lemma {:induction false} CloneTablesSpends(m: Machine, src: nat, dst: nat, i: nat, spare: nat)
    requires Inv(m) && src in m.spaces && dst in m.spaces && src != dst && |m.spaces| < RC_LIMIT
    requires i <= PER_TABLE && CopiedTo(Abs(m), src, dst, PER_TABLE * i)
    requires forall v :: v in m.spaces[dst].pt ==> v < PER_TABLE * i
    requires Afford(m, Abs(m)[src].view, PER_TABLE * i, spare)
    ensures var (n, ok) := CloneTables(m, src, dst, i); ok && n.next == m.next && |n.free| >= spare
    decreases PER_TABLE - i
  {
    hide Inv, Abs, CloneTable, From;
    if i == PER_TABLE {
    } else if L3(i) !in m.spaces[src].tables {
      SkipTable(m, src, dst, i);
      FromLater(Abs(m)[src].view, PER_TABLE * i, PER_TABLE * (i + 1));
      CloneTablesSpends(m, src, dst, i + 1, spare);
    } else {
      CloneTableKeeps(m, src, dst, i, 0);
      CloneTableSpends(m, src, dst, i, 0, spare);
      var n := CloneTable(m, src, dst, i, 0).0;
      SameCount(m, n);
      CloneTablesSpends(n, src, dst, i + 1, spare);
    }
  }

  lemma {:induction false} CopyTableSpends(m: Machine, src: nat, dst: nat, i: nat, j: nat, spare: nat)
    requires Inv(m) && src in m.spaces && dst in m.spaces && src != dst
    requires i < PER_TABLE && j <= PER_TABLE && CleanChild(m, dst, PER_TABLE * i + j)
    requires src in Abs(m) && Afford(m, Abs(m)[src].view, PER_TABLE * i + j, spare)
    ensures var (n, ok) := CopyTable(m, src, dst, i, j);
      ok && n.next == m.next && Afford(n, Abs(m)[src].view, PER_TABLE * i + PER_TABLE, spare)
    decreases PER_TABLE - j
  {
    hide Inv, Abs, CopyEntry, CleanChild, From, Target;
    if j < PER_TABLE {
      var v := PER_TABLE * i + j;
      PageInRange(i, j);
      CopyEntryKeeps(m, src, dst, v);
      CopyEntrySpends(m, src, dst, v);
      ViewHas(m, src, v);
      FromNext(Abs(m)[src].view, v);
      AbsKeys(m);
      AbsKeys(CopyEntry(m, src, dst, v).0);
      CopyTableSpends(CopyEntry(m, src, dst, v).0, src, dst, i, j + 1, spare);
    }
  }

  lemma {:induction false} CopyTablesSpends(m: Machine, src: nat, dst: nat, i: nat, spare: nat)
    requires Inv(m) && src in m.spaces && dst in m.spaces && src != dst
    requires i <= PER_TABLE && CleanChild(m, dst, PER_TABLE * i) && ShownTo(Abs(m), Target(m, src), dst, PER_TABLE * i)
    requires src in Abs(m) && Afford(m, Abs(m)[src].view, PER_TABLE * i, spare)
    ensures var (n, ok) := CopyTables(m, src, dst, i); ok && n.next == m.next && |n.free| >= spare
    decreases PER_TABLE - i
  {
    hide Inv, Abs, CopyTable, CleanChild, ShownTo, From, Target;
    if i == PER_TABLE {
    } else if L3(i) !in m.spaces[src].tables {
      SkipCopy(m, src, dst, i);
      FromLater(Abs(m)[src].view, PER_TABLE * i, PER_TABLE * (i + 1));
      CopyTablesSpends(m, src, dst, i + 1, spare);
    } else {
      CopyTableKeeps(m, src, dst, i, 0);
      CopyTableSpends(m, src, dst, i, 0, spare);
      var n := CopyTable(m, src, dst, i, 0).0;
      AbsKeys(m);
      AbsKeys(n);
      SameTarget(m, n, src, dst);
      CopyTablesSpends(n, src, dst, i + 1, spare);
    }
  }

  // ---------- spaces ----------

  lemma CreateSpends(m: Machine, heapOk: bool)
    requires Inv(m)
    ensures var (n, a) := Create(m, heapOk);
      && |n.free| + 2 >= |m.free|
      && (|m.free| >= 2 ==> a == (if heapOk then m.next else 0) && n.next == (if heapOk then m.next + 1 else m.next))
  {
    hide Inv, Abs, Unused, PutFrame;
    AllocKeeps(m);
    AllocKeeps(Alloc(m).0);
  }

  lemma CloneCowSpends(m: Machine, src: nat, heapOk: bool)
    requires Inv(m) && src in m.spaces && |m.spaces| + 1 < RC_LIMIT && src in Abs(m)
    requires |m.free| >= 2 + 2 * |Abs(m)[src].view|
    ensures var (n, a) := CloneCow(m, src, heapOk);
      && Spent(m, n, 2 + 2 * |Abs(m)[src].view|, if heapOk then m.next + 1 else m.next)
      && a == if heapOk then m.next else 0
  {
    hide Inv, Abs, Create, CloneTables, Destroy, From;
    AbsKeys(m);
    CreateKeeps(m, heapOk);
    CreateSpends(m, heapOk);
    var (m1, dst) := Create(m, heapOk);
    if dst != 0 {
      OneMoreKey(m, m1, dst);
      StartCopy(m, m1, src, dst);
      FromStart(Abs(m)[src].view);
      CloneTablesSpends(m1, src, dst, 0, |m.free| - 2 - 2 * |Abs(m)[src].view|);
    }
  }

  lemma CloneSpends(m: Machine, src: nat, heapOk: bool)
    requires Inv(m) && src in m.spaces && src in Abs(m)
    requires |m.free| >= 2 + 2 * |Abs(m)[src].view|
    ensures var (n, a) := Clone(m, src, heapOk);
      && Spent(m, n, 2 + 2 * |Abs(m)[src].view|, if heapOk then m.next + 1 else m.next)
      && a == if heapOk then m.next else 0
  {
    hide Inv, Abs, Create, CopyTables, Destroy, From, CleanChild, ShownTo, Target;
    AbsKeys(m);
    CreateKeeps(m, heapOk);
    CreateSpends(m, heapOk);
    var (m1, dst) := Create(m, heapOk);
    if dst != 0 {
      AbsKeys(m1);
      NewTarget(m, m1, src, dst);
      FromStart(Abs(m)[src].view);
      CopyTablesSpends(m1, src, dst, 0, |m.free| - 2 - 2 * |Abs(m)[src].view|);
    }
  }

  // ---------- every operation, every run ----------

  /** With as many free frames as an operation may take, it takes no more and returns what was
      expected. */
  lemma ExecSpends(m: Machine, op: Op)
    requires Inv(m) && Allowed(m, op) && |m.free| >= Cost(Abs(m), op)
    ensures var (n, r) := Exec(m, op);
      Spent(m, n, Cost(Abs(m), op), NextAfter(m.next, op)) && r == Expected(Abs(m), m.next, op)
  {
    hide Inv, Abs, Create, CloneCow, Store, MakeWritable, MapFresh, NeedTable, Drop, Destroy, CanWrite, Replaceable;
    AbsKeys(m);
    match op
    case NewSpace(heapOk) => CreateSpends(m, heapOk);
    case Fork(src, heapOk) => CloneCowSpends(m, src, heapOk);
    case StoreWord(a, v, w, x) => StoreSpends(m, a, v, w, x);
    case Touch(a, v) => StoreSpends(m, a, v, 0, 0);
    case AddPage(a, v, rw, exec) => MapFreshSpends(m, a, v, rw, exec);
    case DropPage(a, v) => DropSpends(m, a, v);
    case AddForeign(a, v, f, owner) => NeedTableSpends(m, a, v);
    case AddGuard(a, v) => NeedTableSpends(m, a, v);
    case MoveBreak(a, brk) =>
    case AddThread(a) =>
    case Leave(a) => DestroySpends(m, a);
  }

  lemma ExecFullSpends(m: Machine, op: Op)
    requires Inv(m) && Allowed(m, op) && |m.free| >= Cost(Abs(m), op)
    ensures var (n, r) := ExecFull(m, op);
      Spent(m, n, Cost(Abs(m), op), NextAfter(m.next, op)) && r == Expected(Abs(m), m.next, op)
  {
    hide Inv, Abs, Clone, Exec;
    AbsKeys(m);
    if op.Fork? {
      CloneSpends(m, op.src, op.heapOk);
    } else {
      ExecSpends(m, op);
    }
  }

  /** A copy-on-write run that starts with as many free frames as it may take never runs out:
      every result is the expected one. */
  lemma {:induction false} RunAffords(m: Machine, ops: seq<Op>)
    requires Inv(m) && AllowedRun(m, ops) && |m.free| >= RunCost(Abs(m), m.next, ops)
    ensures ExecAll(m, ops).1 == RunExpected(Abs(m), m.next, ops)
    decreases |ops|
  {
    hide Inv, Abs, Exec, EagerExec, Allowed, Cost, Expected, NextAfter;
    if ops != [] {
      ExecSpends(m, ops[0]);
      ExecRefines(m, ops[0]);
      RunAffords(Exec(m, ops[0]).0, ops[1..]);
    }
  }

  /** And so with full copies. */
  lemma {:induction false} FullRunAffords(m: Machine, ops: seq<Op>)
    requires Inv(m) && NoCow(m) && AllowedFull(m, ops) && |m.free| >= RunCost(Abs(m), m.next, ops)
    ensures ExecAllFull(m, ops).1 == RunExpected(Abs(m), m.next, ops)
    decreases |ops|
  {
    hide Inv, Abs, ExecFull, EagerExec, Allowed, Cost, Expected, NextAfter, NoCow;
    if ops != [] {
      ExecFullSpends(m, ops[0]);
      FullRefines(m, ops[0]);
      FullRunAffords(ExecFull(m, ops[0]).0, ops[1..]);
    }
  }

  /** The kernel with copy-on-write forks beside the kernel whose forks all copy in full: started
      alike, each with as many free frames as the run may take, they report the same results and
      show every space the same. */
  lemma CannotBeTold(m: Machine, full: Machine, ops: seq<Op>)
    requires Inv(m) && AllowedRun(m, ops)
    requires Inv(full) && NoCow(full) && AllowedFull(full, ops)
    requires Abs(m) == Abs(full) && m.next == full.next
    requires |m.free| >= RunCost(Abs(m), m.next, ops) && |full.free| >= RunCost(Abs(m), m.next, ops)
    ensures ExecAll(m, ops).1 == ExecAllFull(full, ops).1
    ensures Abs(ExecAll(m, ops).0) == Abs(ExecAllFull(full, ops).0)
  {
    hide Inv, Abs, ExecAll, ExecAllFull, AllowedRun, AllowedFull, NoCow, RunCost, RunExpected;
    RunAffords(m, ops);
    FullRunAffords(full, ops);
    CopyOnWriteIsFullCopy(m, full, ops);
  }
}

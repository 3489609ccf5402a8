/** Moving the heap break, `address_space_set_brk` (kernel/arch/address_space.c): what the space sees
    afterwards, and that a call is a run of the one-page operations. */
module HeapBreak {
  import opened Paging
  import opened PagingInvariant
  import opened PagingLifecycle
  import opened ForkRefinement

  /** `view` with zero pages at `from`, ..., `end - 1`. */
  function GrownView(view: map<nat, Entry>, from: nat, end: nat): map<nat, Entry> {
    view + map v: nat | from <= v < end && InRange(from, v, end) :: Visible(ZeroPage(), true, false)
  }

  predicate InRange(from: nat, v: nat, end: nat) {
    from <= v < end
  }

  /** Entries `from`, ..., `end - 1` may be written over. */
  ghost predicate IdleRange(m: Machine, a: nat, from: nat, end: nat) {
    a in m.spaces && forall v: nat :: from <= v < end ==> Replaceable(m, a, v)
  }

  /** Entries `from`, ..., `end - 1` are the space's own pages, guards or empty. */
  ghost predicate OwnRange(m: Machine, a: nat, from: nat, end: nat) {
    a in m.spaces && forall v :: v in m.spaces[a].pt && from <= v < end ==> Private(m.spaces[a].pt[v])
  }

  /** `view` without its pages at `from`, ..., `end - 1`; guards stay. */
  function ShrunkView(view: map<nat, Entry>, from: nat, end: nat): map<nat, Entry> {
    map v | v in view && !(from <= v < end && view[v].Visible?) :: view[v]
  }

  function PutView(e: map<nat, SpaceView>, a: nat, view: map<nat, Entry>): map<nat, SpaceView>
    requires a in e
  {
    e[a := e[a].(view := view)]
  }

  /** Growth meets entries that may be written over, and shrinkage the space's own pages only. An
      earlier growth that failed leaves pages of the first kind; see `BreakAgain`. */
  ghost predicate BreakOk(m: Machine, a: nat, bytes: nat) {
    && a in m.spaces
    && (Rounded(bytes) <= USER_HEAP_MAX ==>
          && IdleRange(m, a, m.spaces[a].brk, PageOf(Rounded(bytes)))
          && OwnRange(m, a, PageOf(Rounded(bytes)), m.spaces[a].brk))
  }

  // ---------- growth ----------

  /** Mapping a page leaves every other entry, and a page that may be written over again. */
  lemma MapFreshEntries(m: Machine, a: nat, v: nat)
    requires Inv(m) && a in m.spaces
    ensures var (n, ok) := MapFresh(m, a, v, true, false);
      && a in n.spaces && n.spaces[a].brk == m.spaces[a].brk
      && (forall w: nat :: Replaceable(m, a, w) ==> Replaceable(n, a, w))
      && (forall w: nat :: w in m.spaces[a].pt ==> w in n.spaces[a].pt)
      && (forall w: nat :: w in n.spaces[a].pt ==>
            if w == v && ok then n.spaces[a].pt[w].Map? && n.spaces[a].pt[w].owner.Space?
            else w in m.spaces[a].pt && n.spaces[a].pt[w] == m.spaces[a].pt[w])
      && (ok ==> v in n.spaces[a].pt)
  {
    hide Inv, Unused;
    AllocKeeps(m);
    hide Alloc, Release;
  }

  lemma GrownMore(view: map<nat, Entry>, from: nat, end: nat)
    requires from < end
    ensures GrownView(view[from := Visible(ZeroPage(), true, false)], from + 1, end) == GrownView(view, from, end)
    ensures GrownView(view, from, from) == view
  {}

  /** The loop maps zero pages from `v` up to `k`: all of them, or up to the one that could not be
      had. */
  lemma {:induction false} GrowKeeps(m: Machine, a: nat, v: nat, end: nat) returns (k: nat)
    requires Inv(m) && a in m.spaces && v <= end <= PER_TABLE * PER_TABLE
    requires IdleRange(m, a, v, end)
    ensures var (n, ok) := Grow(m, a, v, end);
      && Inv(n) && a in Abs(m) && v <= k <= end && (ok <==> k == end)
      && n.spaces[a].brk == m.spaces[a].brk
      && Abs(n) == PutView(Abs(m), a, GrownView(Abs(m)[a].view, v, k))
    decreases end - v
  {
    hide Inv, Abs, MapFresh, GrownView;
    AbsKeys(m);
    k := v;
    GrownMore(Abs(m)[a].view, v, v + 1);
    if v < end {
      MapFreshKeeps(m, a, v, true, false);
      MapFreshEntries(m, a, v);
      var (n, ok) := MapFresh(m, a, v, true, false);
      if ok {
        k := GrowKeeps(n, a, v + 1, end);
        GrownMore(Abs(m)[a].view, v, k);
      }
    }
  }

  /** What growth does to the entries: none goes away, those it meets become pages of the space's
      own, and what may be written over before it may be afterwards. */
  lemma {:induction false} GrowEntries(m: Machine, a: nat, v: nat, end: nat)
    requires Inv(m) && v <= end <= PER_TABLE * PER_TABLE && IdleRange(m, a, v, end)
    ensures var n := Grow(m, a, v, end).0;
      && a in n.spaces && n.spaces[a].brk == m.spaces[a].brk
      && (forall w: nat :: Replaceable(m, a, w) ==> Replaceable(n, a, w))
      && (forall w: nat :: w in n.spaces[a].pt && (w in m.spaces[a].pt ==> Private(m.spaces[a].pt[w])) ==>
            Private(n.spaces[a].pt[w]))
    decreases end - v
  {
    hide Inv, Abs, MapFresh, Replaceable;
    if v < end {
      MapFreshKeeps(m, a, v, true, false);
      MapFreshEntries(m, a, v);
      var (n, ok) := MapFresh(m, a, v, true, false);
      if ok {
        GrowEntries(n, a, v + 1, end);
      }
    }
  }

  // ---------- shrinkage ----------

  lemma ShrunkMore(view: map<nat, Entry>, from: nat, end: nat)
    requires from < end
    ensures var less := if from in view && view[from].Visible? then view - {from} else view;
      ShrunkView(less, from + 1, end) == ShrunkView(view, from, end)
  {}

  lemma ShrunkNot(view: map<nat, Entry>, end: nat)
    ensures ShrunkView(view, end, end) == view
  {}

  lemma UnmapEntries(m: Machine, a: nat, v: nat)
    requires Inv(m) && a in m.spaces && (v in m.spaces[a].pt ==> Private(m.spaces[a].pt[v]))
    ensures var n := Unmap(m, a, v);
      && Inv(n) && a in n.spaces && n.spaces[a].brk == m.spaces[a].brk && a in Abs(m)
      && (forall w :: w in n.spaces[a].pt ==> w in m.spaces[a].pt && n.spaces[a].pt[w] == m.spaces[a].pt[w])
      && Abs(n) == if v in Abs(m)[a].view && Abs(m)[a].view[v].Visible? then Without(Abs(m), a, v) else Abs(m)
  {
    hide Inv, Abs, Drop, View;
    AbsKeys(m);
    UnmapKeeps(m, a, v);
    DropKeeps(m, a, v);
    ViewHas(m, a, v);
    if v in m.spaces[a].pt {
      SeenThere(m, a, v);
    }
  }

  lemma {:induction false} ShrinkKeeps(m: Machine, a: nat, v: nat, end: nat)
    requires Inv(m) && a in m.spaces && v <= end
    requires OwnRange(m, a, v, end)
    ensures var n := Shrink(m, a, v, end);
      && Inv(n) && a in Abs(m)
      && Abs(n) == PutView(Abs(m), a, ShrunkView(Abs(m)[a].view, v, end))
    decreases end - v
  {
    hide Inv, Abs, Unmap, ShrunkView;
    AbsKeys(m);
    if v < end {
      ShrunkMore(Abs(m)[a].view, v, end);
      UnmapEntries(m, a, v);
      ShrinkKeeps(Unmap(m, a, v), a, v + 1, end);
    } else {
      ShrunkNot(Abs(m)[a].view, v);
    }
  }

  // ---------- the call ----------

  /** A call that succeeds moves the break to the rounded request, and exactly the pages between
      the old and the new break appear as zeroes or disappear. It fails beyond the end of the heap,
      without effect, or when frames run out; then the break stays, but the pages mapped so far
      stay too. No other space sees a difference. */
  lemma SetBrkKeeps(m: Machine, a: nat, bytes: nat)
    requires Inv(m) && BreakOk(m, a, bytes)
    ensures var (n, ok) := SetBrk(m, a, bytes);
      var (from, to) := (m.spaces[a].brk, PageOf(Rounded(bytes)));
      && Inv(n) && a in n.spaces && a in Abs(m)
      && (Rounded(bytes) > USER_HEAP_MAX ==> !ok && n == m)
      && (Rounded(bytes) <= USER_HEAP_MAX && to <= from ==> ok)
      && (ok ==> n.spaces[a].brk == to
                 && Abs(n) == PutView(Abs(m), a, if to > from then GrownView(Abs(m)[a].view, from, to)
                                                 else ShrunkView(Abs(m)[a].view, to, from)))
      && (!ok && n != m ==>
            && n.spaces[a].brk == from
            && exists k :: from <= k < to && Abs(n) == PutView(Abs(m), a, GrownView(Abs(m)[a].view, from, k)))
  {
    hide Inv, Abs, Grow, Shrink, GrownView, ShrunkView;
    AbsKeys(m);
    if Rounded(bytes) <= USER_HEAP_MAX {
      var from, to := m.spaces[a].brk, PageOf(Rounded(bytes));
      if to > from {
        var k := GrowKeeps(m, a, from, to);
        var (n, ok) := Grow(m, a, from, to);
        if ok {
          PutBrkKeeps(n, a, to);
        }
      } else {
        ShrinkKeeps(m, a, to, from);
        PutBrkKeeps(Shrink(m, a, to, from), a, to);
      }
    }
  }

  /** A call that failed leaves every request as it was: whatever could be asked for before it can
      be asked for after it. */
  lemma BreakAgain(m: Machine, a: nat, bytes: nat, more: nat)
    requires Inv(m) && BreakOk(m, a, bytes) && BreakOk(m, a, more) && !SetBrk(m, a, bytes).1
    ensures Inv(SetBrk(m, a, bytes).0) && BreakOk(SetBrk(m, a, bytes).0, a, more)
  {
    hide Inv, Abs, Grow, Shrink, Replaceable;
    SetBrkKeeps(m, a, bytes);
    if Rounded(bytes) <= USER_HEAP_MAX && PageOf(Rounded(bytes)) > m.spaces[a].brk {
      GrowEntries(m, a, m.spaces[a].brk, PageOf(Rounded(bytes)));
    }
  }

  /** A growth that failed and was then repeated, for as much or more, with success, shows what one
      successful call would have shown. */
  lemma RetriedBreak(m: Machine, a: nat, bytes: nat, more: nat)
    requires Inv(m) && BreakOk(m, a, bytes) && BreakOk(m, a, more) && !SetBrk(m, a, bytes).1
    requires m.spaces[a].brk < PageOf(Rounded(more)) && Rounded(bytes) <= Rounded(more)
    requires SetBrk(SetBrk(m, a, bytes).0, a, more).1
    ensures var p := SetBrk(SetBrk(m, a, bytes).0, a, more).0;
      var to := PageOf(Rounded(more));
      && Inv(p) && a in p.spaces && p.spaces[a].brk == to && a in Abs(m)
      && Abs(p) == PutView(Abs(m), a, GrownView(Abs(m)[a].view, m.spaces[a].brk, to))
  {
    hide Inv, Abs, SetBrk, GrownView, BreakOk;
    AbsKeys(m);
    SetBrkKeeps(m, a, bytes);
    BreakAgain(m, a, bytes, more);
    var n := SetBrk(m, a, bytes).0;
    SetBrkKeeps(n, a, more);
    if n != m {
      var from := m.spaces[a].brk;
      var k :| from <= k < PageOf(Rounded(bytes)) && Abs(n) == PutView(Abs(m), a, GrownView(Abs(m)[a].view, from, k));
      GrownTwice(Abs(m)[a].view, from, k, PageOf(Rounded(more)));
    }
  }

  lemma GrownTwice(view: map<nat, Entry>, from: nat, k: nat, end: nat)
    requires from <= k <= end
    ensures GrownView(GrownView(view, from, k), from, end) == GrownView(view, from, end)
  {}

  // ---------- as a run ----------

  predicate PageOp(op: Op) {
    op.AddPage? || op.DropPage? || op.MoveBreak?
  }

  lemma RunFirst(m: Machine, op: Op, ops: seq<Op>)
    requires Allowed(m, op) && AllowedRun(Exec(m, op).0, ops)
    ensures AllowedRun(m, [op] + ops) && ExecAll(m, [op] + ops).0 == ExecAll(Exec(m, op).0, ops).0
  {
    hide Exec, Allowed;
    assert ([op] + ops)[1..] == ops;
  }

  lemma RunOne(m: Machine, op: Op)
    requires Allowed(m, op)
    ensures AllowedRun(m, [op]) && ExecAll(m, [op]).0 == Exec(m, op).0
  {
    hide Exec, Allowed;
    RunFirst(m, op, []);
    assert [op] + [] == [op];
  }

  lemma {:induction false} GrowIsRun(m: Machine, a: nat, v: nat, end: nat, brk: nat) returns (ops: seq<Op>)
    requires Inv(m) && a in m.spaces && v <= end <= PER_TABLE * PER_TABLE
    requires IdleRange(m, a, v, end)
    ensures var (n, ok) := Grow(m, a, v, end);
      && AllowedRun(m, ops) && (forall op :: op in ops ==> PageOp(op))
      && ExecAll(m, ops).0 == if ok then PutBrk(n, a, brk) else n
    decreases end - v
  {
    hide Inv, Abs, MapFresh, AllowedRun, ExecAll;
    if v == end {
      RunOne(m, MoveBreak(a, brk));
      ops := [MoveBreak(a, brk)];
    } else {
      var op := AddPage(a, v, true, false);
      MapFreshKeeps(m, a, v, true, false);
      MapFreshEntries(m, a, v);
      var (n, ok) := MapFresh(m, a, v, true, false);
      if ok {
        var rest := GrowIsRun(n, a, v + 1, end, brk);
        RunFirst(m, op, rest);
        ops := [op] + rest;
      } else {
        RunOne(m, op);
        ops := [op];
      }
    }
  }

  lemma {:induction false} ShrinkIsRun(m: Machine, a: nat, v: nat, end: nat, brk: nat) returns (ops: seq<Op>)
    requires Inv(m) && a in m.spaces && v <= end
    requires OwnRange(m, a, v, end)
    ensures AllowedRun(m, ops) && (forall op :: op in ops ==> PageOp(op))
    ensures ExecAll(m, ops).0 == PutBrk(Shrink(m, a, v, end), a, brk)
    decreases end - v
  {
    hide Inv, Abs, Unmap, AllowedRun, ExecAll;
    if v == end {
      RunOne(m, MoveBreak(a, brk));
      ops := [MoveBreak(a, brk)];
    } else {
      UnmapEntries(m, a, v);
      var rest := ShrinkIsRun(Unmap(m, a, v), a, v + 1, end, brk);
      RunFirst(m, DropPage(a, v), rest);
      ops := [DropPage(a, v)] + rest;
    }
  }

  /** Whatever a call does, a run of one-page operations does, so what is proved of all runs holds
      of runs with calls in them. */
  lemma SetBrkIsRun(m: Machine, a: nat, bytes: nat)
    requires Inv(m) && BreakOk(m, a, bytes)
    ensures exists ops :: AllowedRun(m, ops) && (forall op :: op in ops ==> PageOp(op))
                          && ExecAll(m, ops).0 == SetBrk(m, a, bytes).0
  {
    hide Inv, Grow, Shrink, AllowedRun, ExecAll;
    var ops: seq<Op> := [];
    if Rounded(bytes) > USER_HEAP_MAX {
      NoRun(m);
    } else {
      var from, to := m.spaces[a].brk, PageOf(Rounded(bytes));
      if to > from {
        ops := GrowIsRun(m, a, from, to, to);
      } else {
        ops := ShrinkIsRun(m, a, to, from, to);
      }
    }
    assert AllowedRun(m, ops) && ExecAll(m, ops).0 == SetBrk(m, a, bytes).0;
  }

  lemma NoRun(m: Machine)
    ensures AllowedRun(m, []) && ExecAll(m, []).0 == m
  {}
}

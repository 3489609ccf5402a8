/** The mmap list and the window free list as the kernel keeps them (kernel/arch/address_space.c):
    singly linked nodes, scanned and relinked in place. */
module RangeLists {
  import opened VaRanges
  import opened WindowVa

  class Node {
    var at: nat
    var len: nat
    var next: Node?

    constructor (at: nat, len: nat, next: Node?)
      ensures this.at == at && this.len == len && this.next == next
    {
      this.at, this.len, this.next := at, len, next;
    }
  }

  class RangeList {
    var head: Node?
    ghost var nodes: seq<Node>

    ghost function NodeAt(i: nat): Node?
      reads this
    {
      if i < |nodes| then nodes[i] else null
    }

    ghost predicate Linked(i: nat)
      reads this, nodes
    {
      i < |nodes| && nodes[i].next == NodeAt(i + 1)
    }

    ghost predicate Distinct()
      reads this
    {
      forall i, j :: 0 <= i < j < |nodes| ==> nodes[i] != nodes[j]
    }

    ghost predicate Valid()
      reads this, nodes
    {
      Distinct() && head == NodeAt(0) && forall i: nat :: i < |nodes| ==> Linked(i)
    }

    ghost function Ranges(): (rs: seq<Range>)
      reads this, nodes
      ensures |rs| == |nodes|
    {
      seq(|nodes|, (i: nat) requires i < |nodes| reads this, nodes => Range(nodes[i].at, nodes[i].len))
    }

    /** A list whose nodes were not written is as it was. */
    twostate lemma Untouched()
      requires old(Valid()) && unchanged(this) && forall x :: x in nodes ==> unchanged(x)
      ensures Valid() && Ranges() == old(Ranges())
    {
      forall i: nat | i < |nodes|
        ensures Linked(i) && Ranges()[i] == old(Ranges()[i])
      {
        assert nodes[i] in nodes && old(Linked(i));
      }
      assert old(Distinct()) && Distinct();
    }

    constructor ()
      ensures Valid() && nodes == [] && Ranges() == []
    {
      head, nodes := null, [];
    }

    /** Unlinks the node at index `k`, whose predecessor is `prev`. */
    method Unlink(prev: Node?, node: Node, ghost k: nat)
      requires Valid() && k < |nodes| && node == nodes[k] && prev == (if k > 0 then nodes[k - 1] else null)
      modifies this, nodes
      ensures Valid() && nodes == old(nodes[..k] + nodes[k + 1..])
      ensures Ranges() == Without(old(Ranges()), k)
    {
      assert Linked(k) && (k > 0 ==> Linked(k - 1));
      if prev == null {
        head := node.next;
      } else {
        prev.next := node.next;
      }
      nodes := nodes[..k] + nodes[k + 1..];
      forall i: nat | i < |nodes|
        ensures Linked(i) && Range(nodes[i].at, nodes[i].len) == Without(old(Ranges()), k)[i]
      {
        WithoutAt(old(Ranges()), k, i);
        assert old(Linked(if i < k then i else i + 1));
      }
    }

    /** Rewrites the range held by the node at index `k`; the links stay. */
    method Resize(node: Node, ghost k: nat, at: nat, len: nat)
      requires Valid() && k < |nodes| && node == nodes[k]
      modifies node`at, node`len
      ensures Valid() && Ranges() == old(Ranges())[k := Range(at, len)]
    {
      node.at, node.len := at, len;
      forall i: nat | i < |nodes|
        ensures Linked(i) && Range(nodes[i].at, nodes[i].len) == old(Ranges())[k := Range(at, len)][i]
      {
        assert old(Linked(i));
      }
    }

    /** The scan of `wm_freelist_take`: the node that fits best and the one before it. */
    method FindFit(n: nat) returns (best: Node?, prev: Node?, ghost k: int)
      requires Valid()
      ensures k == BestFit(Ranges(), n, 0, -1) && -1 <= k < |nodes|
      ensures best == (if k >= 0 then nodes[k] else null)
      ensures prev == (if k > 0 then nodes[k - 1] else null)
    {
      ghost var rs := Ranges();
      var cur: Node?, before: Node? := head, null;
      best, prev, k := null, null, -1;
      ghost var i := 0;
      while cur != null
        invariant 0 <= i <= |nodes| && -1 <= k < i + 1 && k < |nodes|
        invariant cur == NodeAt(i) && before == (if i > 0 then nodes[i - 1] else null)
        invariant best == (if k >= 0 then nodes[k] else null)
        invariant prev == (if k > 0 then nodes[k - 1] else null)
        invariant BestFit(rs, n, 0, -1) == BestFit(rs, n, i, k)
        decreases |nodes| - i
      {
        assert rs[i] == Range(cur.at, cur.len) && Linked(i);
        if cur.len >= n && (best == null || cur.len < best.len) {
          best, prev, k := cur, before, i;
        }
        before, cur, i := cur, cur.next, i + 1;
      }
    }

    /** `wm_freelist_take`. */
    method Take(n: nat) returns (at: nat, found: bool)
      requires Valid()
      modifies this, nodes
      ensures Valid() && forall x :: x in nodes ==> x in old(nodes)
      ensures var rs, k := old(Ranges()), BestFit(old(Ranges()), n, 0, -1);
        if 0 <= k < |rs| && n <= rs[k].len then found && at == rs[k].at && Ranges() == Trim(rs, k, n)
        else !found && Ranges() == rs
    {
      hide Valid, Without;
      TakeFits(Ranges(), n);
      var best, prev, k := FindFit(n);
      if best == null {
        return 0, false;
      }
      assert Ranges()[k] == Range(best.at, best.len);
      at, found := best.at, true;
      if best.len == n {
        Unlink(prev, best, k);
      } else {
        Resize(best, k, best.at + n, best.len - n);
      }
    }

    /** `Below`, by walking the list: the first node at or past `at`, and the one before it. */
    method FindGap(at: nat) returns (prev: Node?, cur: Node?, ghost k: nat)
      requires Valid()
      ensures k == Below(Ranges(), at, 0) && k <= |nodes|
      ensures cur == NodeAt(k) && prev == (if k > 0 then nodes[k - 1] else null)
    {
      ghost var rs := Ranges();
      prev, cur, k := null, head, 0;
      while cur != null && cur.at < at
        invariant 0 <= k <= |nodes|
        invariant cur == NodeAt(k) && prev == (if k > 0 then nodes[k - 1] else null)
        invariant Below(rs, at, 0) == Below(rs, at, k)
        decreases |nodes| - k
      {
        assert rs[k] == Range(cur.at, cur.len) && Linked(k);
        prev, cur, k := cur, cur.next, k + 1;
      }
      assert k < |nodes| ==> rs[k] == Range(nodes[k].at, nodes[k].len);
    }

    /** Links a new node in before index `k`. */
    method Link(prev: Node?, r: Range, ghost k: nat)
      requires Valid() && k <= |nodes| && prev == (if k > 0 then nodes[k - 1] else null)
      modifies this, nodes
      ensures Valid() && Ranges() == Insert(old(Ranges()), k, r)
      ensures forall x :: x in nodes ==> x in old(nodes) || fresh(x)
    {
      assert k > 0 ==> Linked(k - 1);
      var node := new Node(r.at, r.len, if prev == null then head else prev.next);
      if prev == null {
        head := node;
      } else {
        prev.next := node;
      }
      nodes := nodes[..k] + [node] + nodes[k..];
      forall i: nat | i < |nodes|
        ensures Linked(i) && Range(nodes[i].at, nodes[i].len) == Insert(old(Ranges()), k, r)[i]
      {
        if i != k {
          InsertAt(old(Ranges()), k, r, i);
          assert old(Linked(if i < k then i else i - 1));
        }
      }
    }

    /** `wm_freelist_release`. */
    method Release(at: nat, len: nat, heapOk: bool) returns (ok: bool)
      requires Valid()
      modifies this, nodes
      ensures Valid() && forall x :: x in nodes ==> x in old(nodes) || fresh(x)
      ensures (Ranges(), ok) == VaRanges.Release(old(Ranges()), Range(at, len), heapOk)
    {
      hide Valid, Without, Insert;
      if len == 0 {
        return true;
      }
      var prev, cur, k := FindGap(at);
      NodesMatch(k);
      var withPrev := prev != null && prev.at + prev.len == at;
      var withNext := cur != null && at + len == cur.at;
      if withPrev && withNext {
        var more := len + cur.len;
        Unlink(prev, cur, k);
        AfterUnlink(k);
        Resize(prev, k - 1, prev.at, prev.len + more);
      } else if withPrev {
        Resize(prev, k - 1, prev.at, prev.len + len);
      } else if withNext {
        Resize(cur, k, at, cur.len + len);
      } else if heapOk {
        Link(prev, Range(at, len), k);
      } else {
        return false;
      }
      return true;
    }

    /** The ranges around index `k`, in the nodes and in the list. */
    lemma NodesMatch(k: nat)
      requires k <= |nodes|
      ensures k < |nodes| ==> Ranges()[k] == Range(nodes[k].at, nodes[k].len)
      ensures k > 0 ==> Ranges()[k - 1] == Range(nodes[k - 1].at, nodes[k - 1].len)
    {}

    twostate lemma AfterUnlink(k: nat)
      requires 0 < k < old(|nodes|) && nodes == old(nodes[..k] + nodes[k + 1..])
      requires Ranges() == Without(old(Ranges()), k)
      ensures |nodes| == old(|nodes|) - 1 && nodes[k - 1] == old(nodes[k - 1])
      ensures nodes[k - 1].at == old(nodes[k - 1].at) && nodes[k - 1].len == old(nodes[k - 1].len)
    {
      assert Ranges()[k - 1] == Range(nodes[k - 1].at, nodes[k - 1].len);
      assert old(Ranges()[k - 1] == Range(nodes[k - 1].at, nodes[k - 1].len));
    }

    /** `vma_insert_sorted`. */
    method InsertSorted(at: nat, len: nat)
      requires Valid()
      modifies this, nodes
      ensures Valid() && forall x :: x in nodes ==> x in old(nodes) || fresh(x)
      ensures Below(old(Ranges()), at, 0) <= old(|nodes|)
      ensures Ranges() == Insert(old(Ranges()), Below(old(Ranges()), at, 0), Range(at, len))
    {
      hide Valid, Insert;
      var prev, _, k := FindGap(at);
      Link(prev, Range(at, len), k);
    }

    /** The detaching part of `address_space_munmap`. */
    method Remove(at: nat) returns (ok: bool)
      requires Valid()
      modifies this, nodes
      ensures Valid() && forall x :: x in nodes ==> x in old(nodes)
      ensures var rs, k := old(Ranges()), FindAt(old(Ranges()), at, 0);
        if k < |rs| then ok && Ranges() == Without(rs, k) else !ok && Ranges() == rs
    {
      var prev, cur, k := FindStart(at);
      if cur == null {
        return false;
      }
      Unlink(prev, cur, k);
      return true;
    }

    method FindStart(at: nat) returns (prev: Node?, cur: Node?, ghost k: nat)
      requires Valid()
      ensures k == FindAt(Ranges(), at, 0) && k <= |nodes|
      ensures cur == NodeAt(k) && prev == (if k > 0 then nodes[k - 1] else null)
    {
      ghost var rs := Ranges();
      prev, cur, k := null, head, 0;
      while cur != null && cur.at != at
        invariant 0 <= k <= |nodes|
        invariant cur == NodeAt(k) && prev == (if k > 0 then nodes[k - 1] else null)
        invariant FindAt(rs, at, 0) == FindAt(rs, at, k)
        decreases |nodes| - k
      {
        assert rs[k] == Range(cur.at, cur.len) && Linked(k);
        prev, cur, k := cur, cur.next, k + 1;
      }
      assert k < |nodes| ==> rs[k] == Range(nodes[k].at, nodes[k].len);
    }

    /** `vma_find`: the mmap that contains page `p`, if any. */
    method Find(p: nat) returns (found: bool, at: nat)
      requires Valid()
      ensures var k := VmaFind(Ranges(), p, 0);
        if 0 <= k < |nodes| then found && at == Ranges()[k].at else !found
    {
      ghost var rs := Ranges();
      var cur := head;
      ghost var k := 0;
      while cur != null
        invariant 0 <= k <= |nodes| && cur == NodeAt(k)
        invariant VmaFind(rs, p, 0) == VmaFind(rs, p, k)
        decreases |nodes| - k
      {
        assert rs[k] == Range(cur.at, cur.len) && Linked(k);
        if cur.at <= p < cur.at + cur.len {
          return true, cur.at;
        }
        if cur.at > p {
          return false, 0;
        }
        cur, k := cur.next, k + 1;
      }
      return false, 0;
    }
  }

  /** The address-related fields of one address space. */
  class AddressRanges {
    var brk: nat
    const free: RangeList
    const vmas: RangeList
    var win: set<nat>              // pages whose descriptor carries the window bit

    ghost predicate Valid()
      reads free, free.nodes, vmas, vmas.nodes
    {
      && free != vmas && free.Valid() && vmas.Valid()
      && (forall x :: x in free.nodes ==> x !in vmas.nodes)
    }

    ghost function State(): Space
      reads this, free, free.nodes, vmas, vmas.nodes
    {
      Space(brk, free.Ranges(), vmas.Ranges(), win)
    }

    /** The address fields of `address_space_create`. */
    constructor ()
      ensures Valid() && State() == FRESH && fresh(free) && fresh(vmas)
    {
      brk, win := MMAP_BASE, {};
      free := new RangeList();
      vmas := new RangeList();
    }

    /** `address_space_mmap_anon` and `address_space_mmap_ramfs`. */
    method Map(pages: nat, heapOk: bool) returns (at: nat)
      requires Valid()
      modifies `brk, vmas, vmas.nodes
      ensures Valid() && (State(), at) == WindowVa.Mmap(old(State()), pages, heapOk)
    {
      var len := pages % PAGES64;
      if pages == 0 || brk + len > MMAP_MAX {
        return 0;
      }
      at := brk;
      brk := brk + len;
      if at == 0 || !heapOk {
        brk := brk - len;
        return 0;
      }
      label before:
      vmas.InsertSorted(at, len);
      free.Untouched@before();
    }

    /** `address_space_munmap`. */
    method Unmap(at: nat) returns (ok: bool)
      requires Valid()
      modifies vmas, vmas.nodes
      ensures Valid() && (State(), ok) == WindowVa.Munmap(old(State()), at)
    {
      FindAtBounds(vmas.Ranges(), at, 0);
      ok := vmas.Remove(at);
      free.Untouched();
    }

    /** The addresses for a window. */
    method Reserve(pages: nat) returns (base: nat, reused: bool)
      requires Valid()
      modifies `brk, free, free.nodes
      ensures Valid() && (State(), base, reused) == WindowVa.Reserve(old(State()), pages)
      ensures forall x :: x in free.nodes ==> x in old(free.nodes)
    {
      hide BestFit, Trim;
      ghost var was := State();
      TakeIsReserve(was, pages);
      base, reused := free.Take(pages);
      vmas.Untouched();
      if !reused {
        if brk + pages > MMAP_MAX {
          return 0, false;
        }
        base, brk := brk, brk + pages;
      }
    }

    /** `address_space_install_wm_window`; mapping page `failAt` of the window fails. */
    method InstallWindow(pages: nat, failAt: nat, heapOk: bool) returns (at: nat)
      requires Valid() && Inv(State())
      modifies `brk, `win, free, free.nodes
      ensures Valid() && (State(), at) == WindowVa.Install(old(State()), pages, failAt >= pages, heapOk)
    {
      hide Valid, WindowVa.Reserve, VaRanges.Release, Inv;
      if pages == 0 {
        return 0;
      }
      ghost var was := State();
      ReserveKeeps(was, pages);
      var base, reused := Reserve(pages);
      if base == 0 {
        return 0;
      }
      assert forall p: nat :: InRange(Range(base, pages), p) ==> p !in was.win;
      var mapped := MapPages(base, pages, failAt);
      if mapped {
        return base;
      }
      if reused {
        assert forall i :: 0 <= i < |free.nodes| ==> free.nodes[i] in old(free.nodes);
        GiveBack(base, pages, heapOk);
      } else {
        brk := brk - pages;
      }
      return 0;
    }

    /** Marks the pages one by one, and unmarks them again if one cannot be mapped. */
    method MapPages(base: nat, pages: nat, failAt: nat) returns (mapped: bool)
      requires forall p: nat :: InRange(Range(base, pages), p) ==> p !in win
      modifies `win
      ensures mapped <==> failAt >= pages
      ensures win == if mapped then old(win) + PagesOf(Range(base, pages)) else old(win)
    {
      var i := 0;
      while i < pages && i != failAt
        invariant 0 <= i <= pages && (i <= failAt || failAt >= pages)
        invariant win == old(win) + PagesOf(Range(base, i))
      {
        MorePages(base, i);
        win := win + {base + i};
        i := i + 1;
      }
      if i == pages {
        return true;
      }
      while i > 0
        invariant 0 <= i <= pages && win == old(win) + PagesOf(Range(base, i))
      {
        i := i - 1;
        MorePages(base, i);
        assert InRange(Range(base, pages), base + i);
        win := win - {base + i};
      }
      return false;
    }

    method GiveBack(base: nat, pages: nat, heapOk: bool)
      requires Valid()
      modifies free, free.nodes
      ensures Valid() && State() == old(State()).(free := VaRanges.Release(old(State()).free, Range(base, pages), heapOk).0)
    {
      hide VaRanges.Release;
      var _ := free.Release(base, pages, heapOk);
      vmas.Untouched();
    }

    /** `address_space_uninstall_wm_window`: all pages are checked before any is changed. */
    method UninstallWindow(at: nat, pages: nat, heapOk: bool) returns (ok: bool)
      requires Valid()
      modifies `win, free, free.nodes
      ensures Valid() && (State(), ok) == WindowVa.Uninstall(old(State()), at, pages, heapOk)
    {
      hide VaRanges.Release;
      if pages == 0 {
        return false;
      }
      var i := 0;
      while i < pages
        invariant 0 <= i <= pages && PagesOf(Range(at, i)) <= win
        modifies {}
      {
        if at + i !in win {
          assert at + i in PagesOf(Range(at, pages)) by { assert InRange(Range(at, pages), at + i); }
          return false;
        }
        MorePages(at, i);
        i := i + 1;
      }
      i := 0;
      while i < pages
        invariant 0 <= i <= pages && win == old(win) - PagesOf(Range(at, i))
        modifies `win
      {
        MorePages(at, i);
        win := win - {at + i};
        i := i + 1;
      }
      GiveBack(at, pages, heapOk);
      return true;
    }
  }

  lemma {:induction false} FindAtBounds(rs: seq<Range>, at: nat, i: nat)
    requires i <= |rs|
    ensures FindAt(rs, at, i) <= |rs|
    decreases |rs| - i
  {
    if i < |rs| && rs[i].at != at {
      FindAtBounds(rs, at, i + 1);
    }
  }

  lemma TakeIsReserve(s: Space, n: nat)
    ensures var k := BestFit(s.free, n, 0, -1);
      Reserve(s, n) == if 0 <= k < |s.free| && n <= s.free[k].len then (s.(free := Trim(s.free, k, n)), s.free[k].at, true)
                       else (Bump(s, n).0, Bump(s, n).1, false)
  {}

  lemma MorePages(base: nat, i: nat)
    ensures PagesOf(Range(base, i + 1)) == PagesOf(Range(base, i)) + {base + i}
    ensures base + i !in PagesOf(Range(base, i))
  {}
}

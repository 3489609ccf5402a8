/** Anonymous pipes (kernel/core/pipe.c): a ring of 4096 bytes between blocking readers and
    writers. */
module Pipe {
  import opened Bytes

  const PIPE_BUF_SIZE: nat := 4096
  const EPIPE: int := 32
  const EINTR: int := 4
  const ETIMEDOUT: int := 110

  /** The bytes in the ring, oldest first, and the open ends. */
  datatype Channel = Channel(ring: seq<byte>, rRefs: nat, wRefs: nat)

  /** A call under way, or its result. A reader remembers whether it has been blocked. */
  datatype Call =
    | Reading(len: nat, woken: bool)
    | Writing(src: seq<byte>, written: nat)
    | Returned(rc: int)

  /** One stretch of a call up to where it may be switched away: the channel, the call, and the
      bytes it moved. `sig` tells that a signal is pending, `late` that the deadline has passed. */
  function ReadStep(p: Channel, len: nat, woken: bool, sig: bool, late: bool): (Channel, Call, seq<byte>) {
    if len == 0 then (p, Returned(0), [])
    else if p.ring == [] then
      if woken && sig then (p, Returned(-EINTR), [])
      else if p.wRefs == 0 then (p, Returned(0), [])
      else if late then (p, Returned(-ETIMEDOUT), [])
      else (p, Reading(len, true), [])
    else
      var n := if len < |p.ring| then len else |p.ring|;
      (p.(ring := p.ring[n..]), Returned(n), p.ring[..n])
  }

  function WriteStep(p: Channel, src: seq<byte>, written: nat, late: bool): (Channel, Call, seq<byte>)
    requires written <= |src| && |p.ring| <= PIPE_BUF_SIZE
  {
    if written == |src| then (p, Returned(written), [])
    else if p.rRefs == 0 then (p, Returned(if written > 0 then written else -EPIPE), [])
    else if |p.ring| == PIPE_BUF_SIZE then
      (p, if late then Returned(if written > 0 then written else -ETIMEDOUT) else Writing(src, written), [])
    else
      var room := PIPE_BUF_SIZE - |p.ring|;
      var want := if |src| - written > room then room else |src| - written;
      (p.(ring := p.ring + src[written..written + want]), Writing(src, written + want), src[written..written + want])
  }

  // ---------- any number of callers ----------

  datatype Event = Sent(who: nat, bytes: seq<byte>) | Got(who: nat, bytes: seq<byte>)

  /** The channel, the calls of all threads, and what was moved so far. */
  datatype System = System(p: Channel, calls: seq<Call>, log: seq<Event>)

  datatype Action =
    | Resume(k: nat, sig: bool, late: bool)
    | CloseRead
    | CloseWrite

  function Act(s: System, a: Action): System
    requires SysOk(s)
  {
    match a
    case CloseRead => s.(p := s.p.(rRefs := if s.p.rRefs > 0 then s.p.rRefs - 1 else 0))
    case CloseWrite => s.(p := s.p.(wRefs := if s.p.wRefs > 0 then s.p.wRefs - 1 else 0))
    case Resume(k, sig, late) =>
      if k >= |s.calls| then s
      else
        match s.calls[k]
        case Returned(_) => s
        case Reading(len, woken) =>
          var (p, c, bs) := ReadStep(s.p, len, woken, sig, late);
          System(p, s.calls[k := c], s.log + [Got(k, bs)])
        case Writing(src, written) =>
          var (p, c, bs) := WriteStep(s.p, src, written, late);
          System(p, s.calls[k := c], s.log + [Sent(k, bs)])
  }

  predicate SysOk(s: System) {
    && |s.p.ring| <= PIPE_BUF_SIZE
    && forall k :: 0 <= k < |s.calls| && s.calls[k].Writing? ==> s.calls[k].written <= |s.calls[k].src|
  }

  /** All bytes put in, in order. */
  function Accepted(log: seq<Event>): seq<byte> {
    if log == [] then []
    else Accepted(log[..|log| - 1]) + (if log[|log| - 1].Sent? then log[|log| - 1].bytes else [])
  }

  /** All bytes taken out, in order. */
  function Delivered(log: seq<Event>): seq<byte> {
    if log == [] then []
    else Delivered(log[..|log| - 1]) + (if log[|log| - 1].Got? then log[|log| - 1].bytes else [])
  }

  /** The bytes call `k` moved. */
  function MovedBy(log: seq<Event>, k: nat): seq<byte> {
    if log == [] then []
    else MovedBy(log[..|log| - 1], k) + (if log[|log| - 1].who == k then log[|log| - 1].bytes else [])
  }

  lemma LogMore(log: seq<Event>, e: Event)
    ensures Accepted(log + [e]) == Accepted(log) + (if e.Sent? then e.bytes else [])
    ensures Delivered(log + [e]) == Delivered(log) + (if e.Got? then e.bytes else [])
    ensures forall k: nat :: MovedBy(log + [e], k) == MovedBy(log, k) + (if e.who == k then e.bytes else [])
  {
    assert (log + [e])[..|log + [e]| - 1] == log;
  }

  /** What a call has moved: nothing while it reads, the start of its buffer while it writes, as
      many bytes as it returns, and none if it fails. */
  predicate Accounted(c: Call, moved: seq<byte>) {
    match c
    case Reading(_, _) => moved == []
    case Writing(src, written) => written <= |src| && moved == src[..written]
    case Returned(rc) => |moved| == if rc > 0 then rc else 0
  }

  ghost predicate Fifo(s: System) {
    && SysOk(s)
    && Delivered(s.log) + s.p.ring == Accepted(s.log)
    && forall k: nat :: k < |s.calls| ==> Accounted(s.calls[k], MovedBy(s.log, k))
  }

  /** A stretch of a read takes its bytes from the front of the ring. */
  lemma ReadMoves(p: Channel, len: nat, woken: bool, sig: bool, late: bool)
    ensures var (q, c, bs) := ReadStep(p, len, woken, sig, late);
      bs + q.ring == p.ring && Accounted(c, bs) && !c.Writing?
  {}

  /** A stretch of a write adds the next bytes of its buffer at the end of the ring. */
  lemma WriteMoves(p: Channel, src: seq<byte>, written: nat, late: bool)
    requires written <= |src| && |p.ring| <= PIPE_BUF_SIZE
    ensures var (q, c, bs) := WriteStep(p, src, written, late);
      && q.ring == p.ring + bs && |q.ring| <= PIPE_BUF_SIZE
      && Accounted(c, src[..written] + bs)
      && (c.Writing? ==> c.written <= |c.src|)
  {}

  lemma CallMoved(s: System, k: nat, q: Channel, c: Call, e: Event)
    requires Fifo(s) && k < |s.calls| && e.who == k && |q.ring| <= PIPE_BUF_SIZE
    requires if e.Sent? then q.ring == s.p.ring + e.bytes else e.bytes + q.ring == s.p.ring
    requires Accounted(c, MovedBy(s.log, k) + e.bytes) && (c.Writing? ==> c.written <= |c.src|)
    ensures Fifo(System(q, s.calls[k := c], s.log + [e]))
  {
    hide Accepted, Delivered, MovedBy, Accounted;
    LogMore(s.log, e);
    var t := System(q, s.calls[k := c], s.log + [e]);
    forall j: nat | j < |t.calls|
      ensures Accounted(t.calls[j], MovedBy(t.log, j))
    {
      assert Accounted(s.calls[j], MovedBy(s.log, j));
      if j != k {
        assert MovedBy(t.log, j) == MovedBy(s.log, j) + [] == MovedBy(s.log, j);
      }
    }
    if e.Sent? {
      assert Delivered(s.log) + (s.p.ring + e.bytes) == Delivered(s.log) + s.p.ring + e.bytes;
    } else {
      assert Delivered(s.log) + e.bytes + q.ring == Delivered(s.log) + (e.bytes + q.ring);
    }
  }

  lemma ActKeeps(s: System, a: Action)
    requires Fifo(s)
    ensures Fifo(Act(s, a)) && |Act(s, a).calls| == |s.calls|
  {
    hide Accepted, Delivered, MovedBy, ReadStep, WriteStep;
    if a.Resume? && a.k < |s.calls| {
      var k := a.k;
      assert Accounted(s.calls[k], MovedBy(s.log, k));
      match s.calls[k]
      case Returned(_) =>
      case Reading(len, woken) =>
        ReadMoves(s.p, len, woken, a.sig, a.late);
        var (q, c, bs) := ReadStep(s.p, len, woken, a.sig, a.late);
        assert MovedBy(s.log, k) + bs == bs;
        CallMoved(s, k, q, c, Got(k, bs));
      case Writing(src, written) =>
        WriteMoves(s.p, src, written, a.late);
        var (q, c, bs) := WriteStep(s.p, src, written, a.late);
        CallMoved(s, k, q, c, Sent(k, bs));
    }
  }

  function Run(s: System, acts: seq<Action>): System
    requires Fifo(s)
    decreases |acts|
  {
    if acts == [] then s
    else
      ActKeeps(s, acts[0]);
      Run(Act(s, acts[0]), acts[1..])
  }

  /** Over any interleaving of readers, writers and closes, bytes come out in the order they went
      in and none is lost: what was read, followed by what is in the ring, is what was written. A
      call returns exactly the number of bytes it moved, and a failed call moved none. */
  lemma {:induction false} PipeIsFifo(s: System, acts: seq<Action>)
    requires Fifo(s)
    ensures Fifo(Run(s, acts)) && |Run(s, acts).calls| == |s.calls|
    decreases |acts|
  {
    hide Act, Accepted, Delivered, MovedBy, Accounted;
    if acts != [] {
      ActKeeps(s, acts[0]);
      PipeIsFifo(Act(s, acts[0]), acts[1..]);
    }
  }

  /** `pipe_alloc`, before any call moved a byte. */
  lemma NewPipe(calls: seq<Call>)
    requires forall k :: 0 <= k < |calls| ==> !calls[k].Returned? && (calls[k].Writing? ==> calls[k].written == 0)
    ensures Fifo(System(Channel([], 1, 1), calls, []))
  {}

  /** A read of a nonempty buffer ends with 0 only at the end of the stream. */
  lemma EndOfStream(p: Channel, len: nat, woken: bool, sig: bool, late: bool)
    requires len > 0
    ensures ReadStep(p, len, woken, sig, late).1 == Returned(0) <==> p.ring == [] && p.wRefs == 0 && !(woken && sig)
    ensures ReadStep(p, len, woken, sig, late).1.Reading? ==> p.ring == [] && p.wRefs > 0
  {}

  /** A call that has returned stays as it is, and a pipe without writers gets none. */
  lemma {:induction false} Settled(s: System, acts: seq<Action>, k: nat)
    requires Fifo(s) && k < |s.calls|
    ensures Fifo(Run(s, acts)) && |Run(s, acts).calls| == |s.calls|
    ensures s.calls[k].Returned? ==> Run(s, acts).calls[k] == s.calls[k]
    ensures s.p.wRefs == 0 ==> Run(s, acts).p.wRefs == 0
    decreases |acts|
  {
    hide Fifo, ReadStep, WriteStep;
    PipeIsFifo(s, acts);
    FifoOk(s);
    if acts != [] {
      ActKeeps(s, acts[0]);
      FifoOk(Act(s, acts[0]));
      ActShape(s, acts[0], k);
      Settled(Act(s, acts[0]), acts[1..], k);
    }
  }

  lemma FifoOk(s: System)
    requires Fifo(s)
    ensures SysOk(s)
  {}

  lemma ActShape(s: System, a: Action, k: nat)
    requires SysOk(s) && k < |s.calls|
    ensures var t := Act(s, a);
      && |t.calls| == |s.calls| && (s.p.wRefs == 0 ==> t.p.wRefs == 0)
      && (s.calls[k].Returned? ==> t.calls[k] == s.calls[k])
  {}

  /** What one action does to a reader: it goes on, or returns, and with 0 only at the end. */
  lemma ReaderActs(s: System, a: Action, k: nat)
    requires SysOk(s) && k < |s.calls| && s.calls[k].Reading? && s.calls[k].len > 0
    ensures var t := Act(s, a);
      && |t.calls| == |s.calls|
      && (t.calls[k].Reading? ==> t.calls[k].len == s.calls[k].len)
      && !t.calls[k].Writing?
      && (t.calls[k] == Returned(0) ==> s.p.ring == [] && s.p.wRefs == 0)
  {
    if a.Resume? && a.k == k {
      EndOfStream(s.p, s.calls[k].len, s.calls[k].woken, a.sig, a.late);
    }
  }

  /** End of stream, over any interleaving: a read of a nonempty buffer that returns 0 met, at some
      moment of the run, an empty ring with no writer left; and no writer comes back. */
  lemma {:induction false} StreamEnds(s: System, acts: seq<Action>, k: nat) returns (j: nat)
    requires Fifo(s) && k < |s.calls| && s.calls[k].Reading? && s.calls[k].len > 0
    requires Fifo(Run(s, acts)) && |Run(s, acts).calls| == |s.calls| && Run(s, acts).calls[k] == Returned(0)
    ensures j <= |acts| && Fifo(Run(s, acts[..j]))
    ensures Run(s, acts[..j]).p.ring == [] && Run(s, acts[..j]).p.wRefs == 0
    ensures Run(s, acts).p.wRefs == 0
    decreases |acts|
  {
    hide Fifo, Act, ReadStep, WriteStep;
    FifoOk(s);
    assert acts != [];
    var t := Act(s, acts[0]);
    ActKeeps(s, acts[0]);
    ReaderActs(s, acts[0], k);
    ActShape(s, acts[0], k);
    Settled(t, acts[1..], k);
    if t.calls[k].Reading? {
      var i := StreamEnds(t, acts[1..], k);
      j := i + 1;
      assert acts[..j][0] == acts[0] && acts[..j][1..] == acts[1..][..j - 1];
    } else {
      j := 0;
      assert acts[..0] == [];
    }
  }

  // ---------- how a call ends ----------

  /** The same call, not returned yet. */
  predicate SameCall(c: Call, d: Call) {
    (c.Reading? && d.Reading? && d.len == c.len) || (c.Writing? && d.Writing? && d.src == c.src)
  }

  lemma ActOnCall(s: System, a: Action, k: nat)
    requires SysOk(s) && k < |s.calls| && !s.calls[k].Returned?
    ensures var t := Act(s, a);
      && |t.calls| == |s.calls|
      && if t.calls[k].Returned? then a.Resume? && a.k == k else SameCall(s.calls[k], t.calls[k])
  {}

  lemma SameCallTrans(a: Call, b: Call, c: Call)
    requires SameCall(a, b) && SameCall(b, c)
    ensures SameCall(a, c)
  {}

  /** A call that has returned by the end of a run returned at one of its actions. */
  lemma {:induction false} ReturnStep(s: System, acts: seq<Action>, k: nat) returns (j: nat)
    requires Fifo(s) && k < |s.calls| && !s.calls[k].Returned?
    requires |Run(s, acts).calls| == |s.calls| && Run(s, acts).calls[k].Returned?
    ensures j < |acts| && acts[j].Resume? && acts[j].k == k
    ensures var u := Run(s, acts[..j]);
      && Fifo(u) && SysOk(u) && |u.calls| == |s.calls| == |Act(u, acts[j]).calls|
      && SameCall(s.calls[k], u.calls[k]) && Act(u, acts[j]).calls[k] == Run(s, acts).calls[k]
    decreases |acts|
  {
    hide Fifo, Act, SameCall;
    FifoOk(s);
    assert acts != [];
    var t := Act(s, acts[0]);
    ActKeeps(s, acts[0]);
    ActOnCall(s, acts[0], k);
    if t.calls[k].Returned? {
      j := 0;
      assert acts[..0] == [];
      Settled(t, acts[1..], k);
      SameCallRefl(s.calls[k]);
    } else {
      var i := ReturnStep(t, acts[1..], k);
      j := i + 1;
      assert acts[..j][0] == acts[0] && acts[..j][1..] == acts[1..][..j - 1];
      SameCallTrans(s.calls[k], t.calls[k], Run(t, acts[1..][..j - 1]).calls[k]);
    }
  }

  lemma SameCallRefl(c: Call)
    requires !c.Returned?
    ensures SameCall(c, c)
  {}

  /** How a read of a nonempty buffer ends, over any interleaving. At the moment it returned: a
      positive result is the smaller of its length and the bytes in the ring, and those were the
      oldest; any other result met an empty ring, and was 0 with no writer left, or that a signal
      interrupted it, or that its deadline had passed while there was a writer. */
  lemma ReadEnds(s: System, acts: seq<Action>, k: nat) returns (j: nat)
    requires Fifo(s) && k < |s.calls| && s.calls[k].Reading? && s.calls[k].len > 0
    requires |Run(s, acts).calls| == |s.calls| && Run(s, acts).calls[k].Returned?
    ensures j < |acts| && acts[j].Resume? && acts[j].k == k && Fifo(Run(s, acts[..j]))
    ensures var (p, len, rc) := (Run(s, acts[..j]).p, s.calls[k].len, Run(s, acts).calls[k].rc);
      if p.ring != [] then
        && rc == (if len <= |p.ring| then len else |p.ring|)
        && Act(Run(s, acts[..j]), acts[j]).p.ring == p.ring[rc..]
        && Act(Run(s, acts[..j]), acts[j]).log == Run(s, acts[..j]).log + [Got(k, p.ring[..rc])]
      else
        || (rc == 0 && p.wRefs == 0)
        || (rc == -EINTR && acts[j].sig)
        || (rc == -ETIMEDOUT && acts[j].late && p.wRefs > 0)
  {
    hide Fifo;
    j := ReturnStep(s, acts, k);
  }

  /** How a write ends: with its whole buffer in the pipe; or short, and then at that moment no
      reader was left or, with the ring full, its deadline had passed, and its result is what it had
      written by then or, if that is nothing, the error for it. */
  lemma WriteEnds(s: System, acts: seq<Action>, k: nat) returns (j: nat)
    requires Fifo(s) && k < |s.calls| && s.calls[k].Writing?
    requires |Run(s, acts).calls| == |s.calls| && Run(s, acts).calls[k].Returned?
    ensures j < |acts| && acts[j].Resume? && acts[j].k == k && Fifo(Run(s, acts[..j]))
    ensures var (p, src, rc) := (Run(s, acts[..j]).p, s.calls[k].src, Run(s, acts).calls[k].rc);
      || rc == |src|
      || (rc < |src| && p.rRefs == 0 && (rc > 0 || rc == -EPIPE))
      || (rc < |src| && p.rRefs > 0 && |p.ring| == PIPE_BUF_SIZE && acts[j].late && (rc > 0 || rc == -ETIMEDOUT))
  {
    hide Fifo;
    j := ReturnStep(s, acts, k);
  }

  // ---------- the ring in memory ----------

  /** The index `j` places after `h`, wrapping at the end. */
  function Pos(h: nat, j: nat): (r: nat)
    ensures r < PIPE_BUF_SIZE
  {
    (h + j) % PIPE_BUF_SIZE
  }

  class Ring {
    const buf: array<byte>
    var head: nat
    var tail: nat
    var count: nat
    var rRefs: nat
    var wRefs: nat

    ghost predicate Valid()
      reads this
    {
      buf.Length == PIPE_BUF_SIZE && head < PIPE_BUF_SIZE && count <= PIPE_BUF_SIZE && tail == Pos(head, count)
    }

    ghost function Contents(): (s: seq<byte>)
      requires Valid()
      reads this, buf
      ensures |s| == count
    {
      seq(count, (i: nat) requires i < count reads this, buf requires Valid() => buf[Pos(head, i)])
    }

    ghost function State(): Channel
      requires Valid()
      reads this, buf
    {
      Channel(Contents(), rRefs, wRefs)
    }

    /** `pipe_alloc`. */
    constructor ()
      ensures Valid() && fresh(buf) && State() == Channel([], 1, 1)
    {
      buf := new byte[PIPE_BUF_SIZE](_ => 0);
      head, tail, count, rRefs, wRefs := 0, 0, 0, 1, 1;
      new;
      assert Contents() == [];
    }

    /** `pipe_unref` for a reader; `gone` tells that both ends are closed and the pipe is freed. */
    method UnrefReader() returns (gone: bool)
      requires Valid()
      modifies `rRefs
      ensures Valid() && State() == old(State()).(rRefs := if old(rRefs) > 0 then old(rRefs) - 1 else 0)
      ensures gone <==> rRefs == 0 && wRefs == 0
    {
      if rRefs > 0 {
        rRefs := rRefs - 1;
      }
      gone := rRefs == 0 && wRefs == 0;
    }

    /** `pipe_unref` for a writer. */
    method UnrefWriter() returns (gone: bool)
      requires Valid()
      modifies `wRefs
      ensures Valid() && State() == old(State()).(wRefs := if old(wRefs) > 0 then old(wRefs) - 1 else 0)
      ensures gone <==> rRefs == 0 && wRefs == 0
    {
      if wRefs > 0 {
        wRefs := wRefs - 1;
      }
      gone := rRefs == 0 && wRefs == 0;
    }

    /** The copy loop of `pipe_read_until`. */
    method Drain(n: nat) returns (dst: seq<byte>)
      requires Valid() && n <= count
      modifies `head, `count
      ensures Valid() && dst == old(Contents())[..n] && Contents() == old(Contents())[n..]
    {
      dst := [];
      ghost var h := head;
      for i := 0 to n
        invariant head == Pos(h, i) && count == old(count) && Valid() == (tail == Pos(head, count))
        invariant dst == old(Contents())[..i]
      {
        Around(h, i);
        assert old(Contents())[i] == buf[Pos(h, i)];
        dst := dst + [buf[head]];
        head := (head + 1) % PIPE_BUF_SIZE;
      }
      count := count - n;
      Shift(h, n, count);
      forall j: nat | j < count
        ensures Contents()[j] == old(Contents())[n + j]
      {
        Shift(h, n, j);
      }
    }

    /** The copy loop of `pipe_write_until`. */
    method Fill(src: seq<byte>)
      requires Valid() && |src| <= PIPE_BUF_SIZE - count
      modifies buf, `tail, `count
      ensures Valid() && Contents() == old(Contents()) + src
    {
      ghost var c, was := count, Contents();
      hide Pos;
      for i := 0 to |src|
        invariant head == old(head) && count == c && buf.Length == PIPE_BUF_SIZE && tail == Pos(head, c + i)
        invariant forall j: nat :: j < c + i ==> buf[Pos(head, j)] == Filled(was, src, j)
      {
        Around(head, c + i);
        label before:
        buf[tail] := src[i];
        forall j: nat | j < c + i + 1
          ensures buf[Pos(head, j)] == Filled(was, src, j)
        {
          if j < c + i {
            Apart(head, j, c + i);
            assert old@before(buf[Pos(head, j)]) == Filled(was, src, j);
          }
        }
        tail := (tail + 1) % PIPE_BUF_SIZE;
      }
      count := count + |src|;
      forall j: nat | j < count
        ensures Contents()[j] == (was + src)[j]
      {
        assert buf[Pos(head, j)] == Filled(was, src, j);
      }
    }

    /** `pipe_read_until` up to its next blocking point. */
    method Read(len: nat, woken: bool, sig: bool, late: bool) returns (c: Call, dst: seq<byte>)
      requires Valid()
      modifies `head, `count
      ensures Valid() && (State(), c, dst) == ReadStep(old(State()), len, woken, sig, late)
    {
      dst := [];
      if len == 0 {
        return Returned(0), [];
      }
      if count == 0 {
        c := if woken && sig then Returned(-EINTR)
             else if wRefs == 0 then Returned(0)
             else if late then Returned(-ETIMEDOUT)
             else Reading(len, true);
        return;
      }
      var n := if len < count then len else count;
      dst := Drain(n);
      c := Returned(n);
    }

    /** One turn of the loop of `pipe_write_until`. */
    method Write(src: seq<byte>, written: nat, late: bool) returns (c: Call, ghost moved: seq<byte>)
      requires Valid() && written <= |src|
      modifies buf, `tail, `count
      ensures Valid() && (State(), c, moved) == WriteStep(old(State()), src, written, late)
    {
      moved := [];
      if written == |src| {
        return Returned(written), [];
      }
      if rRefs == 0 {
        return Returned(if written > 0 then written else -EPIPE), [];
      }
      if count == PIPE_BUF_SIZE {
        c := if late then Returned(if written > 0 then written else -ETIMEDOUT) else Writing(src, written);
        return;
      }
      var room := PIPE_BUF_SIZE - count;
      var want := if |src| - written > room then room else |src| - written;
      Fill(src[written..written + want]);
      moved := src[written..written + want];
      c := Writing(src, written + want);
    }
  }

  function Filled(was: seq<byte>, src: seq<byte>, j: nat): byte
    requires j < |was| + |src|
  {
    if j < |was| then was[j] else src[j - |was|]
  }

  /** Moving on by one, wrapping at the end. */
  lemma Around(h: nat, i: nat)
    ensures (Pos(h, i) + 1) % PIPE_BUF_SIZE == Pos(h, i + 1)
  {}

  lemma Shift(h: nat, n: nat, j: nat)
    ensures Pos(Pos(h, n), j) == Pos(h, n + j)
  {}

  lemma Apart(h: nat, i: nat, j: nat)
    requires i < j < i + PIPE_BUF_SIZE
    ensures Pos(h, i) != Pos(h, j)
  {}
}

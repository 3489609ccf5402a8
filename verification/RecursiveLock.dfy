/** The recursive spinlock of kernel/arch/spinlock.h as a protocol of N processors that interleave
    at every access to shared memory, the load-exclusive and store-exclusive of the gate included. */
module RecursiveLock {
  /** The interrupt mask register: bit I, and the bits no lock touches. */
  datatype Daif = Daif(irqMasked: bool, rest: nat)

  /** Where a processor is: between calls, in `reclock_lock_irqsave` or in
      `reclock_unlock_irqrestore`. */
  datatype Pc =
    | Outside        // between lock calls
    | ReadOwner      // lock: `owner_cpu == self`?
    | ReadDepthUp    // lock, fast path: load of depth
    | WriteDepthUp   // lock, fast path: store of depth + 1
    | LoadGate       // spin_lock: load-exclusive
    | StoreGate      // spin_lock: store-exclusive
    | SetOwner       // lock: owner_cpu = self
    | SetDepth       // lock: depth = 1
    | ReadDepthDown  // unlock: load of depth
    | WriteDepthDown // unlock: store of depth - 1
    | ClearOwner     // unlock: owner_cpu = none
    | OpenGate       // spin_unlock: store-release
    | Restore        // unlock: irq_restore

  /** A processor: its mask, the masks returned by the locks it holds (outermost first), the values
      a call has in registers, and the mask it set for itself while it held no lock. */
  datatype Cpu = Cpu(pc: Pc, daif: Daif, saved: seq<Daif>, f: Daif, tmp: nat, home: Daif)

  datatype Owner = Nobody | By(cpu: nat)

  /** The shared words, the exclusive reservations on the gate, and the processors. */
  datatype State = State(locked: bool, owner: Owner, depth: nat, reserved: set<nat>, cpus: seq<Cpu>)

  /** What a processor between calls does next, and whether a store-exclusive fails for no reason. */
  datatype Choice = Lock | Unlock | SetMask(daif: Daif) | Fail | Go

  function Put(s: State, c: nat, x: Cpu): State
    requires c < |s.cpus|
  {
    s.(cpus := s.cpus[c := x])
  }

  /** Returning from a lock: the mask read on entry is the caller's to keep. */
  function Acquired(x: Cpu): Cpu {
    x.(pc := Outside, saved := x.saved + [x.f])
  }

  /** One step of processor `c`. A call to unlock comes with the mask of the matching lock. */
  function Step(s: State, c: nat, choice: Choice): State
    requires c < |s.cpus|
  {
    var x := s.cpus[c];
    match x.pc
    case Outside =>
      if choice == Lock then Put(s, c, x.(pc := ReadOwner, f := x.daif, daif := x.daif.(irqMasked := true)))
      else if choice == Unlock && x.saved != [] then Put(s, c, x.(pc := ReadDepthDown))
      else if choice.SetMask? && x.saved == [] then Put(s, c, x.(daif := choice.daif, home := choice.daif))
      else s
    case ReadOwner => Put(s, c, x.(pc := if s.owner == By(c) then ReadDepthUp else LoadGate))
    case ReadDepthUp => Put(s, c, x.(pc := WriteDepthUp, tmp := s.depth))
    case WriteDepthUp => Put(s.(depth := x.tmp + 1), c, Acquired(x))
    case LoadGate => Put(s.(reserved := s.reserved + {c}), c, x.(pc := if s.locked then LoadGate else StoreGate))
    case StoreGate =>
      if c in s.reserved && choice != Fail then Put(s.(locked := true, reserved := {}), c, x.(pc := SetOwner))
      else Put(s.(reserved := s.reserved - {c}), c, x.(pc := LoadGate))
    case SetOwner => Put(s.(owner := By(c)), c, x.(pc := SetDepth))
    case SetDepth => Put(s.(depth := 1), c, Acquired(x))
    case ReadDepthDown => Put(s, c, x.(pc := WriteDepthDown, tmp := s.depth))
    case WriteDepthDown =>
      var d := if x.tmp > 0 then x.tmp - 1 else 0xFFFF_FFFF;
      Put(s.(depth := d), c, x.(pc := if d == 0 then ClearOwner else Restore))
    case ClearOwner => Put(s.(owner := Nobody), c, x.(pc := OpenGate))
    case OpenGate => Put(s.(locked := false, reserved := {}), c, x.(pc := Restore))
    case Restore =>
      if x.saved == [] then s
      else Put(s, c, x.(pc := Outside, daif := x.saved[|x.saved| - 1], saved := x.saved[..|x.saved| - 1]))
  }

  // ---------- the invariant ----------

  /** Whether the processor has the gate: from its store-exclusive to its store-release. */
  predicate Holds(x: Cpu) {
    match x.pc
    case LoadGate | StoreGate => false
    case SetOwner | SetDepth | ClearOwner | OpenGate => true
    case Restore => |x.saved| > 1
    case _ => x.saved != []
  }

  /** What a processor's place says about the locks it has. */
  predicate Placed(x: Cpu) {
    match x.pc
    case LoadGate | StoreGate | SetOwner | SetDepth => x.saved == []
    case ReadDepthUp | WriteDepthUp | ReadDepthDown | WriteDepthDown | Restore => x.saved != []
    case ClearOwner | OpenGate => |x.saved| == 1
    case _ => true
  }

  /** What the shared words say to the holder. */
  predicate Owns(s: State, c: nat)
    requires c < |s.cpus|
  {
    var x := s.cpus[c];
    && s.owner == (if x.pc == SetOwner || x.pc == OpenGate then Nobody else By(c))
    && match x.pc
       case SetOwner | SetDepth => true
       case WriteDepthUp | WriteDepthDown => s.depth == |x.saved| == x.tmp
       case ClearOwner | OpenGate => s.depth == 0
       case Restore => s.depth == |x.saved| - 1
       case _ => s.depth == |x.saved|
  }

  /** The masks saved inside an outermost lock are all the masked home mask. */
  predicate Masks(x: Cpu) {
    var masked := x.home.(irqMasked := true);
    && (x.saved != [] ==> x.saved[0] == x.home)
    && (forall i :: 0 < i < |x.saved| ==> x.saved[i] == masked)
    && x.daif == (if x.pc == Outside && x.saved == [] then x.home else masked)
    && (InLock(x.pc) ==> x.f == if x.saved == [] then x.home else masked)
  }

  predicate InLock(pc: Pc) {
    pc in {ReadOwner, ReadDepthUp, WriteDepthUp, LoadGate, StoreGate, SetOwner, SetDepth}
  }

  ghost predicate Inv(s: State) {
    && (forall c :: 0 <= c < |s.cpus| ==> Placed(s.cpus[c]) && Masks(s.cpus[c]))
    && (forall c :: 0 <= c < |s.cpus| && Holds(s.cpus[c]) ==> s.locked && Owns(s, c))
    && (forall c, d :: 0 <= c < d < |s.cpus| ==> !(Holds(s.cpus[c]) && Holds(s.cpus[d])))
    && (s.owner.By? ==> s.owner.cpu < |s.cpus| && Holds(s.cpus[s.owner.cpu]))
    && (s.locked ==> exists c :: 0 <= c < |s.cpus| && Holds(s.cpus[c]))
    && (forall c :: 0 <= c < |s.cpus| && s.cpus[c].pc == StoreGate && c in s.reserved ==> !s.locked)
  }

  /** Every processor outside, the lock as `RECLOCK_INIT` leaves it. */
  predicate Start(s: State) {
    && !s.locked && s.owner == Nobody && s.depth == 0 && s.reserved == {}
    && forall c :: 0 <= c < |s.cpus| ==> s.cpus[c].pc == Outside && s.cpus[c].saved == [] && s.cpus[c].daif == s.cpus[c].home
  }

  lemma StartInv(s: State)
    requires Start(s)
    ensures Inv(s)
  {}

  lemma NoOther(s: State, c: nat, d: nat)
    requires Inv(s) && c < |s.cpus| && d < |s.cpus| && Holds(s.cpus[c]) && d != c
    ensures !Holds(s.cpus[d])
  {}

  lemma OnlyHolder(s: State, c: nat, d: nat)
    requires Inv(s) && c < |s.cpus| && d < |s.cpus| && Holds(s.cpus[c]) && Holds(s.cpus[d])
    ensures c == d
  {}

  /** A step of `c` that leaves the shared words and its claim to the gate as they are. */
  lemma QuietKeeps(s: State, t: State, c: nat, x: Cpu)
    requires Inv(s) && c < |s.cpus| && t == s.(reserved := t.reserved, cpus := s.cpus[c := x])
    requires Holds(x) == Holds(s.cpus[c]) && Placed(x) && Masks(x) && (Holds(x) ==> Owns(t, c))
    requires t.reserved <= s.reserved + {c}
    requires x.pc == StoreGate && c in t.reserved ==> !s.locked
    ensures Inv(t)
  {
    hide Masks, Placed, Holds;
    Unmoved(s, t, c);
    forall d | 0 <= d < |t.cpus| && Holds(t.cpus[d])
      ensures t.locked && Owns(t, d)
    {
      if d != c { OwnsOf(s, t, d); }
    }
    if s.locked {
      HolderStays(s, t, c);
    }
  }

  lemma Unmoved(s: State, t: State, c: nat)
    requires c < |s.cpus| && |t.cpus| == |s.cpus| && t.cpus == s.cpus[c := t.cpus[c]]
    ensures forall d :: 0 <= d < |s.cpus| && d != c ==> t.cpus[d] == s.cpus[d]
  {}

  lemma OwnsOf(s: State, t: State, d: nat)
    requires d < |s.cpus| == |t.cpus| && t.cpus[d] == s.cpus[d] && t.owner == s.owner && t.depth == s.depth && Owns(s, d)
    ensures Owns(t, d)
  {}

  lemma HolderStays(s: State, t: State, c: nat)
    requires c < |s.cpus| == |t.cpus| && Holds(t.cpus[c]) == Holds(s.cpus[c])
    requires forall d :: 0 <= d < |s.cpus| && d != c ==> t.cpus[d] == s.cpus[d]
    requires exists d :: 0 <= d < |s.cpus| && Holds(s.cpus[d])
    ensures exists d :: 0 <= d < |t.cpus| && Holds(t.cpus[d])
  {
    hide Holds;
    var d :| 0 <= d < |s.cpus| && Holds(s.cpus[d]);
    assert Holds(t.cpus[d]);
  }

  /** A step of the holder: nobody else is looking at owner and depth as theirs. */
  lemma HolderKeeps(s: State, t: State, c: nat, x: Cpu)
    requires Inv(s) && c < |s.cpus| && t == s.(owner := t.owner, depth := t.depth, cpus := s.cpus[c := x])
    requires Holds(s.cpus[c]) && Holds(x) && Placed(x) && Masks(x) && Owns(t, c) && x.pc != StoreGate
    ensures Inv(t)
  {
    hide Masks, Placed, Holds;
    Unmoved(s, t, c);
    OwnerIs(t, c);
    forall d: nat | d < |t.cpus| && d != c
      ensures !Holds(t.cpus[d])
    {
      NoOther(s, c, d);
    }
  }

  lemma OwnerIs(t: State, c: nat)
    requires c < |t.cpus| && Owns(t, c)
    ensures t.owner.By? ==> t.owner.cpu == c
  {}

  lemma TakeGate(s: State, c: nat)
    requires Inv(s) && c < |s.cpus| && s.cpus[c].pc == StoreGate && c in s.reserved
    ensures Inv(Step(s, c, Go))
  {
    var t := Step(s, c, Go);
    Unmoved(s, t, c);
    assert !s.locked;
    assert forall d :: 0 <= d < |s.cpus| ==> !Holds(s.cpus[d]);
    assert Holds(t.cpus[c]);
  }

  lemma DropGate(s: State, c: nat)
    requires Inv(s) && c < |s.cpus| && s.cpus[c].pc == OpenGate
    ensures Inv(Step(s, c, Go))
  {
    var t := Step(s, c, Go);
    Unmoved(s, t, c);
    assert Holds(s.cpus[c]) && Owns(s, c);
    forall d: nat | d < |t.cpus|
      ensures !Holds(t.cpus[d])
    {
      if d != c { NoOther(s, c, d); }
    }
  }

  /** Every step of every processor keeps the invariant, whatever the others are in the middle of. */
  lemma StepKeeps(s: State, c: nat, choice: Choice)
    requires Inv(s) && c < |s.cpus|
    ensures Inv(Step(s, c, choice))
  {
    var x := s.cpus[c];
    var t := Step(s, c, choice);
    match x.pc
    case StoreGate =>
      if c in s.reserved && choice != Fail {
        TakeGate(s, c);
      } else {
        QuietKeeps(s, t, c, t.cpus[c]);
      }
    case OpenGate => DropGate(s, c);
    case WriteDepthUp | SetOwner | SetDepth | WriteDepthDown | ClearOwner => HolderStep(s, c, choice);
    case Outside => BetweenCalls(s, c, choice);
    case Restore => LastStep(s, c, choice);
    case ReadOwner | ReadDepthUp | LoadGate | ReadDepthDown => QuietStep(s, c, choice);
  }

  lemma HolderStep(s: State, c: nat, choice: Choice)
    requires Inv(s) && c < |s.cpus| && s.cpus[c].pc in {WriteDepthUp, SetOwner, SetDepth, WriteDepthDown, ClearOwner}
    ensures Inv(Step(s, c, choice))
  {
    var x := s.cpus[c];
    var t := Step(s, c, choice);
    assert Placed(x) && Masks(x) && Holds(x) && Owns(s, c);
    HolderKeeps(s, t, c, t.cpus[c]);
  }

  lemma QuietStep(s: State, c: nat, choice: Choice)
    requires Inv(s) && c < |s.cpus| && s.cpus[c].pc in {ReadOwner, ReadDepthUp, LoadGate, ReadDepthDown}
    ensures Inv(Step(s, c, choice))
  {
    var x := s.cpus[c];
    var t := Step(s, c, choice);
    assert Placed(x) && Masks(x) && (Holds(x) ==> Owns(s, c));
    assert s.owner == By(c) ==> Holds(x);
    QuietKeeps(s, t, c, t.cpus[c]);
  }

  lemma BetweenCalls(s: State, c: nat, choice: Choice)
    requires Inv(s) && c < |s.cpus| && s.cpus[c].pc == Outside
    ensures Inv(Step(s, c, choice))
  {
    hide Inv;
    var x := s.cpus[c];
    var t := Step(s, c, choice);
    InvHere(s, c);
    if t != s {
      QuietKeeps(s, t, c, t.cpus[c]);
    }
  }

  lemma InvHere(s: State, c: nat)
    requires Inv(s) && c < |s.cpus|
    ensures Placed(s.cpus[c]) && Masks(s.cpus[c]) && (Holds(s.cpus[c]) ==> s.locked && Owns(s, c))
  {}

  lemma LastStep(s: State, c: nat, choice: Choice)
    requires Inv(s) && c < |s.cpus| && s.cpus[c].pc == Restore
    ensures Inv(Step(s, c, choice))
  {
    hide Inv;
    var x := s.cpus[c];
    var t := Step(s, c, choice);
    InvHere(s, c);
    QuietKeeps(s, t, c, t.cpus[c]);
  }

  // ---------- runs ----------

  function Run(s: State, steps: seq<(nat, Choice)>): State
    requires forall k :: 0 <= k < |steps| ==> steps[k].0 < |s.cpus|
    decreases |steps|
  {
    if steps == [] then s else Run(Step(s, steps[0].0, steps[0].1), steps[1..])
  }

  lemma {:induction false} RunKeeps(s: State, steps: seq<(nat, Choice)>)
    requires Inv(s) && forall k :: 0 <= k < |steps| ==> steps[k].0 < |s.cpus|
    ensures Inv(Run(s, steps)) && |Run(s, steps).cpus| == |s.cpus|
    decreases |steps|
  {
    hide Inv, Step;
    if steps != [] {
      StepKeeps(s, steps[0].0, steps[0].1);
      StepLength(s, steps[0].0, steps[0].1);
      RunKeeps(Step(s, steps[0].0, steps[0].1), steps[1..]);
    }
  }

  lemma StepLength(s: State, c: nat, choice: Choice)
    requires c < |s.cpus|
    ensures |Step(s, c, choice).cpus| == |s.cpus|
  {}

  /** A processor whose call to lock has returned and whose call to unlock has not begun. */
  predicate Inside(s: State, c: nat) {
    c < |s.cpus| && s.cpus[c].pc == Outside && s.cpus[c].saved != []
  }

  /** From a free lock, over every interleaving of any number of processors: at most one is inside;
      depth is how often it locked; the lock without the gate is taken only by the processor that
      has the gate; and a processor that has released as often as it locked has its own interrupt
      mask back. A closed gate always has a holder to open it. */
  lemma Protocol(s: State, steps: seq<(nat, Choice)>)
    requires Start(s) && forall k :: 0 <= k < |steps| ==> steps[k].0 < |s.cpus|
    ensures var t := Run(s, steps);
      && (forall c: nat, d: nat :: Inside(t, c) && Inside(t, d) ==> c == d)
      && (forall c: nat :: Inside(t, c) ==> t.locked && t.owner == By(c) && t.depth == |t.cpus[c].saved| && t.cpus[c].daif.irqMasked)
      && (forall c: nat :: c < |t.cpus| && t.cpus[c].pc in {ReadDepthUp, WriteDepthUp} ==> t.locked && t.owner == By(c) && Holds(t.cpus[c]))
      && (forall c: nat :: c < |t.cpus| && t.cpus[c].pc == Outside && t.cpus[c].saved == [] ==> t.cpus[c].daif == t.cpus[c].home)
      && (t.locked ==> exists c :: 0 <= c < |t.cpus| && Holds(t.cpus[c]))
  {
    StartInv(s);
    RunKeeps(s, steps);
    Consequences(Run(s, steps));
  }

  lemma Consequences(t: State)
    requires Inv(t)
    ensures forall c: nat, d: nat :: Inside(t, c) && Inside(t, d) ==> c == d
    ensures forall c: nat :: Inside(t, c) ==> t.locked && t.owner == By(c) && t.depth == |t.cpus[c].saved| && t.cpus[c].daif.irqMasked
    ensures forall c: nat :: c < |t.cpus| && t.cpus[c].pc in {ReadDepthUp, WriteDepthUp} ==> t.locked && t.owner == By(c) && Holds(t.cpus[c])
    ensures forall c: nat :: c < |t.cpus| && t.cpus[c].pc == Outside && t.cpus[c].saved == [] ==> t.cpus[c].daif == t.cpus[c].home
    ensures t.locked ==> exists c :: 0 <= c < |t.cpus| && Holds(t.cpus[c])
  {
    forall c: nat, d: nat | Inside(t, c) && Inside(t, d)
      ensures c == d
    {
      OnlyHolder(t, c, d);
    }
    forall c: nat | c < |t.cpus|
      ensures Inside(t, c) || t.cpus[c].pc in {ReadDepthUp, WriteDepthUp} ==> Holds(t.cpus[c]) && t.locked && Owns(t, c)
    {
      assert Placed(t.cpus[c]);
    }
  }

  // ---------- progress ----------

  /** Processor `c` runs alone: one step with `choice`, then `n` steps on which nothing fails for no
      reason. */
  function Solo(s: State, c: nat, choice: Choice, n: nat): State
    requires c < |s.cpus|
    decreases n
  {
    var t := Step(s, c, choice);
    StepLength(s, c, choice);
    if n == 0 then t else Solo(t, c, Go, n - 1)
  }

  /** With the gate open a processor that calls lock and then runs alone is inside after six steps. */
  lemma OpenGateAdmits(s: State, c: nat)
    requires Inv(s) && c < |s.cpus| && s.cpus[c].pc == Outside && s.cpus[c].saved == [] && !s.locked
    ensures var t := Solo(s, c, Lock, 5);
      Inside(t, c) && t.cpus[c].saved == [s.cpus[c].daif] && t.owner == By(c) && t.depth == 1
  {
    assert !Holds(s.cpus[c]) && Masks(s.cpus[c]) && s.owner != By(c);
    hide Inv, Step, Solo;
    var s1, s2, s3 := Admitted(s, c);
    var s4, s5, t := Entered(s3, c);
    SoloSteps(s, c, Lock, s1, s2, s3, s4, s5, t);
  }

  /** The three steps up to an exclusive reservation on the open gate. */
  lemma Admitted(s: State, c: nat) returns (s1: State, s2: State, s3: State)
    requires c < |s.cpus| && s.cpus[c].pc == Outside && s.owner != By(c) && !s.locked
    ensures |s1.cpus| == |s2.cpus| == |s3.cpus| == |s.cpus|
    ensures s1 == Step(s, c, Lock) && s2 == Step(s1, c, Go) && s3 == Step(s2, c, Go)
    ensures var x := s3.cpus[c];
      && x.pc == StoreGate && x.saved == s.cpus[c].saved && x.f == s.cpus[c].daif
      && c in s3.reserved && !s3.locked
  {
    s1 := Step(s, c, Lock);
    s2 := Step(s1, c, Go);
    assert s2.cpus[c].pc == LoadGate;
    s3 := Step(s2, c, Go);
  }

  /** The three steps from there to the return. */
  lemma Entered(s: State, c: nat) returns (s1: State, s2: State, t: State)
    requires c < |s.cpus| && s.cpus[c].pc == StoreGate && c in s.reserved
    ensures |s1.cpus| == |s2.cpus| == |t.cpus| == |s.cpus|
    ensures s1 == Step(s, c, Go) && s2 == Step(s1, c, Go) && t == Step(s2, c, Go)
    ensures Inside(t, c) && t.cpus[c].saved == s.cpus[c].saved + [s.cpus[c].f] && t.owner == By(c) && t.depth == 1
  {
    s1 := Step(s, c, Go);
    s2 := Step(s1, c, Go);
    t := Step(s2, c, Go);
  }

  lemma SoloSteps(s: State, c: nat, choice: Choice, s1: State, s2: State, s3: State, s4: State, s5: State, s6: State)
    requires c < |s.cpus| == |s1.cpus| == |s2.cpus| == |s3.cpus| == |s4.cpus| == |s5.cpus|
    requires s1 == Step(s, c, choice) && s2 == Step(s1, c, Go) && s3 == Step(s2, c, Go)
    requires s4 == Step(s3, c, Go) && s5 == Step(s4, c, Go) && s6 == Step(s5, c, Go)
    ensures Solo(s, c, choice, 5) == s6
  {
    hide Step;
    assert Solo(s5, c, Go, 0) == s6 && Solo(s4, c, Go, 1) == s6 && Solo(s3, c, Go, 2) == s6 && Solo(s2, c, Go, 3) == s6;
  }

  lemma SoloFour(s: State, c: nat, choice: Choice, s1: State, s2: State, s3: State)
    requires c < |s.cpus| == |s1.cpus| == |s2.cpus| == |s3.cpus|
    requires s1 == Step(s, c, choice) && s2 == Step(s1, c, Go) && s3 == Step(s2, c, Go)
    ensures Solo(s, c, choice, 3) == Step(s3, c, Go)
  {
    hide Step;
    assert Solo(s3, c, Go, 0) == Step(s3, c, Go) && Solo(s2, c, Go, 1) == Step(s3, c, Go);
  }

  /** The processor inside gets in again in four steps, without the gate. */
  lemma OwnerLocksAgain(s: State, c: nat)
    requires Inv(s) && Inside(s, c)
    ensures var t := Solo(s, c, Lock, 3);
      Inside(t, c) && t.cpus[c].saved == s.cpus[c].saved + [s.cpus[c].daif] && t.depth == s.depth + 1 && t.locked
  {
    HeldDepth(s, c);
    assert s.owner == By(c) by {
      assert Holds(s.cpus[c]) && Owns(s, c);
    }
    hide Inv, Step, Solo;
    var s1, s2, s3, t := Bumped(s, c);
    SoloFour(s, c, Lock, s1, s2, s3);
  }

  /** The four steps of the fast path. */
  lemma Bumped(s: State, c: nat) returns (s1: State, s2: State, s3: State, t: State)
    requires c < |s.cpus| && s.cpus[c].pc == Outside && s.owner == By(c)
    ensures |s1.cpus| == |s2.cpus| == |s3.cpus| == |s.cpus|
    ensures s1 == Step(s, c, Lock) && s2 == Step(s1, c, Go) && s3 == Step(s2, c, Go) && t == Step(s3, c, Go)
    ensures Inside(t, c) && t.cpus[c].saved == s.cpus[c].saved + [s.cpus[c].daif]
    ensures t.depth == s.depth + 1 && t.locked == s.locked
  {
    s1 := Step(s, c, Lock);
    s2 := Step(s1, c, Go);
    s3 := Step(s2, c, Go);
    t := Step(s3, c, Go);
  }

  /** The three steps that lower the depth. */
  lemma Lowered(s: State, c: nat) returns (s1: State, s2: State, s3: State)
    requires c < |s.cpus| && Inside(s, c) && s.depth > 0
    ensures |s1.cpus| == |s2.cpus| == |s3.cpus| == |s.cpus|
    ensures s1 == Step(s, c, Unlock) && s2 == Step(s1, c, Go) && s3 == Step(s2, c, Go)
    ensures s3 == Put(s.(depth := s.depth - 1), c,
                      s.cpus[c].(tmp := s.depth, pc := if s.depth == 1 then ClearOwner else Restore))
  {
    var x := s.cpus[c];
    s1 := Step(s, c, Unlock);
    assert s1 == Put(s, c, x.(pc := ReadDepthDown));
    s2 := Step(s1, c, Go);
    assert s2 == Put(s, c, x.(pc := WriteDepthDown, tmp := s.depth));
    s3 := Step(s2, c, Go);
    assert s2.cpus[c := x.(tmp := s.depth)] == s.cpus[c := x.(tmp := s.depth)];
  }

  lemma HeldDepth(s: State, c: nat)
    requires Inv(s) && Inside(s, c)
    ensures s.locked && s.depth == |s.cpus[c].saved| && s.cpus[c].saved[0] == s.cpus[c].home
  {
    assert Placed(s.cpus[c]) && Masks(s.cpus[c]) && Holds(s.cpus[c]) && Owns(s, c);
  }

  /** An outermost unlock opens the gate, in six steps, and gives the processor its own mask back. */
  lemma OuterUnlockOpens(s: State, c: nat)
    requires Inv(s) && Inside(s, c) && |s.cpus[c].saved| == 1
    ensures var t := Solo(s, c, Unlock, 5);
      && !t.locked && t.owner == Nobody && t.depth == 0
      && t.cpus[c].pc == Outside && t.cpus[c].saved == [] && t.cpus[c].daif == s.cpus[c].home
  {
    HeldDepth(s, c);
    hide Inv, Step, Solo;
    var s1, s2, s3 := Lowered(s, c);
    var s4, s5, t := Opened(s3, c);
    SoloSteps(s, c, Unlock, s1, s2, s3, s4, s5, t);
  }

  lemma Opened(s: State, c: nat) returns (s1: State, s2: State, t: State)
    requires c < |s.cpus| && s.cpus[c].pc == ClearOwner && |s.cpus[c].saved| == 1
    ensures |s1.cpus| == |s2.cpus| == |t.cpus| == |s.cpus|
    ensures s1 == Step(s, c, Go) && s2 == Step(s1, c, Go) && t == Step(s2, c, Go)
    ensures !t.locked && t.owner == Nobody && t.depth == s.depth
    ensures t.cpus[c].pc == Outside && t.cpus[c].saved == [] && t.cpus[c].daif == s.cpus[c].saved[0]
  {
    s1 := Step(s, c, Go);
    s2 := Step(s1, c, Go);
    t := Step(s2, c, Go);
  }

  /** An inner unlock leaves the processor inside, one level up, after four steps. */
  lemma InnerUnlockStays(s: State, c: nat)
    requires Inv(s) && Inside(s, c) && |s.cpus[c].saved| > 1
    ensures var (t, x) := (Solo(s, c, Unlock, 3), s.cpus[c]);
      Inside(t, c) && t.cpus[c].saved == x.saved[..|x.saved| - 1] && t.depth == s.depth - 1 && t.locked
  {
    HeldDepth(s, c);
    hide Inv, Step, Solo;
    var s1, s2, s3 := Lowered(s, c);
    SoloFour(s, c, Unlock, s1, s2, s3);
    Restored(s3, c);
  }

  lemma Restored(s: State, c: nat)
    requires c < |s.cpus| && s.cpus[c].pc == Restore && |s.cpus[c].saved| > 1
    ensures var (t, x) := (Step(s, c, Go), s.cpus[c]);
      Inside(t, c) && t.cpus[c].saved == x.saved[..|x.saved| - 1] && t.depth == s.depth && t.locked == s.locked
  {}
}

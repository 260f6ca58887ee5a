/**
 Spin locks, the data they protect and the order in which the memory manager takes them.

 Any number of threads run programs that lock, unlock and touch shared data, one atomic
 step at a time in any order. `lock` is a compare-exchange on the flag that may fail,
 also spuriously, and is then tried again; dropping the guard stores `false`.
 */
module SpinLock {

  /** Locks are numbered in the order in which they may be taken. */
  const HEAP: nat := 0
  const FRAME_ALLOCATOR: nat := 1
  const VMM: nat := 2
  const LOCKS: nat := 3

  /** What the threads share: the heap's free list with its cursor, the frame allocator and
      the virtual memory manager with its tables. */
  datatype Data = FreeList | Frames | Tables

  /** Each has a lock of its own. */
  function LockOf(d: Data): (l: nat)
    ensures l < LOCKS
  {
    match d
    case FreeList => HEAP
    case Frames => FRAME_ALLOCATOR
    case Tables => VMM
  }

  datatype Op = Lock(id: nat) | Unlock(id: nat) | Touch(data: Data)

  /** What a thread has yet to do, and the locks it has a guard for. */
  datatype Thread = Thread(todo: seq<Op>, guards: set<nat>)

  /** The locks whose flag is set, and the threads. */
  datatype System = System(locked: set<nat>, threads: seq<Thread>)

  // ---- Steps ----

  /** Thread `t` gets past its next operation. */
  ghost predicate Advances(s: System, t: nat, s': System) {
    && t < |s.threads| && s.threads[t].todo != []
    && var th := s.threads[t];
       var rest := th.todo[1..];
       match th.todo[0]
       case Touch(_) => s' == s.(threads := s.threads[t := th.(todo := rest)])
       case Lock(l) => l !in s.locked && s' == System(s.locked + {l}, s.threads[t := Thread(rest, th.guards + {l})])
       case Unlock(l) => l in th.guards && s' == System(s.locked - {l}, s.threads[t := Thread(rest, th.guards - {l})])
  }

  /** The compare-exchange fails and the thread spins. */
  ghost predicate Spins(s: System, t: nat, s': System) {
    t < |s.threads| && s.threads[t].todo != [] && s.threads[t].todo[0].Lock? && s' == s
  }

  ghost predicate Step(s: System, t: nat, s': System) {
    Advances(s, t, s') || Spins(s, t, s')
  }

  ghost predicate Run(states: seq<System>, schedule: seq<nat>) {
    && |states| == |schedule| + 1
    && forall i {:trigger schedule[i]} :: 0 <= i < |schedule| ==> Step(states[i], schedule[i], states[i + 1])
  }

  // ---- Mutual exclusion ----

  /** The flag of a lock is set exactly while one thread has its guard. */
  ghost predicate Exclusive(s: System) {
    && (forall t, u :: 0 <= t < u < |s.threads| ==> s.threads[t].guards !! s.threads[u].guards)
    && (forall l :: l in s.locked <==> exists t :: 0 <= t < |s.threads| && l in s.threads[t].guards)
  }

  lemma GuardsApart(s: System, t: nat, u: nat)
    requires Exclusive(s) && t < |s.threads| && u < |s.threads| && t != u
    ensures s.threads[t].guards !! s.threads[u].guards
  {
    if u < t { assert s.threads[u].guards !! s.threads[t].guards; }
  }

  lemma StepExclusive(s: System, t: nat, s': System)
    requires Exclusive(s) && Step(s, t, s')
    ensures Exclusive(s')
  {
    if Advances(s, t, s') {
      var th := s.threads[t];
      forall u | 0 <= u < |s.threads| && u != t
        ensures s'.threads[u] == s.threads[u] && s.threads[u].guards !! th.guards
      {
        GuardsApart(s, t, u);
      }
      forall l
        ensures l in s'.locked <==> exists u :: 0 <= u < |s'.threads| && l in s'.threads[u].guards
      {
        LockedByOne(s, t, s', l);
      }
    }
  }

  lemma LockedByOne(s: System, t: nat, s': System, l: nat)
    requires Exclusive(s) && Advances(s, t, s')
    requires forall u :: 0 <= u < |s.threads| && u != t ==>
      s'.threads[u] == s.threads[u] && s.threads[u].guards !! s.threads[t].guards
    ensures l in s'.locked <==> exists u :: 0 <= u < |s'.threads| && l in s'.threads[u].guards
  {
    if l in s'.threads[t].guards {
      assert l in s'.locked;
    } else if l in s'.locked {
      var u :| 0 <= u < |s.threads| && l in s.threads[u].guards;
      assert l in s'.threads[u].guards;
    } else {
      forall u | 0 <= u < |s'.threads| ensures l !in s'.threads[u].guards {
        assert l in s.threads[u].guards ==> l in s.locked;
      }
    }
  }

  // ---- Lock order ----

  /** Guards held after an operation. */
  function After(op: Op, guards: set<nat>): set<nat> {
    match op
    case Touch(_) => guards
    case Lock(l) => guards + {l}
    case Unlock(l) => guards - {l}
  }

  /** A lock may be taken only above all those held; only a guard held is dropped; data is
      touched only with the guard of its lock. */
  predicate MayDo(op: Op, guards: set<nat>, bound: nat) {
    match op
    case Touch(d) => LockOf(d) in guards
    case Lock(l) => l < bound && forall g :: g in guards ==> g < l
    case Unlock(l) => l in guards
  }

  /** The whole program keeps these rules and ends with the guards `goal`. */
  predicate Ordered(todo: seq<Op>, guards: set<nat>, goal: set<nat>, bound: nat) {
    if todo == [] then guards == goal
    else MayDo(todo[0], guards, bound) && Ordered(todo[1..], After(todo[0], guards), goal, bound)
  }

  ghost predicate Disciplined(s: System, bound: nat) {
    Exclusive(s) && forall t :: 0 <= t < |s.threads| ==> Ordered(s.threads[t].todo, s.threads[t].guards, {}, bound)
  }

  lemma StepDisciplined(s: System, t: nat, s': System, bound: nat)
    requires Disciplined(s, bound) && Step(s, t, s')
    ensures Disciplined(s', bound)
  {
    StepExclusive(s, t, s');
    assert Ordered(s.threads[t].todo, s.threads[t].guards, {}, bound);
  }

  lemma {:induction false} RunDisciplined(states: seq<System>, schedule: seq<nat>, bound: nat)
    requires Run(states, schedule) && Disciplined(states[0], bound)
    ensures Disciplined(states[|schedule|], bound)
  {
    if schedule != [] {
      var n := |schedule| - 1;
      RunDisciplined(states[..n + 1], schedule[..n], bound);
      StepDisciplined(states[n], schedule[n], states[n + 1], bound);
    }
  }

  ghost predicate Unfinished(s: System, t: nat) { t < |s.threads| && s.threads[t].todo != [] }

  /** Thread `t` waits for a lock whose flag is set. */
  ghost predicate Waits(s: System, t: nat) {
    Unfinished(s, t) && s.threads[t].todo[0].Lock? && s.threads[t].todo[0].id in s.locked
  }

  /** A thread that does not wait can advance. */
  lemma NotWaitingAdvances(s: System, t: nat, bound: nat) returns (s': System)
    requires Disciplined(s, bound) && Unfinished(s, t) && !Waits(s, t)
    ensures Advances(s, t, s')
  {
    var th := s.threads[t];
    var rest := th.todo[1..];
    assert Ordered(th.todo, th.guards, {}, bound);
    s' := match th.todo[0]
      case Touch(_) => s.(threads := s.threads[t := th.(todo := rest)])
      case Lock(l) => System(s.locked + {l}, s.threads[t := Thread(rest, th.guards + {l})])
      case Unlock(l) => System(s.locked - {l}, s.threads[t := Thread(rest, th.guards - {l})]);
  }

  /** Following who waits for whom leads to ever higher locks, so it ends at a thread
      that can advance. */
  lemma {:induction false} SomeoneAdvances(s: System, t: nat, bound: nat) returns (u: nat, s': System)
    requires Disciplined(s, bound) && Unfinished(s, t)
    ensures Advances(s, u, s')
    decreases bound - (if Waits(s, t) then s.threads[t].todo[0].id else bound)
  {
    assert Ordered(s.threads[t].todo, s.threads[t].guards, {}, bound);
    if Waits(s, t) {
      var l := s.threads[t].todo[0].id;
      var holder :| 0 <= holder < |s.threads| && l in s.threads[holder].guards;
      assert Ordered(s.threads[holder].todo, s.threads[holder].guards, {}, bound);
      u, s' := SomeoneAdvances(s, holder, bound);
    } else {
      u := t;
      s' := NotWaitingAdvances(s, t, bound);
    }
  }

  function Remaining(threads: seq<Thread>): nat {
    if threads == [] then 0 else |threads[0].todo| + Remaining(threads[1..])
  }

  lemma {:induction false} RemainingDrops(threads: seq<Thread>, t: nat, th: Thread)
    requires t < |threads| && |th.todo| < |threads[t].todo|
    ensures Remaining(threads[t := th]) < Remaining(threads)
  {
    if t == 0 {
      assert threads[t := th][1..] == threads[1..];
    } else {
      RemainingDrops(threads[1..], t - 1, th);
      assert threads[t := th][1..] == threads[1..][t - 1 := th];
    }
  }

  lemma {:induction false} NothingRemaining(threads: seq<Thread>, t: nat)
    requires t < |threads| && Remaining(threads) == 0
    ensures threads[t].todo == []
  {
    if t > 0 { NothingRemaining(threads[1..], t - 1); }
  }

  lemma {:induction false} SomethingRemaining(threads: seq<Thread>) returns (t: nat)
    requires Remaining(threads) > 0
    ensures t < |threads| && threads[t].todo != []
  {
    if threads[0].todo != [] {
      t := 0;
    } else {
      t := SomethingRemaining(threads[1..]);
      t := t + 1;
    }
  }

  /** From every disciplined state some schedule finishes every thread. */
  lemma {:induction false} CanFinish(s: System, bound: nat) returns (states: seq<System>, schedule: seq<nat>)
    requires Disciplined(s, bound)
    ensures Run(states, schedule) && states[0] == s
    ensures forall t :: 0 <= t < |states[|schedule|].threads| ==> states[|schedule|].threads[t].todo == []
    decreases Remaining(s.threads)
  {
    if Remaining(s.threads) == 0 {
      states, schedule := [s], [];
      forall t | 0 <= t < |s.threads| ensures s.threads[t].todo == [] { NothingRemaining(s.threads, t); }
    } else {
      var t := SomethingRemaining(s.threads);
      var u, s' := SomeoneAdvances(s, t, bound);
      StepDisciplined(s, u, s', bound);
      RemainingDrops(s.threads, u, s'.threads[u]);
      var states', schedule' := CanFinish(s', bound);
      states, schedule := [s] + states', [u] + schedule';
      forall i | 0 <= i < |schedule| ensures Step(states[i], schedule[i], states[i + 1]) {
        if i > 0 { assert Step(states'[i - 1], schedule'[i - 1], states'[i]); }
      }
    }
  }

  // ---- The memory manager's programs ----

  function Touching(ds: seq<Data>): seq<Op> {
    if ds == [] then [] else [Touch(ds[0])] + Touching(ds[1..])
  }

  /** A guard lives exactly as long as the block that created it. */
  function Holding(l: nat, block: seq<Op>): seq<Op> { [Lock(l)] + block + [Unlock(l)] }

  /** What mapping `pages` pages touches: a frame is taken, then mapped. */
  function Mapping(pages: nat): seq<Data> {
    if pages == 0 then [] else [Frames, Tables] + Mapping(pages - 1)
  }

  /** What unmapping `pages` pages touches. */
  function Unmapping(pages: nat): seq<Data> {
    if pages == 0 then [] else [Tables] + Unmapping(pages - 1)
  }

  /** The ways through the heap's `alloc`: a block is found; the region is exhausted; the
      globals are not populated; after `pages` pages there is no frame, or no frame for a
      table; the heap grows by `pages` pages. And the other users of the locks. */
  datatype Call =
    | AllocHit
    | AllocBeyondRegion
    | AllocUnpopulated
    | AllocNoFrame(pages: nat)
    | AllocNoTable(pages: nat)
    | AllocGrow(pages: nat)
    | Dealloc
    | UseFramesAndVmm
    | UseFrames
    | UseVmm

  /** The growing part, inside the heap's lock: the first attempt and the cursor before it,
      whatever is left to do with the heap after it. */
  function Growing(inside: seq<Data>, after: seq<Data>): seq<Op> {
    Holding(HEAP, Touching([FreeList, FreeList])
                  + Holding(FRAME_ALLOCATOR, Holding(VMM, Touching([Frames, Tables] + inside)))
                  + Touching(after))
  }

  function Program(c: Call): seq<Op> {
    match c
    case AllocHit => Holding(HEAP, Touching([FreeList]))
    case AllocBeyondRegion => Holding(HEAP, Touching([FreeList, FreeList]))
    case AllocUnpopulated => Growing([], [])
    case AllocNoFrame(pages) => Growing(Mapping(pages) + [Frames] + Unmapping(pages), [])
    case AllocNoTable(pages) => Growing(Mapping(pages) + [Frames, Tables, Frames] + Unmapping(pages), [])
    case AllocGrow(pages) => Growing(Mapping(pages) + [FreeList], [FreeList])
    case Dealloc => Holding(HEAP, Touching([FreeList]))
    case UseFramesAndVmm => Holding(FRAME_ALLOCATOR, Holding(VMM, Touching([Frames, Tables])))
    case UseFrames => Holding(FRAME_ALLOCATOR, Touching([Frames]))
    case UseVmm => Holding(VMM, Touching([Tables]))
  }

  function Calls(cs: seq<Call>): seq<Op> {
    if cs == [] then [] else Program(cs[0]) + Calls(cs[1..])
  }

  // ---- What the programs touch and lock ----

  /** The data a program touches, in order. */
  function Touched(p: seq<Op>): seq<Data> {
    if p == [] then []
    else (if p[0].Touch? then [p[0].data] else []) + Touched(p[1..])
  }

  /** The locks it takes. */
  function LocksTaken(p: seq<Op>): set<nat> {
    if p == [] then {}
    else (if p[0].Lock? then {p[0].id} else {}) + LocksTaken(p[1..])
  }

  lemma {:induction false} TouchedThen(p: seq<Op>, q: seq<Op>)
    ensures Touched(p + q) == Touched(p) + Touched(q)
  {
    if p == [] {
      assert p + q == q;
    } else {
      var first, rest := if p[0].Touch? then [p[0].data] else [], Touched(p[1..]);
      TouchedThen(p[1..], q);
      assert (p + q)[1..] == p[1..] + q && (p + q)[0] == p[0];
      assert first + (rest + Touched(q)) == first + rest + Touched(q);
    }
  }

  lemma {:induction false} LocksThen(p: seq<Op>, q: seq<Op>)
    ensures LocksTaken(p + q) == LocksTaken(p) + LocksTaken(q)
  {
    if p == [] {
      assert p + q == q;
    } else {
      LocksThen(p[1..], q);
      assert (p + q)[1..] == p[1..] + q && (p + q)[0] == p[0];
    }
  }

  lemma EffectsThen(p: seq<Op>, q: seq<Op>)
    ensures Touched(p + q) == Touched(p) + Touched(q) && LocksTaken(p + q) == LocksTaken(p) + LocksTaken(q)
  {
    TouchedThen(p, q);
    LocksThen(p, q);
  }

  lemma {:induction false} EffectsOfTouching(ds: seq<Data>)
    ensures Touched(Touching(ds)) == ds && LocksTaken(Touching(ds)) == {}
  {
    if ds != [] {
      EffectsOfTouching(ds[1..]);
      assert Touching(ds)[1..] == Touching(ds[1..]);
    }
  }

  lemma EffectsOfHolding(l: nat, block: seq<Op>)
    ensures Touched(Holding(l, block)) == Touched(block) && LocksTaken(Holding(l, block)) == {l} + LocksTaken(block)
  {
    EffectsThen([Lock(l)], block);
    EffectsThen([Lock(l)] + block, [Unlock(l)]);
  }

  lemma EffectsOfPair(ds: seq<Data>)
    ensures var pair := Holding(FRAME_ALLOCATOR, Holding(VMM, Touching(ds)));
      Touched(pair) == ds && LocksTaken(pair) == {FRAME_ALLOCATOR, VMM}
  {
    EffectsOfTouching(ds);
    EffectsOfHolding(VMM, Touching(ds));
    EffectsOfHolding(FRAME_ALLOCATOR, Holding(VMM, Touching(ds)));
  }

  lemma EffectsOfGrowing(inside: seq<Data>, after: seq<Data>)
    ensures Touched(Growing(inside, after)) == [FreeList, FreeList, Frames, Tables] + inside + after
    ensures LocksTaken(Growing(inside, after)) == {HEAP, FRAME_ALLOCATOR, VMM}
  {
    var core := [Frames, Tables] + inside;
    var first, pair, last := Touching([FreeList, FreeList]), Holding(FRAME_ALLOCATOR, Holding(VMM, Touching(core))),
                             Touching(after);
    EffectsOfTouching([FreeList, FreeList]);
    EffectsOfPair(core);
    EffectsOfTouching(after);
    JoinEffects(first, pair, last);
    EffectsOfHolding(HEAP, first + pair + last);
  }

  lemma JoinEffects(a: seq<Op>, b: seq<Op>, c: seq<Op>)
    ensures Touched(a + b + c) == Touched(a) + Touched(b) + Touched(c)
    ensures LocksTaken(a + b + c) == LocksTaken(a) + LocksTaken(b) + LocksTaken(c)
  {
    EffectsThen(a, b);
    EffectsThen(a + b, c);
  }

  /** What each call does to the shared data, one access after another: every `alloc` looks
      through the free list; before it grows it looks at the cursor; a growth looks at both
      globals, takes and maps one frame per page, and then extends the list and tries again,
      or takes the pages back. */
  function Accesses(c: Call): seq<Data> {
    match c
    case AllocHit => [FreeList]
    case AllocBeyondRegion => [FreeList, FreeList]
    case AllocUnpopulated => [FreeList, FreeList, Frames, Tables]
    case AllocNoFrame(pages) => [FreeList, FreeList, Frames, Tables] + (Mapping(pages) + [Frames] + Unmapping(pages))
    case AllocNoTable(pages) =>
      [FreeList, FreeList, Frames, Tables] + (Mapping(pages) + [Frames, Tables, Frames] + Unmapping(pages))
    case AllocGrow(pages) => [FreeList, FreeList, Frames, Tables] + (Mapping(pages) + [FreeList]) + [FreeList]
    case Dealloc => [FreeList]
    case UseFramesAndVmm => [Frames, Tables]
    case UseFrames => [Frames]
    case UseVmm => [Tables]
  }

  /** The program makes these accesses, and takes a lock if and only if it touches what the
      lock protects. */
  ghost predicate Accounts(p: seq<Op>, ds: seq<Data>) {
    && Touched(p) == ds
    && (forall d :: LockOf(d) in LocksTaken(p) <==> d in ds)
    && (forall l :: l in LocksTaken(p) ==> l < LOCKS)
  }

  lemma SectionAccounts(d: Data, ds: seq<Data>)
    requires d in ds && forall e :: e in ds ==> e == d
    ensures Accounts(Holding(LockOf(d), Touching(ds)), ds)
  {
    EffectsOfTouching(ds);
    EffectsOfHolding(LockOf(d), Touching(ds));
    OneLockAccounts(Holding(LockOf(d), Touching(ds)), d, ds);
  }

  lemma OneLockAccounts(p: seq<Op>, d: Data, ds: seq<Data>)
    requires d in ds && (forall e :: e in ds ==> e == d) && Touched(p) == ds && LocksTaken(p) == {LockOf(d)}
    ensures Accounts(p, ds)
  {
    forall e: Data ensures LockOf(e) in LocksTaken(p) <==> e in ds {
      assert LockOf(e) == LockOf(d) <==> e == d;
    }
  }

  lemma PairAccounts()
    ensures Accounts(Program(UseFramesAndVmm), [Frames, Tables])
  {
    EffectsOfPair([Frames, Tables]);
    assert LockOf(Frames) == FRAME_ALLOCATOR && LockOf(Tables) == VMM;
  }

  lemma GrowingAccounts(inside: seq<Data>, after: seq<Data>)
    ensures Accounts(Growing(inside, after), [FreeList, FreeList, Frames, Tables] + inside + after)
  {
    var ds := [FreeList, FreeList, Frames, Tables] + inside + after;
    EffectsOfGrowing(inside, after);
    assert LockOf(FreeList) == HEAP && LockOf(Frames) == FRAME_ALLOCATOR && LockOf(Tables) == VMM;
    assert ds[0] == FreeList && ds[2] == Frames && ds[3] == Tables;
    forall d: Data ensures d in ds {
      match d { case FreeList => case Frames => case Tables => }
    }
  }

  /** So does every call, and no two kinds of data share a lock. */
  lemma ProgramEffects(c: Call)
    ensures Accounts(Program(c), Accesses(c))
    ensures forall d, e :: LockOf(d) == LockOf(e) <==> d == e
  {
    match c {
      case AllocHit => SectionAccounts(FreeList, [FreeList]);
      case AllocBeyondRegion => SectionAccounts(FreeList, [FreeList, FreeList]);
      case Dealloc => SectionAccounts(FreeList, [FreeList]);
      case UseFrames => SectionAccounts(Frames, [Frames]);
      case UseVmm => SectionAccounts(Tables, [Tables]);
      case UseFramesAndVmm => PairAccounts();
      case AllocUnpopulated => GrowingAccounts([], []);
      case AllocNoFrame(pages) => GrowingAccounts(Mapping(pages) + [Frames] + Unmapping(pages), []);
      case AllocNoTable(pages) => GrowingAccounts(Mapping(pages) + [Frames, Tables, Frames] + Unmapping(pages), []);
      case AllocGrow(pages) => GrowingAccounts(Mapping(pages) + [FreeList], [FreeList]);
    }
    assert Accesses(c) + [] == Accesses(c);
  }

  // ---- The programs keep the rules ----

  /** A program followed by one that starts with the guards it leaves. */
  lemma {:induction false} OrderedThen(first: seq<Op>, guards: set<nat>, middle: set<nat>, next: seq<Op>,
                                       goal: set<nat>, bound: nat)
    requires Ordered(first, guards, middle, bound) && Ordered(next, middle, goal, bound)
    ensures Ordered(first + next, guards, goal, bound)
    decreases |first|
  {
    if first == [] {
      assert first + next == next;
    } else {
      assert (first + next)[1..] == first[1..] + next;
      OrderedThen(first[1..], After(first[0], guards), middle, next, goal, bound);
    }
  }

  lemma {:induction false} TouchingOrdered(ds: seq<Data>, guards: set<nat>, bound: nat)
    requires forall d :: d in ds ==> LockOf(d) in guards
    ensures Ordered(Touching(ds), guards, guards, bound)
  {
    if ds != [] {
      TouchingOrdered(ds[1..], guards, bound);
      assert Touching(ds)[1..] == Touching(ds[1..]);
    }
  }

  /** A block with one guard more, which is dropped at its end. */
  lemma HoldingOrdered(l: nat, block: seq<Op>, guards: set<nat>, bound: nat)
    requires l < bound && (forall g :: g in guards ==> g < l) && Ordered(block, guards + {l}, guards + {l}, bound)
    ensures Ordered(Holding(l, block), guards, guards, bound)
  {
    var more := guards + {l};
    assert more - {l} == guards;
    assert [Lock(l)][1..] == [] && [Unlock(l)][1..] == [];
    assert Ordered([Unlock(l)], more, guards, bound) && Ordered([Lock(l)], guards, more, bound);
    OrderedThen([Lock(l)], guards, more, block, more, bound);
    OrderedThen([Lock(l)] + block, guards, more, [Unlock(l)], guards, bound);
  }

  /** Frame allocator and manager locked together, perhaps inside the heap's lock. */
  lemma PairOrdered(ds: seq<Data>, guards: set<nat>)
    requires guards <= {HEAP} && (FreeList in ds ==> HEAP in guards)
    ensures Ordered(Holding(FRAME_ALLOCATOR, Holding(VMM, Touching(ds))), guards, guards, LOCKS)
  {
    var g1 := guards + {FRAME_ALLOCATOR};
    forall d | d in ds ensures LockOf(d) in g1 + {VMM} {}
    TouchingOrdered(ds, g1 + {VMM}, LOCKS);
    HoldingOrdered(VMM, Touching(ds), g1, LOCKS);
    HoldingOrdered(FRAME_ALLOCATOR, Holding(VMM, Touching(ds)), guards, LOCKS);
  }

  lemma GrowingOrdered(inside: seq<Data>, after: seq<Data>)
    requires forall d :: d in after ==> d == FreeList
    ensures Ordered(Growing(inside, after), {}, {}, LOCKS)
  {
    var g := {} + {HEAP};
    var first, core := Touching([FreeList, FreeList]), [Frames, Tables] + inside;
    var pair := Holding(FRAME_ALLOCATOR, Holding(VMM, Touching(core)));
    TouchingOrdered([FreeList, FreeList], g, LOCKS);
    PairOrdered(core, g);
    TouchingOrdered(after, g, LOCKS);
    OrderedThen(first, g, g, pair, g, LOCKS);
    OrderedThen(first + pair, g, g, Touching(after), g, LOCKS);
    HoldingOrdered(HEAP, first + pair + Touching(after), {}, LOCKS);
  }

  lemma SectionOrdered(l: nat, ds: seq<Data>)
    requires l < LOCKS && forall d :: d in ds ==> LockOf(d) == l
    ensures Ordered(Holding(l, Touching(ds)), {}, {}, LOCKS)
  {
    TouchingOrdered(ds, {} + {l}, LOCKS);
    HoldingOrdered(l, Touching(ds), {}, LOCKS);
  }

  /** Every call respects the order, heap, then frame allocator, then manager, and touches
      data only under its lock. */
  lemma ProgramOrdered(c: Call)
    ensures Ordered(Program(c), {}, {}, LOCKS)
  {
    match c {
      case AllocHit => SectionOrdered(HEAP, [FreeList]);
      case AllocBeyondRegion => SectionOrdered(HEAP, [FreeList, FreeList]);
      case Dealloc => SectionOrdered(HEAP, [FreeList]);
      case UseFrames => SectionOrdered(FRAME_ALLOCATOR, [Frames]);
      case UseVmm => SectionOrdered(VMM, [Tables]);
      case UseFramesAndVmm => PairOrdered([Frames, Tables], {});
      case AllocUnpopulated => GrowingOrdered([], []);
      case AllocNoFrame(pages) => GrowingOrdered(Mapping(pages) + [Frames] + Unmapping(pages), []);
      case AllocNoTable(pages) => GrowingOrdered(Mapping(pages) + [Frames, Tables, Frames] + Unmapping(pages), []);
      case AllocGrow(pages) => GrowingOrdered(Mapping(pages) + [FreeList], [FreeList]);
    }
  }

  lemma {:induction false} CallsOrdered(cs: seq<Call>)
    ensures Ordered(Calls(cs), {}, {}, LOCKS)
  {
    if cs != [] {
      ProgramOrdered(cs[0]);
      CallsOrdered(cs[1..]);
      OrderedThen(Program(cs[0]), {}, {}, Calls(cs[1..]), {}, LOCKS);
    }
  }

  /** Any number of threads, each about to make any sequence of calls; no lock taken. */
  ghost predicate Initial(s: System, calls: seq<seq<Call>>) {
    && s.locked == {} && |s.threads| == |calls|
    && forall t :: 0 <= t < |calls| ==> s.threads[t] == Thread(Calls(calls[t]), {})
  }

  lemma InitialDisciplined(s: System, calls: seq<seq<Call>>)
    requires Initial(s, calls)
    ensures Disciplined(s, LOCKS)
  {
    forall t | 0 <= t < |calls|
      ensures Ordered(s.threads[t].todo, s.threads[t].guards, {}, LOCKS)
    {
      CallsOrdered(calls[t]);
    }
  }

  /** Thread `t` is about to touch `d`. */
  ghost predicate AboutToTouch(s: System, t: nat, d: Data) {
    Unfinished(s, t) && s.threads[t].todo[0] == Touch(d)
  }

  /** In every interleaving a thread about to touch shared data has the guard of its lock, so
      no other thread is about to touch it, and none will be while the guard lives. */
  lemma NeverRaces(states: seq<System>, schedule: seq<nat>, calls: seq<seq<Call>>, t: nat, d: Data)
    requires Run(states, schedule) && Initial(states[0], calls) && AboutToTouch(states[|schedule|], t, d)
    ensures LockOf(d) in states[|schedule|].threads[t].guards
    ensures forall u :: 0 <= u < |states[|schedule|].threads| && u != t ==>
      LockOf(d) !in states[|schedule|].threads[u].guards && !AboutToTouch(states[|schedule|], u, d)
  {
    var s := states[|schedule|];
    InitialDisciplined(states[0], calls);
    RunDisciplined(states, schedule, LOCKS);
    forall u | 0 <= u < |s.threads|
      ensures AboutToTouch(s, u, d) ==> LockOf(d) in s.threads[u].guards
    {
      assert Ordered(s.threads[u].todo, s.threads[u].guards, {}, LOCKS);
    }
    forall u | 0 <= u < |s.threads| && u != t
      ensures LockOf(d) !in s.threads[u].guards
    {
      GuardsApart(s, t, u);
    }
  }

  /** Every interleaving keeps at most one guard per lock, and as long as a thread is
      unfinished some thread can advance. */
  lemma NeverDeadlocked(states: seq<System>, schedule: seq<nat>, calls: seq<seq<Call>>)
    requires Run(states, schedule) && Initial(states[0], calls)
    ensures Exclusive(states[|schedule|])
    ensures (exists t :: Unfinished(states[|schedule|], t)) ==> exists u, s' :: Advances(states[|schedule|], u, s')
  {
    var s := states[|schedule|];
    InitialDisciplined(states[0], calls);
    RunDisciplined(states, schedule, LOCKS);
    if t :| Unfinished(s, t) {
      var u, s' := SomeoneAdvances(s, t, LOCKS);
    }
  }

  /** And every interleaving can still be completed. */
  lemma AlwaysCompletable(states: seq<System>, schedule: seq<nat>, calls: seq<seq<Call>>)
    returns (more: seq<System>, rest: seq<nat>)
    requires Run(states, schedule) && Initial(states[0], calls)
    ensures Run(more, rest) && more[0] == states[|schedule|]
    ensures forall t :: 0 <= t < |more[|rest|].threads| ==> more[|rest|].threads[t].todo == []
  {
    InitialDisciplined(states[0], calls);
    RunDisciplined(states, schedule, LOCKS);
    more, rest := CanFinish(states[|schedule|], LOCKS);
  }

  /** The order matters: two threads that take two locks in opposite orders can reach a
      state in which neither can advance. */
  lemma OppositeOrdersDeadlock(a: nat, b: nat) returns (states: seq<System>)
    requires a != b
    ensures Run(states, [0, 1]) && states[0].locked == {}
    ensures states[0].threads == [Thread([Lock(a), Lock(b), Unlock(b), Unlock(a)], {}),
      Thread([Lock(b), Lock(a), Unlock(a), Unlock(b)], {})]
    ensures Unfinished(states[2], 0) && Unfinished(states[2], 1)
    ensures forall u, s' :: !Advances(states[2], u, s')
  {
    var t0, t1 := Thread([Lock(a), Lock(b), Unlock(b), Unlock(a)], {}),
      Thread([Lock(b), Lock(a), Unlock(a), Unlock(b)], {});
    var t0', t1' := Thread([Lock(b), Unlock(b), Unlock(a)], {a}), Thread([Lock(a), Unlock(a), Unlock(b)], {b});
    states := [System({}, [t0, t1]), System({a}, [t0', t1]), System({a, b}, [t0', t1'])];
    assert t0.todo[1..] == t0'.todo && t1.todo[1..] == t1'.todo;
    assert {} + {a} == {a} && {a} + {b} == {a, b} && {} + {b} == {b};
    assert [t0, t1][0 := t0'] == [t0', t1] && [t0', t1][1 := t1'] == [t0', t1'];
  }
}

/**
 The abstract address space and what each operation of the virtual memory manager
 does to it.

 A state is the physical memory, the root table, the labelling that makes the tables
 a tree, and the free frames. `View` is the abstract value: a mapping for each of the
 2^36 pages the low 48 address bits distinguish. `MapPost` and `UnmapPost` are the
 contracts of `map` and `unmap`; the theorems at the end are about every run.
 */
module AddressSpace {
  import opened Bits
  import opened PageFormat
  import opened PageTables
  import opened Options
  import opened FrameAllocation

  datatype MapError = MapNotPageAligned | AlreadyMapped | OutOfFrames | MapTableUnreachable | WouldOverlapHugePage

  datatype UnmapError = UnmapNotPageAligned | UnmapNotMapped | UnmapTableUnreachable | IsHugePage

  datatype PtState = PtState(ram: Ram, root: nat, tables: Labels, free: set<nat>)

  /** The tables form a tree and no table page is free in the bitmap. */
  ghost predicate Sound(s: PtState) {
    && Tree(s.ram, s.root, s.tables)
    && forall t :: t in s.tables ==> t / FRAME_SIZE !in s.free
  }

  function View(s: PtState, q: seq<nat>): Mapping
    requires s.root % FRAME_SIZE == 0 && PagePath(q)
  {
    Resolve(s.ram, s.root, q)
  }

  function Needed(s: PtState, q: seq<nat>): nat
    requires s.root % FRAME_SIZE == 0 && PagePath(q)
  {
    Missing(s.ram, s.root, q)
  }

  /** The frames that can serve as new table pages. */
  function LowFrames(s: PtState): set<nat> {
    FramesBelow(s.free, IDENTITY_MAP_LIMIT / FRAME_SIZE)
  }

  ghost predicate SameView(s: PtState, s': PtState)
    requires s.root % FRAME_SIZE == 0 && s'.root == s.root
  {
    forall q :: PagePath(q) ==> View(s', q) == View(s, q)
  }

  /** The view changed at page `q0` only. */
  ghost predicate ViewUpdated(s: PtState, s': PtState, q0: seq<nat>, mapping: Mapping)
    requires s.root % FRAME_SIZE == 0 && s'.root == s.root
  {
    forall q :: PagePath(q) ==> View(s', q) == if q == q0 then mapping else View(s, q)
  }

  /** Every pointer from table to table permits everything. */
  ghost predicate OpenTables(s: PtState)
    requires LabelsOk(s.tables)
  {
    Open(s.ram, s.tables)
  }

  /** Memory changed only inside table pages; new table pages came from free frames
      and are used now, one frame for each; no pointer to a table became restrictive. */
  ghost predicate OnlyTablesGrew(s: PtState, s': PtState)
    requires LabelsOk(s.tables) && LabelsOk(s'.tables)
  {
    && s'.free <= s.free
    && (forall t :: t in s.tables ==> t in s'.tables && s'.tables[t] == s.tables[t])
    && (forall t :: t in s'.tables && t !in s.tables ==> t / FRAME_SIZE in s.free - s'.free)
    && |s'.tables| == |s.tables| + |s.free - s'.free|
    && (forall k :: 0 <= k < RAM_WORDS && s'.ram[k] != s.ram[k] ==> k / 512 * FRAME_SIZE in s'.tables)
    && (OpenTables(s) ==> OpenTables(s'))
  }

  function Min(a: nat, b: nat): nat { if a <= b then a else b }

  /** How `map` answers, as a function of the state before. */
  function MapAnswer(s: PtState, virt: Word, phys: Word): Result<(), MapError>
    requires s.root % FRAME_SIZE == 0
  {
    var q := Path(virt);
    if !IsPageAligned(virt) || phys % FRAME_SIZE != 0 then Err(MapNotPageAligned)
    else match View(s, q)
      case Unreachable => Err(MapTableUnreachable)
      case Huge(_, _) => Err(WouldOverlapHugePage)
      case Leaf(_) => Err(AlreadyMapped)
      case NotMapped => if Needed(s, q) <= |LowFrames(s)| then Ok(()) else Err(OutOfFrames)
  }

  /** Tables that `map` adds: all the missing ones, or as many as there are frames. */
  function TablesAdded(s: PtState, virt: Word, phys: Word): nat
    requires s.root % FRAME_SIZE == 0
  {
    if IsPageAligned(virt) && phys % FRAME_SIZE == 0 && View(s, Path(virt)) == NotMapped
    then Min(Needed(s, Path(virt)), |LowFrames(s)|) else 0
  }

  /** The contract of `map`: the answer, a point update of the address space on
      success and no change to it on failure, and one frame used per table added. */
  ghost predicate MapPost(s: PtState, virt: Word, phys: Word, flags: PageFlags, r: Result<(), MapError>, s': PtState)
    requires Sound(s)
  {
    && Sound(s') && s'.root == s.root && OnlyTablesGrew(s, s')
    && r == MapAnswer(s, virt, phys)
    && (if r.Ok? then ViewUpdated(s, s', Path(virt), Leaf(NewLeaf(phys, flags))) else SameView(s, s'))
    && |s.free - s'.free| == TablesAdded(s, virt, phys)
    && Needed(s', Path(virt)) == Needed(s, Path(virt)) - TablesAdded(s, virt, phys)
  }

  /** The contract of `unmap`: removes exactly one 4 KiB leaf and returns its frame. */
  ghost predicate UnmapPost(s: PtState, virt: Word, r: Result<nat, UnmapError>, s': PtState)
    requires Sound(s)
  {
    var q := Path(virt);
    && Sound(s') && s'.root == s.root && OnlyTablesGrew(s, s') && s'.free == s.free && s'.tables == s.tables
    && (if !IsPageAligned(virt) then r == Err(UnmapNotPageAligned) && s' == s
        else match View(s, q)
          case NotMapped => r == Err(UnmapNotMapped) && s' == s
          case Unreachable => r == Err(UnmapTableUnreachable) && s' == s
          case Huge(_, _) => r == Err(IsHugePage) && s' == s
          case Leaf(e) => r == Ok(Addr(e)) && ViewUpdated(s, s', q, NotMapped))
  }

  /** The physical address a mapping gives to an address on its page. */
  function AddressVia(mapping: Mapping, virt: Word): Option<nat> {
    match mapping
    case NotMapped => None
    case Unreachable => None
    case Leaf(e) => Some(Addr(e) + virt % FRAME_SIZE)
    case Huge(levels, e) =>
      if levels == 3 then Some(Addr(e) - Addr(e) % ONE_GIB + virt % ONE_GIB)
      else Some(Addr(e) - Addr(e) % PAGE_SIZE_2M + virt % PAGE_SIZE_2M)
  }

  lemma JoinParts(addr: Word, virt: Word, size: nat, k: nat)
    requires size == Pow2(k)
    ensures 0 <= addr - addr % size && Or(addr - addr % size, virt % size) == addr - addr % size + virt % size
  {
    RemainderBound(addr, size);
    RoundDown(addr, size);
    OrOffset(addr - addr % size, virt % size, k);
  }

  /** `(addr & !(2^k - 1)) | (virt & (2^k - 1))` */
  lemma HugeAddress(addr: Word, virt: Word, k: nat)
    requires k < 64
    ensures Pow2(k) <= TWO64
    ensures Or(And(addr, TWO64 - Pow2(k)), And(virt, Pow2(k) - 1)) == addr - addr % Pow2(k) + virt % Pow2(k)
  {
    HighMask(addr, k);
    LowMask(virt, k);
    JoinParts(addr, virt, Pow2(k), k);
  }

  lemma Huge2MAddress(addr: Word, virt: Word)
    ensures Or(And(addr, TWO64 - PAGE_SIZE_2M), And(virt, PAGE_SIZE_2M - 1))
         == addr - addr % PAGE_SIZE_2M + virt % PAGE_SIZE_2M
  {
    Pow2Values();
    HugeAddress(addr, virt, 21);
  }

  lemma Huge1GAddress(addr: Word, virt: Word)
    ensures Or(And(addr, TWO64 - ONE_GIB), And(virt, ONE_GIB - 1)) == addr - addr % ONE_GIB + virt % ONE_GIB
  {
    Pow2Values();
    HugeAddress(addr, virt, 30);
  }

  lemma LeafAddress(addr: Word, virt: Word)
    requires addr % FRAME_SIZE == 0
    ensures Or(addr, And(virt, 0xFFF)) == addr + virt % FRAME_SIZE
  {
    Pow2Values();
    IndexForms(virt);
    OrOffset(addr, PageOffset(virt), 12);
  }

  /** The flags of a 4 KiB leaf; huge pages are not this query's concern. */
  function FlagsVia(mapping: Mapping): Option<PageFlags> {
    if mapping.Leaf? then Some(FlagsOf(mapping.entry)) else None
  }

  /** What `translate` must answer. */
  function Translation(s: PtState, virt: Word): Option<nat>
    requires s.root % FRAME_SIZE == 0
  {
    AddressVia(View(s, Path(virt)), virt)
  }

  /** What `flags_at` must answer. */
  function FlagsAt(s: PtState, virt: Word): Option<PageFlags>
    requires s.root % FRAME_SIZE == 0
  {
    FlagsVia(View(s, Path(virt)))
  }

  /** A state whose memory differs in no table entry reads the same. */
  lemma TablesUntouched(s: PtState, s': PtState)
    requires Sound(s) && s' == s.(ram := s'.ram)
    requires forall t, i :: t in s.tables && 0 <= i < 512 ==> Entry(s'.ram, t, i) == Entry(s.ram, t, i)
    ensures Sound(s') && SameView(s, s') && (OpenTables(s) ==> OpenTables(s'))
  {
    forall q | PagePath(q)
      ensures View(s', q) == View(s, q)
    {
      if s.root < IDENTITY_MAP_LIMIT {
        ResolveFrame(s.ram, s'.ram, s.tables, s.root, q);
      }
    }
  }

  // ---- Permissions ----

  /** What the processor permits at `virt`. */
  function Access(s: PtState, virt: Word): Option<PageFlags>
    requires s.root % FRAME_SIZE == 0
  {
    Rights(s.ram, s.root, Path(virt))
  }

  /** Writing and executing are both permitted. */
  predicate FullAccess(s: PtState, virt: Word)
    requires s.root % FRAME_SIZE == 0
  {
    Access(s, virt).Some? && Access(s, virt).value.writable && !Access(s, virt).value.noExecute
  }

  /** With open tables, permissions are those of the last entry. */
  lemma AccessOfLast(s: PtState, virt: Word)
    requires Sound(s) && OpenTables(s)
    ensures Access(s, virt) == LastFlags(View(s, Path(virt)))
  {
    if s.root < IDENTITY_MAP_LIMIT {
      OpenRights(s.ram, s.tables, s.root, Path(virt));
    }
  }

  /** From open tables, a successful `map` permits exactly what was asked for on its page,
      and what is permitted on other pages does not change. */
  lemma MapGivesAccess(s: PtState, virt: Word, phys: Word, flags: PageFlags, s': PtState, a: Word)
    requires Sound(s) && OpenTables(s) && MapPost(s, virt, phys, flags, Ok(()), s')
    ensures Access(s', a) == if PageNumber(a) == PageNumber(virt) then Some(flags) else Access(s, a)
  {
    AccessOfLast(s, a);
    AccessOfLast(s', a);
    PathIsPageNumber(a, virt);
  }

  /** `unmap` takes its page's permissions away and changes no others. */
  lemma UnmapTakesAccess(s: PtState, virt: Word, frame: nat, s': PtState, a: Word)
    requires Sound(s) && OpenTables(s) && UnmapPost(s, virt, Ok(frame), s')
    ensures Access(s', a) == if PageNumber(a) == PageNumber(virt) then None else Access(s, a)
  {
    AccessOfLast(s, a);
    AccessOfLast(s', a);
    PathIsPageNumber(a, virt);
  }

  // ---- What callers see ----

  /** A successful `map` is exactly a point update: on the page, the requested flags
      and the low 52 bits of the frame address; on every page with a different
      low-48-bit number, nothing. */
  lemma MapIsPointUpdate(s: PtState, virt: Word, phys: Word, flags: PageFlags, s': PtState, a: Word)
    requires Sound(s) && MapPost(s, virt, phys, flags, Ok(()), s')
    ensures PageNumber(a) == PageNumber(virt) ==>
      FlagsAt(s', a) == Some(flags) && Translation(s', a) == Some(FrameBase(phys) + a % FRAME_SIZE)
    ensures PageNumber(a) != PageNumber(virt) ==>
      FlagsAt(s', a) == FlagsAt(s, a) && Translation(s', a) == Translation(s, a)
  {
    PathIsPageNumber(a, virt);
    assert View(s', Path(a)) == if Path(a) == Path(virt) then Leaf(NewLeaf(phys, flags)) else View(s, Path(a));
  }

  /** The frame reported at `virt` is the requested one exactly when it is a physical
      address an entry has room for. */
  lemma MapTranslatesIff(s: PtState, virt: Word, phys: Word, flags: PageFlags, s': PtState)
    requires Sound(s) && MapPost(s, virt, phys, flags, Ok(()), s')
    ensures Translation(s', virt) == Some(phys) <==> phys < PHYS_LIMIT
  {
    AlignedInputs(s, virt, phys);
    MapIsPointUpdate(s, virt, phys, flags, s', virt);
  }

  /** What each answer of `map` says, in terms of the queries: taken by a 4 KiB page exactly
      where flags can be queried, by a huge page exactly where only a translation can, and
      otherwise there was no translation. */
  lemma MapAnswerMeans(s: PtState, virt: Word, phys: Word, flags: PageFlags, r: Result<(), MapError>, s': PtState)
    requires Sound(s) && MapPost(s, virt, phys, flags, r, s')
    ensures r == Err(MapNotPageAligned) <==> virt % 4096 != 0 || phys % 4096 != 0
    ensures r != Err(MapNotPageAligned) ==>
      && (r == Err(AlreadyMapped) <==> FlagsAt(s, virt).Some?)
      && (r == Err(WouldOverlapHugePage) <==> Translation(s, virt).Some? && FlagsAt(s, virt).None?)
      && (r.Ok? || r == Err(OutOfFrames) || r == Err(MapTableUnreachable) <==> Translation(s, virt).None?)
  {
  }

  /** The same for `unmap`. */
  lemma UnmapAnswerMeans(s: PtState, virt: Word, r: Result<nat, UnmapError>, s': PtState)
    requires Sound(s) && UnmapPost(s, virt, r, s')
    ensures r == Err(UnmapNotPageAligned) <==> virt % 4096 != 0
    ensures r != Err(UnmapNotPageAligned) ==>
      && (r.Ok? <==> FlagsAt(s, virt).Some?)
      && (r == Err(IsHugePage) <==> Translation(s, virt).Some? && FlagsAt(s, virt).None?)
      && (r == Err(UnmapNotMapped) || r == Err(UnmapTableUnreachable) <==> Translation(s, virt).None?)
  {
  }

  lemma AlignedInputs(s: PtState, virt: Word, phys: Word)
    requires s.root % FRAME_SIZE == 0 && MapAnswer(s, virt, phys).Ok?
    ensures virt % FRAME_SIZE == 0 && phys % FRAME_SIZE == 0
    ensures FrameBase(phys) == phys <==> phys < PHYS_LIMIT
  {
  }

  /** A failed `map` is invisible to every address, and costs one frame per table it
      added on the way. */
  lemma FailedMapInvisible(s: PtState, virt: Word, phys: Word, flags: PageFlags, r: Result<(), MapError>, s': PtState,
                           a: Word)
    requires Sound(s) && MapPost(s, virt, phys, flags, r, s') && r.Err?
    ensures FlagsAt(s', a) == FlagsAt(s, a) && Translation(s', a) == Translation(s, a)
    ensures |s.free| - |s'.free| == |s'.tables| - |s.tables| == TablesAdded(s, virt, phys)
  {
    assert View(s', Path(a)) == View(s, Path(a));
    assert s.free == s'.free + (s.free - s'.free);
  }

  /** `unmap` succeeds on exactly the pages whose flags can be queried ... */
  lemma UnmapIffQueryable(s: PtState, virt: Word, r: Result<nat, UnmapError>, s': PtState)
    requires Sound(s) && UnmapPost(s, virt, r, s')
    ensures r.Ok? <==> IsPageAligned(virt) && FlagsAt(s, virt).Some?
  {
    var mapping := View(s, Path(virt));
    assert FlagsAt(s, virt).Some? <==> mapping.Leaf?;
  }

  lemma LeafVia(e: Word, virt: Word)
    requires IsPageAligned(virt)
    ensures AddressVia(Leaf(e), virt) == Some(Addr(e))
  {
  }

  /** ... and returns what `translate` reported, after which nothing is mapped there. */
  lemma UnmapReturnsFrame(s: PtState, virt: Word, r: Result<nat, UnmapError>, s': PtState)
    requires Sound(s) && UnmapPost(s, virt, r, s') && r.Ok?
    ensures Translation(s, virt) == Some(r.value) && Translation(s', virt) == None
  {
    var e := View(s, Path(virt)).entry;
    LeafVia(e, virt);
    assert View(s, Path(virt)) == Leaf(e) && r.value == Addr(e);
    assert View(s', Path(virt)) == NotMapped;
  }

  /** `unmap` undoes `map` on the whole address space and hands back the frame. */
  lemma UnmapUndoesMap(s: PtState, virt: Word, phys: Word, flags: PageFlags, s1: PtState, r: Result<nat, UnmapError>,
                       s2: PtState)
    requires Sound(s) && MapPost(s, virt, phys, flags, Ok(()), s1) && UnmapPost(s1, virt, r, s2)
    ensures r == Ok(FrameBase(phys))
    ensures SameView(s, s2)
  {
    assert View(s1, Path(virt)) == Leaf(NewLeaf(phys, flags));
  }

  /** Tables left behind by an attempt that ran out of frames are reused: after the
      `k` low frames were spent, a retry needs `k` fewer, and succeeds as soon as that
      many are available again. */
  lemma RetryReusesTables(s: PtState, virt: Word, phys: Word, flags: PageFlags, s1: PtState, s2: PtState)
    requires Sound(s) && MapPost(s, virt, phys, flags, Err(OutOfFrames), s1)
    requires s2 == s1.(free := s2.free)
    ensures Needed(s2, Path(virt)) == Needed(s, Path(virt)) - |LowFrames(s)| > 0
    ensures MapAnswer(s2, virt, phys) == Ok(()) <==> |LowFrames(s2)| >= Needed(s, Path(virt)) - |LowFrames(s)|
  {
    assert View(s1, Path(virt)) == NotMapped;
  }

  /** As many table pages as frames, each page in one of the frames: every frame holds
      one of the pages. */
  lemma {:induction false} FramesOfTables(tables: set<nat>, frames: set<nat>, f: nat) returns (t: nat)
    requires forall u :: u in tables ==> IsTable(u) && u / FRAME_SIZE in frames
    requires |tables| == |frames| && f in frames
    ensures t in tables && t / FRAME_SIZE == f
    decreases |tables|
  {
    assert |tables| > 0;
    t :| t in tables;
    var g := t / FRAME_SIZE;
    if g != f {
      forall u | u in tables - {t} ensures u / FRAME_SIZE in frames - {g} { assert IsTable(u) && IsTable(t); }
      t := FramesOfTables(tables - {t}, frames - {g}, f);
    }
  }

  /** Frame `f` became a page table between `s` and `s'`. */
  ghost predicate BecameTable(s: PtState, s': PtState, f: nat) {
    exists t :: t in s'.tables && t !in s.tables && t / FRAME_SIZE == f
  }

  /** Every frame an operation used up became a page table. */
  lemma SpentAreTables(s: PtState, s': PtState, f: nat)
    requires LabelsOk(s.tables) && LabelsOk(s'.tables) && OnlyTablesGrew(s, s') && f in s.free && f !in s'.free
    ensures BecameTable(s, s', f) && f < IDENTITY_MAP_LIMIT / FRAME_SIZE
  {
    var spent, added := s.free - s'.free, s'.tables.Keys - s.tables.Keys;
    assert s'.tables.Keys == s.tables.Keys + added && |s'.tables| == |s'.tables.Keys| && |s.tables| == |s.tables.Keys|;
    forall t | t in added ensures IsTable(t) && t / FRAME_SIZE in spent { assert t in s'.tables && t !in s.tables; }
    var t := FramesOfTables(added, spent, f);
    assert IsTable(t);
  }

  lemma EqualBySize(small: set<nat>, large: set<nat>)
    requires small <= large && |small| == |large|
    ensures small == large
  {
    assert large == small + (large - small);
    assert |large| == |small| + |large - small|;
  }

  /** `map` gives up for want of frames only when it has spent the last free frame
      that could hold a table. */
  lemma OutOfFramesSpendsAll(s: PtState, virt: Word, phys: Word, flags: PageFlags, s': PtState)
    requires Sound(s) && MapPost(s, virt, phys, flags, Err(OutOfFrames), s')
    ensures LowFrames(s') == {}
  {
    var spent := s.free - s'.free;
    forall f | f in spent ensures f in LowFrames(s) { SpentAreTables(s, s', f); }
    EqualBySize(spent, LowFrames(s));
  }

  // ---- Every run ----

  /** What can happen to the address space and the frames: calls of `map` and `unmap`
      with any arguments and outcome, frames taken by anyone, and frames given back by
      owners who never held a table page. A step from a state that is not sound is not
      constrained. */
  datatype Event =
    | Mapped(virt: Word, phys: Word, flags: PageFlags)
    | Unmapped(virt: Word)
    | FrameTaken(frame: nat)
    | FrameReturned(frame: nat)

  ghost predicate Step(s: PtState, e: Event, s': PtState) {
    Sound(s) ==>
      match e
      case Mapped(virt, phys, flags) => MapPost(s, virt, phys, flags, MapAnswer(s, virt, phys), s')
      case Unmapped(virt) => exists r :: UnmapPost(s, virt, r, s')
      case FrameTaken(f) => s' == s.(free := s.free - {f})
      case FrameReturned(f) => (forall t :: t in s.tables ==> t / FRAME_SIZE != f) && s' == s.(free := s.free + {f})
  }

  ghost predicate Run(states: seq<PtState>, events: seq<Event>) {
    && |states| == |events| + 1
    && forall i {:trigger events[i]} :: 0 <= i < |events| ==> Step(states[i], events[i], states[i + 1])
  }

  lemma StepKeepsHuge(s: PtState, e: Event, s': PtState, q: seq<nat>)
    requires Sound(s) && Step(s, e, s') && PagePath(q) && View(s, q).Huge?
    ensures Sound(s') && s'.root == s.root && View(s', q) == View(s, q)
  {
  }

  /** Over every run, successful or failing calls alike, the tables stay a tree of used
      frames and no huge page is ever changed. */
  lemma {:induction false} RunKeepsHuge(states: seq<PtState>, events: seq<Event>, q: seq<nat>)
    requires Run(states, events) && Sound(states[0]) && PagePath(q) && View(states[0], q).Huge?
    ensures Sound(states[|events|]) && states[|events|].root == states[0].root
    ensures View(states[|events|], q) == View(states[0], q)
  {
    if events != [] {
      var n := |events| - 1;
      RunKeepsHuge(states[..n + 1], events[..n], q);
      StepKeepsHuge(states[n], events[n], states[n + 1], q);
    }
  }

  /** No run makes a pointer to a table restrictive. */
  lemma {:induction false} RunKeepsOpen(states: seq<PtState>, events: seq<Event>)
    requires Run(states, events) && Sound(states[0]) && OpenTables(states[0])
    ensures Sound(states[|events|]) && OpenTables(states[|events|])
  {
    if events != [] {
      var n := |events| - 1;
      RunKeepsOpen(states[..n + 1], events[..n]);
      StepKeepsOpen(states[n], events[n], states[n + 1]);
    }
  }

  lemma StepKeepsOpen(s: PtState, e: Event, s': PtState)
    requires Sound(s) && OpenTables(s) && Step(s, e, s')
    ensures Sound(s') && OpenTables(s')
  {
  }
}

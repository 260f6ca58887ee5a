/**
 The virtual memory manager itself: raw table pages in physical memory, walked and
 written in place. Its contracts are those of `AddressSpace`.
 */
module VirtualMemory {
  import opened Bits
  import opened PageFormat
  import opened PageTables
  import opened Options
  import opened FrameAllocation
  import opened AddressSpace

  /** The physical memory the identity map makes addressable. */
  class PhysMemory {
    var words: Ram

    constructor (words: Ram)
      ensures this.words == words
    {
      this.words := words;
    }

    method WriteEntry(t: nat, i: nat, e: Word)
      requires IsTable(t) && i < 512
      modifies this
      ensures words == old(words)[Slot(t, i) := e]
    {
      words := words[Slot(t, i) := e];
    }

    /** Zero a whole table page. */
    method ZeroTable(t: nat)
      requires IsTable(t)
      modifies this
      ensures Zeroed(old(words), words, t)
    {
      for i := 0 to 512
        invariant forall j :: 0 <= j < i ==> Entry(words, t, j) == 0
        invariant forall k :: 0 <= k < RAM_WORDS && k / 512 != t / FRAME_SIZE ==> words[k] == old(words)[k]
      {
        SlotPage(t, i);
        ghost var before := words;
        WriteEntry(t, i, 0);
        assert forall j :: 0 <= j < i ==> Entry(words, t, j) == Entry(before, t, j);
      }
    }
  }

  /** A slot lies in its table's page. */
  lemma SlotPage(t: nat, i: nat)
    requires IsTable(t) && i < 512
    ensures Slot(t, i) / 512 == t / FRAME_SIZE
  {
    ModUnique(t, 8, 512 * (t / 4096), 0);
    ModUnique(Slot(t, i), 512, t / 4096, i);
  }

  /** Bits 51:30 of the entry are the frame base, bits 29:0 of the address the offset. */
  method JoinHuge1G(addr: Word, virt: Word) returns (at: nat)
    ensures at == addr - addr % ONE_GIB + virt % ONE_GIB
  {
    Huge1GAddress(addr, virt);
    at := Or(And(addr, TWO64 - ONE_GIB), And(virt, ONE_GIB - 1));
  }

  method JoinHuge2M(addr: Word, virt: Word) returns (at: nat)
    ensures at == addr - addr % PAGE_SIZE_2M + virt % PAGE_SIZE_2M
  {
    Huge2MAddress(addr, virt);
    at := Or(And(addr, TWO64 - PAGE_SIZE_2M), And(virt, PAGE_SIZE_2M - 1));
  }

  method JoinLeaf(addr: Word, virt: Word) returns (at: nat)
    requires addr % FRAME_SIZE == 0
    ensures at == addr + virt % FRAME_SIZE
  {
    LeafAddress(addr, virt);
    at := Or(addr, And(virt, 0xFFF));
  }

  class Vmm {
    const memory: PhysMemory
    const pml4Phys: nat
    ghost var tables: Labels

    ghost function State(frames: FrameAllocator): PtState
      reads this, memory, frames
    {
      PtState(memory.words, pml4Phys, tables, frames.free)
    }

    ghost predicate Valid(frames: FrameAllocator)
      reads this, memory, frames, frames.bitmap
    {
      frames.Valid() && Sound(State(frames))
    }

    constructor (memory: PhysMemory, cr3: nat, ghost tables: Labels)
      ensures this.memory == memory && pml4Phys == cr3 && this.tables == tables
    {
      this.memory := memory;
      pml4Phys := cr3;
      this.tables := tables;
    }

    /** Map one 4 KiB page, creating intermediate tables on the way down. */
    method Map(frames: FrameAllocator, virt: Word, phys: Word, flags: PageFlags) returns (r: Result<(), MapError>)
      requires Valid(frames)
      modifies this`tables, memory, frames`framesFree, frames`free, frames.bitmap
      ensures Valid(frames)
      ensures MapPost(old(State(frames)), virt, phys, flags, r, State(frames))
    {
      ghost var s0 := State(frames);
      if !IsPageAligned(virt) || phys % FRAME_SIZE != 0 {
        Misaligned(s0, virt, phys, flags);
        return Err(MapNotPageAligned);
      }
      ReachedRoot(s0, Path(virt));
      r := MapAligned(frames, virt, phys, flags, s0);
    }

    /** `Map` after its alignment checks. */
    method MapAligned(frames: FrameAllocator, virt: Word, phys: Word, flags: PageFlags, ghost s0: PtState)
      returns (r: Result<(), MapError>)
      requires Valid(frames) && Sound(s0)
      requires IsPageAligned(virt) && phys % FRAME_SIZE == 0
      requires Reached(s0, State(frames), Path(virt), 0, pml4Phys)
      modifies this`tables, memory, frames`framesFree, frames`free, frames.bitmap
      ensures Valid(frames)
      ensures MapPost(s0, virt, phys, flags, r, State(frames))
    {
      PathDigits(virt);
      var pdpt := NextLevel(frames, pml4Phys, Pml4Index(virt), virt, phys, flags, 1, s0);
      if pdpt.Err? { return Err(pdpt.error); }
      r := MapBelowPdpt(frames, virt, phys, flags, pdpt.value, s0);
    }

    /** The levels below the page directory pointer table. */
    method MapBelowPdpt(frames: FrameAllocator, virt: Word, phys: Word, flags: PageFlags, pdpt: nat, ghost s0: PtState)
      returns (r: Result<(), MapError>)
      requires Valid(frames) && Sound(s0)
      requires IsPageAligned(virt) && phys % FRAME_SIZE == 0
      requires Reached(s0, State(frames), Path(virt), 1, pdpt)
      modifies this`tables, memory, frames`framesFree, frames`free, frames.bitmap
      ensures Valid(frames)
      ensures MapPost(s0, virt, phys, flags, r, State(frames))
    {
      PathDigits(virt);
      var pd := NextLevel(frames, pdpt, PdptIndex(virt), virt, phys, flags, 2, s0);
      if pd.Err? { return Err(pd.error); }
      r := MapBelowPd(frames, virt, phys, flags, pd.value, s0);
    }

    /** The page table and the leaf. */
    method MapBelowPd(frames: FrameAllocator, virt: Word, phys: Word, flags: PageFlags, pd: nat, ghost s0: PtState)
      returns (r: Result<(), MapError>)
      requires Valid(frames) && Sound(s0)
      requires IsPageAligned(virt) && phys % FRAME_SIZE == 0
      requires Reached(s0, State(frames), Path(virt), 2, pd)
      modifies this`tables, memory, frames`framesFree, frames`free, frames.bitmap
      ensures Valid(frames)
      ensures MapPost(s0, virt, phys, flags, r, State(frames))
    {
      PathDigits(virt);
      var pt := NextLevel(frames, pd, PdIndex(virt), virt, phys, flags, 3, s0);
      if pt.Err? { return Err(pt.error); }
      r := WriteLeaf(frames, virt, phys, flags, pt.value, s0);
    }

    /** `GetOrCreateTable` for the `k`-th table below the root on the way to `virt`. */
    method NextLevel(frames: FrameAllocator, t: nat, index: nat, ghost virt: Word, ghost phys: Word,
                     ghost flags: PageFlags, ghost k: nat, ghost s0: PtState)
      returns (r: Result<nat, MapError>)
      requires Valid(frames) && Sound(s0) && 1 <= k <= 3 && index == Path(virt)[k - 1]
      requires IsPageAligned(virt) && phys % FRAME_SIZE == 0
      requires Reached(s0, State(frames), Path(virt), k - 1, t)
      modifies this`tables, memory, frames`framesFree, frames`free, frames.bitmap
      ensures Valid(frames)
      ensures r.Err? ==> MapPost(s0, virt, phys, flags, Err(r.error), State(frames))
      ensures r.Ok? ==> Reached(s0, State(frames), Path(virt), k, r.value)
    {
      ghost var s := State(frames);
      r := GetOrCreateTable(frames, t, index, Path(virt)[..k - 1]);
      if r.Err? {
        DescendErr(s0, s, State(frames), virt, phys, flags, k, t, r);
      } else {
        DescendOk(s0, s, State(frames), Path(virt), k, t, r.value);
      }
    }

    /** The last level of `Map`: refuse a present entry, otherwise write the leaf. */
    method WriteLeaf(frames: FrameAllocator, virt: Word, phys: Word, flags: PageFlags, pt: nat, ghost s0: PtState)
      returns (r: Result<(), MapError>)
      requires Valid(frames) && Sound(s0)
      requires IsPageAligned(virt) && phys % FRAME_SIZE == 0
      requires Reached(s0, State(frames), Path(virt), 3, pt)
      modifies memory
      ensures Valid(frames)
      ensures MapPost(s0, virt, phys, flags, r, State(frames))
    {
      ghost var s := State(frames);
      PathDigits(virt);
      LastLevel(s0, s, virt, phys, flags, pt);
      if pt >= IDENTITY_MAP_LIMIT {
        return Err(MapTableUnreachable);
      }
      var existing := Entry(memory.words, pt, PtIndex(virt));
      if IsPresent(existing) {
        return Err(AlreadyMapped);
      }
      memory.WriteEntry(pt, PtIndex(virt), NewLeaf(phys, flags));
      LeafWritten(s0, s, State(frames), virt, phys, flags, pt);
      return Ok(());
    }

    /** Remove one 4 KiB mapping and return its frame; huge pages are refused. */
    method Unmap(frames: FrameAllocator, virt: Word) returns (r: Result<nat, UnmapError>)
      requires Valid(frames)
      modifies memory
      ensures Valid(frames)
      ensures UnmapPost(old(State(frames)), virt, r, State(frames))
    {
      if !IsPageAligned(virt) {
        return Err(UnmapNotPageAligned);
      }
      var pt := FindPageTable(virt);
      if pt.Err? {
        return pt;
      }
      r := UnmapLeaf(frames, virt, pt.value);
    }

    /** The first three levels of `Unmap`: the page table for `virt`, or why there is
        none. */
    method FindPageTable(virt: Word) returns (r: Result<nat, UnmapError>)
      requires Tree(memory.words, pml4Phys, tables)
      ensures r.Err? ==> Refusal(Resolve(memory.words, pml4Phys, Path(virt))) == Some(r.error)
      ensures r.Ok? ==> r.value % FRAME_SIZE == 0
      ensures r.Ok? ==> Resolve(memory.words, pml4Phys, Path(virt)) == Resolve(memory.words, r.value, [PtIndex(virt)])
      ensures r.Ok? && r.value < IDENTITY_MAP_LIMIT ==>
        Walk(memory.words, pml4Phys, [Pml4Index(virt), PdptIndex(virt), PdIndex(virt)]) == Some(r.value)
    {
      FourLevels(memory.words, pml4Phys, virt);
      if pml4Phys >= IDENTITY_MAP_LIMIT {
        return Err(UnmapTableUnreachable);
      }
      var pml4e := Entry(memory.words, pml4Phys, Pml4Index(virt));
      if !IsPresent(pml4e) {
        return Err(UnmapNotMapped);
      }
      if Addr(pml4e) >= IDENTITY_MAP_LIMIT {
        return Err(UnmapTableUnreachable);
      }
      var pdpte := Entry(memory.words, Addr(pml4e), PdptIndex(virt));
      if !IsPresent(pdpte) {
        return Err(UnmapNotMapped);
      }
      if IsHuge(pdpte) {
        return Err(IsHugePage);
      }
      if Addr(pdpte) >= IDENTITY_MAP_LIMIT {
        return Err(UnmapTableUnreachable);
      }
      var pde := Entry(memory.words, Addr(pdpte), PdIndex(virt));
      if !IsPresent(pde) {
        return Err(UnmapNotMapped);
      }
      if IsHuge(pde) {
        return Err(IsHugePage);
      }
      assert tables[pml4Phys] == [];
      WalkThree(memory.words, pml4Phys, Pml4Index(virt), PdptIndex(virt), PdIndex(virt), Addr(pml4e), Addr(pdpte),
        Addr(pde));
      return Ok(Addr(pde));
    }

    /** What physical address does `virt` map to? */
    method Translate(virt: Word) returns (r: Option<nat>)
      requires pml4Phys % FRAME_SIZE == 0
      ensures r == AddressVia(Resolve(memory.words, pml4Phys, Path(virt)), virt)
    {
      FourLevels(memory.words, pml4Phys, virt);
      if pml4Phys >= IDENTITY_MAP_LIMIT {
        return None;
      }
      var pml4e := Entry(memory.words, pml4Phys, Pml4Index(virt));
      if !IsPresent(pml4e) {
        return None;
      }
      if Addr(pml4e) >= IDENTITY_MAP_LIMIT {
        return None;
      }
      var pdpte := Entry(memory.words, Addr(pml4e), PdptIndex(virt));
      if !IsPresent(pdpte) {
        return None;
      }
      if IsHuge(pdpte) {
        var at := JoinHuge1G(Addr(pdpte), virt);
        return Some(at);
      }
      r := TranslateBelow(virt, Addr(pdpte));
    }

    /** The lower two levels of `Translate`. */
    method TranslateBelow(virt: Word, pd: nat) returns (r: Option<nat>)
      requires pd % FRAME_SIZE == 0
      ensures r == AddressVia(PdLevel(memory.words, pd, virt), virt)
    {
      if pd >= IDENTITY_MAP_LIMIT {
        return None;
      }
      var pde := Entry(memory.words, pd, PdIndex(virt));
      if !IsPresent(pde) {
        return None;
      }
      if IsHuge(pde) {
        var at := JoinHuge2M(Addr(pde), virt);
        return Some(at);
      }
      if Addr(pde) >= IDENTITY_MAP_LIMIT {
        return None;
      }
      var pte := Entry(memory.words, Addr(pde), PtIndex(virt));
      if !IsPresent(pte) {
        return None;
      }
      var at := JoinLeaf(Addr(pte), virt);
      return Some(at);
    }

    /** What permissions does the 4 KiB mapping at `virt` have? */
    method QueryFlags(virt: Word) returns (r: Option<PageFlags>)
      requires pml4Phys % FRAME_SIZE == 0
      ensures r == FlagsVia(Resolve(memory.words, pml4Phys, Path(virt)))
    {
      FourLevels(memory.words, pml4Phys, virt);
      if pml4Phys >= IDENTITY_MAP_LIMIT {
        return None;
      }
      var pml4e := Entry(memory.words, pml4Phys, Pml4Index(virt));
      if !IsPresent(pml4e) {
        return None;
      }
      if Addr(pml4e) >= IDENTITY_MAP_LIMIT {
        return None;
      }
      var pdpte := Entry(memory.words, Addr(pml4e), PdptIndex(virt));
      if !IsPresent(pdpte) || IsHuge(pdpte) {
        return None;
      }
      if Addr(pdpte) >= IDENTITY_MAP_LIMIT {
        return None;
      }
      var pde := Entry(memory.words, Addr(pdpte), PdIndex(virt));
      if !IsPresent(pde) || IsHuge(pde) {
        return None;
      }
      if Addr(pde) >= IDENTITY_MAP_LIMIT {
        return None;
      }
      var pte := Entry(memory.words, Addr(pde), PtIndex(virt));
      if !IsPresent(pte) {
        return None;
      }
      return Some(PageFlags(IsWritable(pte), IsNoExecute(pte)));
    }

    /** The last level of `Unmap`. */
    method UnmapLeaf(frames: FrameAllocator, virt: Word, pt: nat) returns (r: Result<nat, UnmapError>)
      requires Valid(frames) && IsPageAligned(virt) && pt % FRAME_SIZE == 0
      requires View(State(frames), Path(virt)) == Resolve(memory.words, pt, [PtIndex(virt)])
      requires pt < IDENTITY_MAP_LIMIT ==>
        Walk(memory.words, pml4Phys, [Pml4Index(virt), PdptIndex(virt), PdIndex(virt)]) == Some(pt)
      modifies memory
      ensures Valid(frames)
      ensures UnmapPost(old(State(frames)), virt, r, State(frames))
    {
      if pt >= IDENTITY_MAP_LIMIT {
        return Err(UnmapTableUnreachable);
      }
      var pte := Entry(memory.words, pt, PtIndex(virt));
      if !IsPresent(pte) {
        return Err(UnmapNotMapped);
      }
      ghost var s := State(frames);
      memory.WriteEntry(pt, PtIndex(virt), 0);
      assert Path(virt)[..3] == [Pml4Index(virt), PdptIndex(virt), PdIndex(virt)] && Path(virt)[3] == PtIndex(virt);
      LeafUpdate(s, State(frames), Path(virt), pt, 0);
      ZeroIsAbsent();
      return Ok(Addr(pte));
    }

    /** Walk to the next-level table, creating it when absent. */
    method GetOrCreateTable(frames: FrameAllocator, tablePhys: nat, index: nat, ghost p: seq<nat>)
      returns (r: Result<nat, MapError>)
      requires Valid(frames)
      requires |p| <= 2 && ValidPath(p) && index < 512 && tablePhys % FRAME_SIZE == 0
      requires tablePhys < IDENTITY_MAP_LIMIT ==> Walk(memory.words, pml4Phys, p) == Some(tablePhys)
      modifies this`tables, memory, frames`framesFree, frames`free, frames.bitmap
      ensures Valid(frames)
      ensures Descended(old(State(frames)), tablePhys, index, p, r, State(frames))
    {
      if tablePhys >= IDENTITY_MAP_LIMIT {
        return Err(MapTableUnreachable);
      }
      var entry := Entry(memory.words, tablePhys, index);
      if IsPresent(entry) {
        if IsHuge(entry) {
          return Err(WouldOverlapHugePage);
        }
        return Ok(Addr(entry));
      }
      r := CreateTable(frames, tablePhys, index, p);
    }

    /** The creating half of the above. */
    method CreateTable(frames: FrameAllocator, tablePhys: nat, index: nat, ghost p: seq<nat>)
      returns (r: Result<nat, MapError>)
      requires Valid(frames)
      requires |p| <= 2 && ValidPath(p) && index < 512 && IsTable(tablePhys)
      requires Walk(memory.words, pml4Phys, p) == Some(tablePhys) && !IsPresent(Entry(memory.words, tablePhys, index))
      modifies this`tables, memory, frames`framesFree, frames`free, frames.bitmap
      ensures frames.Valid()
      ensures if LowFrames(old(State(frames))) == {} then r == Err(OutOfFrames) && State(frames) == old(State(frames))
              else r.Ok? && Grown(old(State(frames)), State(frames), r.value, p + [index])
    {
      var page := frames.AllocateBelow(IDENTITY_MAP_LIMIT);
      if page.None? {
        return Err(OutOfFrames);
      }
      var newTable := page.value;
      memory.ZeroTable(newTable);
      ghost var zeroed := memory.words;
      memory.WriteEntry(tablePhys, index, NewTablePointer(newTable));
      tables := tables[newTable := p + [index]];
      HookTable(old(State(frames)), zeroed, State(frames), tablePhys, index, p, newTable);
      return Ok(newTable);
    }
  }

  predicate Wrote(m: Ram, m': Ram, k: nat, e: Word) {
    k < RAM_WORDS && m' == m[k := e]
  }

  /** `m'` is `m` with the page of table `f` zeroed. */
  ghost predicate Zeroed(m: Ram, m': Ram, f: nat)
    requires IsTable(f)
  {
    && (forall j :: 0 <= j < 512 ==> Entry(m', f, j) == 0)
    && (forall k :: 0 <= k < RAM_WORDS && k / 512 != f / FRAME_SIZE ==> m'[k] == m[k])
  }

  /** A frame that was free is no table of ours. */
  lemma FreshTable(s: PtState, f: nat, p: seq<nat>, u: nat)
    requires Sound(s) && f % FRAME_SIZE == 0 && f / FRAME_SIZE in LowFrames(s)
    requires |p| <= 2 && ValidPath(p) && Walk(s.ram, s.root, p) == Some(u)
    ensures IsTable(f) && f !in s.tables && IsTable(u) && u in s.tables && s.tables[u] == p && u != f
  {
    WalkLabel(s.ram, s.tables, s.root, p);
    assert s.tables[s.root] + p == p;
  }

  lemma HookMemory(s: PtState, m1: Ram, m2: Ram, u: nat, i: nat, f: nat)
    requires Sound(s) && IsTable(f) && f !in s.tables && u in s.tables && i < 512
    requires Zeroed(s.ram, m1, f) && Wrote(m1, m2, Slot(u, i), NewTablePointer(f))
    ensures AgreeExcept(s.ram, m2, s.tables, u, i)
    ensures Entry(m2, u, i) == NewTablePointer(f)
    ensures forall j :: 0 <= j < 512 ==> Entry(m2, f, j) == 0
    ensures forall k :: 0 <= k < RAM_WORDS && m2[k] != s.ram[k] ==>
      k / 512 * FRAME_SIZE == f || k / 512 * FRAME_SIZE == u
  {
    forall t, j | t in s.tables && 0 <= j < 512 && !(t == u && j == i)
      ensures Entry(m2, t, j) == Entry(s.ram, t, j)
    {
      SlotInjective(t, j, u, i);
      SlotPage(t, j);
    }
    forall j | 0 <= j < 512
      ensures Entry(m2, f, j) == 0
    {
      SlotInjective(f, j, u, i);
      assert Entry(m1, f, j) == 0;
    }
    SlotPage(u, i);
  }

  lemma HookTable(s: PtState, m1: Ram, s': PtState, u: nat, i: nat, p: seq<nat>, f: nat)
    requires Sound(s) && |p| <= 2 && ValidPath(p) && i < 512
    requires Walk(s.ram, s.root, p) == Some(u) && IsTable(u) && !IsPresent(Entry(s.ram, u, i))
    requires IsTable(f) && f / FRAME_SIZE in LowFrames(s)
    requires Zeroed(s.ram, m1, f) && Wrote(m1, s'.ram, Slot(u, i), NewTablePointer(f))
    requires s' == PtState(s'.ram, s.root, s.tables[f := p + [i]], s.free - {f / FRAME_SIZE})
    ensures Grown(s, s', f, p + [i])
  {
    FreshTable(s, f, p, u);
    HookMemory(s, m1, s'.ram, u, i, f);
    InstallTable(s.ram, s'.ram, s.root, s.tables, p, u, i, f);
    if OpenTables(s) { InstallOpen(s.ram, s'.ram, s.tables, p, u, i, f); }
    HookFrames(s, s', u, f, p + [i]);
  }

  lemma HookFrames(s: PtState, s': PtState, u: nat, f: nat, path: seq<nat>)
    requires Sound(s) && IsTable(f) && f / FRAME_SIZE in s.free && f !in s.tables && u in s.tables
    requires s' == PtState(s'.ram, s.root, s.tables[f := path], s.free - {f / FRAME_SIZE})
    requires LabelsOk(s'.tables) && (OpenTables(s) ==> OpenTables(s'))
    requires forall k :: 0 <= k < RAM_WORDS && s'.ram[k] != s.ram[k] ==>
      k / 512 * FRAME_SIZE == f || k / 512 * FRAME_SIZE == u
    ensures OnlyTablesGrew(s, s')
    ensures forall t :: t in s'.tables ==> t / FRAME_SIZE !in s'.free
  {
    assert s.free - s'.free == {f / FRAME_SIZE};
    assert s'.tables.Keys == s.tables.Keys + {f};
  }

  /** What one step of the walk may do: stop with an error and no change, follow an
      existing pointer, or hook in one fresh table that changes no mapping. */
  ghost predicate Descended(s: PtState, t: nat, i: nat, p: seq<nat>, r: Result<nat, MapError>, s': PtState)
    requires Sound(s) && t % FRAME_SIZE == 0 && i < 512 && |p| <= 2 && ValidPath(p)
  {
    if t >= IDENTITY_MAP_LIMIT then r == Err(MapTableUnreachable) && s' == s
    else
      var e := Entry(s.ram, t, i);
      if IsPresent(e) then s' == s && r == if IsHuge(e) then Err(WouldOverlapHugePage) else Ok(Addr(e))
      else if LowFrames(s) == {} then r == Err(OutOfFrames) && s' == s
      else r.Ok? && Grown(s, s', r.value, p + [i])
  }

  /** One fresh table `f` was hooked in at `p`. */
  ghost predicate Grown(s: PtState, s': PtState, f: nat, p: seq<nat>)
    requires Sound(s) && 1 <= |p| <= 3
  {
    && Sound(s') && s'.root == s.root && SameView(s, s') && OnlyTablesGrew(s, s')
    && IsTable(f) && f / FRAME_SIZE in LowFrames(s) && s'.free == s.free - {f / FRAME_SIZE}
    && s'.tables == s.tables[f := p] && f !in s.tables
    && ValidPath(p) && Walk(s'.ram, s'.root, p) == Some(f)
    && forall q :: PagePath(q) && p <= q ==>
        View(s, q) == NotMapped && Needed(s, q) == 4 - |p| && Needed(s', q) == 3 - |p|
  }

  // ---- Composing the levels of `Map` ----

  /** After `k` levels: the walk stands at table `t`, nothing visible has changed, and
      every frame spent so far was spent on a table that was missing. */
  ghost predicate Reached(s0: PtState, s: PtState, q: seq<nat>, k: nat, t: nat)
    requires Sound(s0) && PagePath(q) && k <= 3
  {
    && Sound(s) && s.root == s0.root && SameView(s0, s) && OnlyTablesGrew(s0, s)
    && t % FRAME_SIZE == 0
    && (if t < IDENTITY_MAP_LIMIT then Walk(s.ram, s.root, q[..k]) == Some(t) else View(s, q) == Unreachable)
    && Accounted(s0, s, q)
  }

  ghost predicate Accounted(s0: PtState, s: PtState, q: seq<nat>)
    requires Sound(s0) && s.root == s0.root && PagePath(q)
  {
    var added := |s0.free - s.free|;
    && |LowFrames(s)| == |LowFrames(s0)| - added
    && Needed(s, q) == Needed(s0, q) - added
    && (added > 0 ==> View(s0, q) == NotMapped)
  }

  lemma ReachedRoot(s0: PtState, q: seq<nat>)
    requires Sound(s0) && PagePath(q)
    ensures Reached(s0, s0, q, 0, s0.root)
  {
    assert s0.free - s0.free == {};
  }

  /** What the walk at table `t` says about the whole path. */
  lemma ReachedView(s0: PtState, s: PtState, q: seq<nat>, k: nat, t: nat)
    requires Sound(s0) && PagePath(q) && k <= 3 && Reached(s0, s, q, k, t) && t < IDENTITY_MAP_LIMIT
    ensures View(s, q) == Resolve(s.ram, t, q[k..])
    ensures Needed(s, q) == Missing(s.ram, t, q[k..])
    ensures t in s.tables && s.tables[t] == q[..k]
  {
    assert q == q[..k] + q[k..];
    WalkResolve(s.ram, s.root, q[..k], q[k..]);
    WalkLabel(s.ram, s.tables, s.root, q[..k]);
    assert s.tables[s.root] + q[..k] == q[..k];
  }

  lemma GrewTransitive(s0: PtState, s: PtState, s': PtState)
    requires LabelsOk(s0.tables) && LabelsOk(s.tables) && LabelsOk(s'.tables)
    requires OnlyTablesGrew(s0, s) && OnlyTablesGrew(s, s')
    ensures OnlyTablesGrew(s0, s')
    ensures |s0.free - s'.free| == |s0.free - s.free| + |s.free - s'.free|
  {
    assert s0.free - s'.free == (s0.free - s.free) + (s.free - s'.free);
  }

  lemma GrownAccounted(s0: PtState, s: PtState, s': PtState, q: seq<nat>, f: nat, p: seq<nat>)
    requires Sound(s0) && Sound(s) && PagePath(q) && 1 <= |p| <= 3 && p <= q
    requires s.root == s0.root && SameView(s0, s) && OnlyTablesGrew(s0, s) && Accounted(s0, s, q)
    requires Grown(s, s', f, p)
    ensures OnlyTablesGrew(s0, s') && Accounted(s0, s', q)
  {
    GrewTransitive(s0, s, s');
    var frame := f / FRAME_SIZE;
    assert s.free - s'.free == {frame};
    assert LowFrames(s') == LowFrames(s) - {frame};
  }

  lemma PathStep(q: seq<nat>, k: nat)
    requires 1 <= k <= |q|
    ensures q[..k - 1] + [q[k - 1]] == q[..k] && q[k - 1..][1..] == q[k..]
  {
  }

  lemma DescendPresent(s0: PtState, s: PtState, q: seq<nat>, k: nat, t: nat)
    requires Sound(s0) && PagePath(q) && 1 <= k <= 3 && Reached(s0, s, q, k - 1, t) && t < IDENTITY_MAP_LIMIT
    requires var e := Entry(s.ram, t, q[k - 1]); IsPresent(e) && !IsHuge(e)
    ensures Reached(s0, s, q, k, Addr(Entry(s.ram, t, q[k - 1])))
  {
    PathStep(q, k);
    ReachedView(s0, s, q, k - 1, t);
    WalkExtend(s.ram, s.root, q[..k - 1], q[k - 1]);
  }

  lemma DescendGrown(s0: PtState, s: PtState, s': PtState, q: seq<nat>, k: nat, t: nat, f: nat)
    requires Sound(s0) && PagePath(q) && 1 <= k <= 3 && Reached(s0, s, q, k - 1, t)
    requires Grown(s, s', f, q[..k])
    ensures Reached(s0, s', q, k, f)
  {
    GrownAccounted(s0, s, s', q, f, q[..k]);
  }

  lemma DescendOk(s0: PtState, s: PtState, s': PtState, q: seq<nat>, k: nat, t: nat, t': nat)
    requires Sound(s0) && PagePath(q) && 1 <= k <= 3 && Reached(s0, s, q, k - 1, t)
    requires Descended(s, t, q[k - 1], q[..k - 1], Ok(t'), s')
    ensures Reached(s0, s', q, k, t')
  {
    var e := Entry(s.ram, t, q[k - 1]);
    if IsPresent(e) {
      assert s' == s && !IsHuge(e) && t' == Addr(e);
      DescendPresent(s0, s, q, k, t);
    } else {
      PathStep(q, k);
      assert Grown(s, s', t', q[..k]);
      DescendGrown(s0, s, s', q, k, t, t');
    }
  }

  lemma Misaligned(s0: PtState, virt: Word, phys: Word, flags: PageFlags)
    requires Sound(s0) && (!IsPageAligned(virt) || phys % FRAME_SIZE != 0)
    ensures MapPost(s0, virt, phys, flags, Err(MapNotPageAligned), s0)
  {
    assert s0.free - s0.free == {};
  }

  lemma DescendErr(s0: PtState, s: PtState, s': PtState, virt: Word, phys: Word, flags: PageFlags, k: nat, t: nat,
                   r: Result<nat, MapError>)
    requires Sound(s0) && 1 <= k <= 3 && Reached(s0, s, Path(virt), k - 1, t)
    requires IsPageAligned(virt) && phys % FRAME_SIZE == 0
    requires Descended(s, t, Path(virt)[k - 1], Path(virt)[..k - 1], r, s') && r.Err?
    ensures MapPost(s0, virt, phys, flags, Err(r.error), s')
  {
    var q := Path(virt);
    if t < IDENTITY_MAP_LIMIT {
      ReachedView(s0, s, q, k - 1, t);
    }
    assert View(s0, q) == View(s, q);
  }

  lemma LastLevel(s0: PtState, s: PtState, virt: Word, phys: Word, flags: PageFlags, t: nat)
    requires Sound(s0) && Reached(s0, s, Path(virt), 3, t)
    requires IsPageAligned(virt) && phys % FRAME_SIZE == 0
    ensures t >= IDENTITY_MAP_LIMIT ==> MapPost(s0, virt, phys, flags, Err(MapTableUnreachable), s)
    ensures t < IDENTITY_MAP_LIMIT && IsPresent(Entry(s.ram, t, Path(virt)[3])) ==>
      MapPost(s0, virt, phys, flags, Err(AlreadyMapped), s)
  {
    var q := Path(virt);
    if t < IDENTITY_MAP_LIMIT {
      ReachedView(s0, s, q, 3, t);
    }
    assert View(s0, q) == View(s, q);
  }

  lemma LeafWritten(s0: PtState, s: PtState, s': PtState, virt: Word, phys: Word, flags: PageFlags, t: nat)
    requires Sound(s0) && Reached(s0, s, Path(virt), 3, t) && t < IDENTITY_MAP_LIMIT
    requires IsPageAligned(virt) && phys % FRAME_SIZE == 0
    requires !IsPresent(Entry(s.ram, t, Path(virt)[3]))
    requires Wrote(s.ram, s'.ram, Slot(t, Path(virt)[3]), NewLeaf(phys, flags)) && s' == s.(ram := s'.ram)
    ensures MapPost(s0, virt, phys, flags, Ok(()), s')
  {
    var q := Path(virt);
    ReachedView(s0, s, q, 3, t);
    LeafUpdate(s, s', q, t, NewLeaf(phys, flags));
    assert s.free - s'.free == {};
    GrewTransitive(s0, s, s');
    assert View(s0, q) == View(s, q);
  }

  lemma LeafMemory(s: PtState, m': Ram, t: nat, i: nat, e: Word)
    requires Sound(s) && t in s.tables && i < 512 && Wrote(s.ram, m', Slot(t, i), e)
    ensures AgreeExcept(s.ram, m', s.tables, t, i) && Entry(m', t, i) == e
    ensures forall k :: 0 <= k < RAM_WORDS && m'[k] != s.ram[k] ==> k / 512 * FRAME_SIZE in s.tables
  {
    forall u, j | u in s.tables && 0 <= j < 512 && !(u == t && j == i)
      ensures Entry(m', u, j) == Entry(s.ram, u, j)
    {
      SlotInjective(u, j, t, i);
    }
    SlotPage(t, i);
  }

  lemma LeafNeeded(m: Ram, m': Ram, root: nat, tables: Labels, q: seq<nat>, t: nat)
    requires Tree(m, root, tables) && PagePath(q) && IsTable(t)
    requires Walk(m, root, q[..3]) == Some(t) && AgreeExcept(m, m', tables, t, q[3])
    ensures Missing(m', root, q) == 0
  {
    assert q[..3] + ([q[3]] + []) == q;
    OnRoute(m, m', root, tables, q[..3], t, q[3], []);
  }

  /** Writing one leaf entry, seen from the whole address space. */
  lemma LeafUpdate(s: PtState, s': PtState, q: seq<nat>, t: nat, e: Word)
    requires Sound(s) && PagePath(q) && IsTable(t)
    requires Walk(s.ram, s.root, q[..3]) == Some(t)
    requires Wrote(s.ram, s'.ram, Slot(t, q[3]), e) && s' == s.(ram := s'.ram)
    ensures Sound(s') && OnlyTablesGrew(s, s')
    ensures ViewUpdated(s, s', q, if IsPresent(e) then Leaf(e) else NotMapped)
    ensures Needed(s', q) == 0
  {
    assert t in s.tables && |s.tables[t]| == 3 by {
      WalkLabel(s.ram, s.tables, s.root, q[..3]);
    }
    LeafMemory(s, s'.ram, t, q[3], e);
    if OpenTables(s) { LeafOpen(s.ram, s'.ram, s.tables, t, q[3]); }
    LeafNeeded(s.ram, s'.ram, s.root, s.tables, q, t);
    SetLeaf(s.ram, s'.ram, s.root, s.tables, q[..3], t, q[3]);
    assert q[..3] + [q[3]] == q;
    assert s.free - s'.free == {};
  }

  // ---- The reference walk, written out level by level ----

  function PtLevel(m: Ram, t: nat, virt: Word): Mapping
    requires t % FRAME_SIZE == 0
  {
    if t >= IDENTITY_MAP_LIMIT then Unreachable else
    var e := Entry(m, t, PtIndex(virt));
    if IsPresent(e) then Leaf(e) else NotMapped
  }

  function PdLevel(m: Ram, t: nat, virt: Word): Mapping
    requires t % FRAME_SIZE == 0
  {
    if t >= IDENTITY_MAP_LIMIT then Unreachable else
    var e := Entry(m, t, PdIndex(virt));
    if !IsPresent(e) then NotMapped else if IsHuge(e) then Huge(2, e) else PtLevel(m, Addr(e), virt)
  }

  function PdptLevel(m: Ram, t: nat, virt: Word): Mapping
    requires t % FRAME_SIZE == 0
  {
    if t >= IDENTITY_MAP_LIMIT then Unreachable else
    var e := Entry(m, t, PdptIndex(virt));
    if !IsPresent(e) then NotMapped else if IsHuge(e) then Huge(3, e) else PdLevel(m, Addr(e), virt)
  }

  lemma TwoLevels(m: Ram, t: nat, virt: Word)
    requires t % FRAME_SIZE == 0
    ensures Resolve(m, t, [PdIndex(virt), PtIndex(virt)]) == PdLevel(m, t, virt)
  {
    assert [PdIndex(virt), PtIndex(virt)][1..] == [PtIndex(virt)];
  }

  lemma ThreeLevels(m: Ram, t: nat, virt: Word)
    requires t % FRAME_SIZE == 0
    ensures Resolve(m, t, [PdptIndex(virt), PdIndex(virt), PtIndex(virt)]) == PdptLevel(m, t, virt)
  {
    assert [PdptIndex(virt), PdIndex(virt), PtIndex(virt)][1..] == [PdIndex(virt), PtIndex(virt)];
    if t < IDENTITY_MAP_LIMIT { TwoLevels(m, Addr(Entry(m, t, PdptIndex(virt))), virt); }
  }

  lemma FourLevels(m: Ram, t: nat, virt: Word)
    requires t % FRAME_SIZE == 0
    ensures Resolve(m, t, Path(virt)) ==
      if t >= IDENTITY_MAP_LIMIT then Unreachable else
      var e := Entry(m, t, Pml4Index(virt));
      if !IsPresent(e) then NotMapped else PdptLevel(m, Addr(e), virt)
  {
    assert Path(virt)[1..] == [PdptIndex(virt), PdIndex(virt), PtIndex(virt)];
    if t < IDENTITY_MAP_LIMIT { ThreeLevels(m, Addr(Entry(m, t, Pml4Index(virt))), virt); }
  }

  /** An entry of a table that points to another table. */
  predicate Pointer(m: Ram, t: nat, i: nat, next: nat)
    requires i < 512
  {
    IsTable(t) && IsPresent(Entry(m, t, i)) && !IsHuge(Entry(m, t, i)) && Addr(Entry(m, t, i)) == next
  }

  /** When three pointer entries lead to a page table, the path of indices leads there. */
  lemma WalkThree(m: Ram, root: nat, i: nat, j: nat, k: nat, pdpt: nat, pd: nat, pt: nat)
    requires i < 512 && j < 512 && k < 512 && pt % FRAME_SIZE == 0
    requires Pointer(m, root, i, pdpt) && Pointer(m, pdpt, j, pd) && Pointer(m, pd, k, pt)
    ensures Walk(m, root, [i, j, k]) == Walk(m, pt, [])
  {
    assert [i, j, k][1..] == [j, k] && [j, k][1..] == [k] && [k][1..] == [];
    assert Walk(m, root, [i, j, k]) == Walk(m, pdpt, [j, k]);
    assert Walk(m, pdpt, [j, k]) == Walk(m, pd, [k]);
  }

  /** The error with which `unmap` refuses a page that is no 4 KiB leaf. */
  function Refusal(mapping: Mapping): Option<UnmapError> {
    match mapping
    case NotMapped => Some(UnmapNotMapped)
    case Unreachable => Some(UnmapTableUnreachable)
    case Huge(_, _) => Some(IsHugePage)
    case Leaf(_) => None
  }
}

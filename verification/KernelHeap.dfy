/**
 The growing kernel heap: the free list on top of pages that the virtual memory manager
 maps and the frame allocator supplies.
 */
module KernelHeaps {
  import opened Bits
  import opened PageFormat
  import opened PageTables
  import opened Options
  import opened AddressSpace
  import opened FrameAllocation
  import opened VirtualMemory
  import opened HeapSpace
  import opened FreeList
  import Ledgers = HeapLedger
  import opened IntrusiveList

  const HEAP_GROWTH_MIN_PAGES: nat := 16

  type Layout = Ledgers.Layout
  type Ledger = Ledgers.Ledger

  /** Everything the heap rests on: its ledger, the cursor, the frame behind each page,
      and the address space. */
  datatype HeapState = HeapState(book: Ledger, cursor: nat, owned: seq<nat>, space: PtState)

  /** The bytes below the cursor, and no others, are free, live or lost. */
  ghost predicate Partition(book: Ledger, cursor: nat) {
    forall b :: HEAP_REGION_START <= b < cursor <==>
      Covers(book.free, b) || Covers(book.live, b) || Covers(book.lost, b)
  }

  /** The heap-wide invariant. */
  ghost predicate HeapOk(h: HeapState) {
    && Ledgers.Balanced(h.book) && Partition(h.book, h.cursor)
    && Ledgers.Eights(h.book.free) && Ledgers.Eights(h.book.live)
    && h.cursor == HEAP_REGION_START + |h.owned| * FRAME_SIZE
    && h.book.added == h.cursor - HEAP_REGION_START
    && Sound(h.space) && OpenTables(h.space) && Backed(h.space, h.owned)
  }

  /** Pages mapped by one growth step: the minimum, or just enough for the request. */
  function GrowthPages(layout: Layout): (n: nat)
    ensures n >= 16 && n * 4096 >= layout.size && (n == 16 || (n - 1) * 4096 < layout.size)
  {
    var needed := DivCeil(layout.size, FRAME_SIZE);
    var needed := if needed < 1 then 1 else needed;
    if needed < HEAP_GROWTH_MIN_PAGES then HEAP_GROWTH_MIN_PAGES else needed
  }

  function GrowthRegion(h: HeapState, layout: Layout): Region {
    Region(h.cursor, GrowthPages(layout) * FRAME_SIZE)
  }

  /** What a failed growth lost: the frames it had mapped, the state in which they were
      mapped, before the unwinding, and the number of the first frame it was given. */
  datatype Loss = Loss(frames: seq<nat>, peak: PtState, first: Option<nat>)

  /** The contract of `grow`.

      On success the region just past the cursor is mapped and given to the free list;
      every other page stays as it was, and exactly the frames behind the new pages and
      those of new tables were used up.

      On failure the list, the cursor and every translation are as before. The pages that
      had been mapped at the peak are unmapped again and their frames are lost: neither
      free nor tables. Exactly they and the frames of new tables were used up. Unless the
      region is too small, and then nothing happens at all, memory is used up, and whether
      anything was lost depends on the first page alone. */
  ghost predicate GrowPost(h: HeapState, layout: Layout, ok: bool, loss: Loss, h': HeapState)
    requires HeapOk(h)
  {
    && HeapOk(h')
    && if ok then
         && h'.book == Ledgers.Grown(h.book, GrowthRegion(h, layout)) && h'.cursor == GrowthRegion(h, layout).End()
         && h.owned <= h'.owned && Growing(h.space, |h.owned|, h'.space, h'.owned)
       else
         && h' == h.(space := h'.space) && Undone(h.space, h.owned, loss, h'.space)
         && |loss.frames| < GrowthPages(layout)
         && (if GrowthRegion(h, layout).End() > HEAP_REGION_END then h' == h && loss.frames == []
             else
               && Exhausted(h'.space) && |h.owned| < HEAP_PAGES
               && FirstPage(h.space, |h.owned|, loss.first, loss.frames != []))
  }

  /** Whether page `n` can be mapped in `s` once frame number `first` has been taken for it:
      the tables it needs must be found among the other low frames. */
  ghost predicate FirstPage(s: PtState, n: nat, first: Option<nat>, mapped: bool)
    requires s.root % FRAME_SIZE == 0 && n < HEAP_PAGES
  {
    match first
    case None => s.free == {} && !mapped
    case Some(f) => f in s.free && (mapped <==> Needed(s, HeapPath(n)) <= |LowFrames(s.(free := s.free - {f}))|)
  }

  /** The frame the allocator gives, if any, is the first free one from its hint. */
  ghost predicate PickedFirst(free: set<nat>, hint: nat, total: nat, first: Option<nat>) {
    first.Some? ==> total > 0 && FirstFrom(free, hint, total, first.value)
  }

  /** At most one frame that could hold a page table is left. */
  predicate Exhausted(s: PtState) { |LowFrames(s)| <= 1 }

  // ---- Growth, page by page ----

  /** Nothing changed except at heap pages from `n` to `m`. */
  ghost predicate SameOutside(s0: PtState, s: PtState, n: nat, m: nat)
    requires s0.root % FRAME_SIZE == 0 && s.root == s0.root && n <= m <= HEAP_PAGES
  {
    forall q :: PagePath(q) && (forall i :: n <= i < m ==> q != HeapPath(i)) ==> View(s, q) == View(s0, q)
  }

  /** `all` extends what was owned at `s0`; the frames of the pages added, and those of
      new tables, were free at `s0` and are used now, and no others. */
  ghost predicate Growing(s0: PtState, n: nat, s: PtState, all: seq<nat>) {
    && Sound(s0) && Sound(s) && s.root == s0.root && n <= |all| <= HEAP_PAGES
    && Backed(s, all) && Backed(s0, all[..n]) && SameOutside(s0, s, n, |all|)
    && Spent(s0, s, all[n..])
    && |s0.free| - |s.free| == (|all| - n) + (|s.tables| - |s0.tables|)
  }

  /** A growth was taken back: pages of `loss.frames` were mapped at the peak and are
      unmapped again, every translation is as at `s0`, and the frames are lost. */
  ghost predicate Undone(s0: PtState, owned: seq<nat>, loss: Loss, s: PtState) {
    && Growing(s0, |owned|, loss.peak, owned + loss.frames)
    && s == loss.peak.(ram := s.ram) && Sound(s) && SameView(s0, s)
    && Spent(s0, s, loss.frames) && Distinct(loss.frames)
    && (forall i :: 0 <= i < |loss.frames| ==> HeapFrame(s, loss.frames[i]))
    && |s0.free| - |s.free| == |loss.frames| + (|s.tables| - |s0.tables|)
    && FewTables(s0, s, |loss.frames| + 1)
  }

  /** At most three tables were added for each of `pages` pages. */
  ghost predicate FewTables(s0: PtState, s: PtState, pages: nat) {
    |s.tables| <= |s0.tables| + 3 * pages
  }

  lemma GrowingStart(s: PtState, owned: seq<nat>)
    requires Sound(s) && Backed(s, owned)
    ensures Growing(s, |owned|, s, owned)
  {
    assert owned[..|owned|] == owned;
    SpentNothing(s);
  }

  /** Frame `f` was free in `s` and has been taken in `s1`. */
  ghost predicate TookFrame(s: PtState, s1: PtState, f: nat) {
    && f % FRAME_SIZE == 0 && f < PHYS_LIMIT && f / FRAME_SIZE in s.free
    && s1 == s.(free := s.free - {f / FRAME_SIZE})
  }

  lemma TookFrameSound(s: PtState, s1: PtState, f: nat)
    requires Sound(s) && TookFrame(s, s1, f)
    ensures Sound(s1)
  {
  }

  lemma GrowingStep(s0: PtState, n: nat, s: PtState, s1: PtState, s2: PtState, all: seq<nat>, f: nat, virt: Word,
                    r: Result<(), MapError>)
    requires Growing(s0, n, s, all) && |all| < HEAP_PAGES && virt == PageAddr(|all|)
    requires TookFrame(s, s1, f) && Sound(s1)
    requires MapPost(s1, virt, f, READ_WRITE, r, s2) && r.Ok?
    ensures Growing(s0, n, s2, all + [f])
  {
    FreeIsNoTable(s, f);
    PageMapped(s, s1, s2, all, f, r);
    SplitAppend(all, f, n);
    SpentStep(s0, s, s1, s2, all[n..], f);
    OutsideStep(s0, s, s1, s2, n, |all|, f, virt, r);
    MapAccounting(s, s1, s2, f);
  }

  lemma FreeIsNoTable(s: PtState, f: nat)
    requires Sound(s) && f / FRAME_SIZE in s.free
    ensures f !in s.tables
  {
  }

  lemma SplitAppend(all: seq<nat>, f: nat, n: nat)
    requires n <= |all|
    ensures (all + [f])[..n] == all[..n] && (all + [f])[n..] == all[n..] + [f]
  {
  }

  lemma OutsideStep(s0: PtState, s: PtState, s1: PtState, s2: PtState, n: nat, m: nat, f: Word, virt: Word,
                    r: Result<(), MapError>)
    requires s0.root % FRAME_SIZE == 0 && s.root == s0.root && n <= m < HEAP_PAGES && SameOutside(s0, s, n, m)
    requires Sound(s1) && s1 == s.(free := s1.free) && virt == PageAddr(m) && MapPost(s1, virt, f, READ_WRITE, r, s2)
    requires r.Ok?
    ensures SameOutside(s0, s2, n, m + 1)
  {
    forall q | PagePath(q) && (forall i :: n <= i < m + 1 ==> q != HeapPath(i))
      ensures View(s2, q) == View(s0, q)
    {
      assert q != HeapPath(m);
      assert View(s2, q) == View(s1, q) == View(s, q);
    }
  }

  lemma MapAccounting(s: PtState, s1: PtState, s2: PtState, f: nat)
    requires LabelsOk(s.tables) && LabelsOk(s2.tables) && f / FRAME_SIZE in s.free
    requires s1 == s.(free := s.free - {f / FRAME_SIZE}) && OnlyTablesGrew(s1, s2)
    ensures |s.free| - |s2.free| == 1 + (|s2.tables| - |s.tables|)
  {
    assert s.free == s1.free + {f / FRAME_SIZE};
    assert s1.free == s2.free + (s1.free - s2.free);
  }

  lemma GrowingFailed(s0: PtState, n: nat, s: PtState, s1: PtState, s2: PtState, s3: PtState, all: seq<nat>, f: nat,
                      virt: Word, r: Result<(), MapError>)
    requires Growing(s0, n, s, all) && |all| < HEAP_PAGES && virt == PageAddr(|all|)
    requires TookFrame(s, s1, f) && Sound(s1)
    requires MapPost(s1, virt, f, READ_WRITE, r, s2) && r.Err?
    requires s3 == s2.(free := s2.free + {f / FRAME_SIZE})
    ensures Growing(s0, n, s3, all) && Exhausted(s3)
  {
    PageFailed(s, s1, s2, s3, all, f, r);
    assert Spent(s0, s3, all[n..]) by { SpentReturned(s0, s, s1, s2, s3, all[n..], f); }
    assert Exhausted(s3) by {
      assert HeapView(s1, |all|) == HeapView(s, |all|) == NotMapped;
      LastFrame(s1, virt, f, s2, s3);
    }
    OutsideSame(s0, s, s3, n, |all|);
  }

  lemma OutsideSame(s0: PtState, s: PtState, s': PtState, n: nat, m: nat)
    requires s0.root % FRAME_SIZE == 0 && s.root == s0.root && s'.root == s0.root && n <= m <= HEAP_PAGES
    requires SameOutside(s0, s, n, m) && SameView(s, s')
    ensures SameOutside(s0, s', n, m)
  {
    forall q | PagePath(q) && (forall i :: n <= i < m ==> q != HeapPath(i))
      ensures View(s', q) == View(s0, q)
    {
      assert View(s', q) == View(s, q);
    }
  }

  lemma LastFrame(s1: PtState, virt: Word, f: Word, s2: PtState, s3: PtState)
    requires Sound(s1) && MapPost(s1, virt, f, READ_WRITE, Err(OutOfFrames), s2)
    requires s3 == s2.(free := s2.free + {f / FRAME_SIZE})
    ensures Exhausted(s3)
  {
    OutOfFramesSpendsAll(s1, virt, f, READ_WRITE, s2);
    OneMore(s2.free, s3.free, f / FRAME_SIZE, IDENTITY_MAP_LIMIT / FRAME_SIZE);
  }

  lemma OneMore(before: set<nat>, after: set<nat>, f: nat, bound: nat)
    requires FramesBelow(before, bound) == {} && after == before + {f}
    ensures |FramesBelow(after, bound)| <= 1
  {
    assert forall g :: g in FramesBelow(after, bound) && g != f ==> g in FramesBelow(before, bound);
    assert FramesBelow(after, bound) == {} || FramesBelow(after, bound) == {f};
  }

  /** Part of the way through unwinding: pages from `n` to `hi` are unmapped again. */
  ghost predicate Unwinding(s0: PtState, n: nat, s: PtState, all: seq<nat>, hi: nat) {
    && Sound(s0) && Sound(s) && s.root == s0.root && n <= hi <= |all| <= HEAP_PAGES
    && BackedExcept(s, all, n, hi) && Backed(s0, all[..n]) && SameOutside(s0, s, n, |all|)
    && Spent(s0, s, all[n..])
  }

  lemma UnwindingStart(s0: PtState, n: nat, s: PtState, all: seq<nat>)
    requires Growing(s0, n, s, all)
    ensures Unwinding(s0, n, s, all, n)
  {
  }

  lemma UnwindingStep(s0: PtState, n: nat, s: PtState, s': PtState, all: seq<nat>, hi: nat, virt: Word,
                      r: Result<nat, UnmapError>)
    requires Unwinding(s0, n, s, all, hi) && hi < |all| && virt == PageAddr(hi)
    requires UnmapPost(s, virt, r, s')
    ensures Unwinding(s0, n, s', all, hi + 1)
  {
    PageUnwound(s, s', all, n, hi, r);
    SpentRewritten(s0, s, s', all[n..]);
    forall q | PagePath(q) && (forall j :: n <= j < |all| ==> q != HeapPath(j))
      ensures View(s', q) == View(s0, q)
    {
      assert q != HeapPath(hi);
      assert View(s', q) == View(s, q);
    }
  }

  /** When all are unmapped, every translation is what it was. */
  lemma Unwound(s0: PtState, n: nat, s: PtState, all: seq<nat>)
    requires Unwinding(s0, n, s, all, |all|)
    ensures SameView(s0, s) && Backed(s, all[..n])
  {
    forall q | PagePath(q)
      ensures View(s, q) == View(s0, q)
    {
      if exists i :: n <= i < |all| && q == HeapPath(i) {
        var i :| n <= i < |all| && q == HeapPath(i);
        assert HeapView(s, i) == NotMapped && HeapView(s0, i) == NotMapped;
      }
    }
    forall k | 0 <= k < n ensures HeapFrame(s, all[..n][k]) { assert HeapFrame(s, all[k]); }
    BackedFrame(s0, s, all[..n]);
  }

  lemma UndoneFrom(s0: PtState, owned: seq<nat>, peak: PtState, s: PtState, all: seq<nat>)
    requires owned <= all && Growing(s0, |owned|, peak, all) && FewTables(s0, peak, |all| - |owned| + 1)
    requires s == peak.(ram := s.ram) && Unwinding(s0, |owned|, s, all, |all|) && SameView(s0, s)
    ensures forall first :: Undone(s0, owned, Loss(all[|owned|..], peak, first), s)
  {
    var lost := all[|owned|..];
    assert owned + lost == all;
    forall i | 0 <= i < |lost| ensures HeapFrame(s, lost[i]) { assert lost[i] == all[|owned| + i]; }
    forall i, j | 0 <= i < j < |lost| ensures lost[i] != lost[j] { assert all[|owned| + i] != all[|owned| + j]; }
  }

  /** The answer for the next page, by the low frames left once its frame is taken. */
  lemma PageAnswer(s: PtState, s1: PtState, s2: PtState, all: seq<nat>, f: nat, virt: Word, r: Result<(), MapError>)
    requires Sound(s) && Backed(s, all) && |all| < HEAP_PAGES && virt == PageAddr(|all|)
    requires TookFrame(s, s1, f) && Sound(s1) && MapPost(s1, virt, f, READ_WRITE, r, s2)
    ensures FirstPage(s, |all|, Some(f / FRAME_SIZE), r.Ok?)
  {
    assert HeapView(s, |all|) == NotMapped && HeapView(s1, |all|) == NotMapped;
    assert Needed(s1, HeapPath(|all|)) == Needed(s, HeapPath(|all|));
  }

  /** One call of `map` adds at most three tables. */
  lemma ThreeTables(s0: PtState, s: PtState, virt: Word, f: Word, r: Result<(), MapError>, s': PtState, pages: nat)
    requires Sound(s) && MapPost(s, virt, f, READ_WRITE, r, s') && FewTables(s0, s, pages)
    ensures FewTables(s0, s', pages + 1)
  {
  }

  // ---- The heap object ----

  datatype GrowOutcome = NotTried | Failed | Succeeded

  class KernelHeap {
    const allocator: LinkedListAllocator
    var nextUnmapped: nat
    /** The globals growth needs; null until the kernel has populated them. */
    var frames: FrameAllocator?
    var vmm: Vmm?
    ghost var book: Ledger
    ghost var owned: seq<nat>

    constructor ()
      ensures Valid() && fresh(allocator) && frames == null && vmm == null
    {
      allocator := new LinkedListAllocator();
      nextUnmapped := HEAP_REGION_START;
      frames, vmm := null, null;
      book, owned := Ledgers.EMPTY_LEDGER, [];
    }

    ghost predicate Ready()
      reads this
    {
      frames != null && vmm != null
    }

    ghost function State(): HeapState
      requires Ready()
      reads this, frames, vmm, vmm.memory
    {
      HeapState(book, nextUnmapped, owned, vmm.State(frames))
    }

    ghost predicate Valid()
      reads this, allocator, frames, vmm, if frames != null then {frames.bitmap} else {},
        if vmm != null then {vmm.memory} else {}
    {
      && allocator.Valid() && allocator.list == book.free
      && (if Ready() then vmm.Valid(frames) && HeapOk(State())
          else book == Ledgers.EMPTY_LEDGER && nextUnmapped == HEAP_REGION_START && owned == [])
    }

    /** Publish the frame allocator and the memory manager to the heap, before which it
        has nothing to hand out. */
    method Populate(frames: FrameAllocator, vmm: Vmm)
      requires Valid() && !Ready()
      requires vmm.Valid(frames) && OpenTables(vmm.State(frames)) && Backed(vmm.State(frames), [])
      modifies this`frames, this`vmm
      ensures Valid() && this.frames == frames && this.vmm == vmm
      ensures State() == HeapState(Ledgers.EMPTY_LEDGER, HEAP_REGION_START, [], vmm.State(frames))
    {
      this.frames, this.vmm := frames, vmm;
      EmptyHeapOk(vmm.State(frames));
    }

    /** Unmap the prefix of a growth attempt that had succeeded. The frames `unmap`
        returns are dropped. */
    method UnwindPartialGrowth(growthStart: nat, mappedPages: nat, ghost s0: PtState, ghost n: nat, ghost all: seq<nat>)
      requires Ready() && vmm.Valid(frames) && Growing(s0, n, vmm.State(frames), all)
      requires growthStart == HEAP_REGION_START + n * FRAME_SIZE && mappedPages == |all| - n
      modifies vmm.memory
      ensures vmm.Valid(frames) && vmm.State(frames) == old(vmm.State(frames)).(ram := vmm.memory.words)
      ensures SameView(s0, vmm.State(frames)) && Backed(vmm.State(frames), all[..n])
      ensures Unwinding(s0, n, vmm.State(frames), all, |all|)
    {
      UnwindingStart(s0, n, vmm.State(frames), all);
      UnmapPages(growthStart, mappedPages, s0, n, all);
      Unwound(s0, n, vmm.State(frames), all);
    }

    /** The loop of the above. */
    method UnmapPages(growthStart: nat, mappedPages: nat, ghost s0: PtState, ghost n: nat, ghost all: seq<nat>)
      requires Ready() && vmm.Valid(frames) && Unwinding(s0, n, vmm.State(frames), all, n)
      requires growthStart == HEAP_REGION_START + n * FRAME_SIZE && mappedPages == |all| - n
      modifies vmm.memory
      ensures vmm.Valid(frames) && vmm.State(frames) == old(vmm.State(frames)).(ram := vmm.memory.words)
      ensures Unwinding(s0, n, vmm.State(frames), all, |all|)
    {
      ghost var s := vmm.State(frames);
      for i := 0 to mappedPages
        invariant vmm.Valid(frames) && vmm.State(frames) == s.(ram := vmm.memory.words)
        invariant Unwinding(s0, n, vmm.State(frames), all, n + i)
      {
        assert growthStart + i * FRAME_SIZE == PageAddr(n + i);
        UnwindOnePage(growthStart + i * FRAME_SIZE, s0, n, all, n + i);
      }
    }

    method UnwindOnePage(virt: Word, ghost s0: PtState, ghost n: nat, ghost all: seq<nat>, ghost hi: nat)
      requires Ready() && vmm.Valid(frames) && Unwinding(s0, n, vmm.State(frames), all, hi)
      requires hi < |all| && virt == PageAddr(hi)
      modifies vmm.memory
      ensures vmm.Valid(frames) && vmm.State(frames) == old(vmm.State(frames)).(ram := vmm.memory.words)
      ensures Unwinding(s0, n, vmm.State(frames), all, hi + 1)
    {
      ghost var s := vmm.State(frames);
      var r := vmm.Unmap(frames, virt);
      UnwindingStep(s0, n, s, vmm.State(frames), all, hi, virt, r);
    }

    /** Map pages one by one; on failure unwind. */
    method MapPages(growthStart: nat, pagesToMap: nat) returns (ok: bool, ghost all: seq<nat>, ghost loss: Loss)
      requires Ready() && vmm.Valid(frames) && Backed(vmm.State(frames), owned)
      requires growthStart == HEAP_REGION_START + |owned| * FRAME_SIZE && |owned| + pagesToMap <= HEAP_PAGES
      modifies frames, frames.bitmap, vmm`tables, vmm.memory
      ensures vmm.Valid(frames)
      ensures ok ==> owned <= all && |all| == |owned| + pagesToMap
      ensures ok ==> Growing(old(vmm.State(frames)), |owned|, vmm.State(frames), all)
      ensures !ok ==> Undone(old(vmm.State(frames)), owned, loss, vmm.State(frames)) && |loss.frames| < pagesToMap
      ensures !ok ==> Exhausted(vmm.State(frames)) && Backed(vmm.State(frames), owned)
      ensures !ok ==> |owned| < HEAP_PAGES && FirstPage(old(vmm.State(frames)), |owned|, loss.first, loss.frames != [])
      ensures !ok ==> PickedFirst(old(frames.free), old(frames.nextHint), frames.totalFrames, loss.first)
    {
      ghost var s0, hint := vmm.State(frames), frames.nextHint;
      ghost var first: Option<nat> := None;
      all := owned;
      GrowingStart(s0, owned);
      var mappedPages := 0;
      while mappedPages < pagesToMap
        invariant 0 <= mappedPages <= pagesToMap && |all| == |owned| + mappedPages && vmm.Valid(frames)
        invariant MappingFrom(s0, hint, owned, vmm.State(frames), frames.nextHint, frames.totalFrames, all, first)
      {
        var mapped;
        mapped, all, first := MapNextPage(growthStart + mappedPages * FRAME_SIZE, s0, hint, all, first);
        if !mapped {
          loss := TakeBack(growthStart, mappedPages, s0, all, first);
          return false, all, loss;
        }
        mappedPages := mappedPages + 1;
      }
      return true, all, Loss([], s0, None);
    }

    /** One turn of the loop: one page more, or a failure that leaves the others mapped. */
    method MapNextPage(virt: Word, ghost s0: PtState, ghost hint: nat, ghost before: seq<nat>, ghost known: Option<nat>)
      returns (mapped: bool, ghost all: seq<nat>, ghost first: Option<nat>)
      requires Ready() && vmm.Valid(frames) && |before| < HEAP_PAGES && virt == PageAddr(|before|)
      requires MappingFrom(s0, hint, owned, vmm.State(frames), frames.nextHint, frames.totalFrames, before, known)
      modifies frames, frames.bitmap, vmm`tables, vmm.memory
      ensures vmm.Valid(frames) && |all| == |before| + if mapped then 1 else 0
      ensures mapped ==>
        MappingFrom(s0, hint, owned, vmm.State(frames), frames.nextHint, frames.totalFrames, all, first)
      ensures !mapped ==> MappingFailed(s0, hint, owned, vmm.State(frames), frames.totalFrames, all, first)
    {
      ghost var picked;
      ghost var s, nextHint := vmm.State(frames), frames.nextHint;
      mapped, all, picked := MapOnePage(virt, s0, |owned|, before);
      first := if |before| == |owned| then picked else known;
      MappedNext(s0, hint, owned, s, nextHint, frames.totalFrames, before, known, mapped, picked, vmm.State(frames),
                 frames.nextHint, all);
    }

    /** The failing end of the loop. */
    method TakeBack(growthStart: nat, mappedPages: nat, ghost s0: PtState, ghost all: seq<nat>,
                    ghost first: Option<nat>)
      returns (ghost loss: Loss)
      requires Ready() && vmm.Valid(frames) && Growing(s0, |owned|, vmm.State(frames), all) && owned == all[..|owned|]
      requires growthStart == HEAP_REGION_START + |owned| * FRAME_SIZE && mappedPages == |all| - |owned|
      requires FewTables(s0, vmm.State(frames), mappedPages + 1) && Exhausted(vmm.State(frames))
      modifies vmm.memory
      ensures vmm.Valid(frames) && Undone(s0, owned, loss, vmm.State(frames)) && |loss.frames| == mappedPages
      ensures loss.first == first
      ensures Exhausted(vmm.State(frames)) && Backed(vmm.State(frames), owned)
    {
      ghost var peak := vmm.State(frames);
      UnwindPartialGrowth(growthStart, mappedPages, s0, |owned|, all);
      UndoneFrom(s0, owned, peak, vmm.State(frames), all);
      loss := Loss(all[|owned|..], peak, first);
    }

    /** `allocate()`, seen from the address space. */
    method TakeFrame() returns (r: Option<nat>)
      requires Ready() && vmm.Valid(frames)
      modifies frames, frames.bitmap
      ensures vmm.Valid(frames)
      ensures r.None? ==> vmm.State(frames) == old(vmm.State(frames)) && Exhausted(vmm.State(frames))
      ensures r.Some? ==> TookFrame(old(vmm.State(frames)), vmm.State(frames), r.value)
      ensures r.Some? ==> r.value / FRAME_SIZE < frames.totalFrames
      ensures r.None? ==> old(frames.free) == {}
      ensures r.Some? ==> FirstFrom(old(frames.free), old(frames.nextHint), frames.totalFrames, r.value / FRAME_SIZE)
    {
      ghost var s := vmm.State(frames);
      r := frames.Allocate();
      if r.Some? {
        FrameFits(r.value / FRAME_SIZE, frames.totalFrames);
        TookFrameSound(s, vmm.State(frames), r.value);
      } else {
        assert LowFrames(s) == {};
      }
    }

    /** `deallocate(phys).ok()` of a frame that is held. */
    method GiveBack(f: nat)
      requires Ready() && frames.Valid() && f / FRAME_SIZE < frames.totalFrames && f / FRAME_SIZE !in frames.free
      modifies frames`framesFree, frames`free, frames.bitmap
      ensures frames.Valid() && frames.free == old(frames.free) + {f / FRAME_SIZE}
      ensures vmm.State(frames) == old(vmm.State(frames)).(free := old(frames.free) + {f / FRAME_SIZE})
    {
      var d := frames.Deallocate(f);
      if d.Err? {
        match d.error {
          case OutOfRange => assert false;
          case DoubleFree => assert false;
        }
      }
    }

    /** One turn of the growth loop: take a frame and map it at `virt`; if that fails,
        give the frame back. */
    method MapOnePage(virt: Word, ghost s0: PtState, ghost n: nat, ghost before: seq<nat>)
      returns (mapped: bool, ghost all: seq<nat>, ghost picked: Option<nat>)
      requires Ready() && vmm.Valid(frames) && Growing(s0, n, vmm.State(frames), before)
      requires |before| < HEAP_PAGES && virt == PageAddr(|before|) && FewTables(s0, vmm.State(frames), |before| - n)
      modifies frames, frames.bitmap, vmm`tables, vmm.memory
      ensures vmm.Valid(frames) && Growing(s0, n, vmm.State(frames), all)
      ensures FewTables(s0, vmm.State(frames), |before| - n + 1)
      ensures mapped ==> |all| == |before| + 1 && all[..|before|] == before
      ensures !mapped ==> all == before && Exhausted(vmm.State(frames))
      ensures FirstPage(old(vmm.State(frames)), |before|, picked, mapped)
      ensures PickedFirst(old(frames.free), old(frames.nextHint), frames.totalFrames, picked)
    {
      all, picked := before, None;
      ghost var s := vmm.State(frames);
      var phys := TakeFrame();
      if phys.None? {
        return false, all, None;
      }
      picked := Some(phys.value / FRAME_SIZE);
      mapped, all := MapTaken(virt, phys.value, s0, n, s, before);
    }

    /** Map frame `f`, just taken, or give it back. */
    method MapTaken(virt: Word, f: nat, ghost s0: PtState, ghost n: nat, ghost s: PtState, ghost before: seq<nat>)
      returns (mapped: bool, ghost all: seq<nat>)
      requires Ready() && vmm.Valid(frames) && Growing(s0, n, s, before)
      requires |before| < HEAP_PAGES && virt == PageAddr(|before|) && FewTables(s0, s, |before| - n)
      requires TookFrame(s, vmm.State(frames), f) && f / FRAME_SIZE < frames.totalFrames
      modifies frames, frames.bitmap, vmm`tables, vmm.memory
      ensures vmm.Valid(frames) && Growing(s0, n, vmm.State(frames), all)
      ensures all == if mapped then before + [f] else before
      ensures FewTables(s0, vmm.State(frames), |before| - n + 1)
      ensures !mapped ==> Exhausted(vmm.State(frames))
      ensures FirstPage(s, |before|, Some(f / FRAME_SIZE), mapped)
    {
      ghost var s1 := vmm.State(frames);
      var r := vmm.Map(frames, virt, f, READ_WRITE);
      ghost var s2 := vmm.State(frames);
      ThreeTables(s0, s1, virt, f, r, s2, |before| - n);
      PageAnswer(s, s1, s2, before, f, virt, r);
      if r.Err? {
        TakenStaysUsed(s1, s2, f);
        GiveBack(f);
        GrowingFailed(s0, n, s, s1, s2, vmm.State(frames), before, f, virt, r);
        return false, before;
      }
      GrowingStep(s0, n, s, s1, s2, before, f, virt, r);
      return true, before + [f];
    }

    /** Map enough pages past the cursor for `layout` (at least the minimum) and give
        them to the free list, or change nothing visible. */
    method Grow(layout: Layout) returns (ok: bool, ghost loss: Loss)
      requires Valid() && Ledgers.IsLayout(layout)
      modifies this`nextUnmapped, this`book, this`owned, allocator
      modifies frames, vmm, if frames != null then {frames.bitmap} else {}, if vmm != null then {vmm.memory} else {}
      ensures Valid() && frames == old(frames) && vmm == old(vmm)
      ensures !Ready() ==> !ok
      ensures Ready() ==> GrowPost(old(State()), layout, ok, loss, State())
      ensures !ok ==> unchanged(allocator) && book == old(book)
      ensures LiveKept(old(book).live, old(allocator.words), allocator.words) && old(book).live <= book.live
      ensures Ready() && !ok ==> PickedFirst(old(frames.free), old(frames.nextHint), frames.totalFrames, loss.first)
    {
      loss := *;
      var pagesToMap := GrowthPages(layout);
      var growthBytes := pagesToMap * FRAME_SIZE;
      var growthStart := nextUnmapped;
      if growthStart + growthBytes >= TWO64 || growthStart + growthBytes > HEAP_REGION_END {
        if Ready() {
          loss := Loss([], vmm.State(frames), None);
          GrowRefused(State(), layout);
        }
        return false, loss;
      }
      if frames == null || vmm == null {
        return false, loss;
      }
      ok, loss := MapAndExtend(growthStart, pagesToMap, layout);
    }

    /** Map every page, then tell the free list. */
    method MapAndExtend(growthStart: nat, pagesToMap: nat, ghost layout: Layout) returns (ok: bool, ghost loss: Loss)
      requires Valid() && Ready() && growthStart == nextUnmapped && pagesToMap == GrowthPages(layout)
      requires growthStart + pagesToMap * FRAME_SIZE <= HEAP_REGION_END
      modifies this`nextUnmapped, this`book, this`owned, allocator, frames, vmm, frames.bitmap, vmm.memory
      ensures Valid() && frames == old(frames) && vmm == old(vmm)
      ensures GrowPost(old(State()), layout, ok, loss, State())
      ensures !ok ==> unchanged(allocator) && book == old(book)
      ensures LiveKept(old(book).live, old(allocator.words), allocator.words)
      ensures !ok ==> PickedFirst(old(frames.free), old(frames.nextHint), frames.totalFrames, loss.first)
    {
      ghost var h, all := State(), *;
      ok, all, loss := MapPages(growthStart, pagesToMap);
      ghost var space := vmm.State(frames);
      if !ok {
        GrowFailed(h, layout, loss, h.(space := space));
        return;
      }
      ghost var region := GrowthRegion(h, layout);
      ghost var h' := HeapState(Ledgers.Grown(book, region), region.End(), all, space);
      GrowthIsFresh(h, layout);
      GrowSucceeded(h, layout, loss, h');
      Extend(growthStart, pagesToMap * FRAME_SIZE, h');
    }

    /** Hand the freshly mapped region to the free list and advance the cursor. */
    method Extend(growthStart: nat, growthBytes: nat, ghost h': HeapState)
      requires Ready() && allocator.Valid() && vmm.Valid(frames) && allocator.list == book.free
      requires Ledgers.Fresh(book, Region(growthStart, growthBytes))
      requires ApartFromAll(book.free, Region(growthStart, growthBytes))
      requires HeapOk(h') && h'.book == Ledgers.Grown(book, Region(growthStart, growthBytes))
      requires h'.cursor == growthStart + growthBytes && h'.space == vmm.State(frames)
      modifies this`nextUnmapped, this`book, this`owned, allocator
      ensures Valid() && frames == old(frames) && vmm == old(vmm) && State() == h'
      ensures LiveKept(old(book).live, old(allocator.words), allocator.words)
    {
      AddRegion(growthStart, growthBytes, h'.book);
      nextUnmapped := growthStart + growthBytes;
      owned := h'.owned;
      book := h'.book;
      assert State() == h';
    }

    /** Give a region to the free list. */
    method AddRegion(start: nat, bytes: nat, ghost book': Ledger)
      requires allocator.Valid() && allocator.list == book.free && Ledgers.Fresh(book, Region(start, bytes))
      requires ApartFromAll(book.free, Region(start, bytes))
      requires book' == Ledgers.Grown(book, Region(start, bytes)) && Ledgers.Balanced(book')
      modifies allocator
      ensures allocator.Valid() && allocator.list == book'.free
      ensures LiveKept(book.live, old(allocator.words), allocator.words)
    {
      var added := allocator.AddFreeRegion(start, bytes);
      LiveUntouched(book', old(allocator.words), allocator.words);
    }

    /** One attempt on the free list. */
    method TryAlloc(layout: Layout) returns (r: AllocResult)
      requires Valid() && Ledgers.IsLayout(layout)
      modifies this`book, allocator
      ensures Valid() && old(book).live <= book.live
      ensures Ready() ==> Served(old(State()), layout, r, State())
      ensures !Ready() ==> !r.Block? && book == old(book)
      ensures r == Null ==> allocator.words == old(allocator.words)
      ensures LiveKept(old(book).live, old(allocator.words), allocator.words)
    {
      r := allocator.Alloc(layout);
      if Ready() {
        ghost var h := State();
        ghost var h' := h.(book := Ledgers.AllocResult(book, layout));
        AttemptServed(h, layout, r, allocator.list, old(allocator.words), allocator.words, h');
        book := h'.book;
        assert State() == h';
      } else {
        NothingToServe(layout, r, allocator.list);
      }
    }

    /** `GlobalAlloc::alloc`: one attempt, one growth, one more attempt. `middle` is the
        state between growth and the second attempt. */
    method Alloc(layout: Layout)
      returns (r: AllocResult, ghost outcome: GrowOutcome, ghost loss: Loss, ghost middle: HeapState)
      requires Valid() && Ledgers.IsLayout(layout)
      modifies this`nextUnmapped, this`book, this`owned, allocator
      modifies frames, vmm, if frames != null then {frames.bitmap} else {}, if vmm != null then {vmm.memory} else {}
      ensures Valid() && frames == old(frames) && vmm == old(vmm)
      ensures Ready() ==> HeapAllocPost(old(State()), layout, r, outcome, loss, middle, State())
      ensures !Ready() ==> !r.Block?
      ensures LiveKept(old(book).live, old(allocator.words), allocator.words)
    {
      outcome, loss, middle := NotTried, *, *;
      ghost var h := if Ready() then State() else middle;
      r := TryAlloc(layout);
      if r != Null {
        return;
      }
      if Ready() { NothingServed(h, layout, State()); }
      r, outcome, loss, middle := GrowAndRetry(layout, h);
    }

    /** What `alloc` does once the first attempt has found nothing. */
    method GrowAndRetry(layout: Layout, ghost h: HeapState)
      returns (r: AllocResult, ghost outcome: GrowOutcome, ghost loss: Loss, ghost middle: HeapState)
      requires Valid() && Ledgers.IsLayout(layout) && (Ready() ==> h == State())
      modifies this`nextUnmapped, this`book, this`owned, allocator
      modifies frames, vmm, if frames != null then {frames.bitmap} else {}, if vmm != null then {vmm.memory} else {}
      ensures Valid() && frames == old(frames) && vmm == old(vmm)
      ensures Ready() ==> HeapOk(h) && GrownAnswer(h, layout, r, outcome, loss, middle, State())
      ensures !Ready() ==> !r.Block?
      ensures LiveKept(old(book).live, old(allocator.words), allocator.words)
    {
      ghost var live, words := book.live, allocator.words;
      var grown;
      grown, loss := Grow(layout);
      r, outcome, middle := Retry(layout, grown, h, loss, live, words);
    }

    /** The second attempt, if the heap has grown. */
    method Retry(layout: Layout, grown: bool, ghost h: HeapState, ghost loss: Loss, ghost live: seq<Region>,
                 ghost words: Words)
      returns (r: AllocResult, ghost outcome: GrowOutcome, ghost middle: HeapState)
      requires Valid() && Ledgers.IsLayout(layout) && (grown ==> Ready()) && live <= book.live
      requires Ready() ==> HeapOk(h) && GrowPost(h, layout, grown, loss, State())
      requires LiveKept(live, words, allocator.words)
      modifies this`book, allocator
      ensures Valid()
      ensures Ready() ==> GrownAnswer(h, layout, r, outcome, loss, middle, State())
      ensures !Ready() ==> !r.Block?
      ensures LiveKept(live, words, allocator.words)
    {
      r, outcome, middle := Null, Failed, *;
      if grown {
        outcome, middle := Succeeded, State();
        r := TryAlloc(layout);
        KeptTwice(live, old(book).live, words, old(allocator.words), allocator.words);
      }
    }

    /** `GlobalAlloc::dealloc` of live block `j`, with the layout it was allocated with. */
    method Dealloc(ptr: nat, layout: Layout, ghost j: nat)
      requires Valid() && Ready() && Ledgers.IsLayout(layout) && Ledgers.Adjusted(layout).Some?
      requires j < |book.live| && book.live[j] == Region(ptr, Ledgers.Adjusted(layout).value.0)
      modifies this`book, allocator
      ensures Valid() && State() == old(State()).(book := Ledgers.Released(old(book), j))
      ensures LiveKept(book.live, old(allocator.words), allocator.words)
    {
      ghost var h := State();
      ghost var h' := h.(book := Ledgers.Released(book, j));
      ReleasedOk(h, j, h');
      var ok := allocator.Dealloc(ptr, layout);
      LiveUntouched(h'.book, old(allocator.words), allocator.words);
      book := h'.book;
      assert State() == h';
    }

    /** The owner of a live block writes an aligned word of it: neither the list nor anything
        else the heap rests on is disturbed. */
    method Store(a: nat, value: nat)
      requires Valid() && Ready() && a % NODE_ALIGN == 0 && Covers(book.live, a)
      modifies allocator`words
      ensures Valid() && State() == old(State()) && allocator.words == old(allocator.words)[a := value]
    {
      allocator.Store(a, value);
    }
  }

  /** The state of the growth loop: the pages of `all` past `owned` are mapped since `s0`,
      when the allocator's hint was `hint`, and the first of them got frame `first`. */
  ghost predicate MappingFrom(s0: PtState, hint: nat, owned: seq<nat>, s: PtState, nextHint: nat, total: nat,
                              all: seq<nat>, first: Option<nat>)
  {
    && owned <= all && Growing(s0, |owned|, s, all) && FewTables(s0, s, |all| - |owned|)
    && if |all| == |owned| then s == s0 && nextHint == hint
       else FirstPage(s0, |owned|, first, true) && PickedFirst(s0.free, hint, total, first)
  }

  /** The loop's state once a page could not be mapped. */
  ghost predicate MappingFailed(s0: PtState, hint: nat, owned: seq<nat>, s: PtState, total: nat, all: seq<nat>,
                                first: Option<nat>)
  {
    && owned <= all && Growing(s0, |owned|, s, all) && FewTables(s0, s, |all| - |owned| + 1) && Exhausted(s)
    && |owned| < HEAP_PAGES && FirstPage(s0, |owned|, first, |all| > |owned|)
    && PickedFirst(s0.free, hint, total, first)
  }

  lemma MappedNext(s0: PtState, hint: nat, owned: seq<nat>, s: PtState, nextHint: nat, total: nat, before: seq<nat>,
                   known: Option<nat>, mapped: bool, picked: Option<nat>, s': PtState, nextHint': nat, all: seq<nat>)
    requires MappingFrom(s0, hint, owned, s, nextHint, total, before, known) && |before| < HEAP_PAGES
    requires Growing(s0, |owned|, s', all) && FewTables(s0, s', |before| - |owned| + 1)
    requires mapped ==> |all| == |before| + 1 && all[..|before|] == before
    requires !mapped ==> all == before && Exhausted(s')
    requires FirstPage(s, |before|, picked, mapped) && PickedFirst(s.free, nextHint, total, picked)
    ensures var first := if |before| == |owned| then picked else known;
      if mapped then MappingFrom(s0, hint, owned, s', nextHint', total, all, first)
      else MappingFailed(s0, hint, owned, s', total, all, first)
  {
  }

  // ---- Words of live blocks ----

  /** No word of a live block was changed. */
  ghost predicate LiveKept(live: seq<Region>, before: Words, after: Words) {
    forall a :: a in before && Covers(live, a) ==> a in after && after[a] == before[a]
  }

  /** An aligned word with one live byte is live as a whole, inside one block, so words of
      different blocks, or of a block and a free node, never overlap. */
  lemma LiveWordWhole(h: HeapState, a: nat) returns (j: nat)
    requires HeapOk(h) && a % NODE_ALIGN == 0 && Covers(h.book.live, a)
    ensures j < |h.book.live| && h.book.live[j].start <= a && a + 8 <= h.book.live[j].End()
    ensures forall b :: a <= b < a + 8 ==> Covers(h.book.live, b) && !Covers(h.book.free, b)
  {
    j :| 0 <= j < |h.book.live| && h.book.live[j].Has(a);
    var r := h.book.live[j];
    assert Usable(r);
    WordInside(r, a);
    forall b | a <= b < a + 8 ensures Covers(h.book.live, b) { Ledgers.MemberCovers(h.book.live, j, b); }
  }

  lemma WordInside(r: Region, a: nat)
    requires r.start % 8 == 0 && r.size % 8 == 0 && a % 8 == 0 && r.Has(a)
    ensures a + 8 <= r.End()
  {
  }

  lemma LiveUntouched(book: Ledger, before: Words, after: Words)
    requires Ledgers.Balanced(book) && OnlyHeaders(before, after, book.free)
    ensures LiveKept(book.live, before, after)
  {
  }

  lemma KeptTwice(live: seq<Region>, more: seq<Region>, w0: Words, w1: Words, w2: Words)
    requires LiveKept(live, w0, w1) && LiveKept(more, w1, w2) && live <= more
    ensures LiveKept(live, w0, w2)
  {
  }

  // ---- Serving a request ----

  /** One attempt: the answer of the free list, and its effect on the ledger alone. */
  ghost predicate Served(h: HeapState, layout: Layout, r: AllocResult, h': HeapState)
    requires HeapOk(h) && Ledgers.IsLayout(layout)
  {
    && HeapOk(h') && h' == h.(book := Ledgers.AllocResult(h.book, layout))
    && AllocPost(h.book.free, layout, r, h'.book.free)
  }

  /** One attempt on the list, seen from the heap. */
  lemma AttemptServed(h: HeapState, layout: Layout, r: AllocResult, list: seq<Region>, before: Words, after: Words,
                      h': HeapState)
    requires HeapOk(h) && Ledgers.IsLayout(layout) && AllocPost(h.book.free, layout, r, list)
    requires OnlyHeaders(before, after, h.book.free) && h' == h.(book := Ledgers.AllocResult(h.book, layout))
    ensures Served(h, layout, r, h') && h'.book.free == list
    ensures h.book.live <= h'.book.live && LiveKept(h.book.live, before, after)
  {
    LiveUntouched(h.book, before, after);
    ServedOk(h, layout, h');
  }

  lemma NothingToServe(layout: Layout, r: AllocResult, list: seq<Region>)
    requires Ledgers.IsLayout(layout) && AllocPost([], layout, r, list)
    ensures !r.Block? && list == []
  {
  }

  lemma ServedOk(h: HeapState, layout: Layout, h': HeapState)
    requires HeapOk(h) && Ledgers.IsLayout(layout) && h' == h.(book := Ledgers.AllocResult(h.book, layout))
    ensures HeapOk(h')
  {
    Ledgers.StepBalanced(h.book, Ledgers.Event.Alloc(layout), h'.book);
    Ledgers.AllocEights(h.book, layout);
    if h'.book != h.book {
      var (size, align) := Ledgers.Adjusted(layout).value;
      var fit := FirstFit(h.book.free, 0, size, align);
      Ledgers.FitIsBlock(h.book.free, layout);
      forall b
        ensures HEAP_REGION_START <= b < h'.cursor <==>
          Covers(h'.book.free, b) || Covers(h'.book.live, b) || Covers(h'.book.lost, b)
      {
        Ledgers.TakenCovers(h.book, fit.index, fit.addr, size, b);
      }
    }
  }

  lemma ReleasedOk(h: HeapState, j: nat, h': HeapState)
    requires HeapOk(h) && j < |h.book.live| && h' == h.(book := Ledgers.Released(h.book, j))
    ensures HeapOk(h') && ApartFromAll(h.book.free, h.book.live[j])
  {
    Ledgers.ReleasedBalanced(h.book, j);
    Ledgers.ReleasedFree(h.book, j);
    Ledgers.StepEights(h.book, Ledgers.Event.Dealloc(j), h'.book);
    forall b
      ensures HEAP_REGION_START <= b < h'.cursor <==>
        Covers(h'.book.free, b) || Covers(h'.book.live, b) || Covers(h'.book.lost, b)
    {
      Ledgers.ReleasedCovers(h.book, j, b);
    }
  }

  lemma NothingServed(h: HeapState, layout: Layout, h': HeapState)
    requires HeapOk(h) && Ledgers.IsLayout(layout) && Served(h, layout, Null, h')
    ensures h' == h
  {
  }

  /** The contract of `alloc`: growth is tried exactly when the first attempt finds
      nothing, and the second attempt runs in the grown heap. */
  ghost predicate HeapAllocPost(h: HeapState, layout: Layout, r: AllocResult, outcome: GrowOutcome, loss: Loss,
                                middle: HeapState, h': HeapState)
    requires HeapOk(h) && Ledgers.IsLayout(layout)
  {
    if outcome == NotTried then r != Null && Served(h, layout, r, h')
    else Served(h, layout, Null, h) && GrownAnswer(h, layout, r, outcome, loss, middle, h')
  }

  /** What follows the first attempt: null without growth, or a second attempt. */
  ghost predicate GrownAnswer(h: HeapState, layout: Layout, r: AllocResult, outcome: GrowOutcome, loss: Loss,
                              middle: HeapState, h': HeapState)
    requires HeapOk(h) && Ledgers.IsLayout(layout)
  {
    match outcome
    case NotTried => false
    case Failed => r == Null && GrowPost(h, layout, false, loss, h')
    case Succeeded => GrowPost(h, layout, true, loss, middle) && Served(middle, layout, r, h')
  }

  lemma EmptyHeapOk(space: PtState)
    requires Sound(space) && OpenTables(space) && Backed(space, [])
    ensures HeapOk(HeapState(Ledgers.EMPTY_LEDGER, HEAP_REGION_START, [], space))
  {
    assert forall b :: !Covers([], b);
  }

  lemma GrowRefused(h: HeapState, layout: Layout)
    requires HeapOk(h) && GrowthRegion(h, layout).End() > HEAP_REGION_END
    ensures GrowPost(h, layout, false, Loss([], h.space, None), h)
  {
    GrowingStart(h.space, h.owned);
    assert h.owned + [] == h.owned;
    SpentNothing(h.space);
  }

  lemma GrowFailed(h: HeapState, layout: Layout, loss: Loss, h': HeapState)
    requires HeapOk(h) && h' == h.(space := h'.space) && GrowthRegion(h, layout).End() <= HEAP_REGION_END
    requires Undone(h.space, h.owned, loss, h'.space) && Backed(h'.space, h.owned)
    requires |loss.frames| < GrowthPages(layout) && Exhausted(h'.space)
    requires |h.owned| < HEAP_PAGES && FirstPage(h.space, |h.owned|, loss.first, loss.frames != [])
    ensures GrowPost(h, layout, false, loss, h')
  {
  }

  /** The region past the cursor has never been given out. */
  lemma GrowthIsFresh(h: HeapState, layout: Layout)
    requires HeapOk(h) && GrowthRegion(h, layout).End() <= HEAP_REGION_END
    ensures Ledgers.Fresh(h.book, GrowthRegion(h, layout))
    ensures ApartFromAll(h.book.free, GrowthRegion(h, layout))
  {
    var r := GrowthRegion(h, layout);
    assert Usable(r) by { AlignedCursor(|h.owned|); }
    ApartByBytes(h.book.free, r);
  }

  lemma AlignedCursor(n: nat)
    ensures (HEAP_REGION_START + n * FRAME_SIZE) % FRAME_SIZE == 0
    ensures (HEAP_REGION_START + n * FRAME_SIZE) % NODE_ALIGN == 0
  {
    ModUnique(HEAP_REGION_START + n * FRAME_SIZE, FRAME_SIZE, 0xF_FFF8_8000_0000 + n, 0);
    ModUnique(HEAP_REGION_START + n * FRAME_SIZE, NODE_ALIGN, 0x1FFF_F100_0000_0000 + n * 512, 0);
  }

  lemma GrownEights(h: HeapState, layout: Layout)
    requires Ledgers.Eights(h.book.free)
    ensures Ledgers.Eights(Insert(h.book.free, GrowthRegion(h, layout)))
  {
    ModUnique(GrowthPages(layout) * FRAME_SIZE, 8, GrowthPages(layout) * 512, 0);
    Ledgers.InsertEights(h.book.free, GrowthRegion(h, layout));
  }

  lemma GrowSucceeded(h: HeapState, layout: Layout, loss: Loss, h': HeapState)
    requires HeapOk(h) && GrowthRegion(h, layout).End() <= HEAP_REGION_END
    requires h'.book == Ledgers.Grown(h.book, GrowthRegion(h, layout)) && h'.cursor == GrowthRegion(h, layout).End()
    requires h.owned <= h'.owned && |h'.owned| == |h.owned| + GrowthPages(layout)
    requires Growing(h.space, |h.owned|, h'.space, h'.owned)
    ensures GrowPost(h, layout, true, loss, h')
  {
    var r := GrowthRegion(h, layout);
    GrowthIsFresh(h, layout);
    Ledgers.GrownBalanced(h.book, r);
    GrownEights(h, layout);
    InsertCorrect(h.book.free, r);
    forall b
      ensures HEAP_REGION_START <= b < h'.cursor <==>
        Covers(h'.book.free, b) || Covers(h'.book.live, b) || Covers(h'.book.lost, b)
    {
      assert HEAP_REGION_START <= b < h.cursor <==>
        Covers(h.book.free, b) || Covers(h.book.live, b) || Covers(h.book.lost, b);
    }
  }

  lemma TakenStaysUsed(s1: PtState, s2: PtState, f: nat)
    requires LabelsOk(s1.tables) && LabelsOk(s2.tables) && OnlyTablesGrew(s1, s2) && f / FRAME_SIZE !in s1.free
    ensures f / FRAME_SIZE !in s2.free
  {
  }

  /** Frames the allocator tracks have addresses that fit a page-table entry. */
  lemma FrameFits(frame: nat, total: nat)
    requires frame < total <= 8 * MAX_BITMAP_BYTES
    ensures frame * FRAME_SIZE < PHYS_LIMIT
  {
  }
}

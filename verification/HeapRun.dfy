/**
 The heap over whole runs.

 Allocation, deallocation and the traffic of everyone else who maps pages outside the
 region or holds frames of their own are steps of one machine. It starts from the
 tables the boot loader leaves and an empty heap, and keeps the heap-wide invariant.
 */
module HeapRuns {
  import opened Bits
  import opened PageFormat
  import opened PageTables
  import opened Options
  import opened AddressSpace
  import opened HeapSpace
  import opened FreeList
  import opened IntrusiveList
  import opened WrappingSearch
  import opened KernelHeaps
  import Ledgers = HeapLedger
  import BootPaging

  // ---- One retry is enough ----

  const LARGEST_SAFE_ALIGN: nat := 0x8000_0000

  /** A power of two up to the page size divides it. */
  lemma DividesPage(align: nat)
    requires IsPow2(align) && align <= FRAME_SIZE
    ensures FRAME_SIZE % align == 0
  {
    var k :| align == Pow2(k);
    Pow2Values();
    if k > 12 { Pow2Mono(13, k); }
    Pow2Mono(k, 12);
  }

  lemma MultipleOfDivisor(x: nat, d: nat, m: nat)
    requires d > 0 && m % d == 0
    ensures (x * m) % d == 0
  {
    var q := m / d;
    assert x * m == (x * q) * d;
    ModUnique(x * m, d, x * q, 0);
  }

  /** The region one growth adds can hold the request at its very start. */
  lemma GrowthHoldsRequest(h: HeapState, layout: Layout)
    requires HeapOk(h) && Ledgers.IsLayout(layout) && Ledgers.Adjusted(layout).Some? && layout.align <= FRAME_SIZE
    ensures var (size, align) := Ledgers.Adjusted(layout).value;
      h.cursor % align == 0 && size <= GrowthRegion(h, layout).size
  {
    var (size, align) := Ledgers.Adjusted(layout).value;
    var pages := GrowthPages(layout);
    var bytes := pages * FRAME_SIZE;
    AdjustedAlign(layout);
    DividesPage(align);
    AlignedCursor(|h.owned|);
    var n := h.cursor / FRAME_SIZE;
    assert h.cursor == n * FRAME_SIZE;
    MultipleOfDivisor(n, align, FRAME_SIZE);
    MultipleOfDivisor(pages, align, FRAME_SIZE);
    if size > bytes && size != NODE_SIZE {
      MultiplesApart(bytes, size, align);
    }
  }

  lemma AdjustedAlign(layout: Layout)
    requires Ledgers.IsLayout(layout) && Ledgers.Adjusted(layout).Some?
    ensures Ledgers.Adjusted(layout).value.1 == if layout.align < NODE_ALIGN then NODE_ALIGN else layout.align
  {
  }

  /** No rounding overflows in the heap for alignments up to 2^31. */
  lemma HeapNeverRoundsOver(h: HeapState, layout: Layout, r: AllocResult, l': seq<Region>)
    requires HeapOk(h) && Ledgers.IsLayout(layout) && layout.align <= LARGEST_SAFE_ALIGN
    requires AllocPost(h.book.free, layout, r, l')
    ensures r == Panicked <==> Ledgers.Adjusted(layout).None?
  {
    AllocPanics(h.book.free, layout, r, l');
    if Ledgers.Adjusted(layout).Some? { NoNodeRoundsOver(h, layout); }
  }

  lemma NoNodeRoundsOver(h: HeapState, layout: Layout)
    requires HeapOk(h) && Ledgers.IsLayout(layout) && layout.align <= LARGEST_SAFE_ALIGN
    requires Ledgers.Adjusted(layout).Some?
    ensures forall i :: 0 <= i < |h.book.free| ==> !RoundsOver(h.book.free, i, Ledgers.Adjusted(layout).value.1)
  {
    AdjustedAlign(layout);
    CursorBound(h);
    forall i | 0 <= i < |h.book.free|
      ensures !RoundsOver(h.book.free, i, Ledgers.Adjusted(layout).value.1)
    {
      assert Usable(h.book.free[i]) && h.book.free[i].Has(h.book.free[i].start);
      Ledgers.MemberCovers(h.book.free, i, h.book.free[i].start);
    }
  }

  lemma CursorBound(h: HeapState)
    requires HeapOk(h)
    ensures h.cursor <= HEAP_REGION_END
  {
  }

  /** After a growth the request can be placed where the new region starts, whether or
      not that region was merged with a free tail before it. */
  lemma PlaceableAfterGrowth(h: HeapState, layout: Layout, loss: Loss, middle: HeapState)
    requires HeapOk(h) && Ledgers.IsLayout(layout) && Ledgers.Adjusted(layout).Some? && layout.align <= FRAME_SIZE
    requires GrowPost(h, layout, true, loss, middle)
    ensures var (size, align) := Ledgers.Adjusted(layout).value; Placeable(middle.book.free, h.cursor, size, align)
  {
    GrowthHoldsRequest(h, layout);
    CursorBound(middle);
    GrowthIsFresh(h, layout);
    InsertCorrect(h.book.free, GrowthRegion(h, layout));
  }

  /** The request can be placed somewhere in the free bytes. */
  ghost predicate FitsIn(l: seq<Region>, layout: Layout)
    requires Ledgers.IsLayout(layout)
  {
    match Ledgers.Adjusted(layout)
    case None => false
    case Some((size, align)) => exists x: nat :: Placeable(l, x, size, align)
  }

  /** What one attempt answers in a heap, for alignments up to 2^31. */
  lemma AttemptExact(h: HeapState, layout: Layout, r: AllocResult, l': seq<Region>)
    requires HeapOk(h) && Ledgers.IsLayout(layout) && layout.align <= LARGEST_SAFE_ALIGN
    requires AllocPost(h.book.free, layout, r, l')
    ensures r == Panicked <==> Ledgers.Adjusted(layout).None?
    ensures r.Block? <==> FitsIn(h.book.free, layout)
  {
    HeapNeverRoundsOver(h, layout, r, l');
    if r != Panicked { AllocExact(h.book.free, layout, r, l'); }
  }

  /** For every layout aligned to at most a page, `alloc` returns null exactly when
      `grow` failed, it panics exactly when padding overflows, and it grows exactly when
      the request fits nowhere. */
  lemma NullIffGrowthFailed(h: HeapState, layout: Layout, r: AllocResult, outcome: GrowOutcome, loss: Loss,
                            middle: HeapState, h': HeapState)
    requires HeapOk(h) && Ledgers.IsLayout(layout) && layout.align <= FRAME_SIZE
    requires HeapAllocPost(h, layout, r, outcome, loss, middle, h')
    ensures r == Null <==> outcome == Failed
    ensures r == Panicked <==> Ledgers.Adjusted(layout).None?
    ensures outcome == NotTried <==> r == Panicked || FitsIn(h.book.free, layout)
  {
    if outcome == NotTried {
      AttemptExact(h, layout, r, h'.book.free);
    } else {
      AttemptExact(h, layout, Null, h.book.free);
    }
    if outcome == Succeeded {
      PlaceableAfterGrowth(h, layout, loss, middle);
      AttemptExact(middle, layout, r, h'.book.free);
    }
  }

  /** And then a null answer means that the region or the memory is used up. */
  lemma NullMeansExhausted(h: HeapState, layout: Layout, r: AllocResult, outcome: GrowOutcome, loss: Loss,
                           middle: HeapState, h': HeapState)
    requires HeapOk(h) && Ledgers.IsLayout(layout) && layout.align <= FRAME_SIZE
    requires HeapAllocPost(h, layout, r, outcome, loss, middle, h') && r == Null
    ensures h.cursor + GrowthPages(layout) * FRAME_SIZE > HEAP_REGION_END || Exhausted(h'.space)
  {
    NullIffGrowthFailed(h, layout, r, outcome, loss, middle, h');
  }

  /** Growth cannot fail while the region has room and more than four frames below 4 GiB
      are free for each page: one for the page, three for tables. */
  lemma EnoughFramesToGrow(h: HeapState, layout: Layout, ok: bool, loss: Loss, h': HeapState)
    requires HeapOk(h) && GrowPost(h, layout, ok, loss, h') && GrowthRegion(h, layout).End() <= HEAP_REGION_END
    requires |LowFrames(h.space)| > 4 * GrowthPages(layout)
    ensures ok
  {
    if !ok {
      var spent := h.space.free - h'.space.free;
      assert h.space.free == h'.space.free + spent;
      LowFramesLeft(h.space, h'.space, spent);
    }
  }

  lemma LowFramesLeft(s: PtState, s': PtState, spent: set<nat>)
    requires s.free <= s'.free + spent
    ensures |LowFrames(s)| <= |LowFrames(s')| + |spent|
  {
    assert LowFrames(s) <= LowFrames(s') + spent;
    SubsetSize(LowFrames(s), LowFrames(s') + spent);
    SubsetSize(LowFrames(s') + spent - LowFrames(s'), spent);
    assert LowFrames(s') + spent == LowFrames(s') + (LowFrames(s') + spent - LowFrames(s'));
  }

  lemma SubsetSize(a: set<nat>, b: set<nat>)
    requires a <= b
    ensures |a| <= |b|
  {
    assert b == a + (b - a);
  }

  // ---- Exactly when the retry fits ----

  /** Where the free bytes before the cursor begin: at the last node if it reaches the
      cursor, and otherwise at the cursor itself. */
  function FreeTail(l: seq<Region>, cursor: nat): (t: nat)
    ensures t <= cursor
  {
    if l != [] && l[|l| - 1].End() == cursor then l[|l| - 1].start else cursor
  }

  /** The adjusted request, aligned up from the free tail, ends inside the region that one
      growth adds. Everything here is known before the call. */
  predicate RetryFits(h: HeapState, layout: Layout)
    requires Ledgers.IsLayout(layout) && Ledgers.Adjusted(layout).Some? && h.cursor < TWO64
  {
    var (size, align) := Ledgers.Adjusted(layout).value;
    AlignUp(FreeTail(h.book.free, h.cursor), align) + size <= GrowthRegion(h, layout).End()
  }

  /** The tail is a maximal interval of free bytes that ends at the cursor. */
  lemma TailIsMaximal(h: HeapState, t: nat)
    requires HeapOk(h) && t == FreeTail(h.book.free, h.cursor)
    ensures forall b :: t <= b < h.cursor ==> Covers(h.book.free, b)
    ensures forall b :: Covers(h.book.free, b) ==> b < h.cursor
    ensures !Covers(h.book.free, t - 1)
  {
    var l := h.book.free;
    forall b | Covers(l, b) ensures b < h.cursor {}
    if l != [] && l[|l| - 1].End() == h.cursor {
      NodeIsMaximal(l, |l| - 1);
    } else if Covers(l, h.cursor - 1) {
      var i :| 0 <= i < |l| && l[i].Has(h.cursor - 1);
      NodeReachingCursor(h, i);
    }
  }

  /** A node with the byte before the cursor is the last one and ends there. */
  lemma NodeReachingCursor(h: HeapState, i: nat)
    requires HeapOk(h) && i < |h.book.free| && h.book.free[i].Has(h.cursor - 1)
    ensures i == |h.book.free| - 1 && h.book.free[i].End() == h.cursor
  {
    var l := h.book.free;
    if l[i].End() > h.cursor {
      assert l[i].Has(h.cursor);
      Ledgers.MemberCovers(l, i, h.cursor);
    }
    if i < |l| - 1 {
      assert l[i].End() < l[|l| - 1].start && l[|l| - 1].Has(l[|l| - 1].start);
      Ledgers.MemberCovers(l, |l| - 1, l[|l| - 1].start);
    }
  }

  /** A run of free bytes that was not free before the growth lies in the merged tail. */
  lemma InTail(h: HeapState, grown: seq<Region>, end: nat, x: nat, size: nat)
    requires HeapOk(h) && forall b :: Covers(grown, b) <==> Covers(h.book.free, b) || h.cursor <= b < end
    requires CoversRange(grown, x, size) && size > 0 && !CoversRange(h.book.free, x, size)
    ensures FreeTail(h.book.free, h.cursor) <= x && x + size <= end
  {
    var t := FreeTail(h.book.free, h.cursor);
    TailIsMaximal(h, t);
    var b :| x <= b < x + size && !Covers(h.book.free, b);
    assert Covers(grown, b) && Covers(grown, x + size - 1);
  }

  lemma RetryExact(h: HeapState, layout: Layout, r: AllocResult, loss: Loss, middle: HeapState, h': HeapState)
    requires HeapOk(h) && Ledgers.IsLayout(layout) && layout.align <= LARGEST_SAFE_ALIGN
    requires HeapAllocPost(h, layout, r, Succeeded, loss, middle, h')
    ensures h.cursor <= HEAP_REGION_END && Ledgers.Adjusted(layout).Some? && r != Panicked
    ensures r == Null <==> !RetryFits(h, layout)
  {
    CursorBound(h);
    AttemptExact(h, layout, Null, h.book.free);
    AttemptExact(middle, layout, r, h'.book.free);
    RetryPlaces(h, layout, loss, middle);
  }

  lemma RetryPlaces(h: HeapState, layout: Layout, loss: Loss, middle: HeapState)
    requires HeapOk(h) && Ledgers.IsLayout(layout) && layout.align <= LARGEST_SAFE_ALIGN
    requires Ledgers.Adjusted(layout).Some? && h.cursor <= HEAP_REGION_END && GrowPost(h, layout, true, loss, middle)
    requires !FitsIn(h.book.free, layout)
    ensures FitsIn(middle.book.free, layout) <==> RetryFits(h, layout)
  {
    var (size, align) := Ledgers.Adjusted(layout).value;
    AdjustedAlign(layout);
    assert align <= LARGEST_SAFE_ALIGN && h.cursor + align <= TWO64;
    GrownCovers(h, layout, loss, middle);
    TailPlaces(h, middle.book.free, GrowthRegion(h, layout).End(), size, align);
  }

  lemma GrownCovers(h: HeapState, layout: Layout, loss: Loss, middle: HeapState)
    requires HeapOk(h) && GrowPost(h, layout, true, loss, middle)
    ensures forall b :: Covers(middle.book.free, b) <==>
      Covers(h.book.free, b) || h.cursor <= b < GrowthRegion(h, layout).End()
  {
    CursorBound(middle);
    GrowthIsFresh(h, layout);
    InsertCorrect(h.book.free, GrowthRegion(h, layout));
  }

  /** Something fits in the grown list, and did not before, exactly when it fits at the
      first aligned address of the merged tail. */
  lemma TailPlaces(h: HeapState, grown: seq<Region>, end: nat, size: nat, align: Word)
    requires HeapOk(h) && h.cursor <= end && size > 0 && IsPow2(align) && align <= LARGEST_SAFE_ALIGN
    requires h.cursor + align <= TWO64
    requires forall b :: Covers(grown, b) <==> Covers(h.book.free, b) || h.cursor <= b < end
    requires forall x: nat :: !Placeable(h.book.free, x, size, align)
    ensures (exists x: nat :: Placeable(grown, x, size, align)) <==>
      AlignUp(FreeTail(h.book.free, h.cursor), align) + size <= end
  {
    var t := FreeTail(h.book.free, h.cursor);
    var at := AlignUp(t, align);
    AlignUpExact(t, align);
    if at + size <= end {
      TailIsMaximal(h, t);
      assert Placeable(grown, at, size, align);
    }
    forall x: nat | Placeable(grown, x, size, align)
      ensures at + size <= end
    {
      assert !Placeable(h.book.free, x, size, align);
      InTail(h, grown, end, x, size);
    }
  }

  /** For every alignment up to 2^31, `alloc` returns null exactly when growth failed, or
      succeeded without the request fitting after the free tail. So "null means that
      growth failed" holds of a call exactly when it does fit there or growth did not
      succeed. */
  lemma NullExact(h: HeapState, layout: Layout, r: AllocResult, outcome: GrowOutcome, loss: Loss, middle: HeapState,
                  h': HeapState)
    requires HeapOk(h) && Ledgers.IsLayout(layout) && layout.align <= LARGEST_SAFE_ALIGN
    requires HeapAllocPost(h, layout, r, outcome, loss, middle, h')
    ensures h.cursor <= HEAP_REGION_END
    ensures outcome == Succeeded ==> Ledgers.Adjusted(layout).Some?
    ensures r == Null <==> outcome == Failed || (outcome == Succeeded && !RetryFits(h, layout))
    ensures (r == Null <==> outcome == Failed) <==> (outcome == Succeeded ==> RetryFits(h, layout))
  {
    CursorBound(h);
    if outcome == Succeeded {
      RetryExact(h, layout, r, loss, middle, h');
    }
  }

  /** A request whose retry fails: one byte aligned to 128 KiB. */
  const WIDE_LAYOUT: Layout := Ledgers.Layout(1, 0x2_0000)

  lemma WideLayout()
    ensures Ledgers.IsLayout(WIDE_LAYOUT) && Ledgers.Adjusted(WIDE_LAYOUT) == Some((0x2_0000, 0x2_0000))
    ensures GrowthPages(WIDE_LAYOUT) == HEAP_GROWTH_MIN_PAGES
  {
    assert IsPow2(0x2_0000) by { Pow2Values(); assert Pow2(17) == 0x2_0000; }
    ModUnique(0x2_0000, 0x2_0000, 1, 0);
  }

  /** It does fail: in a freshly booted heap with 65 free frames below 4 GiB, growth
      succeeds and the answer is null all the same. */
  lemma RetryFailsAtBoot(h: HeapState, pages: BootPaging.Pages, base: nat, count: nat,
                         r: AllocResult, outcome: GrowOutcome, loss: Loss, middle: HeapState, h': HeapState)
    requires HeapAtBoot(h, pages, base, count) && |LowFrames(h.space)| > 64
    requires HeapOk(h) && Ledgers.IsLayout(WIDE_LAYOUT) && HeapAllocPost(h, WIDE_LAYOUT, r, outcome, loss, middle, h')
    ensures outcome == Succeeded && r == Null
  {
    WideLayout();
    if outcome == NotTried {
      AttemptExact(h, WIDE_LAYOUT, r, h'.book.free);
    }
    if outcome == Failed {
      EnoughFramesToGrow(h, WIDE_LAYOUT, false, loss, h');
    }
    NullExact(h, WIDE_LAYOUT, r, outcome, loss, middle, h');
    AlignUpExact(HEAP_REGION_START, 0x2_0000);
  }

  // ---- When a failed growth loses frames ----

  /** A failed growth with room in the region loses frames exactly when its first page could
      be mapped: when the low frames, without the first frame the allocator gives, are
      enough for the tables that page needs. All of that is known before the call. With
      more low frames than tables it loses some, with fewer it loses none, and with just as
      many it depends on whether that first frame is one of them. */
  lemma LossExact(h: HeapState, layout: Layout, loss: Loss, h': HeapState)
    requires HeapOk(h) && GrowPost(h, layout, false, loss, h') && GrowthRegion(h, layout).End() <= HEAP_REGION_END
    ensures |h.owned| < HEAP_PAGES
    ensures var needed, low := Needed(h.space, HeapPath(|h.owned|)), LowFrames(h.space);
      && (loss.frames != [] <==> loss.first.Some? && needed <= |low - {loss.first.value}|)
      && (|low| > needed ==> loss.frames != [])
      && (|low| < needed ==> loss.frames == [])
      && (|low| == needed ==> (loss.frames != [] <==> loss.first.Some? && loss.first.value !in low))
  {
    var low := LowFrames(h.space);
    if loss.first.Some? {
      var f := loss.first.value;
      LowWithout(h.space, f);
      if f in low { assert low == (low - {f}) + {f}; } else { assert low - {f} == low; }
    } else {
      assert low == {};
    }
  }

  lemma LowWithout(s: PtState, f: nat)
    ensures LowFrames(s.(free := s.free - {f})) == LowFrames(s) - {f}
  {
  }

  /** Fewer free frames than pages make a growth fail. */
  lemma TooFewFramesToGrow(h: HeapState, layout: Layout, ok: bool, loss: Loss, h': HeapState)
    requires HeapOk(h) && GrowPost(h, layout, ok, loss, h') && |h.space.free| < GrowthPages(layout)
    ensures !ok
  {
    if ok {
      assert |h'.owned| == |h.owned| + GrowthPages(layout);
      TablesOnlyGrew(h.space, h'.space);
    }
  }

  lemma TablesOnlyGrew(s: PtState, s': PtState)
    requires forall t :: t in s.tables ==> t in s'.tables
    ensures |s.tables| <= |s'.tables|
  {
    assert s.tables.Keys <= s'.tables.Keys;
    SubsetSize(s.tables.Keys, s'.tables.Keys);
  }

  /** It does happen: a freshly booted heap with more than four free frames below 4 GiB, but
      fewer free frames than one growth maps, fails to grow and loses frames for good. */
  lemma LossAtBoot(h: HeapState, pages: BootPaging.Pages, base: nat, count: nat, layout: Layout, ok: bool, loss: Loss,
                   h': HeapState)
    requires HeapAtBoot(h, pages, base, count) && HeapOk(h) && GrowPost(h, layout, ok, loss, h')
    requires layout.size <= HEAP_GROWTH_MIN_PAGES * FRAME_SIZE
    requires |LowFrames(h.space)| > 4 && |h.space.free| < HEAP_GROWTH_MIN_PAGES
    ensures !ok && loss.frames != []
    ensures forall i :: 0 <= i < |loss.frames| ==>
      loss.frames[i] / FRAME_SIZE in h.space.free && loss.frames[i] / FRAME_SIZE !in h'.space.free
        && loss.frames[i] !in h'.space.tables
  {
    TooFewFramesToGrow(h, layout, ok, loss, h');
    LossExact(h, layout, loss, h');
    LostFrames(h, layout, loss, h');
  }

  /** Lost frames were free, and are neither free nor tables. */
  lemma LostFrames(h: HeapState, layout: Layout, loss: Loss, h': HeapState)
    requires HeapOk(h) && GrowPost(h, layout, false, loss, h')
    ensures forall i :: 0 <= i < |loss.frames| ==>
      loss.frames[i] / FRAME_SIZE in h.space.free && loss.frames[i] / FRAME_SIZE !in h'.space.free
        && loss.frames[i] !in h'.space.tables
  {
    forall i | 0 <= i < |loss.frames|
      ensures loss.frames[i] / FRAME_SIZE in h.space.free && HeapFrame(h'.space, loss.frames[i])
    {
      assert IsFrameOf(loss.frames, loss.frames[i] / FRAME_SIZE);
    }
  }

  // ---- Builds without overflow checks ----

  /** For alignments up to 2^31 the search of a build without overflow checks gives the same
      answer in the heap. */
  lemma BothBuildsAgree(h: HeapState, layout: Layout)
    requires HeapOk(h) && Ledgers.IsLayout(layout) && layout.align <= LARGEST_SAFE_ALIGN
    requires Ledgers.Adjusted(layout).Some?
    ensures Bounded(h.book.free)
    ensures var (size, align) := Ledgers.Adjusted(layout).value;
      WrappingFit(h.book.free, 0, size, align) == FirstFit(h.book.free, 0, size, align)
        == ExactFit(h.book.free, 0, size, align)
  {
    var (size, align) := Ledgers.Adjusted(layout).value;
    WellFormedBounded(h.book.free);
    NoNodeRoundsOver(h, layout);
    OverflowExact(h.book.free, 0, size, align);
    WrappingAgreesWithChecked(h.book.free, 0, size, align);
    CheckedExact(h.book.free, 0, size, align);
  }

  // ---- A request that overflows ----

  /** One byte aligned to 2^47, more than the address space has left above the heap. */
  const HUGE_ALIGN: Word := 0x8000_0000_0000
  const HUGE_LAYOUT: Layout := Ledgers.Layout(1, HUGE_ALIGN)

  lemma HugeLayout()
    ensures Ledgers.IsLayout(HUGE_LAYOUT) && Ledgers.Adjusted(HUGE_LAYOUT) == Some((HUGE_ALIGN, HUGE_ALIGN))
    ensures GrowthPages(HUGE_LAYOUT) == HEAP_GROWTH_MIN_PAGES
  {
    assert IsPow2(HUGE_ALIGN) by { Pow2Values(); assert Pow2(47) == HUGE_ALIGN; }
    ModUnique(HUGE_ALIGN, HUGE_ALIGN, 1, 0);
  }

  /** In a freshly booted heap with 65 free frames below 4 GiB, this request makes the heap
      grow and then overflows on the new node: a build with overflow checks panics, one
      without them takes the node for a block at address 0. */
  lemma OverflowAtBoot(h: HeapState, pages: BootPaging.Pages, base: nat, count: nat,
                       r: AllocResult, outcome: GrowOutcome, loss: Loss, middle: HeapState, h': HeapState)
    requires HeapAtBoot(h, pages, base, count) && |LowFrames(h.space)| > 64
    requires HeapOk(h) && Ledgers.IsLayout(HUGE_LAYOUT) && HeapAllocPost(h, HUGE_LAYOUT, r, outcome, loss, middle, h')
    ensures outcome == Succeeded && r == Panicked
    ensures Bounded(middle.book.free) && MeetsWrap(middle.book.free, 0, HUGE_ALIGN, HUGE_ALIGN)
    ensures WrappingFit(middle.book.free, 0, HUGE_ALIGN, HUGE_ALIGN) == FitAt(0, 0)
  {
    HugeLayout();
    HugeGrows(h, r, outcome, loss, middle, h');
    NodeOverflows(GrowthRegion(h, HUGE_LAYOUT));
    assert AllocPost(middle.book.free, HUGE_LAYOUT, r, h'.book.free);
  }

  lemma HugeGrows(h: HeapState, r: AllocResult, outcome: GrowOutcome, loss: Loss, middle: HeapState, h': HeapState)
    requires HeapOk(h) && h.book == Ledgers.EMPTY_LEDGER && h.cursor == HEAP_REGION_START && |LowFrames(h.space)| > 64
    requires Ledgers.IsLayout(HUGE_LAYOUT) && HeapAllocPost(h, HUGE_LAYOUT, r, outcome, loss, middle, h')
    ensures outcome == Succeeded && middle.book.free == [GrowthRegion(h, HUGE_LAYOUT)]
  {
    HugeLayout();
    assert FirstFit([], 0, HUGE_ALIGN, HUGE_ALIGN) == NoFit;
    if outcome == Failed {
      EnoughFramesToGrow(h, HUGE_LAYOUT, false, loss, h');
    }
    InsertIntoEmpty(GrowthRegion(h, HUGE_LAYOUT));
  }

  /** The node that the first growth adds. */
  lemma NodeOverflows(node: Region)
    requires node == Region(HEAP_REGION_START, HEAP_GROWTH_MIN_PAGES * FRAME_SIZE) && IsPow2(HUGE_ALIGN)
    ensures WellFormed([node]) && Bounded([node]) && MeetsWrap([node], 0, HUGE_ALIGN, HUGE_ALIGN)
    ensures FirstFit([node], 0, HUGE_ALIGN, HUGE_ALIGN) == Overflow
    ensures WrappingFit([node], 0, HUGE_ALIGN, HUGE_ALIGN) == FitAt(0, 0)
  {
    assert Wraps([node], 0, HUGE_ALIGN);
    assert Reaches([node], 0, 0, HUGE_ALIGN, HUGE_ALIGN);
    WrappingExactIff([node], 0, HUGE_ALIGN, HUGE_ALIGN);
  }

  lemma InsertIntoEmpty(r: Region)
    ensures Insert([], r) == [r]
  {
  }

  // ---- What the invariant means for a byte ----

  /** The heap page a byte lies in. */
  function PageOf(b: Word): nat
    requires b >= HEAP_REGION_START
  {
    (b - HEAP_REGION_START) / FRAME_SIZE
  }

  /** A byte of page `n` is looked up at the path of page `n`. */
  lemma SamePage(b: Word, n: nat)
    requires HEAP_REGION_START <= b < HEAP_REGION_END && n == PageOf(b)
    ensures n < HEAP_PAGES && Path(b) == HeapPath(n)
  {
    HeapPageNumber(n);
    ModUnique(b, FRAME_SIZE, 0xF_FFF8_8000_0000 + n, b - HEAP_REGION_START - n * FRAME_SIZE);
    ModUnique(0xF_FFF8_8000_0000 + n, 0x10_0000_0000, 0xFFFF, 0x8_8000_0000 + n);
    PathIsPageNumber(b, PageAddr(n));
  }

  /** Byte `b` of the heap is mapped to the frame of its own page, which is used and holds
      no page table; it can be written, and executed, as far as its entry goes and as far
      as the processor goes. */
  ghost predicate ByteMapped(h: HeapState, b: Word)
    requires h.space.root % FRAME_SIZE == 0
  {
    && 0xFFFF_8800_0000_0000 <= b < h.cursor <= 0xFFFF_FFFF_8000_0000 && PageOf(b) < |h.owned|
    && Translation(h.space, b) == Some(h.owned[PageOf(b)] + b % FRAME_SIZE)
    && FlagsAt(h.space, b).Some? && FlagsAt(h.space, b).value.writable && !FlagsAt(h.space, b).value.noExecute
    && FullAccess(h.space, b)
    && HeapFrame(h.space, h.owned[PageOf(b)])
  }

  lemma LeafByte(s: PtState, b: Word, f: nat)
    requires Sound(s) && OpenTables(s) && f % FRAME_SIZE == 0 && f < PHYS_LIMIT && View(s, Path(b)) == HeapLeaf(f)
    ensures Translation(s, b) == Some(f + b % FRAME_SIZE)
    ensures FlagsAt(s, b).Some? && FlagsAt(s, b).value.writable && !FlagsAt(s, b).value.noExecute && FullAccess(s, b)
  {
    AccessOfLast(s, b);
  }

  lemma HeapPageByte(h: HeapState, b: Word)
    requires HeapOk(h) && HEAP_REGION_START <= b < h.cursor
    ensures ByteMapped(h, b)
  {
    CursorBound(h);
    var n := PageOf(b);
    SamePage(b, n);
    assert HeapFrame(h.space, h.owned[n]);
    assert HeapView(h.space, n) == HeapLeaf(h.owned[n]);
    LeafByte(h.space, b, h.owned[n]);
  }

  /** Every byte that is free or live, in particular every byte of a block handed out,
      is mapped. */
  lemma HeapByteMapped(h: HeapState, b: Word)
    requires HeapOk(h) && (Covers(h.book.free, b) || Covers(h.book.live, b))
    ensures ByteMapped(h, b)
  {
    assert HEAP_REGION_START <= b < h.cursor;
    HeapPageByte(h, b);
  }

  /** No two heap bytes share a physical byte. */
  lemma HeapBytesDistinct(h: HeapState, b: Word, c: Word)
    requires HeapOk(h)
    requires Covers(h.book.free, b) || Covers(h.book.live, b)
    requires Covers(h.book.free, c) || Covers(h.book.live, c)
    ensures Translation(h.space, b) == Translation(h.space, c) <==> b == c
  {
    HeapByteMapped(h, b);
    HeapByteMapped(h, c);
    DistinctBytes(h.owned, b, c);
  }

  lemma DistinctBytes(owned: seq<nat>, b: Word, c: Word)
    requires HEAP_REGION_START <= b && HEAP_REGION_START <= c && PageOf(b) < |owned| && PageOf(c) < |owned|
    requires Distinct(owned) && owned[PageOf(b)] % FRAME_SIZE == 0 && owned[PageOf(c)] % FRAME_SIZE == 0
    ensures owned[PageOf(b)] + b % FRAME_SIZE == owned[PageOf(c)] + c % FRAME_SIZE <==> b == c
  {
    if owned[PageOf(b)] + b % FRAME_SIZE == owned[PageOf(c)] + c % FRAME_SIZE {
      SameFrame(owned[PageOf(b)], owned[PageOf(c)], b % FRAME_SIZE, c % FRAME_SIZE);
      assert PageOf(b) == PageOf(c);
      PageRecombines(b);
      PageRecombines(c);
    }
  }

  lemma SameFrame(f: nat, g: nat, i: nat, j: nat)
    requires f % FRAME_SIZE == 0 && g % FRAME_SIZE == 0 && i < FRAME_SIZE && j < FRAME_SIZE && f + i == g + j
    ensures f == g
  {
  }

  lemma PageRecombines(b: Word)
    requires b >= HEAP_REGION_START
    ensures b == HEAP_REGION_START + PageOf(b) * FRAME_SIZE + b % FRAME_SIZE
  {
    var n := PageOf(b);
    ModUnique(b, FRAME_SIZE, 0xF_FFF8_8000_0000 + n, b - HEAP_REGION_START - n * FRAME_SIZE);
  }

  /** A byte keeps its physical place as long as the pages before the cursor keep their
      frames. */
  lemma ByteStays(h: HeapState, h': HeapState, b: Word)
    requires HeapOk(h) && HeapOk(h') && h.owned <= h'.owned && HEAP_REGION_START <= b < h.cursor
    ensures ByteMapped(h', b) && Translation(h'.space, b) == Translation(h.space, b)
  {
    CursorGrows(h, h');
    HeapPageByte(h, b);
    HeapPageByte(h', b);
    SamePlace(h, h', b);
  }

  lemma CursorGrows(h: HeapState, h': HeapState)
    requires HeapOk(h) && HeapOk(h') && h.owned <= h'.owned
    ensures h.cursor <= h'.cursor
  {
  }

  lemma SamePlace(h: HeapState, h': HeapState, b: Word)
    requires h.space.root % FRAME_SIZE == 0 && h'.space.root % FRAME_SIZE == 0
    requires ByteMapped(h, b) && ByteMapped(h', b) && h.owned <= h'.owned
    ensures Translation(h'.space, b) == Translation(h.space, b)
  {
    assert h'.owned[PageOf(b)] == h.owned[PageOf(b)];
  }

  /** Pages past the cursor are never found mapped, so growth can fail only for want of
      frames. */
  lemma GrowthNeverMeetsMapping(h: HeapState, n: nat, phys: Word)
    requires HeapOk(h) && |h.owned| <= n < HEAP_PAGES && phys % FRAME_SIZE == 0
    ensures MapAnswer(h.space, PageAddr(n), phys) in {Ok(()), Err(OutOfFrames)}
  {
    assert HeapView(h.space, n) == NotMapped;
  }

  // ---- Stores through heap addresses ----

  /** Where heap address `a` lies in physical memory. */
  function Place(h: HeapState, a: Word): nat
    requires HEAP_REGION_START <= a && PageOf(a) < |h.owned|
  {
    h.owned[PageOf(a)] + a % FRAME_SIZE
  }

  /** It is where the address space maps it. */
  lemma PlaceMapped(h: HeapState, a: Word, p: nat)
    requires h.space.root % FRAME_SIZE == 0 && ByteMapped(h, a) && p == Place(h, a)
    ensures Translation(h.space, a) == Some(p)
  {
  }

  /** The state after a word was written through heap address `a`. A frame at or above
      4 GiB is outside the modelled memory. */
  function Stored(h: HeapState, a: Word, value: Word): HeapState
    requires HEAP_REGION_START <= a && PageOf(a) < |h.owned|
  {
    var p := Place(h, a);
    if p >= IDENTITY_MAP_LIMIT then h else h.(space := h.space.(ram := h.space.ram[p / 8 := value]))
  }

  /** The processor lets a write through address `a` pass. */
  predicate MayWrite(s: PtState, a: Word)
    requires s.root % FRAME_SIZE == 0
  {
    Access(s, a).Some? && Access(s, a).value.writable
  }

  /** Every word of the heap can be written, whatever its value: growth maps its pages
      writable, and all tables above them permit writes. */
  lemma StoreNeverFaults(h: HeapState, a: Word, value: Word)
    requires HeapOk(h) && a % NODE_ALIGN == 0 && HEAP_REGION_START <= a < h.cursor
    ensures PageOf(a) < |h.owned| && HeapStep(h, Store(a, value), Stored(h, a, value))
  {
    HeapPageByte(h, a);
  }

  /** The word at `offset` of frame `f`, as a slot of a page that could be a table. */
  lemma PlaceSlot(f: nat, offset: nat)
    requires f % FRAME_SIZE == 0 && offset < FRAME_SIZE && f + offset < IDENTITY_MAP_LIMIT
    ensures IsTable(f) && (f + offset) / 8 == Slot(f, offset / 8) && (f + offset) / 8 / 512 * FRAME_SIZE == f
  {
    var n := f / FRAME_SIZE;
    ModUnique(f, 8, 512 * n, 0);
    ModUnique(f + offset, 8, 512 * n + offset / 8, offset % 8);
    ModUnique(512 * n + offset / 8, 512, n, offset / 8);
  }

  /** Heap pages are no tables, so a store through a heap address changes no table entry:
      the address space and the heap-wide invariant are untouched. */
  lemma StoredOk(h: HeapState, a: Word, value: Word)
    requires HeapOk(h) && HEAP_REGION_START <= a < h.cursor && PageOf(a) < |h.owned|
    ensures HeapOk(Stored(h, a, value)) && SameView(h.space, Stored(h, a, value).space)
  {
    var f, p, h' := h.owned[PageOf(a)], Place(h, a), Stored(h, a, value);
    assert HeapFrame(h.space, f);
    if p < IDENTITY_MAP_LIMIT {
      PlaceSlot(f, a % FRAME_SIZE);
      forall t, i | t in h.space.tables && 0 <= i < 512
        ensures Entry(h'.space.ram, t, i) == Entry(h.space.ram, t, i)
      {
        SlotInjective(t, i, f, a % FRAME_SIZE / 8);
      }
      TablesUntouched(h.space, h'.space);
      forall n | 0 <= n < |h.owned| ensures HeapFrame(h'.space, h.owned[n]) { assert HeapFrame(h.space, h.owned[n]); }
      BackedFrame(h.space, h'.space, h.owned);
    }
  }

  /** The memory word behind heap address `a`. */
  function PhysicalWord(h: HeapState, a: Word): Word
    requires HEAP_REGION_START <= a && PageOf(a) < |h.owned| && Place(h, a) < IDENTITY_MAP_LIMIT
  {
    h.space.ram[Place(h, a) / 8]
  }

  /** A store changes the word behind its own address and no other aligned word. */
  lemma StoredWord(h: HeapState, a: Word, value: Word, c: Word)
    requires a % NODE_ALIGN == 0 && c % NODE_ALIGN == 0 && HEAP_REGION_START <= a && HEAP_REGION_START <= c
    requires PageOf(a) < |h.owned| && PageOf(c) < |h.owned| && Place(h, c) < IDENTITY_MAP_LIMIT && Distinct(h.owned)
    requires h.owned[PageOf(a)] % FRAME_SIZE == 0 && h.owned[PageOf(c)] % FRAME_SIZE == 0
    ensures PhysicalWord(Stored(h, a, value), c) == if c == a then value else PhysicalWord(h, c)
  {
    if c != a { PlacesApart(h.owned, a, c); }
  }

  lemma FrameOfPage(h: HeapState, n: nat)
    requires HeapOk(h) && n < |h.owned|
    ensures h.owned[n] % FRAME_SIZE == 0 && h.owned[n] !in h.space.tables && Distinct(h.owned)
  {
    assert HeapFrame(h.space, h.owned[n]);
  }

  lemma PlacesApart(owned: seq<nat>, a: Word, c: Word)
    requires a % 8 == 0 && c % 8 == 0 && a != c && HEAP_REGION_START <= a && HEAP_REGION_START <= c
    requires PageOf(a) < |owned| && PageOf(c) < |owned| && Distinct(owned)
    requires owned[PageOf(a)] % FRAME_SIZE == 0 && owned[PageOf(c)] % FRAME_SIZE == 0
    ensures (owned[PageOf(a)] + a % FRAME_SIZE) / 8 != (owned[PageOf(c)] + c % FRAME_SIZE) / 8
  {
    DistinctBytes(owned, a, c);
    WordsApart(owned[PageOf(a)], a, owned[PageOf(c)], c);
  }

  lemma WordsApart(f: nat, a: Word, g: nat, c: Word)
    requires f % FRAME_SIZE == 0 && g % FRAME_SIZE == 0 && a % 8 == 0 && c % 8 == 0
    requires f + a % FRAME_SIZE != g + c % FRAME_SIZE
    ensures (f + a % FRAME_SIZE) / 8 != (g + c % FRAME_SIZE) / 8
  {
    AlignedPlace(f, a);
    AlignedPlace(g, c);
  }

  lemma AlignedPlace(f: nat, a: Word)
    requires f % FRAME_SIZE == 0 && a % 8 == 0
    ensures (f + a % FRAME_SIZE) % 8 == 0
  {
    assert a == a / FRAME_SIZE * FRAME_SIZE + a % FRAME_SIZE;
  }

  // ---- Every run ----

  /** Page `virt` belongs to the heap region, in the 48 bits the walk looks at. */
  predicate InHeapRegion(virt: Word) {
    0x8_8000_0000 <= PageNumber(virt) < 0x8_8000_0000 + HEAP_PAGES
  }

  /** What others may do: map and unmap outside the region, and give back frames that
      are not behind the heap. */
  ghost predicate LeavesHeapAlone(h: HeapState, e: Event) {
    match e
    case Mapped(virt, _, _) => !InHeapRegion(virt)
    case Unmapped(virt) => !InHeapRegion(virt)
    case FrameTaken(_) => true
    case FrameReturned(f) => forall n :: 0 <= n < |h.owned| ==> h.owned[n] / FRAME_SIZE != f
  }

  datatype HeapEvent =
    | Allocate(layout: Layout, answer: AllocResult, outcome: GrowOutcome, loss: Loss, middle: HeapState)
    | Free(index: nat)
    | Store(addr: Word, value: Word)
    | Others(event: Event)

  /** One call of `alloc` or `dealloc` under its caller's contract, one word written
      through a heap address, by the owner of a block or by the allocator to a header, or
      one step of others. Nothing is said of a step from a state that breaks the invariant. */
  ghost predicate HeapStep(h: HeapState, e: HeapEvent, h': HeapState) {
    HeapOk(h) ==>
      match e
      case Allocate(layout, r, outcome, loss, middle) =>
        Ledgers.IsLayout(layout) && HeapAllocPost(h, layout, r, outcome, loss, middle, h')
      case Free(j) => j < |h.book.live| && h' == h.(book := Ledgers.Released(h.book, j))
      case Store(a, value) =>
        && a % NODE_ALIGN == 0 && HEAP_REGION_START <= a < h.cursor && PageOf(a) < |h.owned|
        && MayWrite(h.space, a) && h' == Stored(h, a, value)
      case Others(event) => LeavesHeapAlone(h, event) && Step(h.space, event, h'.space) && h' == h.(space := h'.space)
  }

  ghost predicate HeapRun(states: seq<HeapState>, events: seq<HeapEvent>) {
    && |states| == |events| + 1
    && forall i {:trigger events[i]} :: 0 <= i < |events| ==> HeapStep(states[i], events[i], states[i + 1])
  }

  lemma OutsidePath(virt: Word, n: nat)
    requires !InHeapRegion(virt) && n < HEAP_PAGES
    ensures Path(virt) != HeapPath(n)
  {
    HeapPageNumber(n);
    PathIsPageNumber(virt, PageAddr(n));
  }

  /** The frames behind the heap stay used and never become tables. */
  lemma OthersKeepFrame(h: HeapState, e: Event, s': PtState, n: nat)
    requires HeapOk(h) && LeavesHeapAlone(h, e) && Step(h.space, e, s') && n < |h.owned|
    ensures HeapFrame(s', h.owned[n])
  {
    assert HeapFrame(h.space, h.owned[n]);
    match e {
      case Mapped(virt, phys, flags) => FramesKept(h.space, s', h.owned[n]);
      case _ =>
    }
  }

  lemma OthersKeepPage(h: HeapState, e: Event, s': PtState, n: nat)
    requires HeapOk(h) && LeavesHeapAlone(h, e) && Step(h.space, e, s') && n < HEAP_PAGES
    ensures s'.root == h.space.root && HeapView(s', n) == HeapView(h.space, n)
  {
    match e {
      case Mapped(virt, _, _) => OutsidePath(virt, n);
      case Unmapped(virt) => OutsidePath(virt, n);
      case _ =>
    }
  }

  lemma OthersKeepSound(s: PtState, e: Event, s': PtState)
    requires Sound(s) && OpenTables(s) && Step(s, e, s')
    ensures Sound(s') && OpenTables(s')
  {
    StepKeepsOpen(s, e, s');
  }

  lemma OthersKeepHeap(h: HeapState, e: Event, h': HeapState)
    requires HeapOk(h) && HeapStep(h, Others(e), h')
    ensures HeapOk(h')
  {
    OthersKeepSound(h.space, e, h'.space);
    forall n | 0 <= n < |h.owned| ensures HeapFrame(h'.space, h.owned[n]) { OthersKeepFrame(h, e, h'.space, n); }
    forall n | 0 <= n < HEAP_PAGES
      ensures HeapView(h'.space, n) == if n < |h.owned| then HeapLeaf(h.owned[n]) else NotMapped
    {
      OthersKeepPage(h, e, h'.space, n);
    }
  }

  lemma StepKeepsHeap(h: HeapState, e: HeapEvent, h': HeapState)
    requires HeapOk(h) && HeapStep(h, e, h')
    ensures HeapOk(h')
  {
    match e {
      case Allocate(_, _, _, _, _) =>
      case Free(j) => ReleasedOk(h, j, h');
      case Store(a, value) => StoredOk(h, a, value);
      case Others(event) => OthersKeepHeap(h, event, h');
    }
  }

  /** Pages once backed keep their frames. */
  lemma StepKeepsFrames(h: HeapState, e: HeapEvent, h': HeapState)
    requires HeapOk(h) && HeapStep(h, e, h')
    ensures h.owned <= h'.owned
  {
  }

  lemma {:induction false} RunKeepsFrames(states: seq<HeapState>, events: seq<HeapEvent>)
    requires HeapRun(states, events) && HeapOk(states[0])
    ensures HeapOk(states[|events|]) && states[0].owned <= states[|events|].owned
  {
    if events != [] {
      var n := |events| - 1;
      RunKeepsFrames(states[..n + 1], events[..n]);
      StepKeepsHeap(states[n], events[n], states[n + 1]);
      StepKeepsFrames(states[n], events[n], states[n + 1]);
    }
  }

  /** Over every run, a heap byte once mapped stays mapped, writable, to the same physical byte:
      growth, unwinding and the traffic of others never move live data. */
  lemma HeapByteForever(states: seq<HeapState>, events: seq<HeapEvent>, b: Word)
    requires HeapRun(states, events) && HeapOk(states[0]) && HEAP_REGION_START <= b < states[0].cursor
    ensures HeapOk(states[|events|]) && ByteMapped(states[|events|], b)
    ensures Translation(states[|events|].space, b) == Translation(states[0].space, b)
  {
    RunKeepsFrames(states, events);
    ByteStays(states[0], states[|events|], b);
  }

  // ---- Words of live blocks over runs ----

  /** The heap and the words its addresses hold. */
  datatype HeapMemory = HeapMemory(heap: HeapState, words: Words)

  /** Calls touch no word of a block that is live before and after; a store changes its own
      word; the traffic of others does not go through the heap's addresses. */
  ghost predicate MemoryStep(m: HeapMemory, e: HeapEvent, m': HeapMemory) {
    HeapOk(m.heap) ==>
      && HeapStep(m.heap, e, m'.heap)
      && match e
         case Allocate(_, _, _, _, _) => LiveKept(m.heap.book.live, m.words, m'.words)
         case Free(_) => LiveKept(m'.heap.book.live, m.words, m'.words)
         case Store(a, value) => m'.words == m.words[a := value]
         case Others(_) => m'.words == m.words
  }

  ghost predicate MemoryRun(states: seq<HeapMemory>, events: seq<HeapEvent>) {
    && |states| == |events| + 1
    && forall i {:trigger events[i]} :: 0 <= i < |events| ==> MemoryStep(states[i], events[i], states[i + 1])
  }

  ghost predicate StaysLive(states: seq<HeapMemory>, a: nat) {
    forall i :: 0 <= i < |states| ==> Covers(states[i].heap.book.live, a)
  }

  lemma MemoryStepKeepsWord(m: HeapMemory, e: HeapEvent, m': HeapMemory, a: nat)
    requires HeapOk(m.heap) && MemoryStep(m, e, m') && a % NODE_ALIGN == 0 && a in m.words && !(e.Store? && e.addr == a)
    requires Covers(m.heap.book.live, a) && Covers(m'.heap.book.live, a)
    ensures HeapOk(m'.heap) && a in m'.words && m'.words[a] == m.words[a]
  {
    StepKeepsHeap(m.heap, e, m'.heap);
  }

  /** Over every run, an aligned word of a block that stays live keeps its value until its owner
      writes to it: no other block's owner, no call and no growth changes it. */
  lemma {:induction false} LiveWordForever(states: seq<HeapMemory>, events: seq<HeapEvent>, a: nat)
    requires MemoryRun(states, events) && HeapOk(states[0].heap) && StaysLive(states, a)
    requires a % NODE_ALIGN == 0 && a in states[0].words
    requires forall i :: 0 <= i < |events| ==> !(events[i].Store? && events[i].addr == a)
    ensures HeapOk(states[|events|].heap) && a in states[|events|].words
    ensures states[|events|].words[a] == states[0].words[a]
  {
    if events != [] {
      var n := |events| - 1;
      LiveWordForever(states[..n + 1], events[..n], a);
      MemoryStepKeepsWord(states[n], events[n], states[n + 1], a);
    }
  }

  // ---- The memory behind heap words ----

  /** Page tables are written by growth and by others, but never in a heap page. */
  lemma StepKeepsPage(h: HeapState, e: HeapEvent, h': HeapState, n: nat, k: nat)
    requires HeapOk(h) && HeapStep(h, e, h') && !e.Store? && n < |h.owned| && k < RAM_WORDS
    requires k / 512 * FRAME_SIZE == h.owned[n]
    ensures h'.space.ram[k] == h.space.ram[k]
  {
    StepKeepsHeap(h, e, h');
    StepKeepsFrames(h, e, h');
    assert HeapFrame(h'.space, h'.owned[n]);
    match e {
      case Allocate(layout, r, outcome, loss, middle) =>
        if outcome == Succeeded { assert HeapFrame(middle.space, middle.owned[n]); }
      case Free(_) =>
      case Others(event) =>
    }
  }

  /** One step for the word behind heap address `a`. */
  lemma StepKeepsPhysicalWord(h: HeapState, e: HeapEvent, h': HeapState, a: Word)
    requires HeapOk(h) && HeapStep(h, e, h') && a % NODE_ALIGN == 0 && HEAP_REGION_START <= a < h.cursor
    requires PageOf(a) < |h.owned| && Place(h, a) < IDENTITY_MAP_LIMIT
    ensures HeapOk(h') && a < h'.cursor && PageOf(a) < |h'.owned| && Place(h', a) == Place(h, a)
    ensures PhysicalWord(h', a) == if e.Store? && e.addr == a then e.value else PhysicalWord(h, a)
  {
    StepKeepsPlace(h, e, h', a);
    if e.Store? {
      FrameOfPage(h, PageOf(e.addr));
      FrameOfPage(h, PageOf(a));
      StoredWord(h, e.addr, e.value, a);
    } else {
      PlaceInPage(h, a);
      StepKeepsPage(h, e, h', PageOf(a), Place(h, a) / 8);
    }
  }

  lemma StepKeepsPlace(h: HeapState, e: HeapEvent, h': HeapState, a: Word)
    requires HeapOk(h) && HeapStep(h, e, h') && HEAP_REGION_START <= a < h.cursor && PageOf(a) < |h.owned|
    ensures HeapOk(h') && a < h'.cursor && PageOf(a) < |h'.owned| && Place(h', a) == Place(h, a)
  {
    StepKeepsHeap(h, e, h');
    StepKeepsFrames(h, e, h');
    CursorGrows(h, h');
  }

  lemma PlaceInPage(h: HeapState, a: Word)
    requires HeapOk(h) && HEAP_REGION_START <= a && PageOf(a) < |h.owned| && Place(h, a) < IDENTITY_MAP_LIMIT
    ensures Place(h, a) / 8 / 512 * FRAME_SIZE == h.owned[PageOf(a)]
  {
    FrameOfPage(h, PageOf(a));
    PlaceSlot(h.owned[PageOf(a)], a % FRAME_SIZE);
  }

  /** The last value written through heap address `a`, if any. */
  function LastStore(events: seq<HeapEvent>, a: Word): Option<Word> {
    if events == [] then None
    else
      var e := events[|events| - 1];
      if e.Store? && e.addr == a then Some(e.value) else LastStore(events[..|events| - 1], a)
  }

  /** Memory is what was last written: over every run, the word of physical memory behind
      an aligned heap address holds the last value stored through that address, or what it
      held at the start. Page-table writes, growth, unwinding and all other stores leave it
      alone, and it never moves. */
  lemma {:induction false} PhysicalWordForever(states: seq<HeapState>, events: seq<HeapEvent>, a: Word)
    requires HeapRun(states, events) && HeapOk(states[0]) && a % NODE_ALIGN == 0
    requires HEAP_REGION_START <= a < states[0].cursor
    requires PageOf(a) < |states[0].owned| && Place(states[0], a) < IDENTITY_MAP_LIMIT
    ensures var last := states[|events|];
      && HeapOk(last) && a < last.cursor && PageOf(a) < |last.owned| && Place(last, a) == Place(states[0], a)
      && PhysicalWord(last, a) == match LastStore(events, a)
                                  case None => PhysicalWord(states[0], a)
                                  case Some(value) => value
  {
    if events != [] {
      var n := |events| - 1;
      PhysicalWordForever(states[..n + 1], events[..n], a);
      StepKeepsPhysicalWord(states[n], events[n], states[n + 1], a);
    }
  }

  /** The word a live block holds at `a` is the word of physical memory behind `a`. */
  ghost predicate InMemory(m: HeapMemory, a: Word) {
    && HEAP_REGION_START <= a < m.heap.cursor && PageOf(a) < |m.heap.owned| && Place(m.heap, a) < IDENTITY_MAP_LIMIT
    && a in m.words && m.words[a] == PhysicalWord(m.heap, a)
  }

  /** Over every run, the words of a block that stays live and their physical memory agree. */
  lemma {:induction false} LiveWordInMemory(states: seq<HeapMemory>, events: seq<HeapEvent>, a: Word)
    requires MemoryRun(states, events) && HeapOk(states[0].heap) && StaysLive(states, a)
    requires a % NODE_ALIGN == 0 && InMemory(states[0], a)
    ensures HeapOk(states[|events|].heap) && InMemory(states[|events|], a)
  {
    if events != [] {
      var n := |events| - 1;
      LiveWordInMemory(states[..n + 1], events[..n], a);
      StepKeepsPhysicalWord(states[n].heap, events[n], states[n + 1].heap, a);
      if !(events[n].Store? && events[n].addr == a) {
        MemoryStepKeepsWord(states[n], events[n], states[n + 1], a);
      }
    }
  }

  /** The heap as the kernel starts: nothing in it, on the boot loader's tables. */
  ghost predicate HeapAtBoot(h: HeapState, pages: BootPaging.Pages, base: nat, count: nat) {
    && h == HeapState(Ledgers.EMPTY_LEDGER, HEAP_REGION_START, [], h.space)
    && BootPaging.BootState(h.space, pages, base, count)
  }

  /** Page numbers of the region, digit by digit: not the identity map's, and not the
      kernel image's. */
  lemma HeapPathDigits(n: nat)
    requires n < HEAP_PAGES
    ensures HeapPath(n)[0] >= 272 && !(HeapPath(n)[0] == 511 && HeapPath(n)[1] == 510)
  {
    HeapPageNumber(n);
    IndicesRecombine(PageAddr(n));
    PathDigits(PageAddr(n));
  }

  lemma BootHeapOk(h: HeapState, pages: BootPaging.Pages, base: nat, count: nat)
    requires HeapAtBoot(h, pages, base, count)
    ensures HeapOk(h)
  {
    BootBacked(h.space, pages, base, count);
    EmptyHeapOk(h.space);
  }

  lemma BootBacked(s: PtState, pages: BootPaging.Pages, base: nat, count: nat)
    requires BootPaging.BootState(s, pages, base, count)
    ensures Sound(s) && OpenTables(s) && Backed(s, [])
  {
    BootPaging.BootSound(s, pages, base, count);
    forall n | 0 <= n < HEAP_PAGES
      ensures HeapView(s, n) == NotMapped
    {
      HeapPathDigits(n);
      BootPaging.BootSpace(s.ram, pages, base, count, HeapPath(n));
    }
  }

  /** The heap-wide invariant over every run from boot. */
  lemma {:induction false} HeapOkForever(states: seq<HeapState>, events: seq<HeapEvent>, pages: BootPaging.Pages,
                                         base: nat, count: nat)
    requires HeapRun(states, events) && HeapAtBoot(states[0], pages, base, count)
    ensures HeapOk(states[|events|])
  {
    if events == [] {
      BootHeapOk(states[0], pages, base, count);
    } else {
      var n := |events| - 1;
      HeapOkForever(states[..n + 1], events[..n], pages, base, count);
      StepKeepsHeap(states[n], events[n], states[n + 1]);
    }
  }
}

/**
 The whole system over every run from boot, heap allocations included: what the boot
 loader set up stays in place while the heap grows, fails to grow and shrinks, and others
 map, unmap and trade frames.
 */
module SystemRuns {
  import opened Bits
  import opened Options
  import opened PageFormat
  import opened PageTables
  import opened AddressSpace
  import opened BootPaging
  import opened HeapSpace
  import opened KernelHeaps
  import opened HeapRuns
  import opened KernelLoader
  import opened KernelImage

  // ---- Huge pages ----

  /** A growth changes heap pages only, and no heap page is huge. */
  lemma GrowthKeepsHuge(h: HeapState, layout: Layout, ok: bool, loss: Loss, h': HeapState, q: seq<nat>)
    requires HeapOk(h) && GrowPost(h, layout, ok, loss, h') && PagePath(q) && View(h.space, q).Huge?
    ensures h'.space.root == h.space.root && View(h'.space, q) == View(h.space, q)
  {
    if ok {
      forall i | |h.owned| <= i < |h'.owned|
        ensures q != HeapPath(i)
      {
        assert HeapView(h.space, i) == NotMapped;
      }
    }
  }

  lemma HeapStepKeepsHuge(h: HeapState, e: HeapEvent, h': HeapState, q: seq<nat>)
    requires HeapOk(h) && HeapStep(h, e, h') && PagePath(q) && View(h.space, q).Huge?
    ensures h'.space.root == h.space.root && View(h'.space, q) == View(h.space, q)
  {
    match e {
      case Allocate(layout, r, outcome, loss, middle) =>
        if outcome == Failed { GrowthKeepsHuge(h, layout, false, loss, h', q); }
        if outcome == Succeeded { GrowthKeepsHuge(h, layout, true, loss, middle, q); }
      case Free(_) =>
      case Store(a, value) => StoredOk(h, a, value);
      case Others(event) => StepKeepsHuge(h.space, event, h'.space, q);
    }
  }

  lemma {:induction false} HeapRunKeepsHuge(states: seq<HeapState>, events: seq<HeapEvent>, q: seq<nat>)
    requires HeapRun(states, events) && HeapOk(states[0]) && PagePath(q) && View(states[0].space, q).Huge?
    ensures HeapOk(states[|events|]) && states[|events|].space.root == states[0].space.root
    ensures View(states[|events|].space, q) == View(states[0].space, q)
  {
    if events != [] {
      var n := |events| - 1;
      HeapRunKeepsHuge(states[..n + 1], events[..n], q);
      StepKeepsHeap(states[n], events[n], states[n + 1]);
      HeapStepKeepsHuge(states[n], events[n], states[n + 1], q);
    }
  }

  lemma HugeThroughHeapRuns(states: seq<HeapState>, events: seq<HeapEvent>, virt: Word, e: Word, target: nat)
    requires HeapRun(states, events) && HeapOk(states[0]) && View(states[0].space, Path(virt)) == Huge(2, e)
    requires Addr(e) % PAGE_SIZE_2M == 0 && Addr(e) + virt % PAGE_SIZE_2M == target
    ensures states[|events|].space.root % FRAME_SIZE == 0
    ensures Translation(states[|events|].space, virt) == Some(target)
    ensures Access(states[|events|].space, virt) == Some(FlagsOf(e))
  {
    HeapRunKeepsHuge(states, events, Path(virt));
    HugeTranslates(states[|events|].space, virt, e, target);
  }

  /** The identity map of the first 4 GiB, writable and executable, survives every run of the
      heap and of others. */
  lemma IdentityMapWithHeap(states: seq<HeapState>, events: seq<HeapEvent>, pages: Pages, base: nat, count: nat,
                            a: Word)
    requires HeapRun(states, events) && HeapAtBoot(states[0], pages, base, count) && a < IDENTITY_MAP_LIMIT
    ensures states[|events|].space.root % FRAME_SIZE == 0
    ensures Translation(states[|events|].space, a) == Some(a) && FullAccess(states[|events|].space, a)
  {
    BootHeapOk(states[0], pages, base, count);
    var e := BootIdentityAt(states[0].space, pages, base, count, a);
    HugeThroughHeapRuns(states, events, a, e, a);
  }

  /** So does the higher-half mapping of the kernel. */
  lemma KernelMapWithHeap(states: seq<HeapState>, events: seq<HeapEvent>, pages: Pages, base: nat, count: nat,
                          virt: Word, x: nat, phys: nat)
    requires HeapRun(states, events) && HeapAtBoot(states[0], pages, base, count)
    requires InKernel(virt, x) && x < count * PAGE_SIZE_2M && phys == base + x
    ensures states[|events|].space.root % FRAME_SIZE == 0
    ensures Translation(states[|events|].space, virt) == Some(phys) && FullAccess(states[|events|].space, virt)
  {
    BootHeapOk(states[0], pages, base, count);
    var e := BootKernelAt(states[0].space, pages, base, count, virt, x);
    HugeThroughHeapRuns(states, events, virt, e, phys);
  }

  // ---- The kernel image ----

  /** A growth turns only free frames into tables and writes only to tables. */
  lemma GrowthSparesImage(h: HeapState, layout: Layout, ok: bool, loss: Loss, h': HeapState, base: nat, size: nat)
    requires HeapOk(h) && GrowPost(h, layout, ok, loss, h') && Reserved(h.space, base, size)
    ensures Reserved(h'.space, base, size) && SameImage(h.space.ram, h'.space.ram, base, size)
  {
    if ok {
      SpentFromFree(h.space, h'.space, h'.owned[|h.owned|..]);
    } else {
      SpentFromFree(h.space, h'.space, loss.frames);
    }
    TablesSpareReserved(h.space, h'.space, base, size);
  }

  lemma SpentFromFree(s: PtState, s': PtState, taken: seq<nat>)
    requires Spent(s, s', taken)
    ensures TablesFromFree(s, s')
  {
    forall t | t in s'.tables && t !in s.tables ensures t / FRAME_SIZE in s.free {
      assert BecameTable(s, s', t / FRAME_SIZE);
    }
  }

  /** No heap page lies in the reserved range. */
  ghost predicate HeapApart(h: HeapState, base: nat, size: nat) {
    forall n :: 0 <= n < |h.owned| ==> !ImageFrame(base, size, h.owned[n] / FRAME_SIZE)
  }

  /** Growth takes its pages from the free frames, none of which are reserved. */
  lemma GrowthKeepsApart(h: HeapState, layout: Layout, loss: Loss, h': HeapState, base: nat, size: nat)
    requires HeapOk(h) && GrowPost(h, layout, true, loss, h') && Reserved(h.space, base, size)
    requires HeapApart(h, base, size)
    ensures HeapApart(h', base, size)
  {
    var taken := h'.owned[|h.owned|..];
    forall n | 0 <= n < |h'.owned|
      ensures !ImageFrame(base, size, h'.owned[n] / FRAME_SIZE)
    {
      if n >= |h.owned| {
        assert taken[n - |h.owned|] == h'.owned[n];
        assert IsFrameOf(taken, h'.owned[n] / FRAME_SIZE);
      }
    }
  }

  lemma HeapStepKeepsApart(h: HeapState, e: HeapEvent, h': HeapState, base: nat, size: nat)
    requires HeapOk(h) && HeapStep(h, e, h') && Reserved(h.space, base, size) && HeapApart(h, base, size)
    ensures HeapApart(h', base, size)
  {
    match e {
      case Allocate(layout, r, outcome, loss, middle) =>
        if outcome == Succeeded { GrowthKeepsApart(h, layout, loss, middle, base, size); }
      case _ =>
    }
  }

  /** A store through a heap address reaches no reserved frame. */
  lemma StoreSparesImage(h: HeapState, a: Word, value: Word, base: nat, size: nat)
    requires HeapOk(h) && HeapApart(h, base, size) && Reserved(h.space, base, size)
    requires HEAP_REGION_START <= a && PageOf(a) < |h.owned|
    ensures Reserved(Stored(h, a, value).space, base, size)
    ensures SameImage(h.space.ram, Stored(h, a, value).space.ram, base, size)
  {
    if Place(h, a) < IDENTITY_MAP_LIMIT { PlaceInPage(h, a); }
  }

  /** Nobody frees the reserved frames. */
  ghost predicate EventSparesImage(e: HeapEvent, base: nat, size: nat) {
    e.Others? ==> SparesImage(e.event, base, size)
  }

  lemma HeapStepSparesImage(h: HeapState, e: HeapEvent, h': HeapState, base: nat, size: nat)
    requires HeapOk(h) && HeapStep(h, e, h') && Reserved(h.space, base, size) && HeapApart(h, base, size)
    requires EventSparesImage(e, base, size)
    ensures Reserved(h'.space, base, size) && SameImage(h.space.ram, h'.space.ram, base, size)
  {
    match e {
      case Allocate(layout, r, outcome, loss, middle) =>
        if outcome == Failed { GrowthSparesImage(h, layout, false, loss, h', base, size); }
        if outcome == Succeeded { GrowthSparesImage(h, layout, true, loss, middle, base, size); }
      case Free(_) =>
      case Store(a, value) => StoreSparesImage(h, a, value, base, size);
      case Others(event) => StepSparesImage(h.space, event, h'.space, base, size);
    }
  }

  /** Over every run in which nobody frees the reserved frames, such as the kernel's own or
      the bitmap's, their words stay: no table, no heap page and no store through a heap
      address ever reaches them. */
  lemma {:induction false} RunSparesImage(states: seq<HeapState>, events: seq<HeapEvent>, base: nat, size: nat)
    requires HeapRun(states, events) && HeapOk(states[0])
    requires Reserved(states[0].space, base, size) && HeapApart(states[0], base, size)
    requires forall i :: 0 <= i < |events| ==> EventSparesImage(events[i], base, size)
    ensures HeapOk(states[|events|]) && Reserved(states[|events|].space, base, size)
    ensures HeapApart(states[|events|], base, size)
    ensures SameImage(states[0].space.ram, states[|events|].space.ram, base, size)
  {
    if events != [] {
      var n := |events| - 1;
      RunSparesImage(states[..n + 1], events[..n], base, size);
      StepKeepsHeap(states[n], events[n], states[n + 1]);
      HeapStepKeepsApart(states[n], events[n], states[n + 1], base, size);
      HeapStepSparesImage(states[n], events[n], states[n + 1], base, size);
    }
  }

  /** After any run from boot, every heap byte is mapped to a physical byte outside the page
      tables, the free frames, and a range reserved at boot: the kernel's image or the
      frame allocator's bitmap. */
  lemma HeapBytesApart(states: seq<HeapState>, events: seq<HeapEvent>, pages: Pages, start: nat, count: nat,
                       base: nat, size: nat, b: Word, p: nat)
    requires HeapRun(states, events) && HeapAtBoot(states[0], pages, start, count)
    requires Reserved(states[0].space, base, size)
    requires forall i :: 0 <= i < |events| ==> EventSparesImage(events[i], base, size)
    requires HEAP_REGION_START <= b < states[|events|].cursor && PageOf(b) < |states[|events|].owned|
    requires p == Place(states[|events|], b)
    ensures HeapOk(states[|events|]) && Translation(states[|events|].space, b) == Some(p)
    ensures FullAccess(states[|events|].space, b)
    ensures !ImageFrame(base, size, p / FRAME_SIZE) && p / FRAME_SIZE !in states[|events|].space.free
    ensures p - p % FRAME_SIZE !in states[|events|].space.tables
  {
    BootHeapOk(states[0], pages, start, count);
    RunSparesImage(states, events, base, size);
    HeapByteApart(states[|events|], base, size, b, p);
  }

  lemma HeapByteApart(h: HeapState, base: nat, size: nat, b: Word, p: nat)
    requires HeapOk(h) && HeapApart(h, base, size)
    requires HEAP_REGION_START <= b < h.cursor && PageOf(b) < |h.owned| && p == Place(h, b)
    ensures Translation(h.space, b) == Some(p) && FullAccess(h.space, b) && !ImageFrame(base, size, p / FRAME_SIZE)
    ensures p / FRAME_SIZE !in h.space.free && p - p % FRAME_SIZE !in h.space.tables
  {
    HeapPageByte(h, b);
    PlaceMapped(h, b, p);
    FrameApart(h.space, h.owned[PageOf(b)], b % FRAME_SIZE, p, base, size);
  }

  lemma FrameApart(s: PtState, f: nat, offset: nat, p: nat, base: nat, size: nat)
    requires HeapFrame(s, f) && !ImageFrame(base, size, f / FRAME_SIZE) && offset < FRAME_SIZE && p == f + offset
    ensures !ImageFrame(base, size, p / FRAME_SIZE) && p / FRAME_SIZE !in s.free && p - p % FRAME_SIZE !in s.tables
  {
    FrameOfByte(f, offset, p);
  }

  lemma FrameOfByte(f: nat, offset: nat, p: nat)
    requires f % FRAME_SIZE == 0 && offset < FRAME_SIZE && p == f + offset
    ensures p / FRAME_SIZE == f / FRAME_SIZE && p - p % FRAME_SIZE == f
  {
    ModUnique(p, FRAME_SIZE, f / FRAME_SIZE, offset);
  }

  // ---- From the file to the running kernel ----

  lemma ImageByteForever(states: seq<HeapState>, events: seq<HeapEvent>, base: nat, size: nat,
                         file: seq<Byte>, segs: seq<Segment>, lowest: Word, phys: nat)
    requires HeapRun(states, events) && HeapOk(states[0])
    requires Reserved(states[0].space, base, size) && HeapApart(states[0], base, size)
    requires forall i :: 0 <= i < |events| ==> EventSparesImage(events[i], base, size)
    requires base % FRAME_SIZE == 0 && size % FRAME_SIZE == 0 && base + size <= IDENTITY_MAP_LIMIT
    requires InFile(file, segs) && ImageInRam(states[0].space.ram, base, size, file, segs, lowest)
    requires base <= phys < base + size
    ensures RamByte(states[|events|].space.ram, phys) == ImageByte(file, segs, lowest, phys - base)
  {
    RunSparesImage(states, events, base, size);
    SameImageByte(states[0].space.ram, states[|events|].space.ram, base, size, phys);
  }

  lemma SegmentByteInRam(states: seq<HeapState>, events: seq<HeapEvent>, base: nat, size: nat,
                         file: seq<Byte>, segs: seq<Segment>, lowest: Word, i: nat, b: nat, phys: nat)
    requires HeapRun(states, events) && HeapOk(states[0])
    requires Reserved(states[0].space, base, size) && HeapApart(states[0], base, size)
    requires forall j :: 0 <= j < |events| ==> EventSparesImage(events[j], base, size)
    requires base % FRAME_SIZE == 0 && size % FRAME_SIZE == 0 && base + size <= IDENTITY_MAP_LIMIT
    requires WellFormed(file, segs) && SegmentsApart(segs)
    requires InFile(file, segs) && ImageInRam(states[0].space.ram, base, size, file, segs, lowest)
    requires i < |segs| && IsLoad(segs[i]) && b < segs[i].memsz
    requires phys - base == segs[i].vaddr - lowest + b && base <= phys < base + size
    ensures RamByte(states[|events|].space.ram, phys) == SegmentByte(file, segs[i], b)
  {
    ImageByteForever(states, events, base, size, file, segs, lowest, phys);
    ImageByteOfSegment(file, segs, lowest, i, b);
  }

  /** Loader, page tables, memory manager and heap compose. After any run from the state in
      which `file` was booted with its lowest segment at the kernel's base, byte `b` of
      segment `i`, read through its virtual address, is the file's byte, or zero past the
      file's part. */
  lemma SegmentByteForever(states: seq<HeapState>, events: seq<HeapEvent>, pages: Pages, file: seq<Byte>,
                           k: LoadedKernel, i: nat, b: nat, virt: Word, phys: nat)
    requires Parsable(file) && Copyable(file) && WellFormed(file, FileSegments(file))
    requires SegmentsApart(FileSegments(file))
    requires HeapRun(states, events) && HeapAtBoot(states[0], pages, k.physicalBase, PageCount(k.sizeBytes))
    requires Booted(states[0].space, pages, file, k) && PlanOf(file).value.lowest == KERNEL_VIRTUAL_BASE
    requires forall j :: 0 <= j < |events| ==> EventSparesImage(events[j], k.physicalBase, k.sizeBytes)
    requires i < |FileSegments(file)| && IsLoad(FileSegments(file)[i]) && b < FileSegments(file)[i].memsz
    requires virt == FileSegments(file)[i].vaddr + b && phys == k.physicalBase + (virt - KERNEL_VIRTUAL_BASE)
    ensures states[|events|].space.root % FRAME_SIZE == 0 && Translation(states[|events|].space, virt) == Some(phys)
    ensures FullAccess(states[|events|].space, virt)
    ensures phys < IDENTITY_MAP_LIMIT
    ensures RamByte(states[|events|].space.ram, phys) == SegmentByte(file, FileSegments(file)[i], b)
  {
    var base, size, segs := k.physicalBase, k.sizeBytes, FileSegments(file);
    SegmentPlace(file, k, i, b, virt);
    KernelMapWithHeap(states, events, pages, base, PageCount(size), virt, virt - KERNEL_VIRTUAL_BASE, phys);
    assert HeapOk(states[0]) by { BootHeapOk(states[0], pages, base, PageCount(size)); }
    SegmentByteInRam(states, events, base, size, file, segs, k.virtualBase, i, b, phys);
  }

  /** Where a byte of a segment is in the image. */
  lemma SegmentPlace(file: seq<Byte>, k: LoadedKernel, i: nat, b: nat, virt: Word)
    requires Parsable(file) && WellFormed(file, FileSegments(file))
    requires PlanOf(file) == Some(Plan(k.virtualBase, k.sizeBytes, k.entryPoint))
    requires k.virtualBase == KERNEL_VIRTUAL_BASE
    requires i < |FileSegments(file)| && IsLoad(FileSegments(file)[i]) && b < FileSegments(file)[i].memsz
    requires virt == FileSegments(file)[i].vaddr + b
    requires k.physicalBase % PAGE_SIZE_2M == 0
    ensures InKernel(virt, virt - KERNEL_VIRTUAL_BASE)
    ensures virt - KERNEL_VIRTUAL_BASE < k.sizeBytes == PageCount(k.sizeBytes) * PAGE_SIZE_2M
    ensures k.physicalBase % FRAME_SIZE == 0 && k.sizeBytes % FRAME_SIZE == 0
  {
    FrameAligned(k.physicalBase);
    PlanHoldsImage(file, Plan(k.virtualBase, k.sizeBytes, k.entryPoint));
    WholeImageMapped(file, Plan(k.virtualBase, k.sizeBytes, k.entryPoint));
  }
}

/**
 From the boot loader's last steps to a usable heap: the contracts of the page-table
 builder, the frame allocator's initialisation, the memory manager and the heap meet
 here, and the state they produce is the one from which the runs start.
 */
module Startup {
  import opened Bits
  import opened Options
  import opened PageFormat
  import opened PageTables
  import opened AddressSpace
  import opened FrameAllocation
  import opened FrameInit
  import opened MemoryMap
  import opened VirtualMemory
  import opened BootPaging
  import opened HeapSpace
  import opened KernelHeaps
  import opened HeapRuns
  import opened KernelLoader
  import opened KernelImage
  import opened ExitBootServices

  /** The frame is not offered as conventional memory by any trusted entry. */
  ghost predicate NotOffered(info: MapInfo, frame: nat)
    requires info.Readable()
  {
    info.Consistent() ==> !Conventional(info, info.entryCount, frame)
  }

  /** What the firmware's map promises about memory the loader allocated: neither the
      table pages nor the kernel image are conventional memory. */
  ghost predicate LoaderMemoryKept(info: MapInfo, pages: Pages, base: nat, size: nat)
    requires info.Readable() && |pages| == 8
  {
    && (forall i :: 0 <= i < 8 ==> NotOffered(info, pages[i] / FRAME_SIZE))
    && (forall f: nat :: ImageFrame(base, size, f) ==> NotOffered(info, f))
  }

  lemma ImageReserved(info: MapInfo, frames: set<nat>, total: nat, bitmapPhys: nat, host: nat, s: PtState,
                      pages: Pages, base: nat, size: nat)
    requires Good(info) && Initialised(info, frames, total, bitmapPhys, host) && s.free == frames
    requires |pages| == 8 && s.tables == BootLabels(pages) && LoaderMemoryKept(info, pages, base, size)
    requires forall i :: 0 <= i < 8 ==> !ImageFrame(base, size, pages[i] / FRAME_SIZE)
    ensures Reserved(s, base, size)
    ensures forall i :: 0 <= i < 8 ==> pages[i] / FRAME_SIZE !in s.free
  {
    forall t | t in s.tables ensures !ImageFrame(base, size, t / FRAME_SIZE) {
      assert pages[IndexOf(pages, t)] == t;
    }
    forall f | f in s.free ensures !ImageFrame(base, size, f) {
      assert ImageFrame(base, size, f) ==> NotOffered(info, f);
    }
    forall i | 0 <= i < 8 ensures pages[i] / FRAME_SIZE !in s.free {
      assert NotOffered(info, pages[i] / FRAME_SIZE);
    }
  }

  /** Bytes of the whole frames under the bitmap of `total` frames. */
  function BitmapSpan(total: nat): nat { DivCeil(DivCeil(total, 8), FRAME_SIZE) * FRAME_SIZE }

  /** The bitmap lies in frames that are neither free nor tables nor the image's. */
  ghost predicate BitmapApart(s: PtState, bitmapPhys: nat, total: nat, base: nat, size: nat) {
    && bitmapPhys % FRAME_SIZE == 0 && bitmapPhys + BitmapSpan(total) <= IDENTITY_MAP_LIMIT
    && Reserved(s, bitmapPhys, BitmapSpan(total))
    && forall f :: ImageFrame(bitmapPhys, BitmapSpan(total), f) ==> !ImageFrame(base, size, f)
  }

  /** The frames under the bitmap were conventional memory, so they are no loader memory. */
  lemma BitmapFrame(info: MapInfo, frames: set<nat>, total: nat, bitmapPhys: nat, host: nat, f: nat)
    requires Good(info) && Initialised(info, frames, total, bitmapPhys, host)
    requires ImageFrame(bitmapPhys, BitmapSpan(total), f)
    ensures f !in frames && !NotOffered(info, f)
  {
    var e := EntryAt(info, host);
    BitmapPlaced(info, frames, total, bitmapPhys, host);
    AlignedEnd(bitmapPhys, DivCeil(DivCeil(total, 8), FRAME_SIZE));
    AlignedEnd(e.physicalStart, e.numberOfPages);
    assert Describes(e, f);
  }

  lemma BitmapKeptApart(info: MapInfo, frames: set<nat>, total: nat, bitmapPhys: nat, host: nat, s: PtState,
                        pages: Pages, base: nat, size: nat)
    requires Good(info) && Initialised(info, frames, total, bitmapPhys, host) && s.free == frames
    requires |pages| == 8 && s.tables == BootLabels(pages) && LoaderMemoryKept(info, pages, base, size)
    ensures BitmapApart(s, bitmapPhys, total, base, size)
  {
    BitmapPlaced(info, frames, total, bitmapPhys, host);
    forall f: nat | ImageFrame(bitmapPhys, BitmapSpan(total), f)
      ensures f !in s.free && !ImageFrame(base, size, f)
    {
      BitmapFrame(info, frames, total, bitmapPhys, host, f);
    }
    forall t | t in s.tables ensures !ImageFrame(bitmapPhys, BitmapSpan(total), t / FRAME_SIZE) {
      assert pages[IndexOf(pages, t)] == t;
      if ImageFrame(bitmapPhys, BitmapSpan(total), t / FRAME_SIZE) {
        BitmapFrame(info, frames, total, bitmapPhys, host, t / FRAME_SIZE);
      }
    }
  }

  /** The state in which the manager adopts the tables. */
  lemma StartState(info: MapInfo, frames: set<nat>, total: nat, bitmapPhys: nat, host: nat, s: PtState, pages: Pages,
                   base: nat, size: nat)
    requires GoodPages(pages) && AllGranted(pages) && base % PAGE_SIZE_2M == 0 && base < IDENTITY_MAP_LIMIT
    requires PageCount(size) <= 512 && BootTables(s.ram, pages, base, PageCount(size))
    requires Good(info) && Initialised(info, frames, total, bitmapPhys, host)
    requires LoaderMemoryKept(info, pages, base, size)
    requires s == PtState(s.ram, pages[0], BootLabels(pages), frames)
    requires forall i :: 0 <= i < 8 ==> !ImageFrame(base, size, pages[i] / FRAME_SIZE)
    ensures BootState(s, pages, base, PageCount(size)) && Sound(s) && OpenTables(s) && Backed(s, [])
    ensures Reserved(s, base, size) && BitmapApart(s, bitmapPhys, total, base, size)
  {
    ImageReserved(info, frames, total, bitmapPhys, host, s, pages, base, size);
    BitmapKeptApart(info, frames, total, bitmapPhys, host, s, pages, base, size);
    BootBacked(s, pages, base, PageCount(size));
  }

  /** The kernel's side: initialise the frame allocator from the map it was handed, adopt
      the tables in force and publish both to the heap. The heap is ready exactly when the
      allocator can be initialised; the state is then the one every run starts from, and
      the image and the bitmap are reserved. */
  method Start(memory: PhysMemory, cr3: nat, info: MapInfo, ghost pages: Pages, ghost base: nat, ghost size: nat)
    returns (heap: KernelHeap?, ghost bitmapPhys: nat)
    requires GoodPages(pages) && AllGranted(pages) && cr3 == pages[0]
    requires base % PAGE_SIZE_2M == 0 && base < IDENTITY_MAP_LIMIT && PageCount(size) <= 512
    requires BootTables(memory.words, pages, base, PageCount(size))
    requires info.Readable() && LoaderMemoryKept(info, pages, base, size)
    requires forall i :: 0 <= i < 8 ==> !ImageFrame(base, size, pages[i] / FRAME_SIZE)
    ensures heap != null <==> CanInitialise(info)
    ensures heap != null ==> fresh(heap) && heap.Valid() && heap.Ready()
    ensures heap != null ==> HeapAtBoot(heap.State(), pages, base, PageCount(size))
    ensures heap != null ==> Reserved(heap.State().space, base, size) && heap.State().space.ram == memory.words
    ensures heap != null ==> BitmapApart(heap.State().space, bitmapPhys, heap.frames.totalFrames, base, size)
  {
    var r, at, host := Init(info);
    if r.Err? {
      return null, 0;
    }
    ghost var s := PtState(memory.words, cr3, BootLabels(pages), r.value.free);
    StartState(info, r.value.free, r.value.totalFrames, at, host, s, pages, base, size);
    heap := Publish(memory, r.value, cr3, s);
    bitmapPhys := at;
  }

  /** Adopt the tables in force and publish manager and allocator to a new heap. */
  method Publish(memory: PhysMemory, frames: FrameAllocator, cr3: nat, ghost s: PtState) returns (heap: KernelHeap)
    requires frames.Valid() && s == PtState(memory.words, cr3, s.tables, frames.free)
    requires Sound(s) && OpenTables(s) && Backed(s, [])
    ensures fresh(heap) && heap.Valid() && heap.Ready() && heap.frames == frames
    ensures heap.State() == HeapState(Ledgers.EMPTY_LEDGER, HEAP_REGION_START, [], s)
  {
    var vmm := new Vmm(memory, cr3, s.tables);
    heap := new KernelHeap();
    assert vmm.State(frames) == s;
    heap.Populate(frames, vmm);
  }

  /** What the firmware promises about the memory it grants: table pages apart from the
      kernel's pages, and none of either listed as conventional memory. */
  ghost predicate GrantsApart(file: seq<Byte>, allocate: nat -> Option<nat>, pages: Pages, info: MapInfo)
    requires Parsable(file) && info.Readable() && |pages| == 8
  {
    PlanOf(file).Some? ==>
      var n := PagesNeeded(PlanOf(file).value.size);
      allocate(n).Some? ==>
        && LoaderMemoryKept(info, pages, allocate(n).value, n * FRAME_SIZE)
        && forall i :: 0 <= i < 8 ==> !ImageFrame(allocate(n).value, n * FRAME_SIZE, pages[i] / FRAME_SIZE)
  }

  /** The image is part of what was granted for it. */
  lemma ImageInGrant(k: LoadedKernel, granted: nat, n: nat, f: nat)
    requires n == PagesNeeded(k.sizeBytes) && InAllocation(k, Some(granted)) && granted % FRAME_SIZE == 0
    requires ImageFrame(k.physicalBase, k.sizeBytes, f)
    ensures ImageFrame(granted, n * FRAME_SIZE, f)
  {
  }

  lemma ImageKept(file: seq<Byte>, allocate: nat -> Option<nat>, pages: Pages, info: MapInfo, k: LoadedKernel)
    requires Parsable(file) && info.Readable() && |pages| == 8 && Honest(allocate)
    requires GrantsApart(file, allocate, pages, info)
    requires PlanOf(file) == Some(Plan(k.virtualBase, k.sizeBytes, k.entryPoint))
    requires InAllocation(k, allocate(PagesNeeded(k.sizeBytes)))
    ensures LoaderMemoryKept(info, pages, k.physicalBase, k.sizeBytes)
    ensures forall i :: 0 <= i < 8 ==> !ImageFrame(k.physicalBase, k.sizeBytes, pages[i] / FRAME_SIZE)
  {
    var n := PagesNeeded(k.sizeBytes);
    var granted := allocate(n).value;
    forall f: nat | ImageFrame(k.physicalBase, k.sizeBytes, f) ensures ImageFrame(granted, n * FRAME_SIZE, f) {
      ImageInGrant(k, granted, n, f);
    }
  }

  /** The map the kernel is handed when the firmware's is `m`: as many descriptors as fit
      its size, so that it is always consistent, and readable from a stride of 32 bytes. */
  function HandOff(m: seq<Byte>, stride: Word): (info: MapInfo)
    requires |m| < TWO64 && stride > 0
    ensures info.Consistent() && info.sizeBytes == |m| && (stride >= 32 ==> info.Readable())
  {
    var info := MapInfo(m, |m|, stride, |m| / stride);
    WholeDescriptors(|m|, stride);
    if stride >= 32 then WideStrideReadable(info); info else info
  }

  /** A kernel can be started with this map. */
  ghost predicate Startable(m: seq<Byte>, stride: Word) {
    stride > 0 && |m| < TWO64 && HandOff(m, stride).Readable() && CanInitialise(HandOff(m, stride))
  }

  /** Every map the firmware can still report has descriptors of at least 32 bytes and
      keeps the memory it has granted. */
  ghost predicate MapsKeepGrants(reports: (seq<Byte>, Word) -> bool, file: seq<Byte>, allocate: nat -> Option<nat>,
                                 pages: Pages)
    requires Parsable(file) && |pages| == 8
  {
    forall m: seq<Byte>, stride: Word :: reports(m, stride) && stride > 0 && |m| < TWO64 ==>
      stride >= 32 && GrantsApart(file, allocate, pages, HandOff(m, stride))
  }

  /** The whole way from the kernel's file to a ready heap, in the loader's order: load the
      image, build the tables, leave boot services, and start the kernel with the map that
      was current then. The heap is ready exactly when the file loads, all table pages were
      granted, services have ended and their last map can be started from; the memory then
      holds the image of the file, and the bitmap is in nobody's way. */
  method Boot(file: seq<Byte>, allocate: nat -> Option<nat>, bytes: array<Byte>, pages: Pages, fw: Firmware)
    returns (heap: KernelHeap?, kernel: Option<LoadedKernel>, ghost bitmapPhys: nat)
    requires Parsable(file) && Copyable(file) && Honest(allocate) && bytes.Length == IDENTITY_MAP_LIMIT
    requires GoodPages(pages) && fw.active && fw.Honest() && MapsKeepGrants(fw.reports, file, allocate, pages)
    modifies bytes, fw
    ensures kernel.Some? <==> PlanOf(file).Some? && allocate(PagesNeeded(PlanOf(file).value.size)).Some?
    ensures heap != null <==>
      kernel.Some? && AllGranted(pages) && !fw.active && Startable(fw.memoryMap, fw.descriptorSize)
    ensures heap != null ==> fresh(heap) && heap.Valid() && heap.Ready()
    ensures heap != null ==> Booted(heap.State().space, pages, file, kernel.value)
    ensures heap != null ==>
      HeapAtBoot(heap.State(), pages, kernel.value.physicalBase, PageCount(kernel.value.sizeBytes))
    ensures heap != null ==>
      BitmapApart(heap.State().space, bitmapPhys, heap.frames.totalFrames, kernel.value.physicalBase,
        kernel.value.sizeBytes)
  {
    heap, bitmapPhys := null, 0;
    kernel := LoadKernelElf(file, allocate, bytes);
    if kernel.None? {
      return;
    }
    LoadedInRam(file, kernel.value, bytes[..]);
    var memory := new PhysMemory(RamOf(bytes[..]));
    var cr3 := BuildKernelPageTables(memory, pages, kernel.value.physicalBase, kernel.value.sizeBytes);
    WholeImageMapped(file, PlanOf(file).value);
    if cr3 == 0 {
      return;
    }
    var exited := ExitBootServicesWithRetry(fw);
    if !exited.Left? {
      return;
    }
    heap, bitmapPhys := StartLoaded(file, kernel.value, memory, cr3, exited.out, allocate, pages, RamOf(bytes[..]),
      fw.reports);
  }

  /** The kernel's side, with the image in memory and the map in hand. */
  method StartLoaded(ghost file: seq<Byte>, ghost k: LoadedKernel, memory: PhysMemory, cr3: nat, out: BootMemoryMap,
                     ghost allocate: nat -> Option<nat>, ghost pages: Pages, ghost loaded: Ram,
                     ghost reports: (seq<Byte>, Word) -> bool)
    returns (heap: KernelHeap?, ghost bitmapPhys: nat)
    requires Parsable(file) && Copyable(file) && PlanOf(file) == Some(Plan(k.virtualBase, k.sizeBytes, k.entryPoint))
    requires k.physicalBase % PAGE_SIZE_2M == 0 && k.physicalBase + k.sizeBytes <= IDENTITY_MAP_LIMIT && k.sizeBytes > 0
    requires Honest(allocate) && InAllocation(k, allocate(PagesNeeded(k.sizeBytes)))
    requires ImageInRam(loaded, k.physicalBase, k.sizeBytes, file, FileSegments(file), k.virtualBase)
    requires GoodPages(pages) && AllGranted(pages) && cr3 == pages[0] && PageCount(k.sizeBytes) <= 512
    requires OnlyPages(loaded, memory.words, pages)
    requires BootTables(memory.words, pages, k.physicalBase, PageCount(k.sizeBytes))
    requires MapsKeepGrants(reports, file, allocate, pages)
    requires out.descriptorSize > 0 && |out.bytes| < TWO64 && reports(out.bytes, out.descriptorSize)
    requires out.sizeBytes == |out.bytes| && out.entryCount == out.sizeBytes / out.descriptorSize
    ensures heap != null <==> Startable(out.bytes, out.descriptorSize)
    ensures heap != null ==> fresh(heap) && heap.Valid() && heap.Ready()
    ensures heap != null ==> Booted(heap.State().space, pages, file, k)
    ensures heap != null ==> HeapAtBoot(heap.State(), pages, k.physicalBase, PageCount(k.sizeBytes))
    ensures heap != null ==>
      BitmapApart(heap.State().space, bitmapPhys, heap.frames.totalFrames, k.physicalBase, k.sizeBytes)
  {
    var info := MapInfo(out.bytes, out.sizeBytes, out.descriptorSize, out.entryCount);
    assert info == HandOff(out.bytes, out.descriptorSize) && info.Readable();
    ImageKept(file, allocate, pages, info, k);
    TablesSpareImage(loaded, memory.words, pages, k.physicalBase, k.sizeBytes);
    heap, bitmapPhys := Start(memory, cr3, info, pages, k.physicalBase, k.sizeBytes);
    if heap != null {
      StillLoaded(loaded, heap.State().space, pages, file, k);
    }
  }

  lemma StillLoaded(m: Ram, s: PtState, pages: Pages, file: seq<Byte>, k: LoadedKernel)
    requires Parsable(file) && Copyable(file) && PlanOf(file) == Some(Plan(k.virtualBase, k.sizeBytes, k.entryPoint))
    requires k.physicalBase + k.sizeBytes <= IDENTITY_MAP_LIMIT
    requires ImageInRam(m, k.physicalBase, k.sizeBytes, file, FileSegments(file), k.virtualBase)
    requires BootState(s, pages, k.physicalBase, PageCount(k.sizeBytes)) && Reserved(s, k.physicalBase, k.sizeBytes)
    requires SameImage(m, s.ram, k.physicalBase, k.sizeBytes)
    ensures Booted(s, pages, file, k)
  {
    WholeImageMapped(file, Plan(k.virtualBase, k.sizeBytes, k.entryPoint));
    FrameAligned(k.physicalBase);
    SameImageInRam(m, s.ram, k.physicalBase, k.sizeBytes, file, FileSegments(file), k.virtualBase);
  }
}

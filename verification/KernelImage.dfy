/**
 The loader and the page tables together: the image the loader placed is in the memory the
 kernel starts with, its bytes are reached at their virtual addresses exactly when the
 image starts at the kernel's virtual base, and no step of the memory manager touches it.
 */
module KernelImage {
  import opened Bits
  import opened Options
  import opened PageFormat
  import opened PageTables
  import opened AddressSpace
  import opened BootPaging
  import opened KernelLoader
  import opened MemoryMap

  // ---- Where a virtual address of the image leads ----

  /** The last gigabyte of the address space is not mapped at boot. */
  lemma TopGibUnmapped(s: PtState, pages: Pages, base: nat, count: nat, virt: Word)
    requires BootState(s, pages, base, count) && virt >= KERNEL_VIRTUAL_BASE + ONE_GIB
    ensures s.root % FRAME_SIZE == 0 && Translation(s, virt) == None
  {
    PathDigits(virt);
    TopDigits(virt, virt - (KERNEL_VIRTUAL_BASE + ONE_GIB));
    BootSpace(s.ram, pages, base, count, Path(virt));
  }

  lemma TopDigits(virt: Word, x: nat)
    requires virt == KERNEL_VIRTUAL_BASE + ONE_GIB + x
    ensures virt / 0x80_0000_0000 % 512 == 511 && virt / ONE_GIB % 512 == 511
  {
    ModUnique(virt, 0x80_0000_0000, 0x1FF_FFFF, 0x7F_C000_0000 + x);
    ModUnique(virt, ONE_GIB, 0x3_FFFF_FFFF, x);
  }

  lemma PastImageUnmapped(s: PtState, pages: Pages, base: nat, count: nat, virt: Word, x: nat)
    requires BootState(s, pages, base, count) && InKernel(virt, x) && x >= count * PAGE_SIZE_2M
    ensures s.root % FRAME_SIZE == 0 && Translation(s, virt) == None
  {
    KernelIndices(virt, x);
    BootSpace(s.ram, pages, base, count, Path(virt));
  }

  /** What the boot tables make of any address from the kernel's base up. */
  lemma HighHalfTranslation(s: PtState, pages: Pages, base: nat, count: nat, virt: Word, x: nat)
    requires BootState(s, pages, base, count) && virt == KERNEL_VIRTUAL_BASE + x
    ensures s.root % FRAME_SIZE == 0
    ensures Translation(s, virt) == if x < count * PAGE_SIZE_2M then Some(base + x) else None
  {
    if x >= ONE_GIB {
      TopGibUnmapped(s, pages, base, count, virt);
    } else if x >= count * PAGE_SIZE_2M {
      PastImageUnmapped(s, pages, base, count, virt, x);
    } else {
      ImageMapped(s, pages, base, count, virt, x, base + x);
    }
  }

  lemma ImageMapped(s: PtState, pages: Pages, base: nat, count: nat, virt: Word, x: nat, phys: nat)
    requires BootState(s, pages, base, count) && InKernel(virt, x) && x < count * PAGE_SIZE_2M && phys == base + x
    ensures s.root % FRAME_SIZE == 0 && Translation(s, virt) == Some(phys)
  {
    KernelMapForever([s], [], pages, base, count, virt, x, phys);
  }

  // ---- Bytes and words ----

  /** Byte `a` of physical memory, in little-endian words. */
  function RamByte(ram: Ram, a: nat): Byte
    requires a < IDENTITY_MAP_LIMIT
  {
    ram[a / 8] / Pow2(8 * (a % 8)) % 256
  }

  /** The words of a byte memory. */
  function RamOf(bytes: seq<Byte>): (ram: Ram)
    requires |bytes| == IDENTITY_MAP_LIMIT
    ensures forall k :: 0 <= k < RAM_WORDS ==> ram[k] == ReadWord(bytes[8 * k..8 * k + 8])
  {
    seq(RAM_WORDS, k requires 0 <= k < RAM_WORDS => ReadWord(bytes[8 * k..8 * k + 8]))
  }

  /** Digit `i` of a little-endian number is its byte `i`. */
  lemma {:induction false} ByteOfNumber(b: seq<Byte>, i: nat)
    requires i < |b|
    ensures LittleEndian(b) / Pow2(8 * i) % 256 == b[i]
  {
    var rest := LittleEndian(b[1..]);
    if i > 0 {
      ByteOfNumber(b[1..], i - 1);
      Pow2Add8(8 * (i - 1));
      assert LittleEndian(b) / 256 == rest;
      DivTwice(LittleEndian(b), 256, Pow2(8 * (i - 1)));
    }
  }

  lemma DivTwice(x: nat, m: nat, n: nat)
    requires m > 0 && n > 0
    ensures m * n > 0 && x / (m * n) == x / m / n
  {
    var q, r := x / m / n, x / m % n;
    MulAtLeast(m, n);
    assert x == m * (x / m) + x % m && x / m == n * q + r;
    assert x == m * (n * q + r) + x % m;
    assert m * (n * q + r) == m * n * q + m * r;
    assert m * r + m <= m * n by {
      MulAtLeast(m, n - r);
      assert m * (n - r) == m * n - m * r;
    }
    assert x == m * n * q + (m * r + x % m) && m * r >= 0;
    ModUnique(x, m * n, q, m * r + x % m);
  }

  lemma RamByteOf(bytes: seq<Byte>, a: nat)
    requires |bytes| == IDENTITY_MAP_LIMIT && a < IDENTITY_MAP_LIMIT
    ensures RamByte(RamOf(bytes), a) == bytes[a]
  {
    var k := a / 8;
    var word := bytes[8 * k..8 * k + 8];
    assert RamOf(bytes)[k] == ReadWord(word) && word[a % 8] == bytes[a];
    ByteOfNumber(word, a % 8);
  }

  /** Memory holds the image of a file. */
  ghost predicate ImageInRam(ram: Ram, base: nat, size: nat, file: seq<Byte>, segs: seq<Segment>, lowest: Word)
    requires base + size <= IDENTITY_MAP_LIMIT && InFile(file, segs)
  {
    forall a :: base <= a < base + size ==> RamByte(ram, a) == ImageByte(file, segs, lowest, a - base)
  }

  /** What the loader wrote is in the words. */
  lemma LoadedInRam(file: seq<Byte>, k: LoadedKernel, bytes: seq<Byte>)
    requires Parsable(file) && Copyable(file) && Loaded(file, k, bytes)
    ensures ImageInRam(RamOf(bytes), k.physicalBase, k.sizeBytes, file, FileSegments(file), k.virtualBase)
  {
    RamBytesOf(bytes);
    BytesInRam(RamOf(bytes), bytes, k.physicalBase, k.sizeBytes, file, FileSegments(file), k.virtualBase);
  }

  lemma RamBytesOf(bytes: seq<Byte>)
    requires |bytes| == IDENTITY_MAP_LIMIT
    ensures forall a :: 0 <= a < IDENTITY_MAP_LIMIT ==> RamByte(RamOf(bytes), a) == bytes[a]
  {
    forall a | 0 <= a < IDENTITY_MAP_LIMIT ensures RamByte(RamOf(bytes), a) == bytes[a] { RamByteOf(bytes, a); }
  }

  lemma BytesInRam(ram: Ram, bytes: seq<Byte>, base: nat, size: nat, file: seq<Byte>, segs: seq<Segment>, lowest: Word)
    requires |bytes| == IDENTITY_MAP_LIMIT && forall a :: 0 <= a < IDENTITY_MAP_LIMIT ==> RamByte(ram, a) == bytes[a]
    requires base + size <= IDENTITY_MAP_LIMIT && InFile(file, segs) && ImageAt(bytes, base, size, file, segs, lowest)
    ensures ImageInRam(ram, base, size, file, segs, lowest)
  {
  }

  // ---- The image stays ----

  /** Page frame `f` holds part of the image. */
  predicate ImageFrame(base: nat, size: nat, f: nat) {
    base / FRAME_SIZE <= f < (base + size) / FRAME_SIZE
  }

  /** The words of the image are the same. */
  ghost predicate SameImage(m: Ram, m': Ram, base: nat, size: nat) {
    forall k :: 0 <= k < RAM_WORDS && ImageFrame(base, size, k / 512) ==> m'[k] == m[k]
  }

  lemma SameImageByte(m: Ram, m': Ram, base: nat, size: nat, a: nat)
    requires SameImage(m, m', base, size) && base % FRAME_SIZE == 0 && size % FRAME_SIZE == 0
    requires base <= a < base + size && a < IDENTITY_MAP_LIMIT
    ensures RamByte(m', a) == RamByte(m, a)
  {
    assert a / 8 / 512 == a / FRAME_SIZE;
    assert ImageFrame(base, size, a / 8 / 512);
  }

  /** Building the page tables on pages outside the image does not touch it. */
  lemma TablesSpareImage(m: Ram, m': Ram, pages: Pages, base: nat, size: nat)
    requires OnlyPages(m, m', pages)
    requires forall i :: 0 <= i < |pages| ==> !ImageFrame(base, size, pages[i] / FRAME_SIZE)
    ensures SameImage(m, m', base, size)
  {
  }

  lemma SameImageInRam(m: Ram, m': Ram, base: nat, size: nat, file: seq<Byte>, segs: seq<Segment>, lowest: Word)
    requires base % FRAME_SIZE == 0 && size % FRAME_SIZE == 0 && base + size <= IDENTITY_MAP_LIMIT && InFile(file, segs)
    requires ImageInRam(m, base, size, file, segs, lowest) && SameImage(m, m', base, size)
    ensures ImageInRam(m', base, size, file, segs, lowest)
  {
    forall a | base <= a < base + size
      ensures RamByte(m', a) == ImageByte(file, segs, lowest, a - base)
    {
      SameImageByte(m, m', base, size, a);
    }
  }

  /** No frame of the image is free or a page table. */
  ghost predicate Reserved(s: PtState, base: nat, size: nat) {
    && (forall f :: f in s.free ==> !ImageFrame(base, size, f))
    && (forall t :: t in s.tables ==> !ImageFrame(base, size, t / FRAME_SIZE))
  }

  ghost predicate SparesImage(e: Event, base: nat, size: nat) {
    e.FrameReturned? ==> !ImageFrame(base, size, e.frame)
  }

  /** Tables were added from free frames only, and memory changed in tables only. */
  ghost predicate TablesFromFree(s: PtState, s': PtState) {
    && s'.free <= s.free
    && (forall t :: t in s'.tables && t !in s.tables ==> t / FRAME_SIZE in s.free)
    && (forall k :: 0 <= k < RAM_WORDS && s'.ram[k] != s.ram[k] ==> k / 512 * FRAME_SIZE in s'.tables)
  }

  lemma TablesSpareReserved(s: PtState, s': PtState, base: nat, size: nat)
    requires TablesFromFree(s, s') && Reserved(s, base, size)
    ensures Reserved(s', base, size) && SameImage(s.ram, s'.ram, base, size)
  {
    forall t | t in s'.tables
      ensures !ImageFrame(base, size, t / FRAME_SIZE)
    {
      if t !in s.tables { assert t / FRAME_SIZE in s.free; }
    }
    forall k | 0 <= k < RAM_WORDS && ImageFrame(base, size, k / 512)
      ensures s'.ram[k] == s.ram[k]
    {
      assert k / 512 * FRAME_SIZE / FRAME_SIZE == k / 512;
    }
  }

  /** No call of the manager and no frame traffic that spares the image touches it. */
  lemma StepSparesImage(s: PtState, e: Event, s': PtState, base: nat, size: nat)
    requires Sound(s) && Step(s, e, s') && Reserved(s, base, size) && SparesImage(e, base, size)
    ensures Reserved(s', base, size) && SameImage(s.ram, s'.ram, base, size)
  {
    if e.Mapped? || e.Unmapped? {
      assert TablesFromFree(s, s');
      TablesSpareReserved(s, s', base, size);
    }
  }

  // ---- The state the kernel starts from ----

  /** The kernel of `file` was loaded as `k` and the page tables were built for it. */
  ghost predicate Booted(s: PtState, pages: Pages, file: seq<Byte>, k: LoadedKernel)
    requires Parsable(file) && Copyable(file)
  {
    && PlanOf(file) == Some(Plan(k.virtualBase, k.sizeBytes, k.entryPoint))
    && k.physicalBase + k.sizeBytes <= IDENTITY_MAP_LIMIT
    && BootState(s, pages, k.physicalBase, PageCount(k.sizeBytes))
    && Reserved(s, k.physicalBase, k.sizeBytes)
    && ImageInRam(s.ram, k.physicalBase, k.sizeBytes, file, FileSegments(file), k.virtualBase)
  }

  lemma FrameAligned(a: nat)
    requires a % PAGE_SIZE_2M == 0
    ensures a % FRAME_SIZE == 0
  {
    ModUnique(a, FRAME_SIZE, a / PAGE_SIZE_2M * 512, 0);
  }

  /** The tables map exactly the image. */
  lemma WholeImageMapped(file: seq<Byte>, plan: Plan)
    requires Parsable(file) && PlanOf(file) == Some(plan)
    ensures PageCount(plan.size) * PAGE_SIZE_2M == plan.size <= ONE_GIB && plan.size % FRAME_SIZE == 0
    ensures KERNEL_VIRTUAL_BASE <= plan.lowest
  {
    PlanExact(file, plan);
    FrameAligned(plan.size);
  }

  /** A byte of the loaded image is reached at its virtual address exactly when the file's
      lowest segment is at the kernel's virtual base: the loader packs the image from its
      lowest segment, the page tables always map from the fixed base. */
  lemma ReachedIffLowestIsBase(s: PtState, pages: Pages, file: seq<Byte>, plan: Plan, base: nat, count: nat,
                               virt: Word, phys: nat)
    requires Parsable(file) && PlanOf(file) == Some(plan) && BootState(s, pages, base, count)
    requires count * PAGE_SIZE_2M == plan.size
    requires plan.lowest <= virt < plan.lowest + plan.size && phys == base + (virt - plan.lowest)
    ensures s.root % FRAME_SIZE == 0
    ensures Translation(s, virt) == Some(phys) <==> plan.lowest == KERNEL_VIRTUAL_BASE
  {
    assert KERNEL_VIRTUAL_BASE <= plan.lowest by { PlanExact(file, plan); }
    ShiftedTranslation(s, pages, base, count, plan.size, plan.lowest, virt, phys);
  }

  lemma ShiftedTranslation(s: PtState, pages: Pages, base: nat, count: nat, size: nat, lowest: Word, virt: Word,
                           phys: nat)
    requires BootState(s, pages, base, count) && size == count * PAGE_SIZE_2M
    requires KERNEL_VIRTUAL_BASE <= lowest <= virt < lowest + size && phys == base + (virt - lowest)
    ensures s.root % FRAME_SIZE == 0
    ensures Translation(s, virt) == Some(phys) <==> lowest == KERNEL_VIRTUAL_BASE
  {
    HighHalfTranslation(s, pages, base, count, virt, virt - KERNEL_VIRTUAL_BASE);
  }

  // ---- A file for every base ----

  function Zeros(n: nat): seq<Byte> { seq(n, _ => 0) }

  function SampleHeader(lowest: Word): Header {
    Header([0x7F, 0x45, 0x4C, 0x46, ELFCLASS64, ELFDATA2LSB] + Zeros(10), ET_EXEC, EM_X86_64, lowest, EHDR_SIZE,
      PHDR_SIZE, 1)
  }

  function SampleSegment(lowest: Word): Segment { Segment(PT_LOAD, 0, lowest, 0, 1) }

  /** A file with one segment, a zero byte at `lowest`, where it is also entered. */
  function Sample(lowest: Word): ElfFile {
    ElfFile(SampleHeader(lowest), Zeros(4), Zeros(14), Zeros(6), [],
      [RawSegment(SampleSegment(lowest), Zeros(4), Zeros(8), Zeros(8))], [])
  }

  function SampleFile(lowest: Word): seq<Byte> { Sample(lowest).Bytes() }

  /** For every address above the kernel's base there is a well-formed file that the loader
      accepts and whose lowest segment is there: the condition above does exclude files. */
  lemma EveryBaseAccepted(lowest: Word)
    requires KERNEL_VIRTUAL_BASE <= lowest < TWO64 - 1
    ensures var file := SampleFile(lowest);
      && Parsable(file) && Copyable(file) && WellFormed(file, FileSegments(file)) && SegmentsApart(FileSegments(file))
      && PlanOf(file) == Some(Plan(lowest, PAGE_SIZE_2M, lowest))
  {
    SampleReads(lowest);
    SampleSpan(SampleSegment(lowest), lowest);
    SamplePlan(SampleFile(lowest), SampleHeader(lowest), SampleSegment(lowest), lowest);
  }

  lemma SampleReads(lowest: Word)
    ensures var file := SampleFile(lowest);
      && |file| >= EHDR_SIZE && Parsable(file) && ReadHeader(file) == SampleHeader(lowest)
      && ValidateElfHeader(SampleHeader(lowest)) && FileSegments(file) == [SampleSegment(lowest)]
  {
    SampleStorable(lowest);
    OneSegment(Sample(lowest), SampleFile(lowest), SampleHeader(lowest), SampleSegment(lowest));
  }

  lemma OneSegment(elf: ElfFile, file: seq<Byte>, h: Header, p: Segment)
    requires elf.Storable() && elf.h == h && |elf.raw| == 1 && elf.raw[0].p == p && ValidateElfHeader(h)
    requires file == elf.Bytes()
    ensures |file| >= EHDR_SIZE && Parsable(file) && ReadHeader(file) == h && FileSegments(file) == [p]
  {
    assert elf.Segments() == [p];
    FileRoundTrip(elf);
  }

  lemma SampleStorable(lowest: Word)
    ensures Sample(lowest).Storable() && ValidateElfHeader(SampleHeader(lowest))
    ensures Sample(lowest).h == SampleHeader(lowest)
    ensures |Sample(lowest).raw| == 1 && Sample(lowest).raw[0].p == SampleSegment(lowest)
  {
  }

  lemma SamplePlan(file: seq<Byte>, h: Header, p: Segment, lowest: Word)
    requires KERNEL_VIRTUAL_BASE <= lowest < TWO64 - 1 && h == SampleHeader(lowest) && p == SampleSegment(lowest)
    requires |file| >= EHDR_SIZE && ReadHeader(file) == h && ValidateElfHeader(h) && Parsable(file)
    requires FileSegments(file) == [p]
    requires LowestVaddr([p]) == lowest && HighestEnd([p]) == lowest + 1 && AllHigh([p]) && AnyLoad([p])
    ensures PlanOf(file) == Some(Plan(lowest, PAGE_SIZE_2M, lowest))
    ensures WellFormed(file, [p]) && SegmentsApart([p]) && Copyable(file)
  {
    SizeExact(lowest, lowest + 1);
    MultiplesApart(0, ImageSize(lowest, lowest + 1), PAGE_SIZE_2M);
  }

  lemma SampleSpan(p: Segment, lowest: Word)
    requires KERNEL_VIRTUAL_BASE <= lowest < TWO64 - 1 && p == SampleSegment(lowest)
    ensures LowestVaddr([p]) == lowest && HighestEnd([p]) == lowest + 1 && AllHigh([p]) && AnyLoad([p])
  {
    assert IsLoad([p][0]);
    NoWrap(p);
    assert [p][..0] == [];
  }
}

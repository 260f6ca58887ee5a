/**
 The page tables the boot loader leaves behind: an identity map of the first 4 GiB and
 the higher-half kernel mapping, both in 2 MiB pages. This is the initial state of the
 kernel's virtual memory manager.
 */
module BootPaging {
  import opened Bits
  import opened PageFormat
  import opened PageTables
  import opened Options
  import opened AddressSpace
  import opened VirtualMemory

  const KERNEL_VIRTUAL_BASE: Word := 0xFFFF_FFFF_8000_0000
  const GIBS: nat := IDENTITY_MAP_LIMIT / ONE_GIB

  /** The eight pages the firmware hands out, in order of the calls; 0 is a failure.
      (PML4, identity PDPT, four identity PDs, kernel PDPT, kernel PD.) */
  type Pages = seq<nat>

  predicate GrantedPages(pages: Pages) {
    && |pages| == 8
    && (forall i :: 0 <= i < 8 ==> pages[i] % FRAME_SIZE == 0 && pages[i] < TWO64)
    && (forall i, j :: 0 <= i < j < 8 && pages[i] != 0 && pages[j] != 0 ==> pages[i] != pages[j])
  }

  /** The pages are below 4 GiB, where the kernel can reach them. The firmware may grant
      others; what is written to those is outside the modelled memory. */
  predicate GoodPages(pages: Pages) {
    GrantedPages(pages) && forall i :: 0 <= i < 8 ==> IsTable(pages[i])
  }

  predicate AllGranted(pages: Pages)
    requires |pages| == 8
  {
    forall i :: 0 <= i < 8 ==> pages[i] != 0
  }

  /** Memory changed in the page of table `t` only. */
  ghost predicate OnlyPage(m: Ram, m': Ram, t: nat) {
    forall k :: 0 <= k < RAM_WORDS && k / 512 != t / FRAME_SIZE ==> m'[k] == m[k]
  }

  /** Memory changed in the given pages only. */
  ghost predicate OnlyPages(m: Ram, m': Ram, pages: Pages) {
    forall k :: 0 <= k < RAM_WORDS && (forall i :: 0 <= i < |pages| ==> k / 512 != pages[i] / FRAME_SIZE) ==>
      m'[k] == m[k]
  }

  lemma OtherEntries(m: Ram, m': Ram, t: nat, u: nat)
    requires IsTable(t) && IsTable(u) && t != u && OnlyPage(m, m', t)
    ensures forall i :: 0 <= i < 512 ==> Entry(m', u, i) == Entry(m, u, i)
  {
    forall i | 0 <= i < 512
      ensures Entry(m', u, i) == Entry(m, u, i)
    {
      SlotPage(u, i);
      assert t == 4096 * (t / 4096) && u == 4096 * (u / 4096);
    }
  }

  ghost predicate EmptyTable(m: Ram, t: nat)
    requires IsTable(t)
  {
    forall i :: 0 <= i < 512 ==> Entry(m, t, i) == 0
  }

  /** Table `t` is empty but for entry `i`, which points to `child`. */
  ghost predicate OnlyPointer(m: Ram, t: nat, i: nat, child: nat)
    requires IsTable(t) && IsTable(child)
  {
    forall j :: 0 <= j < 512 ==> Entry(m, t, j) == if j == i then NewTablePointer(child) else 0
  }

  /** The first `count` entries of table `t` are consecutive 2 MiB pages from `base`. */
  ghost predicate HugeTable(m: Ram, t: nat, base: nat, count: nat)
    requires IsTable(t) && base % PAGE_SIZE_2M == 0 && base + 512 * PAGE_SIZE_2M < PHYS_LIMIT
  {
    forall i :: 0 <= i < 512 ==> Entry(m, t, i) == HugeSlot(base, count, i)
  }

  function HugeSlot(base: nat, count: nat, i: nat): (e: Word)
    requires base % PAGE_SIZE_2M == 0 && base + 512 * PAGE_SIZE_2M < PHYS_LIMIT && i < 512
    ensures IsPresent(e) <==> i < count
    ensures i < count ==> IsHuge(e) && Addr(e) == base + i * PAGE_SIZE_2M && IsWritable(e) && !IsNoExecute(e)
  {
    ZeroIsAbsent();
    if i < count then Aligned2M(base, i); NewHuge(base + i * PAGE_SIZE_2M) else 0
  }

  /** Physical (and virtual) start of the `g`-th GiB. */
  function GibBase(g: nat): (b: nat)
    requires g < GIBS
    ensures b % PAGE_SIZE_2M == 0 && b + ONE_GIB <= IDENTITY_MAP_LIMIT
  {
    ModUnique(g * ONE_GIB, PAGE_SIZE_2M, g * 512, 0);
    g * ONE_GIB
  }

  lemma Aligned2M(base: nat, i: nat)
    requires base % PAGE_SIZE_2M == 0
    ensures (base + i * PAGE_SIZE_2M) % PAGE_SIZE_2M == 0
  {
    ModUnique(base + i * PAGE_SIZE_2M, PAGE_SIZE_2M, base / PAGE_SIZE_2M + i, 0);
  }

  method WriteSlot(memory: PhysMemory, t: nat, i: nat, e: Word)
    requires t % FRAME_SIZE == 0 && i < 512
    modifies memory
    ensures IsTable(t) ==>
      forall j :: 0 <= j < 512 ==> Entry(memory.words, t, j) == if j == i then e else Entry(old(memory.words), t, j)
    ensures OnlyPage(old(memory.words), memory.words, t)
  {
    if t < IDENTITY_MAP_LIMIT {
      SlotPage(t, i);
      memory.WriteEntry(t, i, e);
    }
  }

  /** Zero the page the firmware granted, if it granted one. */
  method AllocateZeroedPage(memory: PhysMemory, granted: nat) returns (page: nat)
    requires granted % FRAME_SIZE == 0
    modifies memory
    ensures page == granted
    ensures page != 0 && IsTable(page) ==> EmptyTable(memory.words, page)
    ensures OnlyPage(old(memory.words), memory.words, page)
    ensures page == 0 ==> memory.words == old(memory.words)
  {
    if granted == 0 {
      return 0;
    }
    if granted < IDENTITY_MAP_LIMIT {
      memory.ZeroTable(granted);
    }
    return granted;
  }

  /** `physAddr | PTE_PRESENT | PTE_WRITABLE | PTE_PS` */
  function HugeWord(physAddr: Word): nat {
    Or(Or(Or(physAddr, FLAG_PRESENT), FLAG_WRITABLE), FLAG_PAGE_SIZE)
  }

  /** Fill the first `count` entries with consecutive 2 MiB pages from `base`. */
  method FillHugePages(memory: PhysMemory, pd: nat, base: nat, count: nat)
    requires pd % FRAME_SIZE == 0 && (IsTable(pd) ==> EmptyTable(memory.words, pd))
    requires base % PAGE_SIZE_2M == 0 && base + 512 * PAGE_SIZE_2M < PHYS_LIMIT && count <= 512
    modifies memory
    ensures IsTable(pd) ==> HugeTable(memory.words, pd, base, count)
    ensures IsTable(pd) ==> forall i :: 0 <= i < 512 ==>
      Entry(memory.words, pd, i) == if i < count then HugeWord(base + i * PAGE_SIZE_2M) else 0
    ensures OnlyPage(old(memory.words), memory.words, pd)
  {
    for entry := 0 to count
      invariant IsTable(pd) ==> HugeTable(memory.words, pd, base, entry)
      invariant OnlyPage(old(memory.words), memory.words, pd)
    {
      var physAddr := base + entry * PAGE_SIZE_2M;
      Aligned2M(base, entry);
      HugeForm(physAddr);
      WriteSlot(memory, pd, entry, Or(Or(Or(physAddr, FLAG_PRESENT), FLAG_WRITABLE), FLAG_PAGE_SIZE));
    }
    HugeWords(base);
  }

  lemma HugeWords(base: nat)
    requires base % PAGE_SIZE_2M == 0 && base + 512 * PAGE_SIZE_2M < PHYS_LIMIT
    ensures forall count: nat, i: nat :: i < 512 ==>
      HugeSlot(base, count, i) == if i < count then HugeWord(base + i * PAGE_SIZE_2M) else 0
  {
    forall count: nat, i: nat | i < 512
      ensures HugeSlot(base, count, i) == if i < count then HugeWord(base + i * PAGE_SIZE_2M) else 0
    {
      Aligned2M(base, i);
      HugeForm(base + i * PAGE_SIZE_2M);
    }
  }

  /** Page directory `g` of the identity map. */
  function Pd(pages: Pages, g: nat): nat
    requires |pages| == 8 && g < GIBS
  {
    pages[2 + g]
  }

  function IdentitySlot(pages: Pages, n: nat, i: nat): Word
    requires GoodPages(pages) && n <= GIBS
  {
    if i < n then NewTablePointer(Pd(pages, i)) else 0
  }

  /** The first `n` directories of the identity map are complete and hooked up. */
  ghost predicate IdentityDone(m: Ram, pages: Pages, n: nat)
    requires GoodPages(pages) && n <= GIBS
  {
    && (forall i :: 0 <= i < 512 ==> Entry(m, pages[1], i) == IdentitySlot(pages, n, i))
    && (forall g :: 0 <= g < n ==> HugeTable(m, Pd(pages, g), GibBase(g), 512))
  }

  function Pml4Slot(pages: Pages, j: nat): Word
    requires GoodPages(pages)
  {
    if j == 0 then NewTablePointer(pages[1]) else if j == 511 then NewTablePointer(pages[6]) else 0
  }

  /** The finished tables, entry by entry. */
  ghost predicate BootTables(m: Ram, pages: Pages, base: nat, count: nat)
    requires GoodPages(pages) && base % PAGE_SIZE_2M == 0 && base < IDENTITY_MAP_LIMIT && count <= 512
  {
    && (forall j :: 0 <= j < 512 ==> Entry(m, pages[0], j) == Pml4Slot(pages, j))
    && IdentityDone(m, pages, GIBS)
    && OnlyPointer(m, pages[6], 510, pages[7])
    && HugeTable(m, pages[7], base, count)
  }

  /** Changing one table keeps what is known of the identity map, if that table is not
      part of it. */
  lemma IdentityFrame(m: Ram, m': Ram, pages: Pages, n: nat, t: nat)
    requires GoodPages(pages) && n <= GIBS && IdentityDone(m, pages, n)
    requires IsTable(t) && OnlyPage(m, m', t) && t != pages[1] && forall g :: 0 <= g < n ==> t != Pd(pages, g)
    ensures IdentityDone(m', pages, n)
  {
    OtherEntries(m, m', t, pages[1]);
    forall g | 0 <= g < n
      ensures HugeTable(m', Pd(pages, g), GibBase(g), 512)
    {
      OtherEntries(m, m', t, Pd(pages, g));
    }
  }

  /** What is done after `n` turns of the identity-map loop. */
  ghost predicate IdentityPart(m: Ram, pages: Pages, n: nat)
    requires GoodPages(pages) && n <= GIBS
  {
    EmptyTable(m, pages[0]) && IdentityDone(m, pages, n)
  }

  /** One directory more, and then its pointer. */
  lemma IdentityStep(m0: Ram, m1: Ram, m2: Ram, pages: Pages, gib: nat)
    requires GoodPages(pages) && gib < GIBS && pages[0] != 0 && pages[1] != 0
    requires forall g :: 0 <= g <= gib ==> Pd(pages, g) != 0
    requires IdentityPart(m0, pages, gib)
    requires OnlyPage(m0, m1, pages[2 + gib]) && HugeTable(m1, pages[2 + gib], GibBase(gib), 512)
    requires OnlyPage(m1, m2, pages[1])
    requires forall j :: 0 <= j < 512 ==>
      Entry(m2, pages[1], j) == if j == gib then NewTablePointer(pages[2 + gib]) else Entry(m1, pages[1], j)
    ensures IdentityPart(m2, pages, gib + 1)
  {
    var pd := pages[2 + gib];
    IdentityFrame(m0, m1, pages, gib, pd);
    OtherEntries(m0, m1, pd, pages[0]);
    OtherEntries(m1, m2, pages[1], pages[0]);
    forall g | 0 <= g < gib + 1
      ensures HugeTable(m2, Pd(pages, g), GibBase(g), 512)
    {
      OtherEntries(m1, m2, pages[1], Pd(pages, g));
    }
  }

  /** One turn of the identity-map loop. */
  method BuildIdentityPd(memory: PhysMemory, pages: Pages, gib: nat) returns (granted: bool)
    requires GrantedPages(pages) && gib < GIBS && pages[0] != 0 && pages[1] != 0
    requires forall g :: 0 <= g < gib ==> Pd(pages, g) != 0
    requires GoodPages(pages) ==> IdentityPart(memory.words, pages, gib)
    modifies memory
    ensures granted <==> pages[2 + gib] != 0
    ensures granted && GoodPages(pages) ==> IdentityPart(memory.words, pages, gib + 1)
    ensures OnlyPages(old(memory.words), memory.words, pages)
  {
    ghost var m0 := memory.words;
    var pd := AllocateZeroedPage(memory, pages[2 + gib]);
    if pd == 0 {
      return false;
    }
    FillHugePages(memory, pd, GibBase(gib), 512);
    ghost var m1 := memory.words;
    WriteSlot(memory, pages[1], gib, NewTablePointer(pd));
    if GoodPages(pages) { IdentityStep(m0, m1, memory.words, pages, gib); }
    return true;
  }

  function PageCount(sizeBytes: nat): nat {
    if sizeBytes / PAGE_SIZE_2M == 0 then 1 else sizeBytes / PAGE_SIZE_2M
  }

  method BuildKernelPageTables(memory: PhysMemory, pages: Pages, kernelBase: nat, kernelSize: nat) returns (cr3: nat)
    requires GrantedPages(pages) && kernelBase % PAGE_SIZE_2M == 0 && kernelBase < IDENTITY_MAP_LIMIT
    modifies memory
    ensures cr3 != 0 <==> AllGranted(pages) && PageCount(kernelSize) <= 512
    ensures cr3 != 0 ==> cr3 == pages[0]
    ensures cr3 != 0 && GoodPages(pages) ==> BootTables(memory.words, pages, kernelBase, PageCount(kernelSize))
    ensures OnlyPages(old(memory.words), memory.words, pages)
  {
    var pml4 := AllocateZeroedPage(memory, pages[0]);
    if pml4 == 0 { return 0; }
    ghost var m0 := memory.words;
    var identityPdpt := AllocateZeroedPage(memory, pages[1]);
    if identityPdpt == 0 { return 0; }
    if GoodPages(pages) { OtherEntries(m0, memory.words, identityPdpt, pml4); }
    for gib := 0 to GIBS
      invariant forall g :: 0 <= g < gib ==> Pd(pages, g) != 0
      invariant GoodPages(pages) ==> IdentityPart(memory.words, pages, gib)
      invariant OnlyPages(old(memory.words), memory.words, pages)
    {
      var granted := BuildIdentityPd(memory, pages, gib);
      if !granted { return 0; }
    }
    ghost var m1 := memory.words;
    assert forall i :: 2 <= i < 6 ==> pages[i] == Pd(pages, i - 2);
    WriteSlot(memory, pml4, 0, NewTablePointer(identityPdpt));
    if GoodPages(pages) { IdentityFrame(m1, memory.words, pages, GIBS, pml4); }
    cr3 := BuildKernelHalf(memory, pages, kernelBase, kernelSize);
  }

  /** Region 2: the higher-half kernel mapping. */
  method BuildKernelHalf(memory: PhysMemory, pages: Pages, kernelBase: nat, kernelSize: nat) returns (cr3: nat)
    requires GrantedPages(pages) && kernelBase % PAGE_SIZE_2M == 0 && kernelBase < IDENTITY_MAP_LIMIT
    requires forall i :: 0 <= i < 6 ==> pages[i] != 0
    requires GoodPages(pages) ==>
      OnlyPointer(memory.words, pages[0], 0, pages[1]) && IdentityDone(memory.words, pages, GIBS)
    modifies memory
    ensures cr3 != 0 <==> pages[6] != 0 && pages[7] != 0 && PageCount(kernelSize) <= 512
    ensures cr3 != 0 ==> cr3 == pages[0]
    ensures cr3 != 0 && GoodPages(pages) ==> BootTables(memory.words, pages, kernelBase, PageCount(kernelSize))
    ensures OnlyPages(old(memory.words), memory.words, pages)
  {
    var pml4 := pages[0];
    ghost var m0 := memory.words;
    var kernelPdpt := AllocateZeroedPage(memory, pages[6]);
    if kernelPdpt == 0 { return 0; }
    ghost var m1 := memory.words;
    var kernelPd := AllocateZeroedPage(memory, pages[7]);
    if kernelPd == 0 { return 0; }
    var kernelPageCount := kernelSize / PAGE_SIZE_2M;
    if kernelPageCount == 0 {
      kernelPageCount := 1;
    }
    if kernelPageCount > 512 { return 0; }
    FillHugePages(memory, kernelPd, kernelBase, kernelPageCount);
    ghost var m2 := memory.words;
    WriteSlot(memory, kernelPdpt, 510, NewTablePointer(kernelPd));
    ghost var m3 := memory.words;
    WriteSlot(memory, pml4, 511, NewTablePointer(kernelPdpt));
    if GoodPages(pages) { KernelHalfDone(m0, m1, m2, m3, memory.words, pages, kernelBase, kernelPageCount); }
    return pml4;
  }

  /** The four writes of the kernel half, in order. */
  lemma KernelHalfDone(m0: Ram, m1: Ram, m2: Ram, m3: Ram, m4: Ram, pages: Pages, base: nat, count: nat)
    requires GoodPages(pages) && AllGranted(pages) && base % PAGE_SIZE_2M == 0 && base < IDENTITY_MAP_LIMIT
    requires count <= 512
    requires OnlyPointer(m0, pages[0], 0, pages[1]) && IdentityDone(m0, pages, GIBS)
    requires OnlyPage(m0, m1, pages[6]) && EmptyTable(m1, pages[6])
    requires OnlyPage(m1, m2, pages[7]) && HugeTable(m2, pages[7], base, count)
    requires OnlyPage(m2, m3, pages[6])
    requires forall j :: 0 <= j < 512 ==>
      Entry(m3, pages[6], j) == if j == 510 then NewTablePointer(pages[7]) else Entry(m2, pages[6], j)
    requires OnlyPage(m3, m4, pages[0])
    requires forall j :: 0 <= j < 512 ==>
      Entry(m4, pages[0], j) == if j == 511 then NewTablePointer(pages[6]) else Entry(m3, pages[0], j)
    ensures BootTables(m4, pages, base, count)
  {
    assert forall i :: 2 <= i < 6 ==> pages[i] == Pd(pages, i - 2);
    IdentityFrame(m0, m1, pages, GIBS, pages[6]);
    IdentityFrame(m1, m2, pages, GIBS, pages[7]);
    IdentityFrame(m2, m3, pages, GIBS, pages[6]);
    IdentityFrame(m3, m4, pages, GIBS, pages[0]);
    OtherEntries(m0, m1, pages[6], pages[0]);
    OtherEntries(m1, m2, pages[7], pages[0]);
    OtherEntries(m2, m3, pages[6], pages[0]);
    OtherEntries(m1, m2, pages[7], pages[6]);
    OtherEntries(m3, m4, pages[0], pages[6]);
    OtherEntries(m2, m3, pages[6], pages[7]);
    OtherEntries(m3, m4, pages[0], pages[7]);
  }

  // ---- The initial address space ----

  /** The index path to each of the eight tables. */
  function LabelOf(n: nat): (p: seq<nat>)
    requires n < 8
    ensures |p| <= 2 && ValidPath(p)
  {
    if n == 0 then []
    else if n == 1 then [0]
    else if n < 6 then [0, n - 2]
    else if n == 6 then [511]
    else [511, 510]
  }

  function IndexOf(pages: Pages, t: nat): (n: nat)
    requires |pages| == 8 && t in pages
    ensures n < 8 && pages[n] == t
  {
    if t == pages[0] then 0 else if t == pages[1] then 1 else if t == pages[2] then 2 else if t == pages[3] then 3
    else if t == pages[4] then 4 else if t == pages[5] then 5 else if t == pages[6] then 6 else 7
  }

  function BootLabels(pages: Pages): Labels
    requires |pages| == 8
  {
    map t | t in pages :: LabelOf(IndexOf(pages, t))
  }

  lemma LabelAt(pages: Pages, n: nat)
    requires GoodPages(pages) && AllGranted(pages) && n < 8
    ensures pages[n] in BootLabels(pages) && BootLabels(pages)[pages[n]] == LabelOf(n)
  {
    assert pages[n] in pages && IndexOf(pages, pages[n]) == n;
  }

  /** Which page maps what: the first 4 GiB to themselves, the kernel's 2 MiB pages to
      its physical home, nothing else. */
  function BootMapping(q: seq<nat>, base: nat, count: nat): Mapping
    requires PagePath(q) && base % PAGE_SIZE_2M == 0 && base < IDENTITY_MAP_LIMIT && count <= 512
  {
    if q[0] == 0 && q[1] < GIBS then Huge(2, HugeSlot(GibBase(q[1]), 512, q[2]))
    else if q[0] == 511 && q[1] == 510 && q[2] < count then Huge(2, HugeSlot(base, count, q[2]))
    else NotMapped
  }

  /** Where entry `i` of table `n` leads: nowhere, to a huge page, or to another of the
      eight tables, whose path is this one extended by `i`. */
  lemma BootEntry(m: Ram, pages: Pages, base: nat, count: nat, n: nat, i: nat) returns (child: nat)
    requires GoodPages(pages) && n < 8 && i < 512
    requires base % PAGE_SIZE_2M == 0 && base < IDENTITY_MAP_LIMIT && count <= 512
    requires BootTables(m, pages, base, count)
    ensures child < 8
    ensures var e := Entry(m, pages[n], i);
      || !IsPresent(e)
      || (IsHuge(e) && LabelOf(n) != [])
      || (&& !IsHuge(e) && IsWritable(e) && !IsNoExecute(e)
          && Addr(e) == pages[child] && LabelOf(child) == LabelOf(n) + [i])
  {
    ZeroIsAbsent();
    child := 0;
    if n == 0 {
      child := if i == 0 then 1 else 6;
      assert Entry(m, pages[0], i) == Pml4Slot(pages, i);
    } else if n == 1 {
      child := if i < GIBS then 2 + i else 0;
      assert Entry(m, pages[1], i) == IdentitySlot(pages, GIBS, i);
    } else if n < 6 {
      var g := n - 2;
      assert HugeTable(m, Pd(pages, g), GibBase(g), 512);
      assert Entry(m, pages[n], i) == HugeSlot(GibBase(g), 512, i);
    } else if n == 6 {
      child := 7;
      assert Entry(m, pages[6], i) == if i == 510 then NewTablePointer(pages[7]) else 0;
    } else {
      assert Entry(m, pages[7], i) == HugeSlot(base, count, i);
    }
  }

  /** The boot tables form a tree. */
  lemma BootTree(m: Ram, pages: Pages, base: nat, count: nat)
    requires GoodPages(pages) && AllGranted(pages)
    requires base % PAGE_SIZE_2M == 0 && base < IDENTITY_MAP_LIMIT && count <= 512
    requires BootTables(m, pages, base, count)
    ensures Tree(m, pages[0], BootLabels(pages)) && Open(m, BootLabels(pages))
  {
    var tables := BootLabels(pages);
    LabelAt(pages, 0);
    forall t, i | t in tables && 0 <= i < 512
      ensures var e := Entry(m, t, i);
        && (|tables[t]| == 0 && IsPresent(e) ==> !IsHuge(e))
        && (PointsDown(|tables[t]|, e) ==> IsWritable(e) && !IsNoExecute(e))
        && (PointsDown(|tables[t]|, e) && Addr(e) < IDENTITY_MAP_LIMIT ==>
              Addr(e) in tables && tables[Addr(e)] == tables[t] + [i])
    {
      var child := BootEntry(m, pages, base, count, IndexOf(pages, t), i);
      LabelAt(pages, child);
    }
  }

  lemma IdentitySpace(m: Ram, pages: Pages, q: seq<nat>)
    requires GoodPages(pages) && PagePath(q) && q[0] == 0
    requires Entry(m, pages[0], 0) == NewTablePointer(pages[1]) && IdentityDone(m, pages, GIBS)
    ensures Resolve(m, pages[0], q) == if q[1] < GIBS then Huge(2, HugeSlot(GibBase(q[1]), 512, q[2])) else NotMapped
  {
    ZeroIsAbsent();
    var q1, q2 := q[1..], q[1..][1..];
    assert Entry(m, pages[1], q[1]) == IdentitySlot(pages, GIBS, q[1]);
    assert Resolve(m, pages[0], q) == Resolve(m, pages[1], q1);
    if q[1] < GIBS {
      var pd := Pd(pages, q[1]);
      assert HugeTable(m, pd, GibBase(q[1]), 512);
      assert Entry(m, pd, q[2]) == HugeSlot(GibBase(q[1]), 512, q[2]);
      assert Resolve(m, pages[1], q1) == Resolve(m, pd, q2);
    }
  }

  lemma KernelSpace(m: Ram, pages: Pages, base: nat, count: nat, q: seq<nat>)
    requires GoodPages(pages) && PagePath(q) && q[0] == 511
    requires base % PAGE_SIZE_2M == 0 && base < IDENTITY_MAP_LIMIT && count <= 512
    requires Entry(m, pages[0], 511) == NewTablePointer(pages[6])
    requires OnlyPointer(m, pages[6], 510, pages[7]) && HugeTable(m, pages[7], base, count)
    ensures Resolve(m, pages[0], q) ==
      if q[1] == 510 && q[2] < count then Huge(2, HugeSlot(base, count, q[2])) else NotMapped
  {
    ZeroIsAbsent();
    var q1, q2 := q[1..], q[1..][1..];
    assert Resolve(m, pages[0], q) == Resolve(m, pages[6], q1);
    if q[1] == 510 {
      assert Resolve(m, pages[6], q1) == Resolve(m, pages[7], q2);
      assert Entry(m, pages[7], q[2]) == HugeSlot(base, count, q[2]);
    }
  }

  /** The whole initial address space, page by page. */
  lemma BootSpace(m: Ram, pages: Pages, base: nat, count: nat, q: seq<nat>)
    requires GoodPages(pages) && AllGranted(pages)
    requires base % PAGE_SIZE_2M == 0 && base < IDENTITY_MAP_LIMIT && count <= 512
    requires BootTables(m, pages, base, count) && PagePath(q)
    ensures Resolve(m, pages[0], q) == BootMapping(q, base, count)
  {
    ZeroIsAbsent();
    assert Entry(m, pages[0], q[0]) == Pml4Slot(pages, q[0]);
    if q[0] == 0 {
      IdentitySpace(m, pages, q);
    } else if q[0] == 511 {
      KernelSpace(m, pages, base, count, q);
    }
  }

  lemma LowDigits4G(a: nat)
    requires a < IDENTITY_MAP_LIMIT
    ensures a / 0x80_0000_0000 % 512 == 0
    ensures a / ONE_GIB % 512 == a / ONE_GIB < GIBS
  {
  }

  lemma LowRecombine(a: nat)
    ensures a / ONE_GIB * ONE_GIB + a / PAGE_SIZE_2M % 512 * PAGE_SIZE_2M + a % PAGE_SIZE_2M == a
  {
    assert a / ONE_GIB == a / PAGE_SIZE_2M / 512 by { ShiftChain(a); }
    var n := a / PAGE_SIZE_2M;
    assert n == 512 * (n / 512) + n % 512;
  }

  /** Indices of an address in the identity map. */
  lemma LowIndices(a: Word)
    requires a < IDENTITY_MAP_LIMIT
    ensures Path(a)[0] == 0 && Path(a)[1] == a / ONE_GIB < GIBS && Path(a)[2] == a / PAGE_SIZE_2M % 512
  {
    PathDigits(a);
    LowDigits4G(a);
  }

  lemma KernelPml4Digit(x: nat)
    requires x < ONE_GIB
    ensures (KERNEL_VIRTUAL_BASE + x) / 0x80_0000_0000 % 512 == 511
  {
    ModUnique(KERNEL_VIRTUAL_BASE + x, 0x80_0000_0000, 0x1FF_FFFF, 0x7F_8000_0000 + x);
  }

  lemma KernelPdptDigit(x: nat)
    requires x < ONE_GIB
    ensures (KERNEL_VIRTUAL_BASE + x) / ONE_GIB % 512 == 510
  {
    ModUnique(KERNEL_VIRTUAL_BASE + x, ONE_GIB, 0x3_FFFF_FFFE, x);
  }

  lemma KernelPdDigit(x: nat)
    requires x < ONE_GIB
    ensures (KERNEL_VIRTUAL_BASE + x) / PAGE_SIZE_2M % 512 == x / PAGE_SIZE_2M < 512
    ensures (KERNEL_VIRTUAL_BASE + x) % PAGE_SIZE_2M == x % PAGE_SIZE_2M
  {
    ModUnique(KERNEL_VIRTUAL_BASE + x, PAGE_SIZE_2M, 0x7FF_FFFF_FC00 + x / PAGE_SIZE_2M, x % PAGE_SIZE_2M);
    ModUnique(0x7FF_FFFF_FC00 + x / PAGE_SIZE_2M, 512, 0x3_FFFF_FFFE, x / PAGE_SIZE_2M);
  }

  /** `virt` lies `x` bytes into the kernel's gigabyte. */
  predicate InKernel(virt: Word, x: nat) {
    x < ONE_GIB && virt == KERNEL_VIRTUAL_BASE + x
  }

  /** Indices of an address in the kernel image. */
  lemma KernelIndices(virt: Word, x: nat)
    requires InKernel(virt, x)
    ensures Path(virt)[0] == 511 && Path(virt)[1] == 510 && Path(virt)[2] == x / PAGE_SIZE_2M
    ensures virt % PAGE_SIZE_2M == x % PAGE_SIZE_2M
  {
    PathDigits(virt);
    KernelPml4Digit(x);
    KernelPdptDigit(x);
    KernelPdDigit(x);
  }

  /** The state the kernel starts from: the boot tables are in place, none of their
      pages is free in the frame allocator. */
  ghost predicate BootState(s: PtState, pages: Pages, base: nat, count: nat) {
    && GoodPages(pages) && AllGranted(pages)
    && base % PAGE_SIZE_2M == 0 && base < IDENTITY_MAP_LIMIT && count <= 512
    && BootTables(s.ram, pages, base, count)
    && s.root == pages[0] && s.tables == BootLabels(pages)
    && forall n :: 0 <= n < 8 ==> pages[n] / FRAME_SIZE !in s.free
  }

  lemma BootSound(s: PtState, pages: Pages, base: nat, count: nat)
    requires BootState(s, pages, base, count)
    ensures Sound(s) && OpenTables(s)
  {
    BootTree(s.ram, pages, base, count);
    forall t | t in s.tables
      ensures t / FRAME_SIZE !in s.free
    {
      assert pages[IndexOf(pages, t)] == t;
    }
  }

  lemma AddressViaHuge(e: Word, virt: Word)
    requires Addr(e) % PAGE_SIZE_2M == 0
    ensures AddressVia(Huge(2, e), virt) == Some(Addr(e) + virt % PAGE_SIZE_2M)
  {
  }

  /** A 2 MiB mapping, through open tables. */
  lemma HugeTranslates(s: PtState, virt: Word, e: Word, target: nat)
    requires Sound(s) && OpenTables(s) && View(s, Path(virt)) == Huge(2, e)
    requires Addr(e) % PAGE_SIZE_2M == 0 && Addr(e) + virt % PAGE_SIZE_2M == target
    ensures Translation(s, virt) == Some(target) && Access(s, virt) == Some(FlagsOf(e))
  {
    AddressViaHuge(e, virt);
    AccessOfLast(s, virt);
  }

  lemma BootIdentityPage(s: PtState, pages: Pages, base: nat, count: nat, a: nat, q: seq<nat>) returns (e: Word)
    requires BootState(s, pages, base, count) && PagePath(q)
    requires q[0] == 0 && q[1] == a / ONE_GIB < GIBS && q[2] == a / PAGE_SIZE_2M % 512
    ensures s.root % FRAME_SIZE == 0 && View(s, q) == Huge(2, e)
    ensures Addr(e) % PAGE_SIZE_2M == 0 && Addr(e) + a % PAGE_SIZE_2M == a && IsWritable(e) && !IsNoExecute(e)
  {
    BootSpace(s.ram, pages, base, count, q);
    var g := q[1];
    e := HugeSlot(GibBase(g), 512, q[2]);
    Aligned2M(GibBase(g), q[2]);
    LowRecombine(a);
  }

  lemma BootKernelPage(s: PtState, pages: Pages, base: nat, count: nat, x: nat, q: seq<nat>) returns (e: Word)
    requires BootState(s, pages, base, count) && x < count * PAGE_SIZE_2M && PagePath(q)
    requires q[0] == 511 && q[1] == 510 && q[2] == x / PAGE_SIZE_2M
    ensures s.root % FRAME_SIZE == 0 && View(s, q) == Huge(2, e)
    ensures Addr(e) % PAGE_SIZE_2M == 0 && Addr(e) + x % PAGE_SIZE_2M == base + x && IsWritable(e) && !IsNoExecute(e)
  {
    BootSpace(s.ram, pages, base, count, q);
    e := HugeSlot(base, count, q[2]);
    Aligned2M(base, q[2]);
  }

  lemma BootIdentityAt(s: PtState, pages: Pages, base: nat, count: nat, a: Word) returns (e: Word)
    requires BootState(s, pages, base, count) && a < IDENTITY_MAP_LIMIT
    ensures Sound(s) && OpenTables(s) && View(s, Path(a)) == Huge(2, e)
    ensures Addr(e) % PAGE_SIZE_2M == 0 && Addr(e) + a % PAGE_SIZE_2M == a && IsWritable(e) && !IsNoExecute(e)
  {
    BootSound(s, pages, base, count);
    LowIndices(a);
    e := BootIdentityPage(s, pages, base, count, a, Path(a));
  }

  lemma BootKernelAt(s: PtState, pages: Pages, base: nat, count: nat, virt: Word, x: nat) returns (e: Word)
    requires BootState(s, pages, base, count) && InKernel(virt, x) && x < count * PAGE_SIZE_2M
    ensures Sound(s) && OpenTables(s) && View(s, Path(virt)) == Huge(2, e)
    ensures Addr(e) % PAGE_SIZE_2M == 0 && Addr(e) + virt % PAGE_SIZE_2M == base + x && IsWritable(e) && !IsNoExecute(e)
  {
    BootSound(s, pages, base, count);
    KernelIndices(virt, x);
    e := BootKernelPage(s, pages, base, count, x, Path(virt));
  }

  /** The low 48 bits of an address: three table indices and an offset into 2 MiB. */
  lemma Low48(virt: Word, v: nat)
    requires v == virt % 0x1_0000_0000_0000
    ensures v == Path(virt)[0] * 0x80_0000_0000 + Path(virt)[1] * ONE_GIB + Path(virt)[2] * PAGE_SIZE_2M
              + virt % PAGE_SIZE_2M
  {
    IndicesRecombine(virt);
    PathDigits(virt);
    var n := virt / FRAME_SIZE;
    ModUnique(virt, PAGE_SIZE_2M, n / 512, n % 512 * FRAME_SIZE + virt % FRAME_SIZE);
  }

  /** Where an address leads at boot, by its low 48 bits: the first 4 GiB to themselves, the
      kernel's pages, the last gigabyte but one, to its physical home, and nothing else. */
  function BootAddress(v: nat, base: nat, count: nat): Option<nat> {
    if v < 0x1_0000_0000 then Some(v)
    else if 0xFFFF_8000_0000 <= v < 0xFFFF_8000_0000 + count * 0x20_0000 then Some(base + (v - 0xFFFF_8000_0000))
    else None
  }

  lemma BootMappingAddress(q: seq<nat>, base: nat, count: nat, virt: Word, v: nat)
    requires PagePath(q) && base % PAGE_SIZE_2M == 0 && base < IDENTITY_MAP_LIMIT && count <= 512
    requires v == q[0] * 0x80_0000_0000 + q[1] * ONE_GIB + q[2] * PAGE_SIZE_2M + virt % PAGE_SIZE_2M
    ensures AddressVia(BootMapping(q, base, count), virt) == BootAddress(v, base, count)
    ensures BootAddress(v, base, count).None? ==> BootMapping(q, base, count) == NotMapped
    ensures BootAddress(v, base, count).Some? ==> LastFlags(BootMapping(q, base, count)) == Some(PageFlags(true, false))
  {
    if q[0] == 0 && q[1] < GIBS {
      Aligned2M(GibBase(q[1]), q[2]);
    } else if q[0] == 511 && q[1] == 510 && q[2] < count {
      Aligned2M(base, q[2]);
    }
  }

  /** The whole initial address space, address by address: every mapped byte is writable
      and executable. */
  lemma BootTranslation(s: PtState, pages: Pages, base: nat, count: nat, virt: Word, v: nat)
    requires BootState(s, pages, base, count) && v == virt % 0x1_0000_0000_0000
    ensures s.root % FRAME_SIZE == 0 && Translation(s, virt) == BootAddress(v, base, count)
    ensures if Translation(s, virt).Some? then FullAccess(s, virt) else Access(s, virt) == None
  {
    BootSound(s, pages, base, count);
    BootSpace(s.ram, pages, base, count, Path(virt));
    Low48(virt, v);
    BootMappingAddress(Path(virt), base, count, virt, v);
    AccessOfLast(s, virt);
  }

  /** A huge page once mapped translates the same way, with the same permissions, after
      every run. */
  lemma HugeForever(states: seq<PtState>, events: seq<Event>, virt: Word, e: Word, target: nat)
    requires Run(states, events) && Sound(states[0]) && OpenTables(states[0])
    requires View(states[0], Path(virt)) == Huge(2, e)
    requires Addr(e) % PAGE_SIZE_2M == 0 && Addr(e) + virt % PAGE_SIZE_2M == target
    ensures states[|events|].root % FRAME_SIZE == 0
    ensures Translation(states[|events|], virt) == Some(target) && Access(states[|events|], virt) == Some(FlagsOf(e))
  {
    RunKeepsHuge(states, events, Path(virt));
    RunKeepsOpen(states, events);
    HugeTranslates(states[|events|], virt, e, target);
  }

  /** From the tables the boot loader leaves, every finite run of `map`, `unmap` and
      frame traffic keeps the identity map of the first 4 GiB, writable and executable. */
  lemma IdentityMapForever(states: seq<PtState>, events: seq<Event>, pages: Pages, base: nat, count: nat, a: Word)
    requires Run(states, events) && BootState(states[0], pages, base, count)
    requires a < IDENTITY_MAP_LIMIT
    ensures states[|events|].root % FRAME_SIZE == 0
    ensures Translation(states[|events|], a) == Some(a) && FullAccess(states[|events|], a)
  {
    var e := BootIdentityAt(states[0], pages, base, count, a);
    HugeForever(states, events, a, e, a);
  }

  /** ... and the higher-half mapping of the kernel image: the byte `x` into the
      kernel's virtual range is the byte `x` past its physical base. */
  lemma KernelMapForever(states: seq<PtState>, events: seq<Event>, pages: Pages, base: nat, count: nat, virt: Word,
                         x: nat, phys: nat)
    requires Run(states, events) && BootState(states[0], pages, base, count)
    requires InKernel(virt, x) && x < count * PAGE_SIZE_2M && phys == base + x
    ensures states[|events|].root % FRAME_SIZE == 0
    ensures Translation(states[|events|], virt) == Some(phys) && FullAccess(states[|events|], virt)
  {
    var e := BootKernelAt(states[0], pages, base, count, virt, x);
    HugeForever(states, events, virt, e, phys);
  }
}

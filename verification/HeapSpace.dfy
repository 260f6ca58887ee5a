/**
 The heap's virtual region and the frames behind it.

 `Backed` says that the first `|owned|` pages of the region are mapped read-write, each
 to its own frame, that those frames are used and hold no page table, and that the rest
 of the region is unmapped. The lemmas say how one page of growth, one failed attempt
 and the page-by-page unwinding move along it.
 */
module HeapSpace {
  import opened Bits
  import opened PageFormat
  import opened PageTables
  import opened Options
  import opened AddressSpace

  const HEAP_REGION_START: Word := 0xFFFF_8800_0000_0000
  const HEAP_REGION_END: Word := 0xFFFF_FFFF_8000_0000
  const HEAP_PAGES: nat := 0x7_7FF8_0000  // (END - START) / 4096

  function PageAddr(n: nat): (v: Word)
    requires n < HEAP_PAGES
    ensures v % FRAME_SIZE == 0 && v < HEAP_REGION_END
  {
    HEAP_REGION_START + n * FRAME_SIZE
  }

  function HeapPath(n: nat): (q: seq<nat>)
    requires n < HEAP_PAGES
    ensures PagePath(q)
  {
    Path(PageAddr(n))
  }

  /** Consecutive heap pages have consecutive page numbers, so distinct paths. */
  lemma HeapPageNumber(n: nat)
    requires n < HEAP_PAGES
    ensures PageNumber(PageAddr(n)) == 0x8_8000_0000 + n
  {
    ModUnique(PageAddr(n), FRAME_SIZE, 0xF_FFF8_8000_0000 + n, 0);
    ModUnique(0xF_FFF8_8000_0000 + n, 0x10_0000_0000, 0xFFFF, 0x8_8000_0000 + n);
  }

  lemma HeapPathsDistinct(n: nat, m: nat)
    requires n < HEAP_PAGES && m < HEAP_PAGES
    ensures HeapPath(n) == HeapPath(m) <==> n == m
  {
    HeapPageNumber(n);
    HeapPageNumber(m);
    PathIsPageNumber(PageAddr(n), PageAddr(m));
  }

  /** Frame `f` (an address) can be behind a heap page: it fits an entry, is used, and is
      no table. */
  ghost predicate HeapFrame(s: PtState, f: nat) {
    f % FRAME_SIZE == 0 && f < PHYS_LIMIT && f / FRAME_SIZE !in s.free && f !in s.tables
  }

  function HeapView(s: PtState, n: nat): Mapping
    requires s.root % FRAME_SIZE == 0 && n < HEAP_PAGES
  {
    View(s, HeapPath(n))
  }

  function HeapLeaf(f: nat): Mapping
    requires f < PHYS_LIMIT
  {
    Leaf(NewLeaf(f, READ_WRITE))
  }

  ghost predicate Distinct(owned: seq<nat>) {
    forall i, j :: 0 <= i < j < |owned| ==> owned[i] != owned[j]
  }

  /** Pages below `lo` are mapped to `owned`, pages from `lo` to `hi` are not mapped (they
      are being unwound), pages from `hi` to `|owned|` are mapped, the rest is not. */
  ghost predicate BackedExcept(s: PtState, owned: seq<nat>, lo: nat, hi: nat) {
    && s.root % FRAME_SIZE == 0 && |owned| <= HEAP_PAGES && lo <= hi <= |owned|
    && (forall n :: 0 <= n < |owned| ==> HeapFrame(s, owned[n]))
    && Distinct(owned)
    && (forall n :: 0 <= n < HEAP_PAGES ==>
          HeapView(s, n) == if n < lo || hi <= n < |owned| then HeapLeaf(owned[n]) else NotMapped)
  }

  ghost predicate Backed(s: PtState, owned: seq<nat>) {
    BackedExcept(s, owned, 0, 0)
  }

  /** A state in which the address space reads the same and the owned frames are still
      used and no tables. */
  lemma BackedFrame(s: PtState, s': PtState, owned: seq<nat>)
    requires Backed(s, owned) && s'.root == s.root && SameView(s, s')
    requires forall n :: 0 <= n < |owned| ==> HeapFrame(s', owned[n])
    ensures Backed(s', owned)
  {
    forall n | 0 <= n < HEAP_PAGES
      ensures HeapView(s', n) == if n < |owned| then HeapLeaf(owned[n]) else NotMapped
    {
      assert HeapView(s', n) == HeapView(s, n);
    }
  }

  /** Frames stay used when no frame becomes free and new tables come from free frames. */
  lemma FramesKept(s: PtState, s': PtState, f: nat)
    requires HeapFrame(s, f) && LabelsOk(s.tables) && LabelsOk(s'.tables)
    requires s'.free <= s.free
    requires forall t :: t in s'.tables && t !in s.tables ==> t / FRAME_SIZE in s.free
    ensures HeapFrame(s', f)
  {
  }

  // ---- Which frames a growth uses up ----

  ghost predicate IsFrameOf(taken: seq<nat>, f: nat) {
    exists i :: 0 <= i < |taken| && taken[i] / FRAME_SIZE == f
  }

  /** From `s0` to `s` exactly the frames `taken` and those that became page tables went
      from free to used, tables were only added and stayed open, and memory changed in
      tables only. */
  ghost predicate Spent(s0: PtState, s: PtState, taken: seq<nat>) {
    && s.root == s0.root && s.free <= s0.free && LabelsOk(s0.tables) && LabelsOk(s.tables)
    && (OpenTables(s0) ==> OpenTables(s))
    && (forall t :: t in s0.tables ==> t in s.tables && s.tables[t] == s0.tables[t])
    && (forall f :: f in s0.free && f !in s.free <==> IsFrameOf(taken, f) || BecameTable(s0, s, f))
    && (forall k :: 0 <= k < RAM_WORDS && s.ram[k] != s0.ram[k] ==> k / 512 * FRAME_SIZE in s.tables)
  }

  lemma SpentNothing(s: PtState)
    requires LabelsOk(s.tables)
    ensures Spent(s, s, [])
  {
  }

  /** One frame more was taken and mapped. */
  lemma SpentStep(s0: PtState, s: PtState, s1: PtState, s2: PtState, taken: seq<nat>, f: nat)
    requires Sound(s) && Sound(s2) && Spent(s0, s, taken) && f / FRAME_SIZE in s.free
    requires s1 == s.(free := s.free - {f / FRAME_SIZE}) && s2.root == s.root && OnlyTablesGrew(s1, s2)
    ensures Spent(s0, s2, taken + [f])
  {
    forall g
      ensures g in s0.free && g !in s2.free <==> IsFrameOf(taken + [f], g) || BecameTable(s0, s2, g)
    {
      TakenMore(taken, f, g);
      TablesMore(s0, s, s1, s2, g);
      if g in s1.free && g !in s2.free { SpentAreTables(s1, s2, g); }
    }
  }

  lemma TakenMore(taken: seq<nat>, f: nat, g: nat)
    ensures IsFrameOf(taken + [f], g) <==> IsFrameOf(taken, g) || g == f / FRAME_SIZE
  {
    var more := taken + [f];
    assert more[|taken|] == f;
    if IsFrameOf(taken, g) {
      var i :| 0 <= i < |taken| && taken[i] / FRAME_SIZE == g;
      assert more[i] == taken[i];
    }
  }

  lemma TablesMore(s0: PtState, s: PtState, s1: PtState, s2: PtState, g: nat)
    requires LabelsOk(s.tables) && LabelsOk(s2.tables) && s1 == s.(free := s1.free) && OnlyTablesGrew(s1, s2)
    requires forall t :: t in s0.tables ==> t in s.tables
    ensures BecameTable(s0, s2, g) <==> BecameTable(s0, s, g) || BecameTable(s1, s2, g)
    ensures BecameTable(s1, s2, g) ==> g in s1.free && g !in s2.free
  {
    if BecameTable(s0, s2, g) {
      var t :| t in s2.tables && t !in s0.tables && t / FRAME_SIZE == g;
    }
    if BecameTable(s0, s, g) {
      var t :| t in s.tables && t !in s0.tables && t / FRAME_SIZE == g;
      assert t in s2.tables;
    }
  }

  /** A frame was taken, tables were added, and the frame was given back. */
  lemma SpentReturned(s0: PtState, s: PtState, s1: PtState, s2: PtState, s3: PtState, taken: seq<nat>, f: nat)
    requires Sound(s) && Sound(s2) && Spent(s0, s, taken) && f / FRAME_SIZE in s.free
    requires s1 == s.(free := s.free - {f / FRAME_SIZE}) && s2.root == s.root && OnlyTablesGrew(s1, s2)
    requires s3 == s2.(free := s2.free + {f / FRAME_SIZE})
    ensures Spent(s0, s3, taken)
  {
    forall g
      ensures g in s0.free && g !in s3.free <==> IsFrameOf(taken, g) || BecameTable(s0, s3, g)
    {
      TablesMore(s0, s, s1, s2, g);
      assert BecameTable(s0, s3, g) <==> BecameTable(s0, s2, g);
      if g in s1.free && g !in s2.free { SpentAreTables(s1, s2, g); }
    }
  }

  /** A step that writes to tables only. */
  lemma SpentRewritten(s0: PtState, s: PtState, s': PtState, taken: seq<nat>)
    requires Sound(s) && Sound(s') && Spent(s0, s, taken) && s' == s.(ram := s'.ram) && OnlyTablesGrew(s, s')
    ensures Spent(s0, s', taken)
  {
    forall g ensures BecameTable(s0, s', g) <==> BecameTable(s0, s, g) {}
  }

  /** One page of growth: a free frame was taken and mapped at the next page. */
  lemma PageMapped(s: PtState, s1: PtState, s2: PtState, owned: seq<nat>, f: nat, r: Result<(), MapError>)
    requires Sound(s) && Backed(s, owned) && |owned| < HEAP_PAGES
    requires f % FRAME_SIZE == 0 && f < PHYS_LIMIT && f / FRAME_SIZE in s.free && f !in s.tables
    requires s1 == s.(free := s.free - {f / FRAME_SIZE}) && Sound(s1)
    requires MapPost(s1, PageAddr(|owned|), f, READ_WRITE, r, s2) && r.Ok?
    ensures Backed(s2, owned + [f])
  {
    var owned' := owned + [f];
    forall n | 0 <= n < |owned'|
      ensures HeapFrame(s2, owned'[n])
    {
      if n < |owned| {
        FramesKept(s, s1, owned[n]);
        FramesKept(s1, s2, owned[n]);
      } else {
        assert HeapFrame(s1, f);
        FramesKept(s1, s2, f);
      }
    }
    forall n | 0 <= n < |owned| ensures owned[n] != f { assert HeapFrame(s, owned[n]); }
    forall n | 0 <= n < HEAP_PAGES
      ensures HeapView(s2, n) == if n < |owned'| then HeapLeaf(owned'[n]) else NotMapped
    {
      HeapPathsDistinct(n, |owned|);
      assert HeapView(s1, n) == HeapView(s, n);
    }
  }

  /** A failed attempt: the frame goes back, tables added on the way stay. */
  lemma PageFailed(s: PtState, s1: PtState, s2: PtState, s3: PtState, owned: seq<nat>, f: nat, r: Result<(), MapError>)
    requires Sound(s) && Backed(s, owned) && |owned| < HEAP_PAGES
    requires f % FRAME_SIZE == 0 && f < PHYS_LIMIT && f / FRAME_SIZE in s.free
    requires s1 == s.(free := s.free - {f / FRAME_SIZE}) && Sound(s1)
    requires MapPost(s1, PageAddr(|owned|), f, READ_WRITE, r, s2) && r.Err?
    requires s3 == s2.(free := s2.free + {f / FRAME_SIZE})
    ensures Sound(s3) && SameView(s, s3) && Backed(s3, owned)
    ensures |s.free| - |s3.free| == |s3.tables| - |s.tables|
  {
    FrameReturnedSound(s, s1, s2, s3, f);
    forall n | 0 <= n < |owned|
      ensures HeapFrame(s3, owned[n])
    {
      assert HeapFrame(s, owned[n]);
      FramesKept(s, s1, owned[n]);
      FramesKept(s1, s2, owned[n]);
    }
    forall q | PagePath(q) ensures View(s3, q) == View(s, q) {
      assert View(s2, q) == View(s1, q) == View(s, q);
    }
    BackedFrame(s, s3, owned);
  }

  /** Taking a frame, growing tables and giving the frame back. */
  lemma FrameReturnedSound(s: PtState, s1: PtState, s2: PtState, s3: PtState, f: nat)
    requires Sound(s) && Sound(s2) && s2.root == s.root && f / FRAME_SIZE in s.free
    requires s1 == s.(free := s.free - {f / FRAME_SIZE}) && OnlyTablesGrew(s1, s2)
    requires s3 == s2.(free := s2.free + {f / FRAME_SIZE})
    ensures Sound(s3) && |s.free| - |s3.free| == |s3.tables| - |s.tables|
  {
    forall t | t in s3.tables ensures t / FRAME_SIZE !in s3.free {
      if t in s.tables { assert t / FRAME_SIZE !in s.free; }
    }
    assert s.free == s1.free + {f / FRAME_SIZE};
    assert s1.free == s2.free + (s1.free - s2.free);
  }

  /** One step of the unwinding: the page at `hi` is unmapped. */
  lemma PageUnwound(s: PtState, s': PtState, owned: seq<nat>, lo: nat, hi: nat, r: Result<nat, UnmapError>)
    requires Sound(s) && BackedExcept(s, owned, lo, hi) && hi < |owned|
    requires UnmapPost(s, PageAddr(hi), r, s')
    ensures r == Ok(owned[hi]) && BackedExcept(s', owned, lo, hi + 1)
    ensures s'.free == s.free && s'.tables == s.tables
    ensures forall q :: PagePath(q) && q != HeapPath(hi) ==> View(s', q) == View(s, q)
  {
    assert HeapView(s, hi) == HeapLeaf(owned[hi]);
    assert HeapFrame(s, owned[hi]);
    forall n | 0 <= n < |owned| ensures HeapFrame(s', owned[n]) { assert HeapFrame(s, owned[n]); }
    forall n | 0 <= n < HEAP_PAGES
      ensures HeapView(s', n) == if n < lo || hi + 1 <= n < |owned| then HeapLeaf(owned[n]) else NotMapped
    {
      HeapPathsDistinct(n, hi);
    }
  }
}

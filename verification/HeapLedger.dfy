/**
 Laws of the free list over whole histories: freeing is order-independent, freeing
 undoes allocating exactly when nothing was lost, and every byte ever added is free,
 live or lost, and never two of these.
 */
module HeapLedger {
  import opened Bits
  import opened Options
  import opened FreeList

  // ---- Layouts ----

  const ISIZE_LIMIT: nat := 0x8000_0000_0000_0000  // isize::MAX + 1

  datatype Layout = Layout(size: nat, align: nat)

  /** What `core::alloc::Layout` guarantees of its values. */
  ghost predicate IsLayout(layout: Layout) {
    IsPow2(layout.align) && layout.size + layout.align <= ISIZE_LIMIT
  }

  /** Minimum size and alignment the allocator can track; `None` is the panic on a
      layout whose padded size would not fit an `isize`. The alignment is the request's or
      that of a node, 8; the size is the least multiple of it that covers the request, or
      that of a node, 16, if it is less. */
  function Adjusted(layout: Layout): (r: Option<(nat, Word)>)
    requires IsLayout(layout)
    ensures r.None? <==> layout.size + (if layout.align < NODE_ALIGN then NODE_ALIGN else layout.align) > ISIZE_LIMIT
    ensures r.Some? ==>
      var (size, align) := r.value;
      && IsPow2(align) && align == (if layout.align < 8 then 8 else layout.align)
      && size >= NODE_SIZE && size >= layout.size && size % NODE_ALIGN == 0 && size < ISIZE_LIMIT
      && if layout.size == 0 || (layout.size <= 8 && align == 8) then size == 16
         else size % align == 0 && size < layout.size + align
  {
    var align := if layout.align < NODE_ALIGN then NODE_ALIGN else layout.align;
    if layout.size + align > ISIZE_LIMIT then None
    else
      var padded := AlignUp(layout.size, align);
      AdjustedFacts(layout, align);
      Some((if padded < NODE_SIZE then NODE_SIZE else padded, align))
  }

  lemma Pow2By8(a: nat)
    requires IsPow2(a) && a >= 8
    ensures a % 8 == 0
  {
    var k :| a == Pow2(k);
    Pow2Values();
    if k < 3 { Pow2Mono(k, 2); }
    Pow2Mono(3, k);
  }

  lemma MultipleOf8(x: nat, a: nat)
    requires a > 0 && a % 8 == 0 && x % a == 0
    ensures x % 8 == 0
  {
    var q, p := x / a, a / 8;
    assert x == a * q && a == 8 * p;
    assert x == (p * q) * 8;
    ModUnique(x, 8, p * q, 0);
  }

  lemma AdjustedFacts(layout: Layout, align: Word)
    requires IsLayout(layout) && layout.size + align <= ISIZE_LIMIT
    requires align == if layout.align < NODE_ALIGN then NODE_ALIGN else layout.align
    ensures IsPow2(align)
    ensures var padded := AlignUp(layout.size, align);
      && layout.size <= padded < layout.size + align && padded % align == 0 && padded % NODE_ALIGN == 0
      && (padded < NODE_SIZE <==> layout.size == 0 || (layout.size <= 8 && align == 8))
  {
    assert IsPow2(align) by { assert Pow2(3) == NODE_ALIGN; }
    AlignUpExact(layout.size, align);
    Pow2By8(align);
    MultipleOf8(AlignUp(layout.size, align), align);
    SmallPadded(layout.size, align, AlignUp(layout.size, align));
  }

  /** When padding leaves less than a node. */
  lemma SmallPadded(size: nat, align: nat, padded: nat)
    requires align >= 8 && size <= padded < size + align && padded % align == 0 && padded % 8 == 0
    ensures padded < 16 <==> size == 0 || (size <= 8 && align == 8)
  {
    if size == 0 && padded > 0 { MultiplesApart(0, padded, align); }
  }

  // ---- Freeing in any order ----

  function InsertAll(l: seq<Region>, rs: seq<Region>): seq<Region>
    decreases |rs|
  {
    if rs == [] then l else InsertAll(Insert(l, rs[0]), rs[1..])
  }

  ghost predicate AllApart(rs: seq<Region>) {
    forall i, j :: 0 <= i < j < |rs| ==> Apart(rs[i], rs[j])
  }

  ghost predicate AllUsable(rs: seq<Region>) {
    forall i :: 0 <= i < |rs| ==> Usable(rs[i])
  }

  ghost predicate Separate(l: seq<Region>, m: seq<Region>) {
    forall b :: Covers(l, b) ==> !Covers(m, b)
  }

  lemma MemberCovers(rs: seq<Region>, i: nat, b: int)
    requires i < |rs| && rs[i].Has(b)
    ensures Covers(rs, b)
  {
  }

  lemma FirstOfRest(rs: seq<Region>, b: int)
    requires rs != [] && AllApart(rs) && AllUsable(rs)
    ensures rs[0].Has(b) ==> !Covers(rs[1..], b)
    ensures Covers(rs, b) <==> rs[0].Has(b) || Covers(rs[1..], b)
  {
    OneCovers(rs, 0, b);
    assert rs[0..] == rs;
  }

  /** However many blocks are freed, the list covers what it covered plus their bytes. */
  lemma {:induction false} InsertAllCovers(l: seq<Region>, rs: seq<Region>)
    requires WellFormed(l) && AllUsable(rs) && AllApart(rs) && Separate(rs, l)
    ensures WellFormed(InsertAll(l, rs))
    ensures forall b :: Covers(InsertAll(l, rs), b) <==> Covers(l, b) || Covers(rs, b)
    decreases |rs|
  {
    if rs != [] {
      var r, rest := rs[0], rs[1..];
      forall b | r.Has(b) ensures !Covers(l, b) { MemberCovers(rs, 0, b); }
      ApartByBytes(l, r);
      InsertCorrect(l, r);
      forall b ensures Covers(rest, b) ==> !Covers(Insert(l, r), b) { FirstOfRest(rs, b); }
      InsertAllCovers(Insert(l, r), rest);
      forall b
        ensures Covers(InsertAll(l, rs), b) <==> Covers(l, b) || Covers(rs, b)
      {
        FirstOfRest(rs, b);
      }
    }
  }

  lemma PermutedCovers(rs: seq<Region>, ps: seq<Region>, b: int)
    requires multiset(rs) == multiset(ps) && Covers(rs, b)
    ensures Covers(ps, b)
  {
    var i :| 0 <= i < |rs| && rs[i].Has(b);
    assert rs[i] in multiset(ps);
    assert rs[i] in ps;
    var j :| 0 <= j < |ps| && ps[j] == rs[i];
    MemberCovers(ps, j, b);
  }

  lemma TwoOccurrences(s: seq<Region>, i: nat, j: nat)
    requires i < j < |s| && s[i] == s[j]
    ensures multiset(s)[s[i]] >= 2
  {
    assert s == s[..j] + [s[j]] + s[j + 1..];
    assert s[i] in s[..j];
  }

  lemma {:induction false} NoDuplicates(rs: seq<Region>, x: Region)
    requires AllApart(rs) && AllUsable(rs)
    ensures multiset(rs)[x] <= 1
  {
    if rs != [] {
      assert rs == [rs[0]] + rs[1..];
      NoDuplicates(rs[1..], x);
      forall k | 0 <= k < |rs[1..]| ensures rs[1..][k] != rs[0] { assert Apart(rs[0], rs[k + 1]); }
    }
  }

  /** Apartness does not depend on the order either. */
  lemma PermutedApart(rs: seq<Region>, ps: seq<Region>)
    requires multiset(rs) == multiset(ps) && AllApart(rs) && AllUsable(rs)
    ensures AllApart(ps) && AllUsable(ps)
  {
    forall i | 0 <= i < |ps| ensures ps[i] in rs { assert ps[i] in multiset(rs); }
    forall i, j | 0 <= i < j < |ps|
      ensures Apart(ps[i], ps[j])
    {
      if ps[i] == ps[j] {
        TwoOccurrences(ps, i, j);
        NoDuplicates(rs, ps[i]);
      } else {
        var k :| 0 <= k < |rs| && rs[k] == ps[i];
        var m :| 0 <= m < |rs| && rs[m] == ps[j];
        if k < m { assert Apart(rs[k], rs[m]); } else { assert Apart(rs[m], rs[k]); }
      }
    }
  }

  /** Freeing the same blocks in any two orders gives the same list. */
  lemma FreeOrderIrrelevant(l: seq<Region>, rs: seq<Region>, ps: seq<Region>)
    requires WellFormed(l) && AllUsable(rs) && AllApart(rs) && Separate(rs, l)
    requires multiset(rs) == multiset(ps)
    ensures InsertAll(l, rs) == InsertAll(l, ps)
  {
    PermutedApart(rs, ps);
    forall b ensures Covers(rs, b) <==> Covers(ps, b) {
      if Covers(rs, b) { PermutedCovers(rs, ps, b); }
      if Covers(ps, b) { PermutedCovers(ps, rs, b); }
    }
    InsertAllCovers(l, rs);
    InsertAllCovers(l, ps);
    Canonical(InsertAll(l, rs), InsertAll(l, ps));
  }

  /** Freeing right after allocating restores the list exactly when no gap was lost. */
  lemma FreeUndoesAlloc(l: seq<Region>, i: nat, a: nat, size: nat)
    requires WellFormed(l) && BlockIn(l, i, a, size) && size >= NODE_SIZE
    ensures Insert(Carve(l, i, a, size), Region(a, size)) == l <==> Gaps(l, i, a, size) == []
  {
    var c, r, gaps := Carve(l, i, a, size), Region(a, size), Gaps(l, i, a, size);
    CarveWellFormed(l, i, a, size);
    forall b ensures Covers(c, b) <==> Covers(l, b) && !r.Has(b) && !Covers(gaps, b) { CarveCovers(l, i, a, size, b); }
    ApartByBytes(c, r);
    InsertCorrect(c, r);
    forall b ensures r.Has(b) ==> Covers(l, b) { if r.Has(b) { assert l[i].Has(b); } }
    if gaps == [] {
      Canonical(Insert(c, r), l);
    } else {
      var b := gaps[0].start;
      assert gaps[0].Has(b);
      CarveCovers(l, i, a, size, b);
      assert l[i].Has(b) && Covers(l, b) && !Covers(Insert(c, r), b);
    }
  }

  /** With node sizes that are multiples of 8, one allocation loses 0, 8 or 16 bytes. */
  lemma GapSizes(l: seq<Region>, i: nat, a: nat, size: nat)
    requires WellFormed(l) && BlockIn(l, i, a, size) && l[i].size % 8 == 0
    ensures Total(Gaps(l, i, a, size)) in {0, 8, 16}
  {
    var front, back := a - l[i].start, l[i].End() - (a + size);
    BlockEdges(l, i, a, size);
    EdgeUnits(l[i].start, a, front);
    EdgeUnits(a + size, l[i].End(), back);
    DroppedTotal(l[i].start, front);
    DroppedTotal(a + size, back);
    TotalConcat(Dropped(l[i].start, front), Dropped(a + size, back));
  }

  lemma DroppedTotal(start: nat, n: nat)
    ensures Total(Dropped(start, n)) == if n < NODE_SIZE then n else 0
  {
  }

  lemma EdgeUnits(from: nat, to: nat, n: nat)
    requires from % 8 == 0 && to % 8 == 0 && from <= to && n == to - from
    ensures n % 8 == 0 && (n < 16 ==> n == 0 || n == 8)
  {
  }

  // ---- The ledger ----

  /** Every region the allocator was given, sorted into what has become of it. */
  datatype Ledger = Ledger(free: seq<Region>, live: seq<Region>, lost: seq<Region>, added: nat)

  /** Free, live and lost bytes never overlap, live blocks are pairwise apart, and the
      three add up to what was given. */
  ghost predicate Balanced(k: Ledger) {
    && WellFormed(k.free)
    && AllUsable(k.live) && AllApart(k.live)
    && Separate(k.live, k.free) && Separate(k.lost, k.free) && Separate(k.lost, k.live)
    && Total(k.free) + Total(k.live) + Total(k.lost) == k.added
  }

  const EMPTY_LEDGER := Ledger([], [], [], 0)

  /** A region never given before is added. */
  function Grown(k: Ledger, r: Region): Ledger {
    k.(free := Insert(k.free, r), added := k.added + r.size)
  }

  ghost predicate Fresh(k: Ledger, r: Region) {
    Usable(r) && forall b :: r.Has(b) ==> !Covers(k.free, b) && !Covers(k.live, b) && !Covers(k.lost, b)
  }

  /** A block is carved out of node `i`. */
  function Taken(k: Ledger, i: nat, a: nat, size: nat): Ledger
    requires i < |k.free| && k.free[i].start <= a && a + size <= k.free[i].End()
  {
    k.(free := Carve(k.free, i, a, size), live := k.live + [Region(a, size)], lost := k.lost + Gaps(k.free, i, a, size))
  }

  /** Live block `j` is freed. */
  function Released(k: Ledger, j: nat): Ledger
    requires j < |k.live|
  {
    k.(free := Insert(k.free, k.live[j]), live := Without(k.live, j))
  }

  lemma GrownBalanced(k: Ledger, r: Region)
    requires Balanced(k) && Fresh(k, r)
    ensures Balanced(Grown(k, r))
  {
    ApartByBytes(k.free, r);
    InsertCorrect(k.free, r);
  }

  /** What a taken block moves, byte by byte. */
  lemma TakenCovers(k: Ledger, i: nat, a: nat, size: nat, b: int)
    requires Balanced(k) && BlockIn(k.free, i, a, size)
    ensures var r, gaps, k' := Region(a, size), Gaps(k.free, i, a, size), Taken(k, i, a, size);
      && (r.Has(b) || Covers(gaps, b) ==> Covers(k.free, b)) && !(r.Has(b) && Covers(gaps, b))
      && (Covers(k'.live, b) <==> Covers(k.live, b) || r.Has(b))
      && (Covers(k'.lost, b) <==> Covers(k.lost, b) || Covers(gaps, b))
      && (Covers(k'.free, b) <==> Covers(k.free, b) && !r.Has(b) && !Covers(gaps, b))
  {
    var r, gaps := Region(a, size), Gaps(k.free, i, a, size);
    JoinCovers(k.live, [r], b);
    CoversOne(r, b);
    JoinCovers(k.lost, gaps, b);
    CarveCovers(k.free, i, a, size, b);
    if k.free[i].Has(b) { MemberCovers(k.free, i, b); }
  }

  lemma TakenBalanced(k: Ledger, i: nat, a: nat, size: nat)
    requires Balanced(k) && BlockIn(k.free, i, a, size) && size >= NODE_SIZE
    ensures Balanced(Taken(k, i, a, size))
  {
    var r, gaps, k' := Region(a, size), Gaps(k.free, i, a, size), Taken(k, i, a, size);
    assert WellFormed(k'.free) by { CarveWellFormed(k.free, i, a, size); }
    assert Total(k'.free) + Total(k'.live) + Total(k'.lost) == k'.added by {
      CarveTotal(k.free, i, a, size);
      TotalConcat(k.live, [r]);
      TotalConcat(k.lost, gaps);
    }
    TakenSeparate(k, i, a, size, k');
    assert AllApart(k'.live) && AllUsable(k'.live) by { ApartFromLive(k.live, r, k.free); }
  }

  lemma TakenSeparate(k: Ledger, i: nat, a: nat, size: nat, k': Ledger)
    requires Balanced(k) && BlockIn(k.free, i, a, size) && size >= NODE_SIZE && k' == Taken(k, i, a, size)
    ensures Separate(k'.live, k'.free) && Separate(k'.lost, k'.free) && Separate(k'.lost, k'.live)
    ensures forall b :: Region(a, size).Has(b) ==> Covers(k.free, b)
  {
    var r, gaps := Region(a, size), Gaps(k.free, i, a, size);
    forall b
      ensures r.Has(b) || Covers(gaps, b) ==> Covers(k.free, b)
      ensures !(r.Has(b) && Covers(gaps, b))
      ensures Covers(k'.live, b) <==> Covers(k.live, b) || r.Has(b)
      ensures Covers(k'.lost, b) <==> Covers(k.lost, b) || Covers(gaps, b)
      ensures Covers(k'.free, b) <==> Covers(k.free, b) && !r.Has(b) && !Covers(gaps, b)
    {
      TakenCovers(k, i, a, size, b);
    }
  }

  /** A block whose bytes were free is apart from every live block. */
  lemma ApartFromLive(live: seq<Region>, r: Region, free: seq<Region>)
    requires AllUsable(live) && AllApart(live) && Separate(live, free) && r.size > 0
    requires forall b :: r.Has(b) ==> Covers(free, b)
    ensures AllApart(live + [r])
  {
    forall j | 0 <= j < |live|
      ensures Apart(live[j], r)
    {
      var b := if live[j].start <= r.start then r.start else live[j].start;
      assert live[j].Has(b) ==> Covers(live, b);
      assert !(live[j].Has(b) && r.Has(b));
    }
  }

  lemma RemovedCovers(l: seq<Region>, j: nat, b: int)
    requires j < |l| && AllApart(l) && AllUsable(l)
    ensures Covers(Without(l, j), b) <==> Covers(l, b) && !l[j].Has(b)
  {
    JoinCovers(l[..j], l[j + 1..], b);
    SplitCovers(l, j, b);
    OneCovers(l, j, b);
    if l[j].Has(b) {
      assert forall i :: 0 <= i < j ==> Apart(l[i], l[j]);
      assert forall i :: j < i < |l| ==> Apart(l[j], l[i]);
    }
  }

  lemma ReleasedCovers(k: Ledger, j: nat, b: int)
    requires Balanced(k) && j < |k.live|
    ensures k.live[j].Has(b) ==> Covers(k.live, b)
    ensures Covers(Released(k, j).live, b) <==> Covers(k.live, b) && !k.live[j].Has(b)
  {
    RemovedCovers(k.live, j, b);
  }

  /** The freed bytes, and no others, become free. */
  lemma ReleasedFree(k: Ledger, j: nat)
    requires Balanced(k) && j < |k.live|
    ensures ApartFromAll(k.free, k.live[j])
    ensures WellFormed(Released(k, j).free) && Total(Released(k, j).free) == Total(k.free) + k.live[j].size
    ensures forall b :: Covers(Released(k, j).free, b) <==> Covers(k.free, b) || k.live[j].Has(b)
  {
    var r := k.live[j];
    forall b ensures r.Has(b) ==> Covers(k.live, b) { ReleasedCovers(k, j, b); }
    ApartByBytes(k.free, r);
    InsertCorrect(k.free, r);
  }

  lemma ReleasedBalanced(k: Ledger, j: nat)
    requires Balanced(k) && j < |k.live|
    ensures Balanced(Released(k, j))
  {
    var r, k' := k.live[j], Released(k, j);
    forall b
      ensures Covers(k'.live, b) <==> Covers(k.live, b) && !r.Has(b)
      ensures r.Has(b) ==> Covers(k.live, b)
    {
      ReleasedCovers(k, j, b);
    }
    ReleasedFree(k, j);
    assert Total(k'.live) == Total(k.live) - r.size by {
      TotalConcat(k.live[..j], k.live[j + 1..]);
      TotalSplit(k.live, j);
      assert k.live[j..][1..] == k.live[j + 1..];
    }
  }

  datatype Event =
    | Grow(region: Region)
    | Alloc(layout: Layout)
    | Dealloc(index: nat)

  /** One call of the allocator under its caller's contract: regions given to it are
      new, and only live blocks are freed. Nothing is said of a call in a state that is
      not balanced. */
  ghost predicate Step(k: Ledger, e: Event, k': Ledger) {
    Balanced(k) ==>
      match e
      case Grow(r) => Fresh(k, r) && k' == Grown(k, r)
      case Dealloc(j) => j < |k.live| && k' == Released(k, j)
      case Alloc(layout) => IsLayout(layout) && k' == AllocResult(k, layout)
  }

  /** The ledger after `alloc`: a block carved out at the first fit, or no change. */
  function AllocResult(k: Ledger, layout: Layout): Ledger
    requires WellFormed(k.free) && IsLayout(layout)
  {
    match Adjusted(layout)
    case None => k
    case Some((size, align)) =>
      match FirstFit(k.free, 0, size, align)
      case FitAt(i, a) => Taken(k, i, a, size)
      case _ => k
  }

  /** The block an allocation finds can be taken from the ledger. */
  lemma FitIsBlock(l: seq<Region>, layout: Layout)
    requires WellFormed(l) && IsLayout(layout) && Adjusted(layout).Some?
    ensures var (size, align) := Adjusted(layout).value;
      var f := FirstFit(l, 0, size, align);
      f.FitAt? ==> BlockIn(l, f.index, f.addr, size)
  {
    var (size, align) := Adjusted(layout).value;
    var f := FirstFit(l, 0, size, align);
    if f.FitAt? {
      Pow2By8(align);
      MultipleOf8(f.addr, align);
    }
  }

  lemma StepBalanced(k: Ledger, e: Event, k': Ledger)
    requires Balanced(k) && Step(k, e, k')
    ensures Balanced(k')
  {
    match e {
      case Grow(r) => GrownBalanced(k, r);
      case Dealloc(j) => ReleasedBalanced(k, j);
      case Alloc(layout) =>
        if Adjusted(layout).Some? {
          FitIsBlock(k.free, layout);
          var (size, align) := Adjusted(layout).value;
          match FirstFit(k.free, 0, size, align) {
            case FitAt(i, a) => TakenBalanced(k, i, a, size);
            case _ =>
          }
        }
    }
  }

  ghost predicate Run(states: seq<Ledger>, events: seq<Event>) {
    && |states| == |events| + 1
    && forall i {:trigger events[i]} :: 0 <= i < |events| ==> Step(states[i], events[i], states[i + 1])
  }

  /** Conservation and separation over every history of an allocator that starts empty:
      bytes given = free + live + lost, live blocks pairwise apart and clear of the free
      list, and the free list in canonical form. */
  lemma {:induction false} RunBalanced(states: seq<Ledger>, events: seq<Event>)
    requires Run(states, events) && states[0] == EMPTY_LEDGER
    ensures Balanced(states[|events|])
  {
    if events != [] {
      var n := |events| - 1;
      RunBalanced(states[..n + 1], events[..n]);
      StepBalanced(states[n], events[n], states[n + 1]);
    }
  }

  // ---- What one allocation can lose ----

  /** Every region is a whole number of 8-byte units. */
  ghost predicate Eights(l: seq<Region>) {
    forall i :: 0 <= i < |l| ==> l[i].size % 8 == 0
  }

  lemma EightsJoin(a: seq<Region>, b: seq<Region>)
    requires Eights(a) && Eights(b)
    ensures Eights(a + b)
  {
  }

  lemma InsertEights(l: seq<Region>, r: Region)
    requires Eights(l) && r.size % 8 == 0
    ensures Eights(Insert(l, r))
  {
    var k := Rank(l, r.start);
    var n, m, x := LowCut(l, k, r), HighCut(l, k, r), Merged(l, k, r);
    assert Eights([x]);
    EightsJoin(l[..n], [x]);
    EightsJoin(l[..n] + [x], l[m..]);
  }

  lemma KeptEights(start: nat, n: nat)
    requires n % 8 == 0
    ensures Eights(Kept(start, n))
  {
  }

  lemma EightsParts(l: seq<Region>, i: nat)
    requires Eights(l) && i < |l|
    ensures Eights(l[..i]) && Eights(l[i + 1..])
  {
  }

  lemma CarveEights(l: seq<Region>, i: nat, a: nat, size: nat)
    requires WellFormed(l) && BlockIn(l, i, a, size) && Eights(l)
    ensures Eights(Carve(l, i, a, size))
  {
    var front, back := Kept(l[i].start, a - l[i].start), Kept(a + size, l[i].End() - (a + size));
    BlockEdges(l, i, a, size);
    EdgeUnits(l[i].start, a, a - l[i].start);
    EdgeUnits(a + size, l[i].End(), l[i].End() - (a + size));
    KeptEights(l[i].start, a - l[i].start);
    KeptEights(a + size, l[i].End() - (a + size));
    EightsParts(l, i);
    EightsJoin(front, back);
    EightsJoin(l[..i], front + back);
    EightsJoin(l[..i] + (front + back), l[i + 1..]);
  }

  /** All regions given to the allocator are whole units. */
  ghost predicate GivenEights(events: seq<Event>) {
    forall i :: 0 <= i < |events| && events[i].Grow? ==> events[i].region.size % 8 == 0
  }

  lemma AllocEights(k: Ledger, layout: Layout)
    requires Balanced(k) && IsLayout(layout) && Eights(k.free) && Eights(k.live)
    ensures Eights(AllocResult(k, layout).free) && Eights(AllocResult(k, layout).live)
    ensures Total(AllocResult(k, layout).lost) - Total(k.lost) in {0, 8, 16}
  {
    if Adjusted(layout).Some? {
      var (size, align) := Adjusted(layout).value;
      FitIsBlock(k.free, layout);
      match FirstFit(k.free, 0, size, align) {
        case FitAt(i, a) =>
          CarveEights(k.free, i, a, size);
          EightsJoin(k.live, [Region(a, size)]);
          GapSizes(k.free, i, a, size);
          TotalConcat(k.lost, Gaps(k.free, i, a, size));
        case _ =>
      }
    }
  }

  lemma StepEights(k: Ledger, e: Event, k': Ledger)
    requires Balanced(k) && Step(k, e, k') && Eights(k.free) && Eights(k.live) && (e.Grow? ==> e.region.size % 8 == 0)
    ensures Eights(k'.free) && Eights(k'.live)
  {
    match e {
      case Grow(r) => InsertEights(k.free, r);
      case Dealloc(j) =>
        InsertEights(k.free, k.live[j]);
        EightsJoin(k.live[..j], k.live[j + 1..]);
      case Alloc(layout) => AllocEights(k, layout);
    }
  }

  lemma {:induction false} RunEights(states: seq<Ledger>, events: seq<Event>)
    requires Run(states, events) && states[0] == EMPTY_LEDGER && GivenEights(events)
    ensures Eights(states[|events|].free) && Eights(states[|events|].live)
  {
    if events != [] {
      var n := |events| - 1;
      RunEights(states[..n + 1], events[..n]);
      RunBalanced(states[..n + 1], events[..n]);
      StepEights(states[n], events[n], states[n + 1]);
    }
  }

  /** In every history over whole units, each allocation loses 0, 8 or 16 bytes and
      nothing else loses any. */
  lemma LossPerCall(states: seq<Ledger>, events: seq<Event>, n: nat)
    requires Run(states, events) && states[0] == EMPTY_LEDGER && GivenEights(events) && n < |events|
    ensures Total(states[n + 1].lost) - Total(states[n].lost) in (if events[n].Alloc? then {0, 8, 16} else {0})
  {
    RunEights(states[..n + 1], events[..n]);
    RunBalanced(states[..n + 1], events[..n]);
    assert Step(states[n], events[n], states[n + 1]);
    if events[n].Alloc? { AllocEights(states[n], events[n].layout); }
  }
}

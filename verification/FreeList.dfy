/**
 The heap's free list as a value: free regions in address order, never adjacent.

 Because neighbours are always merged, the list is a canonical form of the set of free
 bytes it covers (`Canonical`): what an operation does to the list is determined by
 what it does to that set. `Splice` is the effect of `add_free_region`, `FirstFit` the
 search of `alloc`, `Carve` its effect.
 */
module FreeList {
  import opened Bits

  /** `size_of` and `align_of` a list node. */
  const NODE_SIZE: nat := 16
  const NODE_ALIGN: nat := 8

  datatype Region = Region(start: nat, size: nat) {
    function End(): nat { start + size }

    predicate Has(b: int) { start <= b < End() }
  }

  /** A region that can hold its own header: aligned, non-null, large enough, within
      the address space. */
  predicate Usable(r: Region) {
    r.start > 0 && r.start % NODE_ALIGN == 0 && r.size >= NODE_SIZE && r.End() < TWO64
  }

  ghost predicate WellFormed(l: seq<Region>) {
    && (forall i :: 0 <= i < |l| ==> Usable(l[i]))
    && (forall i, j :: 0 <= i < j < |l| ==> l[i].End() < l[j].start)
  }

  /** Byte `b` is free. */
  ghost predicate Covers(l: seq<Region>, b: int) {
    exists i :: 0 <= i < |l| && l[i].Has(b)
  }

  ghost predicate CoversRange(l: seq<Region>, from: nat, size: nat) {
    forall b :: from <= b < from + size ==> Covers(l, b)
  }

  function Apart(r: Region, s: Region): bool {
    r.End() <= s.start || s.End() <= r.start
  }

  ghost predicate ApartFromAll(l: seq<Region>, r: Region) {
    forall i :: 0 <= i < |l| ==> Apart(l[i], r)
  }

  function Total(l: seq<Region>): nat {
    if l == [] then 0 else l[0].size + Total(l[1..])
  }

  lemma {:induction false} TotalConcat(l: seq<Region>, m: seq<Region>)
    ensures Total(l + m) == Total(l) + Total(m)
  {
    if l == [] {
      assert l + m == m;
    } else {
      assert (l + m)[1..] == l[1..] + m;
      TotalConcat(l[1..], m);
    }
  }

  lemma TotalSplit(l: seq<Region>, i: nat)
    requires i <= |l|
    ensures Total(l) == Total(l[..i]) + Total(l[i..])
  {
    assert l == l[..i] + l[i..];
    TotalConcat(l[..i], l[i..]);
  }

  // ---- Canonical form ----

  /** A maximal free interval is a whole node: from any covered byte, coverage extends
      exactly to the end of its node. */
  lemma NodeIsMaximal(l: seq<Region>, i: nat)
    requires WellFormed(l) && i < |l|
    ensures !Covers(l, l[i].start - 1) && !Covers(l, l[i].End())
    ensures forall b :: l[i].Has(b) ==> Covers(l, b)
  {
    forall j | 0 <= j < |l|
      ensures !l[j].Has(l[i].start - 1) && !l[j].Has(l[i].End())
    {
    }
  }

  lemma CoversItsStart(l: seq<Region>)
    requires WellFormed(l) && l != []
    ensures Covers(l, l[0].start)
  {
    assert l[0].Has(l[0].start);
  }

  lemma FirstIsLowest(l: seq<Region>, b: int)
    requires WellFormed(l) && Covers(l, b)
    ensures l[0].start <= b
  {
  }

  lemma TailCovers(l: seq<Region>, b: int)
    requires WellFormed(l) && l != []
    ensures WellFormed(l[1..])
    ensures Covers(l[1..], b) <==> Covers(l, b) && !l[0].Has(b)
  {
    if Covers(l, b) && !l[0].Has(b) {
      var i :| 0 <= i < |l| && l[i].Has(b);
      assert l[1..][i - 1].Has(b);
    }
    if Covers(l[1..], b) {
      var i :| 0 <= i < |l[1..]| && l[1..][i].Has(b);
      assert l[i + 1].Has(b);
    }
  }

  /** Two well-formed lists that cover the same bytes are the same list. */
  lemma {:induction false} Canonical(l: seq<Region>, m: seq<Region>)
    requires WellFormed(l) && WellFormed(m)
    requires forall b :: Covers(l, b) <==> Covers(m, b)
    ensures l == m
    decreases |l|
  {
    if l == [] {
      if m != [] { CoversItsStart(m); }
    } else if m == [] {
      CoversItsStart(l);
    } else {
      SameFirst(l, m);
      forall b ensures Covers(l[1..], b) <==> Covers(m[1..], b) {
        TailCovers(l, b);
        TailCovers(m, b);
      }
      TailCovers(l, 0);
      TailCovers(m, 0);
      Canonical(l[1..], m[1..]);
      assert l == [l[0]] + l[1..] && m == [m[0]] + m[1..];
    }
  }

  lemma SameFirst(l: seq<Region>, m: seq<Region>)
    requires WellFormed(l) && WellFormed(m) && l != [] && m != []
    requires forall b :: Covers(l, b) <==> Covers(m, b)
    ensures l[0] == m[0]
  {
    NodeIsMaximal(l, 0);
    NodeIsMaximal(m, 0);
    CoversItsStart(l);
    CoversItsStart(m);
    FirstIsLowest(l, m[0].start);
    FirstIsLowest(m, l[0].start);
    assert !m[0].Has(l[0].End()) && !l[0].Has(m[0].End());
  }

  // ---- add_free_region ----

  /** How many nodes lie below `addr`: where the walk stops. */
  function Rank(l: seq<Region>, addr: nat): (k: nat)
    ensures k <= |l|
    ensures forall i :: 0 <= i < k ==> l[i].start < addr
    ensures k < |l| ==> l[k].start >= addr
  {
    if l == [] || l[0].start >= addr then 0 else 1 + Rank(l[1..], addr)
  }

  predicate MergesBack(l: seq<Region>, k: nat, r: Region)
    requires k <= |l|
  {
    k > 0 && l[k - 1].End() == r.start
  }

  predicate MergesForward(l: seq<Region>, k: nat, r: Region)
    requires k <= |l|
  {
    k < |l| && r.End() == l[k].start
  }

  /** The node that `r` becomes part of. */
  function Merged(l: seq<Region>, k: nat, r: Region): Region
    requires k <= |l|
  {
    var size := r.size + (if MergesForward(l, k, r) then l[k].size else 0);
    if MergesBack(l, k, r) then Region(l[k - 1].start, l[k - 1].size + size) else Region(r.start, size)
  }

  /** How many nodes stay below the merged one ... */
  function LowCut(l: seq<Region>, k: nat, r: Region): (n: nat)
    requires k <= |l|
    ensures n <= k
  {
    if MergesBack(l, k, r) then k - 1 else k
  }

  /** ... and where those above it begin. */
  function HighCut(l: seq<Region>, k: nat, r: Region): (m: nat)
    requires k <= |l|
    ensures k <= m <= |l|
  {
    if MergesForward(l, k, r) then k + 1 else k
  }

  /** `r` inserted at position `k`, merged with an adjacent neighbour on either side. */
  function Splice(l: seq<Region>, k: nat, r: Region): seq<Region>
    requires k <= |l|
  {
    l[..LowCut(l, k, r)] + [Merged(l, k, r)] + l[HighCut(l, k, r)..]
  }

  function Insert(l: seq<Region>, r: Region): seq<Region> { Splice(l, Rank(l, r.start), r) }

  /** `r` fits between its neighbours. */
  ghost predicate FitsAt(l: seq<Region>, k: nat, r: Region) {
    && k <= |l|
    && (k > 0 ==> l[k - 1].End() <= r.start)
    && (k < |l| ==> r.End() <= l[k].start)
  }

  lemma RankFits(l: seq<Region>, r: Region)
    requires WellFormed(l) && Usable(r) && ApartFromAll(l, r)
    ensures FitsAt(l, Rank(l, r.start), r)
  {
    var k := Rank(l, r.start);
    if k > 0 { assert Apart(l[k - 1], r); }
    if k < |l| { assert Apart(l[k], r); }
  }

  // A list put together from a lower part, one region and an upper part.

  lemma JoinWellFormed(lo: seq<Region>, x: Region, hi: seq<Region>)
    requires WellFormed(lo) && Usable(x) && WellFormed(hi)
    requires lo != [] ==> lo[|lo| - 1].End() < x.start
    requires hi != [] ==> x.End() < hi[0].start
    ensures WellFormed(lo + [x] + hi)
  {
    var l := lo + [x] + hi;
    forall i, j | 0 <= i < j < |l|
      ensures l[i].End() < l[j].start
    {
      if i < |lo| { assert lo[i].End() <= lo[|lo| - 1].End(); }
      if j > |lo| { assert hi[0].start <= hi[j - |lo| - 1].start; }
    }
  }

  lemma JoinCovers(lo: seq<Region>, hi: seq<Region>, b: int)
    ensures Covers(lo + hi, b) <==> Covers(lo, b) || Covers(hi, b)
  {
    if Covers(lo + hi, b) {
      var i :| 0 <= i < |lo + hi| && (lo + hi)[i].Has(b);
      if i < |lo| { assert lo[i].Has(b); } else { assert hi[i - |lo|].Has(b); }
    }
    if Covers(lo, b) {
      var i :| 0 <= i < |lo| && lo[i].Has(b);
      assert (lo + hi)[i].Has(b);
    }
    if Covers(hi, b) {
      var i :| 0 <= i < |hi| && hi[i].Has(b);
      assert (lo + hi)[|lo| + i].Has(b);
    }
  }

  lemma CoversOne(x: Region, b: int)
    ensures Covers([x], b) <==> x.Has(b)
  {
    if x.Has(b) { assert [x][0].Has(b); }
  }

  lemma SplitCovers(l: seq<Region>, i: nat, b: int)
    requires i <= |l|
    ensures Covers(l, b) <==> Covers(l[..i], b) || Covers(l[i..], b)
  {
    assert l == l[..i] + l[i..];
    JoinCovers(l[..i], l[i..], b);
  }

  lemma OneCovers(l: seq<Region>, i: nat, b: int)
    requires i < |l|
    ensures Covers(l[i..], b) <==> l[i].Has(b) || Covers(l[i + 1..], b)
  {
    assert l[i..] == [l[i]] + l[i + 1..];
    JoinCovers([l[i]], l[i + 1..], b);
    CoversOne(l[i], b);
  }

  lemma PartsWellFormed(l: seq<Region>, i: nat, j: nat)
    requires WellFormed(l) && i <= |l| && j <= |l|
    ensures WellFormed(l[..i]) && WellFormed(l[j..])
  {
  }

  lemma MergedBetween(l: seq<Region>, k: nat, r: Region)
    requires WellFormed(l) && Usable(r) && FitsAt(l, k, r)
    ensures var n := LowCut(l, k, r); n > 0 ==> l[n - 1].End() < Merged(l, k, r).start
    ensures var m := HighCut(l, k, r); m < |l| ==> Merged(l, k, r).End() < l[m].start
  {
  }

  lemma SpliceWellFormed(l: seq<Region>, k: nat, r: Region)
    requires WellFormed(l) && Usable(r) && FitsAt(l, k, r)
    ensures WellFormed(Splice(l, k, r))
  {
    var n := LowCut(l, k, r);
    var m := HighCut(l, k, r);
    PartsWellFormed(l, n, m);
    MergedUsable(l, k, r);
    MergedBetween(l, k, r);
    JoinWellFormed(l[..n], Merged(l, k, r), l[m..]);
  }

  lemma MergedUsable(l: seq<Region>, k: nat, r: Region)
    requires WellFormed(l) && Usable(r) && FitsAt(l, k, r)
    ensures Usable(Merged(l, k, r))
    ensures k > 0 ==> Usable(l[k - 1])
    ensures k < |l| ==> Usable(l[k])
  {
  }

  /** Inserting adds exactly the bytes of the new region. */
  lemma SpliceCovers(l: seq<Region>, k: nat, r: Region, b: int)
    requires WellFormed(l) && Usable(r) && FitsAt(l, k, r)
    ensures Covers(Splice(l, k, r), b) <==> Covers(l, b) || r.Has(b)
  {
    var n := LowCut(l, k, r);
    var m := HighCut(l, k, r);
    JoinCovers(l[..n] + [Merged(l, k, r)], l[m..], b);
    JoinCovers(l[..n], [Merged(l, k, r)], b);
    CoversOne(Merged(l, k, r), b);
    SplitCovers(l, n, b);
    if n < k { OneCovers(l, n, b); }
    if k < m { OneCovers(l, k, b); }
  }

  lemma SpliceTotal(l: seq<Region>, k: nat, r: Region)
    requires k <= |l|
    ensures Total(Splice(l, k, r)) == Total(l) + r.size
  {
    var n := LowCut(l, k, r);
    var m := HighCut(l, k, r);
    TotalConcat(l[..n] + [Merged(l, k, r)], l[m..]);
    TotalConcat(l[..n], [Merged(l, k, r)]);
    TotalSplit(l, n);
    if n < k { assert l[n..][1..] == l[k..]; }
    if k < m { assert l[k..][1..] == l[m..]; }
  }

  /** The contract of `add_free_region`, in terms of free bytes. */
  lemma InsertCorrect(l: seq<Region>, r: Region)
    requires WellFormed(l) && Usable(r) && ApartFromAll(l, r)
    ensures WellFormed(Insert(l, r))
    ensures forall b :: Covers(Insert(l, r), b) <==> Covers(l, b) || r.Has(b)
    ensures Total(Insert(l, r)) == Total(l) + r.size
  {
    RankFits(l, r);
    var k := Rank(l, r.start);
    SpliceWellFormed(l, k, r);
    SpliceTotal(l, k, r);
    forall b
      ensures Covers(Insert(l, r), b) <==> Covers(l, b) || r.Has(b)
    {
      SpliceCovers(l, k, r, b);
    }
  }

  // ---- alloc ----

  datatype Fit =
    | NoFit
    | Overflow                    // the sum that rounds up a region's start overflows
    | FitAt(index: nat, addr: nat)

  /** The first node, from `k` on, with room for `size` bytes at `align`. A block that
      is found is aligned and lies inside its node. */
  function FirstFit(l: seq<Region>, k: nat, size: nat, align: Word): (f: Fit)
    requires k <= |l| && IsPow2(align) && forall i :: 0 <= i < |l| ==> l[i].start < TWO64
    ensures f.FitAt? ==> k <= f.index < |l| && f.addr % align == 0
    ensures f.FitAt? ==> l[f.index].start <= f.addr && f.addr + size <= l[f.index].End()
    decreases |l| - k
  {
    if k == |l| then NoFit
    else if l[k].start + align >= TWO64 then Overflow
    else
      AlignUpExact(l[k].start, align);
      var a := AlignUp(l[k].start, align);
      if a + size <= l[k].End() then FitAt(k, a) else FirstFit(l, k + 1, size, align)
  }

  /** Wholly free ranges lie inside one node, because adjacent nodes are merged. */
  lemma RangeInOneNode(l: seq<Region>, x: nat, size: nat) returns (i: nat)
    requires WellFormed(l) && size > 0 && CoversRange(l, x, size)
    ensures i < |l| && l[i].start <= x && x + size <= l[i].End()
  {
    assert Covers(l, x);
    i :| 0 <= i < |l| && l[i].Has(x);
    NodeIsMaximal(l, i);
    assert !(x <= l[i].End() < x + size);
  }

  /** The search is complete and exact: the address found is the lowest aligned one
      with the whole block free, and none is found only if there is none. */
  lemma {:induction false} FirstFitExact(l: seq<Region>, k: nat, size: nat, align: Word, x: nat)
    requires WellFormed(l) && k <= |l| && size > 0 && IsPow2(align)
    requires x % align == 0 && CoversRange(l, x, size)
    requires forall i :: 0 <= i < k ==> x >= l[i].End()
    ensures FirstFit(l, k, size, align) != NoFit
    ensures FirstFit(l, k, size, align).FitAt? ==> FirstFit(l, k, size, align).addr <= x
    decreases |l| - k
  {
    var i := RangeInOneNode(l, x, size);
    assert k <= i;
    if l[k].start + align < TWO64 {
      AlignUpExact(l[k].start, align);
      if i > k && AlignUp(l[k].start, align) + size > l[k].End() {
        assert l[k].End() < l[i].start;
        FirstFitExact(l, k + 1, size, align, x);
      }
    }
  }

  /** The sum that rounds up the start of node `i` overflows: `start + align` comes first,
      before one is taken off again. */
  predicate RoundsOver(l: seq<Region>, i: nat, align: Word)
    requires i < |l|
  {
    l[i].start + align >= TWO64
  }

  /** Node `i` has room for an aligned block. */
  predicate RoomIn(l: seq<Region>, i: nat, size: nat, align: Word)
    requires i < |l| && l[i].start < TWO64 && align > 0
  {
    !RoundsOver(l, i, align) && AlignUp(l[i].start, align) + size <= l[i].End()
  }

  /** The search meets an overflow exactly when there is a node to overflow on and no
      node that does not overflow has room. */
  lemma {:induction false} OverflowExact(l: seq<Region>, k: nat, size: nat, align: Word)
    requires WellFormed(l) && k <= |l| && IsPow2(align)
    ensures FirstFit(l, k, size, align) == Overflow <==>
      && (exists i :: k <= i < |l| && RoundsOver(l, i, align))
      && (forall i :: k <= i < |l| ==> !RoomIn(l, i, size, align))
    decreases |l| - k
  {
    if k < |l| {
      if RoundsOver(l, k, align) {
        forall i | k <= i < |l| ensures RoundsOver(l, i, align) { assert l[k].start <= l[i].start; }
      } else if RoomIn(l, k, size, align) {
        assert FirstFit(l, k, size, align).FitAt?;
      } else {
        OverflowExact(l, k + 1, size, align);
        assert FirstFit(l, k, size, align) == FirstFit(l, k + 1, size, align);
      }
    }
  }

  /** A leftover is kept if it can hold a node, lost otherwise. */
  function Kept(start: nat, size: nat): seq<Region> {
    if size >= NODE_SIZE then [Region(start, size)] else []
  }

  function Dropped(start: nat, size: nat): seq<Region> {
    if 0 < size < NODE_SIZE then [Region(start, size)] else []
  }

  /** The list after taking `[a, a + size)` out of node `i`. */
  function Carve(l: seq<Region>, i: nat, a: nat, size: nat): seq<Region>
    requires i < |l| && l[i].start <= a && a + size <= l[i].End()
  {
    l[..i] + (Kept(l[i].start, a - l[i].start) + Kept(a + size, l[i].End() - (a + size))) + l[i + 1..]
  }

  /** The bytes lost on either side of the block. */
  function Gaps(l: seq<Region>, i: nat, a: nat, size: nat): seq<Region>
    requires i < |l| && l[i].start <= a && a + size <= l[i].End()
  {
    Dropped(l[i].start, a - l[i].start) + Dropped(a + size, l[i].End() - (a + size))
  }

  lemma CarveTotal(l: seq<Region>, i: nat, a: nat, size: nat)
    requires i < |l| && l[i].start <= a && a + size <= l[i].End()
    ensures Total(Carve(l, i, a, size)) + size + Total(Gaps(l, i, a, size)) == Total(l)
  {
    var front, back := Kept(l[i].start, a - l[i].start), Kept(a + size, l[i].End() - (a + size));
    var f, b := Dropped(l[i].start, a - l[i].start), Dropped(a + size, l[i].End() - (a + size));
    TotalConcat(l[..i] + (front + back), l[i + 1..]);
    TotalConcat(l[..i], front + back);
    TotalConcat(front, back);
    TotalConcat(f, b);
    TotalSplit(l, i);
    assert l[i..][1..] == l[i + 1..];
  }

  /** A block that `alloc` may hand out of node `i`. */
  ghost predicate BlockIn(l: seq<Region>, i: nat, a: nat, size: nat) {
    && i < |l| && l[i].start <= a && a + size <= l[i].End()
    && a % NODE_ALIGN == 0 && size % NODE_ALIGN == 0 && size > 0
  }

  lemma BlockEdges(l: seq<Region>, i: nat, a: nat, size: nat)
    requires WellFormed(l) && BlockIn(l, i, a, size)
    ensures l[i].start % NODE_ALIGN == 0 && (a + size) % NODE_ALIGN == 0 && l[i].End() < TWO64
  {
    ModUnique(a + size, NODE_ALIGN, a / NODE_ALIGN + size / NODE_ALIGN, 0);
  }

  lemma KeptWellFormed(start: nat, a: nat, size: nat, end: nat)
    requires 0 < start <= a && a + size <= end < TWO64 && size > 0
    requires start % NODE_ALIGN == 0 && a % NODE_ALIGN == 0 && size % NODE_ALIGN == 0
    ensures var m := Kept(start, a - start) + Kept(a + size, end - (a + size));
      && WellFormed(m)
      && forall j :: 0 <= j < |m| ==> start <= m[j].start && m[j].End() <= end
  {
    assert (a + size) % NODE_ALIGN == 0;
  }

  lemma Join3WellFormed(lo: seq<Region>, mid: seq<Region>, hi: seq<Region>, start: nat, end: nat)
    requires WellFormed(lo) && WellFormed(mid) && WellFormed(hi) && start <= end
    requires forall i :: 0 <= i < |lo| ==> lo[i].End() < start
    requires forall i :: 0 <= i < |mid| ==> start <= mid[i].start && mid[i].End() <= end
    requires forall i :: 0 <= i < |hi| ==> end < hi[i].start
    ensures WellFormed(lo + mid + hi)
  {
    var l := lo + mid + hi;
    forall i | 0 <= i < |l|
      ensures Usable(l[i])
      ensures i < |lo| ==> l[i].End() < start
      ensures |lo| <= i < |lo| + |mid| ==> start <= l[i].start && l[i].End() <= end
      ensures |lo| + |mid| <= i ==> end < l[i].start
    {
    }
  }

  lemma CarveWellFormed(l: seq<Region>, i: nat, a: nat, size: nat)
    requires WellFormed(l) && BlockIn(l, i, a, size)
    ensures WellFormed(Carve(l, i, a, size))
  {
    PartsWellFormed(l, i, i + 1);
    KeptWellFormed(l[i].start, a, size, l[i].End());
    Join3WellFormed(l[..i], Kept(l[i].start, a - l[i].start) + Kept(a + size, l[i].End() - (a + size)), l[i + 1..],
                    l[i].start, l[i].End());
  }

  lemma KeptCovers(start: nat, size: nat, b: int)
    ensures Covers(Kept(start, size), b) <==> size >= NODE_SIZE && start <= b < start + size
    ensures Covers(Dropped(start, size), b) <==> size < NODE_SIZE && start <= b < start + size
  {
    CoversOne(Region(start, size), b);
  }

  /** The bytes of one node are in no other. */
  lemma OthersElsewhere(l: seq<Region>, i: nat, b: int)
    requires WellFormed(l) && i < |l|
    ensures l[i].Has(b) ==> !Covers(l[..i], b) && !Covers(l[i + 1..], b)
  {
  }

  /** Removing node `i` whole. */
  function Without(l: seq<Region>, i: nat): seq<Region>
    requires i < |l|
  {
    l[..i] + l[i + 1..]
  }

  lemma WithoutCorrect(l: seq<Region>, i: nat)
    requires WellFormed(l) && i < |l|
    ensures WellFormed(Without(l, i))
    ensures forall b :: Covers(Without(l, i), b) <==> Covers(l, b) && !l[i].Has(b)
  {
    forall b
      ensures Covers(Without(l, i), b) <==> Covers(l, b) && !l[i].Has(b)
    {
      JoinCovers(l[..i], l[i + 1..], b);
      SplitCovers(l, i, b);
      OneCovers(l, i, b);
      OthersElsewhere(l, i, b);
    }
  }

  /** Regions that share no byte with the list are apart from its nodes. */
  lemma ApartByBytes(l: seq<Region>, r: Region)
    requires WellFormed(l) && r.size > 0
    requires forall b :: r.Has(b) ==> !Covers(l, b)
    ensures ApartFromAll(l, r)
  {
    forall i | 0 <= i < |l|
      ensures Apart(l[i], r)
    {
      var b := if l[i].start <= r.start then r.start else l[i].start;
      if !Apart(l[i], r) { assert l[i].Has(b) && r.Has(b); }
    }
  }

  /** The carved list: all other nodes, and the leftovers that are kept. */
  lemma CarvePieces(l: seq<Region>, i: nat, a: nat, size: nat, b: int)
    requires WellFormed(l) && BlockIn(l, i, a, size)
    ensures Covers(Carve(l, i, a, size), b) <==>
      || Covers(Without(l, i), b)
      || Covers(Kept(l[i].start, a - l[i].start), b)
      || Covers(Kept(a + size, l[i].End() - (a + size)), b)
  {
    var front, back := Kept(l[i].start, a - l[i].start), Kept(a + size, l[i].End() - (a + size));
    JoinCovers(l[..i] + (front + back), l[i + 1..], b);
    JoinCovers(l[..i], front + back, b);
    JoinCovers(front, back, b);
    JoinCovers(l[..i], l[i + 1..], b);
  }

  lemma GapsCovers(l: seq<Region>, i: nat, a: nat, size: nat, b: int)
    requires i < |l| && l[i].start <= a && a + size <= l[i].End()
    ensures Covers(Gaps(l, i, a, size), b) <==>
      || (l[i].start <= b < a && a - l[i].start < NODE_SIZE)
      || (a + size <= b < l[i].End() && l[i].End() - (a + size) < NODE_SIZE)
  {
    JoinCovers(Dropped(l[i].start, a - l[i].start), Dropped(a + size, l[i].End() - (a + size)), b);
    KeptCovers(l[i].start, a - l[i].start, b);
    KeptCovers(a + size, l[i].End() - (a + size), b);
  }

  lemma LeftoversCover(l: seq<Region>, i: nat, a: nat, size: nat, b: int)
    requires WellFormed(l) && BlockIn(l, i, a, size)
    ensures Covers(Carve(l, i, a, size), b) <==>
      || (Covers(l, b) && !l[i].Has(b))
      || (l[i].start <= b < a && a - l[i].start >= NODE_SIZE)
      || (a + size <= b < l[i].End() && l[i].End() - (a + size) >= NODE_SIZE)
  {
    CarvePieces(l, i, a, size, b);
    KeptCovers(l[i].start, a - l[i].start, b);
    KeptCovers(a + size, l[i].End() - (a + size), b);
    WithoutCorrect(l, i);
  }

  /** Taking a block out removes exactly its bytes and the lost gaps. */
  lemma CarveCovers(l: seq<Region>, i: nat, a: nat, size: nat, b: int)
    requires WellFormed(l) && BlockIn(l, i, a, size)
    ensures Covers(Carve(l, i, a, size), b) <==>
      Covers(l, b) && !Region(a, size).Has(b) && !Covers(Gaps(l, i, a, size), b)
    ensures Covers(Gaps(l, i, a, size), b) ==> l[i].Has(b) && !Region(a, size).Has(b)
  {
    GapsCovers(l, i, a, size, b);
    LeftoversCover(l, i, a, size, b);
    assert l[i].Has(b) ==> Covers(l, b);
  }

  /** A leftover goes back on the list if it can hold a node. */
  function AddLeftover(l: seq<Region>, r: Region): seq<Region> {
    if r.size >= NODE_SIZE then Insert(l, r) else l
  }

  lemma AddLeftoverCovers(l: seq<Region>, r: Region)
    requires WellFormed(l) && r.start > 0 && r.start % NODE_ALIGN == 0 && r.End() < TWO64
    requires forall b :: r.Has(b) ==> !Covers(l, b)
    ensures WellFormed(AddLeftover(l, r))
    ensures r.size >= NODE_SIZE ==> ApartFromAll(l, r)
    ensures forall b :: Covers(AddLeftover(l, r), b) <==> Covers(l, b) || Covers(Kept(r.start, r.size), b)
  {
    if r.size >= NODE_SIZE {
      ApartByBytes(l, r);
      InsertCorrect(l, r);
    }
    forall b
      ensures Covers(AddLeftover(l, r), b) <==> Covers(l, b) || Covers(Kept(r.start, r.size), b)
    {
      KeptCovers(r.start, r.size, b);
    }
  }

  /** Re-adding the leftovers one after the other, as `alloc` does, is possible and
      gives the carved list. */
  lemma CarveByInserts(l: seq<Region>, i: nat, a: nat, size: nat, front: Region, back: Region)
    requires WellFormed(l) && BlockIn(l, i, a, size)
    requires front == Region(l[i].start, a - l[i].start) && back == Region(a + size, l[i].End() - (a + size))
    ensures WellFormed(Without(l, i)) && (front.size >= NODE_SIZE ==> ApartFromAll(Without(l, i), front))
    ensures var l1 := AddLeftover(Without(l, i), front);
      && WellFormed(l1) && (back.size >= NODE_SIZE ==> ApartFromAll(l1, back))
      && AddLeftover(l1, back) == Carve(l, i, a, size)
  {
    var l0 := Without(l, i);
    WithoutCorrect(l, i);
    AddLeftoverCovers(l0, front);
    var l1 := AddLeftover(l0, front);
    BlockEdges(l, i, a, size);
    forall b | back.Has(b) ensures !Covers(l1, b) { KeptCovers(front.start, front.size, b); }
    AddLeftoverCovers(l1, back);
    CarveWellFormed(l, i, a, size);
    forall b
      ensures Covers(AddLeftover(l1, back), b) <==> Covers(Carve(l, i, a, size), b)
    {
      CarvePieces(l, i, a, size, b);
    }
    Canonical(AddLeftover(l1, back), Carve(l, i, a, size));
  }
}

/**
 The search of `alloc` in a build without overflow checks, where rounding up wraps.

 It agrees with the search in unbounded arithmetic exactly when it meets no node whose
 rounded start leaves the address space. If it meets one, it takes that node for a block at
 address 0.
 */
module WrappingSearch {
  import opened Bits
  import opened FreeList
  import opened HeapLedger

  /** The least multiple of `m` that is not below `a`. */
  function RoundUp(a: nat, m: nat): nat
    requires m > 0
  {
    (a + m - 1) / m * m
  }

  lemma RoundUpExact(a: nat, m: nat)
    requires m > 0
    ensures RoundUp(a, m) % m == 0 && a <= RoundUp(a, m) < a + m
  {
    var s := a + m - 1;
    assert s == m * (s / m) + s % m;
    ModUnique(RoundUp(a, m), m, s / m, 0);
  }

  lemma RoundUpUnique(a: nat, m: nat, x: nat)
    requires m > 0 && x % m == 0 && a <= x < a + m
    ensures x == RoundUp(a, m)
  {
    RoundUpExact(a, m);
    if x < RoundUp(a, m) {
      MultiplesApart(x, RoundUp(a, m), m);
    } else if RoundUp(a, m) < x {
      MultiplesApart(RoundUp(a, m), x, m);
    }
  }

  /** Rounding up the start of node `i` leaves the address space. */
  predicate Wraps(l: seq<Region>, i: nat, align: Word)
    requires i < |l|
  {
    l[i].start + align - 1 >= TWO64
  }

  ghost predicate Bounded(l: seq<Region>) {
    forall i :: 0 <= i < |l| ==> 0 < l[i].start < l[i].End() < TWO64
  }

  /** First fit in unbounded arithmetic. */
  function ExactFit(l: seq<Region>, k: nat, size: nat, align: Word): Fit
    requires k <= |l| && align > 0
    decreases |l| - k
  {
    if k == |l| then NoFit
    else if RoundUp(l[k].start, align) + size <= l[k].End() then FitAt(k, RoundUp(l[k].start, align))
    else ExactFit(l, k + 1, size, align)
  }

  /** First fit with 64-bit rounding that wraps; the end of the block is a checked sum. */
  function WrappingFit(l: seq<Region>, k: nat, size: nat, align: Word): (f: Fit)
    requires k <= |l| && align > 0 && Bounded(l)
    ensures f.FitAt? ==> k <= f.index < |l|
    decreases |l| - k
  {
    if k == |l| then NoFit
    else
      var a := AlignUp(l[k].start, align);
      if a + size < TWO64 && a + size <= l[k].End() then FitAt(k, a) else WrappingFit(l, k + 1, size, align)
  }

  /** The search gets to node `i`: no node from `k` on before it has room. */
  ghost predicate Reaches(l: seq<Region>, k: nat, i: nat, size: nat, align: Word)
    requires align > 0
  {
    k <= i < |l| && forall j :: k <= j < i ==> RoundUp(l[j].start, align) + size > l[j].End()
  }

  ghost predicate MeetsWrap(l: seq<Region>, k: nat, size: nat, align: Word)
    requires align > 0
  {
    exists i: nat :: Reaches(l, k, i, size, align) && Wraps(l, i, align)
  }

  /** Where rounding does not wrap it is exact; where it does, it gives 0, and nothing fits
      at the true place. */
  lemma NodeRounded(l: seq<Region>, i: nat, size: nat, align: Word)
    requires Bounded(l) && i < |l| && IsPow2(align)
    ensures !Wraps(l, i, align) ==> AlignUp(l[i].start, align) == RoundUp(l[i].start, align)
    ensures Wraps(l, i, align) ==> AlignUp(l[i].start, align) == 0 && RoundUp(l[i].start, align) > l[i].End()
    ensures Wraps(l, i, align) ==> l[i].End() > ISIZE_LIMIT
  {
    var start := l[i].start;
    AlignUpWraps(start, align);
    LargestWordPower(align);
    if Wraps(l, i, align) {
      RoundUpUnique(start, align, TWO64);
    } else {
      AlignUpExact(start, align);
      RoundUpUnique(start, align, AlignUp(start, align));
    }
  }

  lemma LargestWordPower(align: Word)
    requires IsPow2(align)
    ensures align <= ISIZE_LIMIT && TWO64 % align == 0
  {
    var k :| align == Pow2(k);
    WordExponent(k);
    Pow2Mono(k, 63);
    Pow2Mono(k, 64);
    Pow2Values();
  }

  /** The wrapping search is right exactly when it meets no node that wraps. */
  lemma {:induction false} WrappingExactIff(l: seq<Region>, k: nat, size: nat, align: Word)
    requires Bounded(l) && k <= |l| && IsPow2(align) && size <= ISIZE_LIMIT
    ensures WrappingFit(l, k, size, align) == ExactFit(l, k, size, align) <==> !MeetsWrap(l, k, size, align)
    ensures MeetsWrap(l, k, size, align) ==>
      WrappingFit(l, k, size, align).FitAt? && WrappingFit(l, k, size, align).addr == 0
    ensures MeetsWrap(l, k, size, align) ==> Wraps(l, WrappingFit(l, k, size, align).index, align)
    decreases |l| - k
  {
    if k < |l| {
      NodeRounded(l, k, size, align);
      MeetsHereOrLater(l, k, size, align);
      ExactFitAfter(l, k, size, align);
      if !Wraps(l, k, align) && RoundUp(l[k].start, align) + size > l[k].End() {
        WrappingExactIff(l, k + 1, size, align);
      }
    }
  }

  lemma MeetsHereOrLater(l: seq<Region>, k: nat, size: nat, align: Word)
    requires k < |l| && align > 0
    ensures MeetsWrap(l, k, size, align) <==>
      Wraps(l, k, align) || (RoundUp(l[k].start, align) + size > l[k].End() && MeetsWrap(l, k + 1, size, align))
  {
    if Wraps(l, k, align) {
      assert Reaches(l, k, k, size, align);
    } else if RoundUp(l[k].start, align) + size > l[k].End() && MeetsWrap(l, k + 1, size, align) {
      var i: nat :| Reaches(l, k + 1, i, size, align) && Wraps(l, i, align);
      assert Reaches(l, k, i, size, align);
    }
    if MeetsWrap(l, k, size, align) {
      var i: nat :| Reaches(l, k, i, size, align) && Wraps(l, i, align);
      if i > k { assert Reaches(l, k + 1, i, size, align); }
    }
  }

  /** A fit is never before the node the search is at. */
  lemma {:induction false} ExactFitAfter(l: seq<Region>, k: nat, size: nat, align: Word)
    requires k <= |l| && align > 0
    ensures ExactFit(l, k, size, align) != Overflow
    ensures ExactFit(l, k, size, align).FitAt? ==>
      var f := ExactFit(l, k, size, align);
      k <= f.index < |l| && f.addr == RoundUp(l[f.index].start, align) && f.addr + size <= l[f.index].End()
    decreases |l| - k
  {
    if k < |l| { ExactFitAfter(l, k + 1, size, align); }
  }

  /** What the exact search finds is the lowest aligned address with the whole block free,
      and it finds none only if there is none. */
  lemma {:induction false} ExactFitLowest(l: seq<Region>, k: nat, size: nat, align: Word, x: nat)
    requires WellFormed(l) && k <= |l| && size > 0 && align > 0
    requires x % align == 0 && CoversRange(l, x, size)
    requires forall i :: 0 <= i < k ==> x >= l[i].End()
    ensures ExactFit(l, k, size, align).FitAt? && ExactFit(l, k, size, align).addr <= x
    decreases |l| - k
  {
    var i := RangeInOneNode(l, x, size);
    assert k <= i;
    var a := RoundUp(l[k].start, align);
    RoundUpExact(l[k].start, align);
    assert l[k].start <= x by { if k < i { assert l[k].End() < l[i].start; } }
    assert a <= x by { if x < a { MultiplesApart(x, a, align); } }
    if a + size > l[k].End() {
      assert k < i && l[k].End() < l[i].start;
      ExactFitLowest(l, k + 1, size, align, x);
    }
  }

  /** With overflow checks the search gives the exact answer or panics. */
  lemma {:induction false} CheckedExact(l: seq<Region>, k: nat, size: nat, align: Word)
    requires Bounded(l) && k <= |l| && IsPow2(align)
    requires FirstFit(l, k, size, align) != Overflow
    ensures FirstFit(l, k, size, align) == ExactFit(l, k, size, align)
    decreases |l| - k
  {
    if k < |l| {
      NodeRounded(l, k, size, align);
      if FirstFit(l, k, size, align) == FirstFit(l, k + 1, size, align) {
        CheckedExact(l, k + 1, size, align);
      }
    }
  }

  /** So does the wrapping search on every list on which the checked one does not panic. */
  lemma {:induction false} WrappingAgreesWithChecked(l: seq<Region>, k: nat, size: nat, align: Word)
    requires Bounded(l) && k <= |l| && IsPow2(align)
    requires FirstFit(l, k, size, align) != Overflow
    ensures WrappingFit(l, k, size, align) == FirstFit(l, k, size, align)
    decreases |l| - k
  {
    if k < |l| {
      NodeRounded(l, k, size, align);
      if FirstFit(l, k, size, align) == FirstFit(l, k + 1, size, align) {
        WrappingAgreesWithChecked(l, k + 1, size, align);
      }
    }
  }

  /** What the code then gives back as the gap before the block at 0: from the node's start
      to the end of the address space, which holds bytes that were not free. */
  lemma WrappedGap(l: seq<Region>, i: nat, align: Word)
    requires WellFormed(l) && i < |l| && Wraps(l, i, align)
    ensures var gap := Region(l[i].start, (TWO64 - l[i].start) % TWO64);
      gap.size >= NODE_SIZE && gap.Has(TWO64 - 1) && !Covers(l, TWO64 - 1)
  {
    assert Usable(l[i]);
    ModUnique(TWO64 - l[i].start, TWO64, 0, TWO64 - l[i].start);
    forall j | 0 <= j < |l| ensures !l[j].Has(TWO64 - 1) { assert Usable(l[j]); }
  }
}

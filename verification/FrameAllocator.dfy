/**
 The bitmap physical frame allocator: one bit per 4 KiB frame, 0 = free.

 The bitmap refines the set `free` of free frame numbers; `framesFree` is its size.
 */
module FrameAllocation {
  import opened Bits
  import opened Options
  import opened PageFormat

  const MAX_BITMAP_BYTES: nat := 64 * 1024 * 1024

  datatype DeallocError = OutOfRange | DoubleFree

  function DivCeil(a: nat, b: nat): nat
    requires b > 0
  {
    (a + b - 1) / b
  }

  /** The least number of `b`-byte units that hold `a` bytes. */
  lemma DivCeilExact(a: nat, b: nat)
    requires b > 0
    ensures DivCeil(a, b) * b >= a && DivCeil(a, b) * b < a + b
  {
    var sum := a + b - 1;
    assert sum == DivCeil(a, b) * b + sum % b;
  }

  // ---- One byte of the bitmap ----

  /** `1 << (frame % 8)` */
  function BitMask(k: nat): (m: Byte)
    requires k < 8
  {
    Pow2Values();
    Pow2Mono(k, 7);
    Pow2(k)
  }

  lemma {:induction false} OrBound(a: nat, b: nat, width: nat)
    requires a < Pow2(width) && b < Pow2(width)
    ensures Or(a, b) < Pow2(width)
    decreases width
  {
    if a != 0 && b != 0 {
      OrBound(a / 2, b / 2, width - 1);
    }
  }

  function SetBit(b: Byte, k: nat): (r: Byte)
    requires k < 8
  {
    Pow2Values();
    OrBound(b, BitMask(k), 8);
    Or(b, BitMask(k))
  }

  function ClearBit(b: Byte, k: nat): (r: Byte)
    requires k < 8
  {
    And(b, 255 - BitMask(k))
  }

  predicate BitClear(b: Byte, k: nat)
    requires k < 8
  {
    And(b, BitMask(k)) == 0
  }

  /** Setting or clearing one bit of a byte affects that bit alone. */
  lemma ByteUpdate(b: Byte, k: nat, j: nat)
    requires k < 8 && j < 8
    ensures BitClear(SetBit(b, k), j) <==> j != k && BitClear(b, j)
    ensures BitClear(ClearBit(b, k), j) <==> j == k || BitClear(b, j)
  {
    ClearDigit(b, j);
    ClearDigit(SetBit(b, k), j);
    ClearDigit(ClearBit(b, k), j);
    UpdatedDigit(b, k, j);
  }

  lemma ClearDigit(b: Byte, k: nat)
    requires k < 8
    ensures BitClear(b, k) <==> !Bit(b, k)
  {
    AndFlag(b, k);
  }

  lemma UpdatedDigit(b: Byte, k: nat, j: nat)
    requires k < 8 && j < 8
    ensures Bit(SetBit(b, k), j) <==> j == k || Bit(b, j)
    ensures Bit(ClearBit(b, k), j) <==> j != k && Bit(b, j)
  {
    BitOr(b, BitMask(k), j);
    BitPow2(k, j);
    assert Pow2(8) == 256;
    BitComplement(BitMask(k), 8, j);
    BitAnd(b, 255 - BitMask(k), j);
  }

  lemma FullByte(k: nat)
    requires k < 8
    ensures !BitClear(255, k)
  {
    AndFlag(255, k);
    assert Pow2(8) == 256;
    BitComplement(0, 8, k);
    BitZero(k);
  }

  /** One frame's bit in a whole bitmap. */
  lemma OneFrameSet(before: seq<Byte>, after: seq<Byte>, frame: nat, f: nat)
    requires frame < 8 * |before| && f < 8 * |before|
    requires after == before[frame / 8 := SetBit(before[frame / 8], frame % 8)]
    ensures BitClear(after[f / 8], f % 8) <==> f != frame && BitClear(before[f / 8], f % 8)
  {
    if f / 8 == frame / 8 { ByteUpdate(before[frame / 8], frame % 8, f % 8); }
  }

  lemma OneFrameCleared(before: seq<Byte>, after: seq<Byte>, frame: nat, f: nat)
    requires frame < 8 * |before| && f < 8 * |before|
    requires after == before[frame / 8 := ClearBit(before[frame / 8], frame % 8)]
    ensures BitClear(after[f / 8], f % 8) <==> f == frame || BitClear(before[f / 8], f % 8)
  {
    if f / 8 == frame / 8 { ByteUpdate(before[frame / 8], frame % 8, f % 8); }
  }

  class FrameAllocator {
    const bitmap: array<Byte>
    const totalFrames: nat
    var framesFree: nat
    var nextHint: nat
    /** The abstract state: the numbers of the free frames. */
    ghost var free: set<nat>

    /** The allocator `init` starts from: every frame used. */
    constructor AllUsed(totalFrames: nat, bitmapBytes: nat)
      requires 8 * bitmapBytes >= totalFrames && bitmapBytes <= MAX_BITMAP_BYTES
      ensures Valid() && fresh(bitmap) && this.totalFrames == totalFrames
      ensures free == {} && nextHint == 0
    {
      bitmap := new Byte[bitmapBytes](_ => 255);
      this.totalFrames := totalFrames;
      framesFree, nextHint, free := 0, 0, {};
      new;
      forall f: nat | f < totalFrames ensures !IsFree(f) { FullByte(f % 8); }
    }

    predicate IsFree(frame: nat)
      requires frame < 8 * bitmap.Length
      reads bitmap
    {
      BitClear(bitmap[frame / 8], frame % 8)
    }

    ghost predicate Valid()
      reads this, bitmap
    {
      && totalFrames <= 8 * bitmap.Length
      && bitmap.Length <= MAX_BITMAP_BYTES
      && (forall f :: f in free ==> f < totalFrames)
      && (forall f: nat :: f < totalFrames ==> (IsFree(f) <==> f in free))
      && framesFree == |free|
      && (nextHint == 0 || nextHint < totalFrames)
    }

    method MarkUsed(frame: nat)
      requires Valid() && frame < totalFrames
      modifies this`framesFree, this`free, bitmap
      ensures Valid() && free == old(free) - {frame}
    {
      if IsFree(frame) {
        framesFree := framesFree - 1;
      }
      bitmap[frame / 8] := SetBit(bitmap[frame / 8], frame % 8);
      forall f: nat | f < totalFrames
        ensures IsFree(f) <==> f != frame && old(IsFree(f))
      {
        OneFrameSet(old(bitmap[..]), bitmap[..], frame, f);
      }
      free := free - {frame};
    }

    method MarkFree(frame: nat)
      requires Valid() && frame < totalFrames
      modifies this`framesFree, this`free, bitmap
      ensures Valid() && free == old(free) + {frame}
    {
      if !IsFree(frame) {
        framesFree := framesFree + 1;
      }
      bitmap[frame / 8] := ClearBit(bitmap[frame / 8], frame % 8);
      forall f: nat | f < totalFrames
        ensures IsFree(f) <==> f == frame || old(IsFree(f))
      {
        OneFrameCleared(old(bitmap[..]), bitmap[..], frame, f);
      }
      free := free + {frame};
    }

    /** Allocate any free frame: the first at or after `nextHint`, wrapping around.
        Fails exactly when no frame is free, wherever the hint points. */
    method Allocate() returns (r: Option<nat>)
      requires Valid()
      modifies this, bitmap
      ensures Valid()
      ensures r.None? <==> old(free) == {}
      ensures r.None? <==> old(framesFree) == 0
      ensures r.None? ==> free == old(free) && nextHint == old(nextHint)
      ensures r.Some? ==> r.value % FRAME_SIZE == 0 && TakenFrom(old(free), free, r.value / FRAME_SIZE)
      ensures r.Some? ==> nextHint == (r.value / FRAME_SIZE + 1) % totalFrames
      ensures r.Some? ==> FirstFrom(old(free), old(nextHint), totalFrames, r.value / FRAME_SIZE)
    {
      var total := totalFrames;
      if total == 0 {
        return None;
      }
      for offset := 0 to total
        invariant unchanged(this) && unchanged(bitmap)
        invariant forall o :: 0 <= o < offset ==> Around(nextHint, o, total) !in free
      {
        var frame := Around(nextHint, offset, total);
        if IsFree(frame) {
          assert FirstFrom(free, nextHint, total, frame);
          MarkUsed(frame);
          nextHint := (frame + 1) % total;
          FrameRoundTrip(frame);
          return Some(frame * FRAME_SIZE);
        }
      }
      forall f: nat ensures f !in free {
        if f < total { CyclicOffset(nextHint, f, total); }
      }
      assert free == {};
      return None;
    }

    /** Give a frame back. */
    method Deallocate(addr: nat) returns (r: Result<(), DeallocError>)
      requires Valid()
      modifies this`framesFree, this`free, bitmap
      ensures Valid()
      ensures r == Err(OutOfRange) <==> addr / FRAME_SIZE >= totalFrames
      ensures r == Err(DoubleFree) <==> addr / FRAME_SIZE in old(free)
      ensures r.Ok? ==> addr / FRAME_SIZE !in old(free) && free == old(free) + {addr / FRAME_SIZE}
      ensures r.Err? ==> free == old(free)
    {
      var frame := addr / FRAME_SIZE;
      if frame >= totalFrames {
        return Err(OutOfRange);
      }
      if IsFree(frame) {
        return Err(DoubleFree);
      }
      MarkFree(frame);
      return Ok(());
    }

    /** Allocate the lowest free frame whose number is below that of `limit`. */
    method AllocateBelow(limit: nat) returns (r: Option<nat>)
      requires Valid()
      modifies this`framesFree, this`free, bitmap
      ensures Valid()
      ensures r.None? <==> FramesBelow(old(free), limit / FRAME_SIZE) == {}
      ensures r.None? ==> free == old(free)
      ensures r.Some? ==> r.value % FRAME_SIZE == 0 && TakenFrom(old(free), free, r.value / FRAME_SIZE)
      ensures r.Some? ==> r.value / FRAME_SIZE < limit / FRAME_SIZE
      ensures r.Some? ==> forall f :: f in old(free) ==> r.value / FRAME_SIZE <= f
    {
      var bound := if totalFrames < limit / FRAME_SIZE then totalFrames else limit / FRAME_SIZE;
      for frame := 0 to bound
        invariant unchanged(this) && unchanged(bitmap)
        invariant forall f :: 0 <= f < frame ==> f !in free
      {
        if IsFree(frame) {
          assert frame in FramesBelow(free, limit / FRAME_SIZE);
          MarkUsed(frame);
          FrameRoundTrip(frame);
          return Some(frame * FRAME_SIZE);
        }
      }
      return None;
    }
  }

  function FramesBelow(free: set<nat>, bound: nat): set<nat> {
    set f | f in free && f < bound
  }

  lemma FrameRoundTrip(frame: nat)
    ensures frame * FRAME_SIZE / FRAME_SIZE == frame && frame * FRAME_SIZE % FRAME_SIZE == 0
  {
  }

  /** One frame, and only that one, went from free to used. */
  ghost predicate TakenFrom(before: set<nat>, after: set<nat>, frame: nat) {
    frame in before && after == before - {frame}
  }

  /** The `o`-th frame of a scan that starts at `hint` and wraps around. */
  function Around(hint: nat, o: nat, total: nat): (f: nat)
    requires total > 0
    ensures f < total
  {
    (hint + o) % total
  }

  /** `frame` is the first free one met going round from `hint`. */
  ghost predicate FirstFrom(free: set<nat>, hint: nat, total: nat, frame: nat)
    requires total > 0
  {
    && frame in free
    && exists d: nat :: d < total && frame == Around(hint, d, total)
                     && forall o :: 0 <= o < d ==> Around(hint, o, total) !in free
  }

  lemma AroundIs(hint: nat, o: nat, total: nat)
    requires hint < total && o < total
    ensures Around(hint, o, total) == if hint + o < total then hint + o else hint + o - total
  {
    if hint + o >= total { ModUnique(hint + o, total, 1, hint + o - total); }
  }

  /** Which frame the scan takes: the lowest free one from the hint up, or, if there is none,
      the lowest of all. */
  lemma FirstFromMeans(free: set<nat>, hint: nat, total: nat, frame: nat)
    requires hint < total && frame < total && forall g :: g in free ==> g < total
    ensures FirstFrom(free, hint, total, frame) <==>
      frame in free && forall g :: g in free ==> if hint <= frame then !(hint <= g < frame) else frame <= g < hint
  {
    forall o | 0 <= o < total
      ensures Around(hint, o, total) == if hint + o < total then hint + o else hint + o - total
    {
      AroundIs(hint, o, total);
    }
    var d := if hint <= frame then frame - hint else frame + total - hint;
    assert Around(hint, d, total) == frame;
    if FirstFrom(free, hint, total, frame) {
      forall g | g in free
        ensures if hint <= frame then !(hint <= g < frame) else frame <= g < hint
      {
        assert Around(hint, if hint <= g then g - hint else g + total - hint, total) == g;
      }
    }
  }

  /** The frame the scan picks is determined by the free frames and the hint. */
  lemma FirstFromUnique(free: set<nat>, hint: nat, total: nat, f: nat, g: nat)
    requires total > 0 && FirstFrom(free, hint, total, f) && FirstFrom(free, hint, total, g)
    ensures f == g
  {
    var d: nat :| d < total && f == Around(hint, d, total)
      && forall o :: 0 <= o < d ==> Around(hint, o, total) !in free;
    var e: nat :| e < total && g == Around(hint, e, total)
      && forall o :: 0 <= o < e ==> Around(hint, o, total) !in free;
    assert !(d < e) && !(e < d);
  }

  /** Every frame is met within one round. */
  lemma CyclicOffset(hint: nat, f: nat, total: nat)
    requires f < total
    ensures exists o :: 0 <= o < total && Around(hint, o, total) == f
  {
    var h := hint % total;
    var o := if h <= f then f - h else f + total - h;
    var q := hint / total;
    assert hint == total * q + h;
    assert Around(hint, o, total) == (hint + o) % total;
    if h <= f {
      ModUnique(hint + o, total, q, f);
    } else {
      assert (q + 1) * total == q * total + total;
      ModUnique(hint + o, total, q + 1, f);
    }
  }

  // ---- Every run ----

  /** The tracked frames: free, out on loan in the order they were taken, or used without
      anyone having taken them (the frames initialisation did not free). */
  datatype Loans = Loans(free: set<nat>, held: seq<nat>, reserved: set<nat>)

  datatype LoanEvent =
    | Took(frame: nat)       // `allocate` or `allocate_below`, whichever frame it picks
    | FoundNone              // either of them, answering `None`
    | Returned(index: nat)   // `deallocate` of a frame that is held
    | Stray(frame: nat)      // `deallocate` of a used frame that nobody took
    | Refused(frame: nat)    // `deallocate` of a frame that is free or not tracked

  ghost predicate LoanStep(a: Loans, e: LoanEvent, b: Loans) {
    match e
    case Took(f) => TakenFrom(a.free, b.free, f) && b == Loans(b.free, a.held + [f], a.reserved)
    case FoundNone => b == a
    case Returned(i) => i < |a.held| && b == Loans(a.free + {a.held[i]}, a.held[..i] + a.held[i + 1..], a.reserved)
    case Stray(f) => f in a.reserved && b == Loans(a.free + {f}, a.held, a.reserved - {f})
    case Refused(f) => f !in a.held && f !in a.reserved && b == a
  }

  ghost predicate LoanRun(states: seq<Loans>, events: seq<LoanEvent>) {
    && |states| == |events| + 1
    && forall i {:trigger events[i]} :: 0 <= i < |events| ==> LoanStep(states[i], events[i], states[i + 1])
  }

  /** No frame is held twice; free, held and reserved frames are apart and together are
      `all`. */
  ghost predicate Exclusive(a: Loans, all: set<nat>) {
    && (forall i, j :: 0 <= i < j < |a.held| ==> a.held[i] != a.held[j])
    && (forall f :: f in all <==> f in a.free || f in a.held || f in a.reserved)
    && (forall f :: f in a.held ==> f !in a.free && f !in a.reserved)
    && a.free !! a.reserved
    && |a.free| + |a.held| + |a.reserved| == |all|
  }

  lemma StepExclusive(a: Loans, e: LoanEvent, b: Loans, all: set<nat>)
    requires Exclusive(a, all) && LoanStep(a, e, b)
    ensures Exclusive(b, all)
  {
    match e {
      case Took(f) => TakeExclusive(a, f, b, all);
      case Returned(i) => ReturnExclusive(a, i, b, all);
      case Stray(f) => assert a.reserved == b.reserved + {f};
      case _ =>
    }
  }

  lemma TakeExclusive(a: Loans, f: nat, b: Loans, all: set<nat>)
    requires Exclusive(a, all) && LoanStep(a, Took(f), b)
    ensures Exclusive(b, all)
  {
    assert a.free == b.free + {f};
  }

  lemma ReturnExclusive(a: Loans, i: nat, b: Loans, all: set<nat>)
    requires Exclusive(a, all) && LoanStep(a, Returned(i), b)
    ensures Exclusive(b, all)
  {
    var f := a.held[i];
    forall g ensures g in a.held <==> g in b.held || g == f {
      assert a.held == a.held[..i] + [f] + a.held[i + 1..];
    }
    assert f !in b.held;
  }

  /** Every answer `deallocate` can give for a frame is one of these steps. */
  lemma DeallocateIsStep(a: Loans, all: set<nat>, f: nat, after: set<nat>) returns (e: LoanEvent, b: Loans)
    requires Exclusive(a, all)
    requires after == if f in all && f !in a.free then a.free + {f} else a.free
    ensures LoanStep(a, e, b) && b.free == after
  {
    if f in a.held {
      var i :| 0 <= i < |a.held| && a.held[i] == f;
      e, b := Returned(i), Loans(after, a.held[..i] + a.held[i + 1..], a.reserved);
    } else if f in a.reserved {
      e, b := Stray(f), Loans(after, a.held, a.reserved - {f});
    } else {
      e, b := Refused(f), a;
    }
  }

  /** Over every run of calls, also with frames given back that nobody took, frames held
      at once are distinct, none of them is free, and no tracked frame is ever lost. */
  lemma {:induction false} HeldFramesDistinct(states: seq<Loans>, events: seq<LoanEvent>)
    requires LoanRun(states, events) && states[0].held == [] && states[0].free !! states[0].reserved
    ensures Exclusive(states[|events|], states[0].free + states[0].reserved)
  {
    if events != [] {
      var n := |events| - 1;
      HeldFramesDistinct(states[..n + 1], events[..n]);
      StepExclusive(states[n], events[n], states[n + 1], states[0].free + states[0].reserved);
    }
  }
}

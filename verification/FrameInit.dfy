/**
 Building the frame allocator from an untrusted memory map: three passes over the
 entries, then the bitmap's own frames are taken back.
 */
module FrameInit {
  import opened Bits
  import opened Options
  import opened PageFormat
  import opened MemoryMap
  import opened FrameAllocation

  datatype InitError = InconsistentMemoryMap | NoSuitableBitmapRegion | ImpliedAddressSpaceTooLarge

  /** The per-entry validation every pass applies. */
  predicate Trusted(e: MemoryMapEntry) {
    e.numberOfPages != 0 && e.physicalStart % FRAME_SIZE == 0 && e.EndAddr().Some?
  }

  predicate TrustedConventional(e: MemoryMapEntry) {
    e.typ == EFI_CONVENTIONAL_MEMORY && Trusted(e)
  }

  /** The frames an entry describes. */
  predicate Describes(e: MemoryMapEntry, frame: nat) {
    e.physicalStart / FRAME_SIZE <= frame < e.physicalStart / FRAME_SIZE + e.numberOfPages
  }

  predicate Good(info: MapInfo) { info.Readable() && info.Consistent() }

  /** Pass 1 over the first `k` entries: the highest end of a trusted entry, or 0. */
  function HighestEnd(info: MapInfo, k: nat): nat
    requires Good(info) && k <= info.entryCount
  {
    if k == 0 then 0
    else
      var h := HighestEnd(info, k - 1);
      var e := EntryAt(info, k - 1);
      if Trusted(e) && e.EndAddr().value > h then e.EndAddr().value else h
  }

  /** One of the first `k` entries is trusted, conventional and contains `frame`. */
  ghost predicate Conventional(info: MapInfo, k: nat, frame: nat)
    requires Good(info) && k <= info.entryCount
  {
    exists j :: 0 <= j < k && TrustedConventional(EntryAt(info, j)) && Describes(EntryAt(info, j), frame)
  }

  /** An entry that can hold the bitmap: conventional, wholly below the identity-map
      limit, large enough. */
  predicate CanHost(e: MemoryMapEntry, bitmapBytes: nat) {
    TrustedConventional(e) && e.EndAddr().value <= IDENTITY_MAP_LIMIT
    && e.numberOfPages * FRAME_SIZE >= bitmapBytes
  }

  ghost predicate FirstHost(info: MapInfo, bitmapBytes: nat, k: nat)
    requires Good(info) && k < info.entryCount
  {
    && CanHost(EntryAt(info, k), bitmapBytes)
    && forall j :: 0 <= j < k ==> !CanHost(EntryAt(info, j), bitmapBytes)
  }

  /** Every trusted entry ends at or below the highest end, which is frame-aligned. */
  lemma {:induction false} HighestEndBounds(info: MapInfo, k: nat)
    requires Good(info) && k <= info.entryCount
    ensures HighestEnd(info, k) % FRAME_SIZE == 0
    ensures forall j :: 0 <= j < k && Trusted(EntryAt(info, j)) ==>
      EntryAt(info, j).EndAddr().value <= HighestEnd(info, k)
    ensures HighestEnd(info, k) == 0 <==> forall j :: 0 <= j < k ==> !Trusted(EntryAt(info, j))
    ensures HighestEnd(info, k) != 0 ==>
      exists j :: 0 <= j < k && Trusted(EntryAt(info, j)) && EntryAt(info, j).EndAddr().value == HighestEnd(info, k)
  {
    if k > 0 {
      HighestEndBounds(info, k - 1);
      var e := EntryAt(info, k - 1);
      if Trusted(e) { AlignedEnd(e.physicalStart, e.numberOfPages); }
    }
  }

  lemma AlignedEnd(start: nat, pages: nat)
    requires start % FRAME_SIZE == 0
    ensures (start + pages * FRAME_SIZE) % FRAME_SIZE == 0
    ensures (start + pages * FRAME_SIZE) / FRAME_SIZE == start / FRAME_SIZE + pages
  {
    ModUnique(start + pages * FRAME_SIZE, FRAME_SIZE, start / FRAME_SIZE + pages, 0);
  }

  /** No conventional frame lies beyond the bitmap. */
  lemma ConventionalTracked(info: MapInfo, frame: nat)
    requires Good(info) && Conventional(info, info.entryCount, frame)
    ensures frame < HighestEnd(info, info.entryCount) / FRAME_SIZE
  {
    HighestEndBounds(info, info.entryCount);
    var j :| 0 <= j < info.entryCount && TrustedConventional(EntryAt(info, j)) && Describes(EntryAt(info, j), frame);
    var e := EntryAt(info, j);
    AlignedEnd(e.physicalStart, e.numberOfPages);
  }

  /** Pass 1. */
  method FindHighest(info: MapInfo) returns (highest: nat)
    requires Good(info)
    ensures highest == HighestEnd(info, info.entryCount)
  {
    highest := 0;
    var iter := new MemoryMapIter(info);
    while true
      invariant iter.info == info && iter.index <= info.entryCount
      invariant highest == HighestEnd(info, iter.index)
      decreases info.entryCount - iter.index
    {
      var next := iter.Next();
      if next.None? { return; }
      var entry := next.value;
      if entry.numberOfPages == 0 { continue; }
      if entry.physicalStart % FRAME_SIZE != 0 { continue; }
      var end := entry.EndAddr();
      if end.None? { continue; }
      if end.value > highest {
        highest := end.value;
      }
    }
  }

  /** Pass 2. */
  method FindHost(info: MapInfo, bitmapBytes: nat) returns (r: Option<nat>, ghost host: nat)
    requires Good(info)
    ensures r.None? ==> forall j :: 0 <= j < info.entryCount ==> !CanHost(EntryAt(info, j), bitmapBytes)
    ensures r.Some? ==> host < info.entryCount && FirstHost(info, bitmapBytes, host)
    ensures r.Some? ==> r.value == EntryAt(info, host).physicalStart
  {
    var iter := new MemoryMapIter(info);
    while true
      invariant iter.info == info && iter.index <= info.entryCount
      invariant forall j :: 0 <= j < iter.index ==> !CanHost(EntryAt(info, j), bitmapBytes)
      decreases info.entryCount - iter.index
    {
      host := iter.index;
      var next := iter.Next();
      if next.None? { return None, host; }
      var entry := next.value;
      if entry.typ != EFI_CONVENTIONAL_MEMORY { continue; }
      if entry.numberOfPages == 0 { continue; }
      if entry.physicalStart % FRAME_SIZE != 0 { continue; }
      var end := entry.EndAddr();
      if end.None? { continue; }
      if end.value > IDENTITY_MAP_LIMIT { continue; }
      var regionSize := end.value - entry.physicalStart;
      if regionSize >= bitmapBytes {
        return Some(entry.physicalStart), host;
      }
    }
  }

  /** Pass 3. */
  method FreeConventional(info: MapInfo, allocator: FrameAllocator)
    requires Good(info) && allocator.Valid() && allocator.free == {}
    requires allocator.totalFrames == HighestEnd(info, info.entryCount) / FRAME_SIZE
    modifies allocator`framesFree, allocator`free, allocator.bitmap
    ensures allocator.Valid()
    ensures forall f :: f in allocator.free <==> f >= 0 && Conventional(info, info.entryCount, f)
  {
    var iter := new MemoryMapIter(info);
    while true
      invariant fresh(iter) && iter.info == info && iter.index <= info.entryCount
      invariant allocator.Valid()
      invariant forall f :: f in allocator.free <==> f >= 0 && Conventional(info, iter.index, f)
      decreases info.entryCount - iter.index
    {
      ghost var k := iter.index;
      var next := iter.Next();
      if next.None? { return; }
      var entry := next.value;
      assert forall f: nat :: Conventional(info, k + 1, f) <==>
        Conventional(info, k, f) || (TrustedConventional(entry) && Describes(entry, f));
      if entry.typ != EFI_CONVENTIONAL_MEMORY { continue; }
      if entry.numberOfPages == 0 { continue; }
      if entry.physicalStart % FRAME_SIZE != 0 { continue; }
      if entry.EndAddr().None? { continue; }
      MarkEntryFree(allocator, entry);
      assert forall f: nat | Describes(entry, f) :: f < allocator.totalFrames by {
        forall f: nat | Describes(entry, f) ensures f < allocator.totalFrames {
          ConventionalTracked(info, f);
        }
      }
    }
  }

  /** The inner loop of pass 3; it stops at the end of the bitmap. */
  method MarkEntryFree(allocator: FrameAllocator, entry: MemoryMapEntry)
    requires allocator.Valid()
    modifies allocator`framesFree, allocator`free, allocator.bitmap
    ensures allocator.Valid()
    ensures forall f :: f in allocator.free <==>
      f in old(allocator.free) || (0 <= f < allocator.totalFrames && Describes(entry, f))
  {
    var startFrame := entry.physicalStart / FRAME_SIZE;
    var frame := startFrame;
    while frame < startFrame + entry.numberOfPages
      invariant startFrame <= frame <= startFrame + entry.numberOfPages
      invariant allocator.Valid()
      invariant forall f :: f in allocator.free <==>
        f in old(allocator.free) || (startFrame <= f < frame && f < allocator.totalFrames)
    {
      if frame >= allocator.totalFrames { break; }
      allocator.MarkFree(frame);
      frame := frame + 1;
    }
  }

  /** Reserving the bitmap's own frames. */
  method ReserveFrames(allocator: FrameAllocator, first: nat, count: nat)
    requires allocator.Valid()
    modifies allocator`framesFree, allocator`free, allocator.bitmap
    ensures allocator.Valid()
    ensures forall f :: f in allocator.free <==> f in old(allocator.free) && !(first <= f < first + count)
  {
    for frame := first to first + count
      invariant allocator.Valid()
      invariant forall f :: f in allocator.free <==> f in old(allocator.free) && !(first <= f < frame)
    {
      if frame < allocator.totalFrames {
        allocator.MarkUsed(frame);
      }
    }
  }

  /** What a successful `Init` guarantees: the free frames are exactly those of trusted
      conventional entries, minus the frames under the bitmap, which fit in the first
      entry able to hold them. */
  ghost predicate Initialised(info: MapInfo, free: set<nat>, total: nat, bitmapPhys: nat, host: nat)
    requires Good(info)
  {
    var bitmapBytes := DivCeil(total, 8);
    var first, count := bitmapPhys / FRAME_SIZE, DivCeil(bitmapBytes, FRAME_SIZE);
    && 0 < total == HighestEnd(info, info.entryCount) / FRAME_SIZE
    && bitmapBytes <= MAX_BITMAP_BYTES
    && host < info.entryCount && FirstHost(info, bitmapBytes, host)
    && bitmapPhys == EntryAt(info, host).physicalStart
    && forall f :: f in free <==> f >= 0 && Conventional(info, info.entryCount, f) && !(first <= f < first + count)
  }

  /** The allocator can be built from the map: some entry is trusted, the bitmap for all
      frames up to the highest end is not too large, and an entry can hold it. */
  ghost predicate CanInitialise(info: MapInfo)
    requires info.Readable()
  {
    && info.Consistent() && HighestEnd(info, info.entryCount) > 0
    && var bitmapBytes := DivCeil(HighestEnd(info, info.entryCount) / FRAME_SIZE, 8);
       bitmapBytes <= MAX_BITMAP_BYTES && exists k :: 0 <= k < info.entryCount && CanHost(EntryAt(info, k), bitmapBytes)
  }

  method Init(info: MapInfo) returns (r: Result<FrameAllocator, InitError>, ghost bitmapPhys: nat, ghost host: nat)
    requires info.Readable()
    ensures r == Err(InconsistentMemoryMap) <==>
      !info.Consistent() || forall k :: 0 <= k < info.entryCount ==> !Trusted(EntryAt(info, k))
    ensures r == Err(ImpliedAddressSpaceTooLarge) <==>
      info.Consistent() && DivCeil(HighestEnd(info, info.entryCount) / FRAME_SIZE, 8) > MAX_BITMAP_BYTES
    ensures r == Err(NoSuitableBitmapRegion) <==>
      && info.Consistent()
      && 0 < DivCeil(HighestEnd(info, info.entryCount) / FRAME_SIZE, 8) <= MAX_BITMAP_BYTES
      && forall k :: 0 <= k < info.entryCount ==>
        !CanHost(EntryAt(info, k), DivCeil(HighestEnd(info, info.entryCount) / FRAME_SIZE, 8))
    ensures r.Ok? <==> CanInitialise(info)
    ensures r.Ok? ==> fresh(r.value) && fresh(r.value.bitmap) && r.value.Valid() && r.value.nextHint == 0
    ensures r.Ok? ==> info.Consistent() && Initialised(info, r.value.free, r.value.totalFrames, bitmapPhys, host)
  {
    bitmapPhys, host := 0, 0;
    var claimedSize := info.entryCount * info.descriptorSize;
    if claimedSize >= TWO64 || info.sizeBytes < claimedSize {
      return Err(InconsistentMemoryMap), 0, 0;
    }
    var highestAddr := FindHighest(info);
    HighestEndBounds(info, info.entryCount);
    if highestAddr == 0 {
      return Err(InconsistentMemoryMap), 0, 0;
    }
    var totalFrames := highestAddr / FRAME_SIZE;
    var bitmapBytes := DivCeil(totalFrames, 8);
    if bitmapBytes == 0 || bitmapBytes > MAX_BITMAP_BYTES {
      return Err(ImpliedAddressSpaceTooLarge), 0, 0;
    }
    var place, at := FindHost(info, bitmapBytes);
    if place.None? {
      return Err(NoSuitableBitmapRegion), 0, 0;
    }
    var allocator := new FrameAllocator.AllUsed(totalFrames, bitmapBytes);
    FreeConventional(info, allocator);
    ReserveFrames(allocator, place.value / FRAME_SIZE, DivCeil(bitmapBytes, FRAME_SIZE));
    return Ok(allocator), place.value, at;
  }

  // ---- In terms of what the firmware wrote ----

  /** An entry that is taken into account: aligned, not empty, and not past the end of the
      address space. */
  predicate Sane(e: MemoryMapEntry) {
    e.numberOfPages > 0 && e.physicalStart % 4096 == 0 && e.physicalStart + e.numberOfPages * 4096 < TWO64
  }

  function EndOf(e: MemoryMapEntry): nat { e.physicalStart + e.numberOfPages * 4096 }

  /** `end` is the highest end of a sane entry. */
  ghost predicate IsHighest(ds: seq<RawDescriptor>, end: nat) {
    && (forall k :: 0 <= k < |ds| && Sane(ds[k].entry) ==> EndOf(ds[k].entry) <= end)
    && (exists k :: 0 <= k < |ds| && Sane(ds[k].entry) && EndOf(ds[k].entry) == end)
  }

  /** The entry is conventional memory below 4 GiB with room for `bytes` bytes. */
  predicate RoomFor(e: MemoryMapEntry, bytes: nat) {
    e.typ == 7 && Sane(e) && EndOf(e) <= 0x1_0000_0000 && e.numberOfPages * 4096 >= bytes
  }

  /** Byte `a` is in an entry of type 7. */
  ghost predicate ConventionalByte(ds: seq<RawDescriptor>, a: nat) {
    exists k :: 0 <= k < |ds| && ds[k].entry.typ == 7 && Sane(ds[k].entry)
      && ds[k].entry.physicalStart <= a < EndOf(ds[k].entry)
  }

  lemma TrustedIsSane(e: MemoryMapEntry, frame: nat)
    ensures Trusted(e) <==> Sane(e)
    ensures Trusted(e) ==> e.EndAddr().value == EndOf(e)
    ensures Trusted(e) ==> (Describes(e, frame) <==> e.physicalStart <= frame * 4096 < EndOf(e))
  {
    if Trusted(e) { AlignedEnd(e.physicalStart, e.numberOfPages); }
  }

  lemma HighestIs(info: MapInfo, ds: seq<RawDescriptor>)
    requires Describing(info, ds) && Good(info)
    ensures HighestEnd(info, info.entryCount) > 0 <==> exists k :: 0 <= k < |ds| && Sane(ds[k].entry)
    ensures HighestEnd(info, info.entryCount) > 0 ==> IsHighest(ds, HighestEnd(info, info.entryCount))
  {
    HighestEndBounds(info, info.entryCount);
    forall k | 0 <= k < |ds|
      ensures EntryAt(info, k) == ds[k].entry && (Trusted(ds[k].entry) <==> Sane(ds[k].entry))
      ensures Sane(ds[k].entry) ==> ds[k].entry.EndAddr().value == EndOf(ds[k].entry)
    {
      MapRoundTrip(info, ds, k);
      TrustedIsSane(ds[k].entry, 0);
    }
  }

  lemma ConventionalIs(info: MapInfo, ds: seq<RawDescriptor>, frame: nat)
    requires Describing(info, ds) && Good(info)
    ensures Conventional(info, info.entryCount, frame) <==> ConventionalByte(ds, frame * 4096)
  {
    forall k | 0 <= k < |ds|
      ensures EntryAt(info, k) == ds[k].entry
      ensures TrustedConventional(ds[k].entry) && Describes(ds[k].entry, frame) <==>
        ds[k].entry.typ == 7 && Sane(ds[k].entry) && ds[k].entry.physicalStart <= frame * 4096 < EndOf(ds[k].entry)
    {
      MapRoundTrip(info, ds, k);
      TrustedIsSane(ds[k].entry, frame);
    }
  }

  lemma HostIs(info: MapInfo, ds: seq<RawDescriptor>, bytes: nat, k: nat)
    requires Describing(info, ds) && Good(info) && k < |ds|
    ensures CanHost(EntryAt(info, k), bytes) <==> RoomFor(ds[k].entry, bytes)
  {
    MapRoundTrip(info, ds, k);
    TrustedIsSane(ds[k].entry, 0);
  }

  /** A bitmap for the frames up to `end` is at most 64 MiB long and fits entry `k`. */
  ghost predicate SuitableAt(ds: seq<RawDescriptor>, end: nat, k: nat) {
    && IsHighest(ds, end) && DivCeil(end / 4096, 8) <= 0x400_0000
    && k < |ds| && RoomFor(ds[k].entry, DivCeil(end / 4096, 8))
  }

  /** Initialisation succeeds exactly on the maps with such an entry. */
  lemma InitIffSuitable(info: MapInfo, ds: seq<RawDescriptor>)
    requires Describing(info, ds) && info.Readable()
    ensures CanInitialise(info) <==> exists end: nat, k: nat :: SuitableAt(ds, end, k)
  {
    if CanInitialise(info) {
      HighestIs(info, ds);
      var h := HighestEnd(info, info.entryCount);
      var bytes := DivCeil(h / FRAME_SIZE, 8);
      var k: nat :| k < info.entryCount && CanHost(EntryAt(info, k), bytes);
      HostIs(info, ds, bytes, k);
      assert SuitableAt(ds, h, k);
    }
    if end: nat, k: nat :| SuitableAt(ds, end, k) {
      SuitableInitialises(info, ds, end, k);
    }
  }

  lemma SuitableInitialises(info: MapInfo, ds: seq<RawDescriptor>, end: nat, k: nat)
    requires Describing(info, ds) && info.Readable() && SuitableAt(ds, end, k)
    ensures CanInitialise(info)
  {
    HighestIs(info, ds);
    HighestUnique(ds, end, HighestEnd(info, info.entryCount));
    HostIs(info, ds, DivCeil(end / FRAME_SIZE, 8), k);
  }

  lemma HighestUnique(ds: seq<RawDescriptor>, a: nat, b: nat)
    requires IsHighest(ds, a) && IsHighest(ds, b)
    ensures a == b
  {
  }

  /** What a successful initialisation makes of the map that the firmware wrote: frames up to
      the highest end are tracked; one bit for each is in the first suitable place; and free
      are exactly the frames of conventional memory outside that place. */
  lemma InitFromMap(info: MapInfo, ds: seq<RawDescriptor>, free: set<nat>, total: nat, bitmapPhys: nat, host: nat)
    requires Describing(info, ds) && Good(info) && Initialised(info, free, total, bitmapPhys, host)
    ensures IsHighest(ds, total * 4096)
    ensures host < |ds| && bitmapPhys == ds[host].entry.physicalStart && RoomFor(ds[host].entry, DivCeil(total, 8))
    ensures forall k :: 0 <= k < host ==> !RoomFor(ds[k].entry, DivCeil(total, 8))
    ensures forall f: nat :: f in free <==>
      ConventionalByte(ds, f * 4096)
      && !(bitmapPhys <= f * 4096 < bitmapPhys + DivCeil(DivCeil(total, 8), 4096) * 4096)
  {
    HighestIs(info, ds);
    HighestEndBounds(info, info.entryCount);
    MapRoundTrip(info, ds, host);
    forall k | 0 <= k <= host
      ensures CanHost(EntryAt(info, k), DivCeil(total, 8)) <==> RoomFor(ds[k].entry, DivCeil(total, 8))
    {
      HostIs(info, ds, DivCeil(total, 8), k);
    }
    forall f: nat
      ensures Conventional(info, info.entryCount, f) <==> ConventionalByte(ds, f * 4096)
    {
      ConventionalIs(info, ds, f);
    }
  }

  lemma PagesCover(bytes: nat, pages: nat)
    requires bytes <= pages * FRAME_SIZE
    ensures DivCeil(bytes, FRAME_SIZE) <= pages
  {
  }

  /** The bitmap's whole frames lie inside one conventional entry the kernel can
      reach through the identity map. */
  lemma BitmapPlaced(info: MapInfo, free: set<nat>, total: nat, bitmapPhys: nat, host: nat)
    requires Good(info) && Initialised(info, free, total, bitmapPhys, host)
    ensures bitmapPhys % FRAME_SIZE == 0
    ensures TrustedConventional(EntryAt(info, host))
    ensures bitmapPhys + DivCeil(DivCeil(total, 8), FRAME_SIZE) * FRAME_SIZE
         <= EntryAt(info, host).EndAddr().value <= IDENTITY_MAP_LIMIT
  {
    PagesCover(DivCeil(total, 8), EntryAt(info, host).numberOfPages);
  }

  /** No byte of the bitmap lies in a free frame. */
  lemma BitmapReserved(info: MapInfo, free: set<nat>, total: nat, bitmapPhys: nat, host: nat, byteAddr: nat)
    requires Good(info) && Initialised(info, free, total, bitmapPhys, host)
    requires bitmapPhys <= byteAddr < bitmapPhys + DivCeil(total, 8)
    ensures byteAddr / FRAME_SIZE !in free
  {
    assert bitmapPhys % FRAME_SIZE == 0;
    FrameWithin(bitmapPhys, byteAddr - bitmapPhys, DivCeil(total, 8));
  }

  lemma FrameWithin(base: nat, offset: nat, bytes: nat)
    requires base % FRAME_SIZE == 0 && offset < bytes
    ensures base / FRAME_SIZE <= (base + offset) / FRAME_SIZE < base / FRAME_SIZE + DivCeil(bytes, FRAME_SIZE)
  {
    ModUnique(base + offset, FRAME_SIZE, base / FRAME_SIZE + offset / FRAME_SIZE, offset % FRAME_SIZE);
  }

  lemma FrameSurvives(frame: nat, total: nat)
    requires frame < total && DivCeil(total, 8) <= MAX_BITMAP_BYTES
    ensures frame * FRAME_SIZE < 0x200_0000_0000 && FrameBase(frame * FRAME_SIZE) == frame * FRAME_SIZE
  {
    FrameRoundTrip(frame);
  }

  /** Every frame that can ever be handed out is tracked, lies below 2 TiB, and its
      address survives the 52-bit address field of a page-table entry. */
  lemma TrackedFrame(info: MapInfo, free: set<nat>, total: nat, bitmapPhys: nat, host: nat, frame: nat)
    requires Good(info) && Initialised(info, free, total, bitmapPhys, host) && frame in free
    ensures frame < total
    ensures frame * FRAME_SIZE < 0x200_0000_0000 && FrameBase(frame * FRAME_SIZE) == frame * FRAME_SIZE
  {
    ConventionalTracked(info, frame);
    FrameSurvives(frame, total);
  }
}

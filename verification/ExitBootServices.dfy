/**
 Leaving UEFI boot services with the memory map that is current at that moment
 (section 7.4 of the UEFI Specification 2.10).

 The firmware is any machine that changes its map, and with it the key, whenever it
 allocates or frees and possibly of its own accord between calls, and that lets the
 loader go only with the key of the current map. Every service is callable only while
 boot services are active.
 */
module ExitBootServices {
  import opened Bits
  import opened PageFormat
  import opened Options
  import opened MemoryMap

  const MAX_EXIT_ATTEMPTS: nat := 5
  const MEMORY_MAP_SLACK_ENTRIES: nat := 8

  class Firmware {
    /** A calm firmware changes nothing on its own, grows its map by at most eight
        descriptors in one allocation, and never refuses a current key. */
    const calm: bool
    /** The maps this firmware can report, with their strides. */
    const reports: (seq<Byte>, Word) -> bool
    var active: bool
    var key: nat
    var memoryMap: seq<Byte>
    /** Stride of the map, as reported with it; it can change like the map itself. */
    var descriptorSize: Word
    /** Page allocations in force: first address and page count. */
    var buffers: map<nat, nat>
    /** Allocations refused, copies of the map refused, and exits refused. */
    var refusals: nat
    var copyFailures: nat
    var rejections: nat
    var exitCalls: nat

    constructor (calm: bool, reports: (seq<Byte>, Word) -> bool, memoryMap: seq<Byte>, descriptorSize: Word)
      requires reports(memoryMap, descriptorSize)
      ensures active && Honest() && buffers == map[]
      ensures this.calm == calm && this.reports == reports && this.descriptorSize == descriptorSize
    {
      this.calm, this.reports, this.memoryMap, this.descriptorSize := calm, reports, memoryMap, descriptorSize;
      active, key, buffers := true, 0, map[];
      refusals, copyFailures, rejections, exitCalls := 0, 0, 0, 0;
    }

    /** The current map is one that the firmware can report. */
    predicate Honest()
      reads this
    {
      reports(memoryMap, descriptorSize)
    }

    /** The map has changed at most together with its key. */
    twostate predicate Later()
      reads this
    {
      old(key) <= key && (key == old(key) ==> memoryMap == old(memoryMap) && descriptorSize == old(descriptorSize))
    }

    /** Whatever else goes on in the machine between two calls. */
    method Drift()
      requires Honest()
      modifies this`key, this`memoryMap, this`descriptorSize
      ensures Honest() && Later() && (calm ==> unchanged(this))
    {
      var changed: seq<Byte>, stride: Word := *, *;
      if !calm && reports(changed, stride) {
        key, memoryMap, descriptorSize := key + 1, changed, stride;
      }
    }

    /** The size query: a zero-size request that only reports what a copy would need. */
    method QueryMapSize() returns (needed: nat, stride: Word)
      requires active && Honest()
      modifies this`key, this`memoryMap, this`descriptorSize
      ensures Honest() && Later() && (calm ==> unchanged(this))
      ensures needed == |memoryMap| && stride == descriptorSize
    {
      Drift();
      needed, stride := |memoryMap|, descriptorSize;
    }

    /** Copies the map if it fits `size` bytes, with its key and its stride. */
    method GetMemoryMap(size: nat) returns (ok: bool, needed: nat, mapKey: nat, copied: seq<Byte>, stride: Word)
      requires active && Honest()
      modifies this`key, this`memoryMap, this`descriptorSize, this`copyFailures
      ensures Honest() && Later() && copyFailures == old(copyFailures) + if ok then 0 else 1
      ensures calm ==> key == old(key) && (ok <==> |old(memoryMap)| <= size)
      ensures ok ==> needed == |memoryMap| <= size && mapKey == key && copied == memoryMap && stride == descriptorSize
    {
      Drift();
      var spurious: bool := *;
      ok := |memoryMap| <= size && (calm || !spurious);
      needed, mapKey, stride := |memoryMap|, key, descriptorSize;
      copied := if ok then memoryMap else [];
      copyFailures := copyFailures + if ok then 0 else 1;
    }

    /** Grants whole pages below 4 GiB that are not in use, or refuses. */
    method AllocatePages(pages: nat) returns (r: Option<nat>)
      requires active && Honest()
      modifies this`key, this`memoryMap, this`descriptorSize, this`buffers, this`refusals
      ensures Honest() && Later() && refusals == old(refusals) + if r.None? then 1 else 0
      ensures r.None? ==> buffers == old(buffers)
      ensures r.Some? ==> r.value % FRAME_SIZE == 0 && pages > 0 && r.value + pages * FRAME_SIZE <= IDENTITY_MAP_LIMIT
      ensures r.Some? ==> r.value !in old(buffers) && buffers == old(buffers)[r.value := pages]
      ensures r.Some? ==> key > old(key)
      ensures calm ==> descriptorSize == old(descriptorSize)
      ensures calm ==> |memoryMap| <= |old(memoryMap)| + descriptorSize * MEMORY_MAP_SLACK_ENTRIES
    {
      Drift();
      var a: nat := *;
      if a in buffers || a % FRAME_SIZE != 0 || pages == 0 || a + pages * FRAME_SIZE > IDENTITY_MAP_LIMIT {
        refusals := refusals + 1;
        return None;
      }
      buffers := buffers[a := pages];
      key := key + 1;
      var grown: seq<Byte> := *;
      if reports(grown, descriptorSize)
        && (|grown| <= |memoryMap| + descriptorSize * MEMORY_MAP_SLACK_ENTRIES || !calm) {
        memoryMap := grown;
      }
      return Some(a);
    }

    method FreePages(a: nat, pages: nat)
      requires active && Honest() && a in buffers && buffers[a] == pages
      modifies this`key, this`memoryMap, this`descriptorSize, this`buffers
      ensures Honest() && Later() && buffers == old(buffers) - {a} && key > old(key)
      ensures calm ==> descriptorSize == old(descriptorSize)
    {
      Drift();
      buffers := buffers - {a};
      key := key + 1;
      var shrunk: seq<Byte> := *;
      if reports(shrunk, descriptorSize) {
        memoryMap := shrunk;
      }
    }

    /** Ends boot services, but only with the key of the current map. */
    method Exit(mapKey: nat) returns (ok: bool)
      requires active && Honest()
      modifies this`key, this`memoryMap, this`descriptorSize, this`active, this`rejections, this`exitCalls
      ensures Honest() && Later() && active == !ok && exitCalls == old(exitCalls) + 1
      ensures rejections == old(rejections) + if ok then 0 else 1
      ensures ok ==> mapKey == key
      ensures calm ==> descriptorSize == old(descriptorSize) && (mapKey == old(key) ==> ok)
    {
      Drift();
      exitCalls := exitCalls + 1;
      var spurious: bool := *;
      ok := mapKey == key && (calm || !spurious);
      active := !ok;
      rejections := rejections + if ok then 0 else 1;
    }

    /** Attempts that came to nothing after a buffer had been granted. */
    ghost function StaleAttempts(): nat
      reads this
    {
      copyFailures + rejections
    }
  }

  /** What the kernel is handed. */
  datatype BootMemoryMap = BootMemoryMap(base: nat, bytes: seq<Byte>, sizeBytes: Word, descriptorSize: Word,
    entryCount: Word)

  /** Size and pages of the buffer: room for the map and some slack, in 64-bit
      arithmetic. Any buffer of at least one page is big enough; a size so large that
      rounding it up wraps asks for no page at all. */
  method PlanBuffer(mapSize: nat, descriptorSize: nat) returns (size: Word, pages: nat)
    ensures mapSize + descriptorSize * 8 < TWO64 ==> size == mapSize + descriptorSize * 8
    ensures pages > 0 ==> size <= pages * FRAME_SIZE < size + FRAME_SIZE
    ensures pages == 0 <==> size == 0 || size + FRAME_SIZE - 1 >= TWO64
  {
    size := (mapSize + descriptorSize * MEMORY_MAP_SLACK_ENTRIES) % TWO64;
    pages := AlignUp(size, FRAME_SIZE) / FRAME_SIZE;
    PagesExact(size, AlignUp(size, FRAME_SIZE));
  }

  lemma PagesExact(size: Word, rounded: Word)
    requires rounded == AlignUp(size, FRAME_SIZE)
    ensures rounded % FRAME_SIZE == 0
    ensures size + FRAME_SIZE - 1 < TWO64 ==> size <= rounded < size + FRAME_SIZE
    ensures size + FRAME_SIZE - 1 >= TWO64 ==> rounded == 0
  {
    assert IsPow2(FRAME_SIZE) by { Pow2Values(); assert Pow2(12) == FRAME_SIZE; }
    AlignUpWraps(size, FRAME_SIZE);
    if size + FRAME_SIZE - 1 < TWO64 {
      AlignUpExact(size, FRAME_SIZE);
    }
  }

  /** One attempt succeeded: services have ended, the copy handed over is the map that
      was current then, and its buffer is the one allocation added. */
  ghost predicate HandedOver(out: BootMemoryMap, before: map<nat, nat>, buffers: map<nat, nat>, current: seq<Byte>,
                             descriptorSize: nat) {
    && out.bytes == current && out.sizeBytes == |current|
    && out.descriptorSize == descriptorSize > 0 && out.entryCount == out.sizeBytes / descriptorSize
    && out.base !in before && out.base in buffers && buffers == before[out.base := buffers[out.base]]
    && out.sizeBytes <= buffers[out.base] * FRAME_SIZE
    && out.base % FRAME_SIZE == 0 && out.base + buffers[out.base] * FRAME_SIZE <= IDENTITY_MAP_LIMIT
  }

  /** Why the loader gives up. */
  datatype Failure = NoDescriptors | NoBuffer | TooManyStale

  /** `Crashed` is the division by a stride of zero, reported with the map that was handed
      over, after services have ended. */
  datatype Attempt = Handed(out: BootMemoryMap) | Stale | GiveUp(why: Failure) | Crashed

  /** One turn of the loop. */
  method TryExit(fw: Firmware) returns (r: Attempt)
    requires fw.active && fw.Honest()
    modifies fw
    ensures fw.Honest() && (r.Handed? || r.Crashed? <==> !fw.active)
    ensures r.Handed? ==> HandedOver(r.out, old(fw.buffers), fw.buffers, fw.memoryMap, fw.descriptorSize)
    ensures r.Crashed? ==> fw.descriptorSize == 0
    ensures r.Stale? || r.GiveUp? ==> fw.buffers == old(fw.buffers)
    ensures old(fw.exitCalls) <= fw.exitCalls <= old(fw.exitCalls) + 1
    ensures fw.StaleAttempts() == old(fw.StaleAttempts()) + if r.Stale? then 1 else 0
    ensures fw.refusals == old(fw.refusals) + if r == GiveUp(NoBuffer) then 1 else 0
    ensures r == GiveUp(NoDescriptors) ==> fw.descriptorSize == 0
    ensures r.GiveUp? ==> r.why != TooManyStale
    ensures fw.calm ==> fw.descriptorSize == old(fw.descriptorSize) && r != Crashed
    ensures fw.calm ==> (r == GiveUp(NoDescriptors) <==> fw.descriptorSize == 0)
    ensures fw.calm && r.Stale? ==> |old(fw.memoryMap)| + fw.descriptorSize * MEMORY_MAP_SLACK_ENTRIES >= TWO64
  {
    ghost var buffers := fw.buffers;
    var mapSize, descriptorSize := fw.QueryMapSize();
    if descriptorSize == 0 {
      return GiveUp(NoDescriptors);
    }
    var size, pageCount := PlanBuffer(mapSize, descriptorSize);
    var granted := fw.AllocatePages(pageCount);
    if granted.None? {
      return GiveUp(NoBuffer);
    }
    r := ExitWithBuffer(fw, granted.value, size, pageCount, buffers);
  }

  /** The attempt once its buffer has been granted. */
  method ExitWithBuffer(fw: Firmware, base: nat, size: Word, pageCount: nat, ghost buffers: map<nat, nat>)
    returns (r: Attempt)
    requires fw.active && fw.Honest() && base !in buffers && fw.buffers == buffers[base := pageCount]
    requires base % FRAME_SIZE == 0 && base + pageCount * FRAME_SIZE <= IDENTITY_MAP_LIMIT
    requires size <= pageCount * FRAME_SIZE
    modifies fw
    ensures fw.Honest() && !r.GiveUp? && (r.Stale? <==> fw.active)
    ensures r.Handed? ==> HandedOver(r.out, buffers, fw.buffers, fw.memoryMap, fw.descriptorSize)
    ensures r.Crashed? ==> fw.descriptorSize == 0
    ensures r.Stale? ==> fw.buffers == buffers
    ensures old(fw.exitCalls) <= fw.exitCalls <= old(fw.exitCalls) + 1 && fw.refusals == old(fw.refusals)
    ensures fw.StaleAttempts() == old(fw.StaleAttempts()) + if r.Stale? then 1 else 0
    ensures fw.calm ==> fw.descriptorSize == old(fw.descriptorSize) && (r.Stale? ==> |old(fw.memoryMap)| > size)
  {
    assert fw.buffers - {base} == buffers;
    var ok, mapSize, mapKey, copied, descriptorSize := fw.GetMemoryMap(size);
    if !ok {
      fw.FreePages(base, pageCount);
      return Stale;
    }
    var exited := fw.Exit(mapKey);
    if !exited {
      fw.FreePages(base, pageCount);
      return Stale;
    }
    if descriptorSize == 0 {
      return Crashed;
    }
    WholeDescriptors(mapSize, descriptorSize);
    return Handed(BootMemoryMap(base, copied, mapSize, descriptorSize, mapSize / descriptorSize));
  }

  datatype ExitResult = Left(out: BootMemoryMap) | Stayed(why: Failure) | DividedByZero

  /** Against every such firmware: `Left` means services have ended with the map that was
      current at that moment in a buffer still held. `Stayed` means services are still
      active and nothing is held that was not before, because no descriptors were reported,
      a buffer was refused, or five attempts were stale. A calm firmware is left at the
      first attempt unless it refuses the buffer. */
  method ExitBootServicesWithRetry(fw: Firmware) returns (r: ExitResult)
    requires fw.active && fw.Honest()
    modifies fw
    ensures fw.Honest() && (r.Stayed? <==> fw.active)
    ensures r.Left? ==> HandedOver(r.out, old(fw.buffers), fw.buffers, fw.memoryMap, fw.descriptorSize)
    ensures r.DividedByZero? ==> fw.descriptorSize == 0
    ensures r.Stayed? ==> fw.buffers == old(fw.buffers)
    ensures r == Stayed(NoDescriptors) ==> fw.descriptorSize == 0
    ensures r == Stayed(NoBuffer) ==> fw.refusals == old(fw.refusals) + 1
    ensures r == Stayed(TooManyStale) ==> fw.StaleAttempts() == old(fw.StaleAttempts()) + 5
    ensures fw.exitCalls <= old(fw.exitCalls) + 5
    ensures fw.calm && |old(fw.memoryMap)| + old(fw.descriptorSize) * MEMORY_MAP_SLACK_ENTRIES < TWO64 ==>
      && (r.Stayed? <==> fw.descriptorSize == 0 || fw.refusals > old(fw.refusals))
      && r != DividedByZero && fw.exitCalls <= old(fw.exitCalls) + 1
  {
    for attempt := 0 to MAX_EXIT_ATTEMPTS
      invariant fw.active && fw.Honest() && fw.buffers == old(fw.buffers) && fw.refusals == old(fw.refusals)
      invariant fw.StaleAttempts() == old(fw.StaleAttempts()) + attempt
      invariant fw.exitCalls <= old(fw.exitCalls) + attempt
      invariant fw.calm && |old(fw.memoryMap)| + old(fw.descriptorSize) * MEMORY_MAP_SLACK_ENTRIES < TWO64 ==>
        attempt == 0 && fw.memoryMap == old(fw.memoryMap) && fw.descriptorSize == old(fw.descriptorSize)
    {
      var tried := TryExit(fw);
      match tried {
        case Handed(out) => return Left(out);
        case GiveUp(reason) => return Stayed(reason);
        case Crashed => return DividedByZero;
        case Stale =>
      }
    }
    return Stayed(TooManyStale);
  }
}

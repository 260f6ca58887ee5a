/**
 The UEFI memory map as the bootloader hands it over: raw bytes, one descriptor every
 `descriptorSize` bytes, with the fields of interest at fixed offsets (type at 0,
 start at 8, page count at 24).
 */
module MemoryMap {
  import opened Bits
  import opened Options
  import opened PageFormat

  const EFI_CONVENTIONAL_MEMORY: nat := 7

  datatype MemoryMapEntry = MemoryMapEntry(typ: nat, physicalStart: nat, numberOfPages: nat) {

    /** Exclusive end of the region, unless the page count or the sum overflows. */
    function EndAddr(): (r: Option<nat>)
      ensures r.Some? <==> physicalStart + numberOfPages * FRAME_SIZE < TWO64
      ensures r.Some? ==> r.value == physicalStart + numberOfPages * FRAME_SIZE
    {
      var size := numberOfPages * FRAME_SIZE;
      if size >= TWO64 then None
      else if physicalStart + size >= TWO64 then None
      else Some(physicalStart + size)
    }
  }

  /** The part of `BootInfo` that describes the map; `bytes` is the readable buffer. */
  datatype MapInfo = MapInfo(bytes: seq<Byte>, sizeBytes: Word, descriptorSize: Word, entryCount: Word) {

    /** What the kernel demands of the hand-off: the buffer holds the bytes it claims
        and, whatever the stride, the 32 bytes read at the last descriptor. */
    predicate Readable() {
      sizeBytes <= |bytes| && (Consistent() && entryCount > 0 ==> (entryCount - 1) * descriptorSize + 32 <= |bytes|)
    }

    /** The claimed entries fit the claimed size. */
    predicate Consistent() {
      entryCount * descriptorSize < TWO64 && entryCount * descriptorSize <= sizeBytes
    }
  }

  /** Value of a little-endian byte string. */
  function LittleEndian(b: seq<Byte>): nat {
    if b == [] then 0 else b[0] + 256 * LittleEndian(b[1..])
  }

  /** Inverse of `LittleEndian` at a fixed width. */
  function ToLittleEndian(x: nat, width: nat): (b: seq<Byte>)
    ensures |b| == width
  {
    if width == 0 then [] else [x % 256] + ToLittleEndian(x / 256, width - 1)
  }

  lemma {:induction false} LittleEndianRoundTrip(x: nat, width: nat)
    requires x < Pow2(8 * width)
    ensures LittleEndian(ToLittleEndian(x, width)) == x
    decreases width
  {
    if width > 0 {
      Pow2Add8(8 * (width - 1));
      LittleEndianRoundTrip(x / 256, width - 1);
      assert ToLittleEndian(x, width)[1..] == ToLittleEndian(x / 256, width - 1);
    }
  }

  lemma Pow2Add8(k: nat)
    ensures Pow2(k + 8) == 256 * Pow2(k)
  {
    assert Pow2(k + 8) == 2 * Pow2(k + 7) && Pow2(k + 7) == 2 * Pow2(k + 6) && Pow2(k + 6) == 2 * Pow2(k + 5);
    assert Pow2(k + 5) == 2 * Pow2(k + 4) && Pow2(k + 4) == 2 * Pow2(k + 3) && Pow2(k + 3) == 2 * Pow2(k + 2);
    assert Pow2(k + 2) == 2 * Pow2(k + 1);
  }

  lemma StrideFits(index: nat, count: nat, stride: nat)
    requires index < count
    ensures index * stride <= (count - 1) * stride
  {
    assert (count - 1) * stride == index * stride + (count - 1 - index) * stride;
    assert (count - 1 - index) * stride >= 0;
  }

  /** As many whole descriptors as fit. */
  lemma WholeDescriptors(size: nat, stride: nat)
    requires stride > 0
    ensures size / stride * stride <= size && size / stride <= size
  {
    assert size == size / stride * stride + size % stride;
    MulAtLeast(size / stride, stride);
  }

  /** With the stride of section 7.2 of the UEFI specification or any longer one, the
      claimed size alone makes a map readable. */
  lemma WideStrideReadable(info: MapInfo)
    requires info.sizeBytes <= |info.bytes| && info.descriptorSize >= 32
    ensures info.Readable()
  {
    if info.entryCount > 0 {
      assert info.entryCount * info.descriptorSize == (info.entryCount - 1) * info.descriptorSize + info.descriptorSize;
    }
  }

  /** With a shorter stride it does not: one descriptor of 8 bytes is consistent with its
      claimed size, but the read of its fields goes past the buffer. */
  lemma ShortStrideUnreadable()
    ensures var info := MapInfo(ToLittleEndian(0, 8), 8, 8, 1); info.Consistent() && !info.Readable()
  {
  }

  /** Every read of a readable map is inside its buffer. */
  lemma ReadsFit(info: MapInfo, k: nat)
    requires info.Readable() && info.Consistent() && k < info.entryCount
    ensures k * info.descriptorSize + 32 <= |info.bytes|
  {
    StrideFits(k, info.entryCount, info.descriptorSize);
  }

  /** Descriptor `k`, decoded. */
  function EntryAt(info: MapInfo, k: nat): MemoryMapEntry
    requires info.Readable() && info.Consistent() && k < info.entryCount
  {
    ReadsFit(info, k);
    Decode(info.bytes[k * info.descriptorSize..])
  }

  function Decode(d: seq<Byte>): MemoryMapEntry
    requires 32 <= |d|
  {
    MemoryMapEntry(LittleEndian(d[0..4]), LittleEndian(d[8..16]), LittleEndian(d[24..32]))
  }

  /** Unaligned reads of the three fields. */
  method ReadEntry(bytes: seq<Byte>, offset: nat) returns (e: MemoryMapEntry)
    requires offset + 32 <= |bytes|
    ensures e == Decode(bytes[offset..])
  {
    ghost var d := bytes[offset..];
    assert bytes[offset..offset + 4] == d[0..4] && bytes[offset + 8..offset + 16] == d[8..16];
    assert bytes[offset + 24..offset + 32] == d[24..32];
    var typ := LittleEndian(bytes[offset..offset + 4]);
    var physicalStart := LittleEndian(bytes[offset + 8..offset + 16]);
    var numberOfPages := LittleEndian(bytes[offset + 24..offset + 32]);
    return MemoryMapEntry(typ, physicalStart, numberOfPages);
  }

  /** A descriptor as firmware writes it: the three fields among bytes the kernel
      ignores, padded to whatever stride the firmware chose. */
  function Descriptor(e: MemoryMapEntry, pad4: seq<Byte>, virtualStart: seq<Byte>, tail: seq<Byte>): seq<Byte> {
    ToLittleEndian(e.typ, 4) + pad4 + ToLittleEndian(e.physicalStart, 8) + virtualStart
    + ToLittleEndian(e.numberOfPages, 8) + tail
  }

  lemma DescriptorSlices(a: seq<Byte>, b: seq<Byte>, c: seq<Byte>, d: seq<Byte>, e: seq<Byte>, f: seq<Byte>)
    requires |a| == 4 && |b| == 4 && |c| == 8 && |d| == 8 && |e| == 8
    ensures var s := a + b + c + d + e + f; s[0..4] == a && s[8..16] == c && s[24..32] == e
  {
  }

  /** Decoding recovers the entry whatever the other bytes hold and however long the
      descriptor's tail is. */
  lemma DecodeDescriptor(e: MemoryMapEntry, pad4: seq<Byte>, virtualStart: seq<Byte>, tail: seq<Byte>)
    requires e.typ < Pow2(32) && e.physicalStart < Pow2(64) && e.numberOfPages < Pow2(64)
    requires |pad4| == 4 && |virtualStart| == 8
    ensures Decode(Descriptor(e, pad4, virtualStart, tail)) == e
  {
    DescriptorSlices(ToLittleEndian(e.typ, 4), pad4, ToLittleEndian(e.physicalStart, 8), virtualStart,
      ToLittleEndian(e.numberOfPages, 8), tail);
    LittleEndianRoundTrip(e.typ, 4);
    LittleEndianRoundTrip(e.physicalStart, 8);
    LittleEndianRoundTrip(e.numberOfPages, 8);
  }

  // ---- Records one stride apart ----

  function Joined(chunks: seq<seq<Byte>>): seq<Byte> {
    if chunks == [] then [] else chunks[0] + Joined(chunks[1..])
  }

  /** All records but perhaps the last take up a whole stride. */
  predicate Strided(chunks: seq<seq<Byte>>, stride: nat) {
    forall i :: 0 <= i < |chunks| - 1 ==> |chunks[i]| == stride
  }

  /** Record `k` is found `k` strides in. */
  lemma {:induction false} ChunkAt(chunks: seq<seq<Byte>>, stride: nat, k: nat)
    requires Strided(chunks, stride) && k < |chunks|
    ensures k * stride + |chunks[k]| <= |Joined(chunks)|
    ensures Joined(chunks)[k * stride..k * stride + |chunks[k]|] == chunks[k]
    decreases k
  {
    if k > 0 {
      var first, rest := chunks[0], Joined(chunks[1..]);
      ChunkAt(chunks[1..], stride, k - 1);
      assert k * stride == stride + (k - 1) * stride;
      SliceAfter(first, rest, (k - 1) * stride, |chunks[k]|);
    }
  }

  lemma SliceAfter(a: seq<Byte>, b: seq<Byte>, at: nat, n: nat)
    requires at + n <= |b|
    ensures (a + b)[|a| + at..|a| + at + n] == b[at..at + n]
  {
  }

  /** A descriptor with the bytes that the kernel ignores. */
  datatype RawDescriptor =
    RawDescriptor(entry: MemoryMapEntry, pad4: seq<Byte>, virtualStart: seq<Byte>, tail: seq<Byte>)
  {
    predicate Storable(stride: nat) {
      && |pad4| == 4 && |virtualStart| == 8 && 32 + |tail| == stride
      && entry.typ < 0x1_0000_0000 && entry.physicalStart < TWO64 && entry.numberOfPages < TWO64
    }

    function Bytes(): seq<Byte> { Descriptor(entry, pad4, virtualStart, tail) }
  }

  /** The descriptors of a map as the firmware writes them, padded to the stride. */
  function MapBytes(ds: seq<RawDescriptor>): seq<Byte> {
    Joined(seq(|ds|, i requires 0 <= i < |ds| => ds[i].Bytes()))
  }

  /** `info` describes a buffer in which the firmware wrote the map `ds`, perhaps with more
      behind it. */
  ghost predicate Describing(info: MapInfo, ds: seq<RawDescriptor>) {
    && (forall i :: 0 <= i < |ds| ==> ds[i].Storable(info.descriptorSize))
    && MapBytes(ds) <= info.bytes && info.entryCount == |ds|
    && |ds| * info.descriptorSize <= info.sizeBytes <= |info.bytes|
  }

  /** The map that the kernel reads is the map that the firmware wrote: for every number of
      entries, every stride of at least 32 bytes and whatever the other bytes hold. */
  lemma MapRoundTrip(info: MapInfo, ds: seq<RawDescriptor>, k: nat)
    requires Describing(info, ds) && k < |ds|
    ensures info.Readable() && info.Consistent() && EntryAt(info, k) == ds[k].entry
  {
    var stride, chunks := info.descriptorSize, seq(|ds|, i requires 0 <= i < |ds| => ds[i].Bytes());
    forall i | 0 <= i < |ds| ensures |chunks[i]| == stride && Decode(chunks[i]) == ds[i].entry {
      RecordDecodes(ds[i], stride);
    }
    WideStrideReadable(info);
    ChunkAt(chunks, stride, k);
    EntryFromRecord(info, Joined(chunks), k, k * stride, chunks[k]);
  }

  lemma RecordDecodes(d: RawDescriptor, stride: nat)
    requires d.Storable(stride)
    ensures |d.Bytes()| == stride >= 32 && Decode(d.Bytes()) == d.entry
  {
    assert Pow2(32) == 0x1_0000_0000 && Pow2(64) == TWO64 by { Pow2Values(); }
    DecodeDescriptor(d.entry, d.pad4, d.virtualStart, d.tail);
  }

  lemma EntryFromRecord(info: MapInfo, written: seq<Byte>, k: nat, at: nat, record: seq<Byte>)
    requires info.Readable() && info.Consistent() && k < info.entryCount && at == k * info.descriptorSize
    requires written <= info.bytes && at + |record| <= |written| && written[at..at + |record|] == record
    requires 32 <= |record|
    ensures EntryAt(info, k) == Decode(record)
  {
    ReadsFit(info, k);
    PrefixSlice(written, info.bytes, at, |record|);
    DecodePrefix(info.bytes[at..], |record|);
  }

  lemma PrefixSlice(a: seq<Byte>, b: seq<Byte>, at: nat, n: nat)
    requires a <= b && at + n <= |a|
    ensures b[at..][..n] == a[at..at + n]
  {
  }

  lemma DecodePrefix(d: seq<Byte>, n: nat)
    requires 32 <= n <= |d|
    ensures Decode(d[..n]) == Decode(d)
  {
    assert d[..n][0..4] == d[0..4] && d[..n][8..16] == d[8..16] && d[..n][24..32] == d[24..32];
  }

  /** The kernel's iterator over the map. */
  class MemoryMapIter {
    const info: MapInfo
    var index: nat

    constructor (info: MapInfo)
      ensures this.info == info && index == 0
    {
      this.info := info;
      index := 0;
    }

    method Next() returns (r: Option<MemoryMapEntry>)
      requires info.Readable() && info.Consistent()
      modifies this
      ensures old(index) >= info.entryCount ==> r == None && index == old(index)
      ensures old(index) < info.entryCount ==> r == Some(EntryAt(info, old(index))) && index == old(index) + 1
    {
      if index >= info.entryCount {
        return None;
      }
      ReadsFit(info, index);
      var offset := index * info.descriptorSize;
      index := index + 1;
      var entry := ReadEntry(info.bytes, offset);
      r := Some(entry);
    }
  }
}

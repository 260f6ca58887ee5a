/**
 Loading the kernel's ELF file: what the boot loader accepts, where it puts the image,
 and what every byte of the image is.

 The file is the byte string already read from disk and `memory` is physical memory
 below 4 GiB, where the firmware grants the destination.
 */
module KernelLoader {
  import opened Bits
  import opened Options
  import opened PageFormat
  import opened MemoryMap
  import opened BootPaging

  const EHDR_SIZE: nat := 64
  const PHDR_SIZE: nat := 56
  const PT_LOAD: nat := 1
  const ET_EXEC: nat := 2
  const EM_X86_64: nat := 62
  const ELFCLASS64: nat := 2
  const ELFDATA2LSB: nat := 1
  const KERNEL_MAX_SIZE_BYTES: nat := 512 * PAGE_SIZE_2M

  datatype Header = Header(ident: seq<Byte>, typ: nat, machine: nat, entry: nat, phoff: nat, phentsize: nat, phnum: nat)

  datatype Segment = Segment(typ: nat, offset: nat, vaddr: Word, filesz: nat, memsz: nat)

  lemma {:induction false} LittleEndianBound(b: seq<Byte>)
    ensures LittleEndian(b) < Pow2(8 * |b|)
  {
    if b != [] {
      LittleEndianBound(b[1..]);
      Pow2Add8(8 * (|b| - 1));
    }
  }

  function ReadWord(b: seq<Byte>): Word
    requires |b| == 8
  {
    LittleEndianBound(b);
    Pow2Values();
    LittleEndian(b)
  }

  function ReadHeader(file: seq<Byte>): Header
    requires |file| >= EHDR_SIZE
  {
    Header(file[0..16], LittleEndian(file[16..18]), LittleEndian(file[18..20]), ReadWord(file[24..32]),
           ReadWord(file[32..40]), LittleEndian(file[54..56]), LittleEndian(file[56..58]))
  }

  /** Every field that must be right before the file is trusted. */
  predicate ValidateElfHeader(h: Header)
    requires |h.ident| == 16
  {
    && h.ident[0] == 0x7F && h.ident[1] == 0x45 && h.ident[2] == 0x4C && h.ident[3] == 0x46
    && h.ident[4] == ELFCLASS64 && h.ident[5] == ELFDATA2LSB
    && h.machine == EM_X86_64 && h.typ == ET_EXEC
    && h.phnum != 0 && h.phentsize != 0
  }

  /** Program headers lie one stride apart, whatever the stride. */
  function SegmentOffset(h: Header, i: nat): nat { h.phoff + i * h.phentsize }

  predicate HeadersInFile(file: seq<Byte>, h: Header) {
    forall i :: 0 <= i < h.phnum ==> SegmentOffset(h, i) + PHDR_SIZE <= |file|
  }

  function SegmentAt(file: seq<Byte>, at: nat): Segment
    requires at + PHDR_SIZE <= |file|
  {
    Segment(LittleEndian(file[at..at + 4]), ReadWord(file[at + 8..at + 16]), ReadWord(file[at + 16..at + 24]),
            ReadWord(file[at + 32..at + 40]), ReadWord(file[at + 40..at + 48]))
  }

  function Segments(file: seq<Byte>, h: Header): (segs: seq<Segment>)
    requires HeadersInFile(file, h)
    ensures |segs| == h.phnum
  {
    seq(h.phnum, i requires 0 <= i < h.phnum => SegmentAt(file, SegmentOffset(h, i)))
  }

  /** Program header `i`, read at its stride. */
  method ReadSegment(file: seq<Byte>, h: Header, i: nat) returns (p: Segment)
    requires HeadersInFile(file, h) && i < h.phnum
    ensures p == Segments(file, h)[i]
  {
    return SegmentAt(file, SegmentOffset(h, i));
  }

  /** An ELF header as a linker writes it; `version`, `middle` and `tail` are the fields
      the loader ignores. */
  function HeaderBytes(h: Header, version: seq<Byte>, middle: seq<Byte>, tail: seq<Byte>): seq<Byte> {
    h.ident + ToLittleEndian(h.typ, 2) + ToLittleEndian(h.machine, 2) + version + ToLittleEndian(h.entry, 8)
    + ToLittleEndian(h.phoff, 8) + middle + ToLittleEndian(h.phentsize, 2) + ToLittleEndian(h.phnum, 2) + tail
  }

  /** Reading recovers every field, whatever the others hold. */
  lemma HeaderRoundTrip(h: Header, version: seq<Byte>, middle: seq<Byte>, tail: seq<Byte>)
    requires |h.ident| == 16 && |version| == 4 && |middle| == 14 && |tail| >= 6
    requires h.typ < Pow2(16) && h.machine < Pow2(16) && h.phentsize < Pow2(16) && h.phnum < Pow2(16)
    requires h.entry < Pow2(64) && h.phoff < Pow2(64)
    ensures ReadHeader(HeaderBytes(h, version, middle, tail)) == h
  {
    HeaderSlices(h.ident, ToLittleEndian(h.typ, 2), ToLittleEndian(h.machine, 2), version, ToLittleEndian(h.entry, 8),
                 ToLittleEndian(h.phoff, 8), middle, ToLittleEndian(h.phentsize, 2), ToLittleEndian(h.phnum, 2), tail);
    LittleEndianRoundTrip(h.typ, 2);
    LittleEndianRoundTrip(h.machine, 2);
    LittleEndianRoundTrip(h.entry, 8);
    LittleEndianRoundTrip(h.phoff, 8);
    LittleEndianRoundTrip(h.phentsize, 2);
    LittleEndianRoundTrip(h.phnum, 2);
  }

  lemma HeaderSlices(a: seq<Byte>, b: seq<Byte>, c: seq<Byte>, d: seq<Byte>, e: seq<Byte>,
                     f: seq<Byte>, g: seq<Byte>, h: seq<Byte>, i: seq<Byte>, j: seq<Byte>)
    requires |a| == 16 && |b| == 2 && |c| == 2 && |d| == 4 && |e| == 8 && |f| == 8 && |g| == 14 && |h| == 2 && |i| == 2
    ensures var s := a + b + c + d + e + f + g + h + i + j;
      && s[0..16] == a && s[16..18] == b && s[18..20] == c && s[24..32] == e
      && s[32..40] == f && s[54..56] == h && s[56..58] == i
  {
  }

  /** A program header; `flags`, `paddr`, `align` and what pads it to the stride are ignored. */
  function SegmentBytes(p: Segment, flags: seq<Byte>, paddr: seq<Byte>, align: seq<Byte>): seq<Byte> {
    ToLittleEndian(p.typ, 4) + flags + ToLittleEndian(p.offset, 8) + ToLittleEndian(p.vaddr, 8) + paddr
    + ToLittleEndian(p.filesz, 8) + ToLittleEndian(p.memsz, 8) + align
  }

  lemma SegmentSlices(a: seq<Byte>, b: seq<Byte>, c: seq<Byte>, d: seq<Byte>,
                      e: seq<Byte>, f: seq<Byte>, g: seq<Byte>, h: seq<Byte>)
    requires |a| == 4 && |b| == 4 && |c| == 8 && |d| == 8 && |e| == 8 && |f| == 8 && |g| == 8
    ensures var s := a + b + c + d + e + f + g + h;
      s[0..4] == a && s[8..16] == c && s[16..24] == d && s[32..40] == f && s[40..48] == g
  {
  }

  lemma SegmentRoundTrip(p: Segment, flags: seq<Byte>, paddr: seq<Byte>, align: seq<Byte>)
    requires |flags| == 4 && |paddr| == 8 && |align| >= 8 && p.typ < Pow2(32)
    requires p.offset < Pow2(64) && p.vaddr < Pow2(64) && p.filesz < Pow2(64) && p.memsz < Pow2(64)
    ensures SegmentAt(SegmentBytes(p, flags, paddr, align), 0) == p
  {
    SegmentSlices(ToLittleEndian(p.typ, 4), flags, ToLittleEndian(p.offset, 8), ToLittleEndian(p.vaddr, 8), paddr,
                  ToLittleEndian(p.filesz, 8), ToLittleEndian(p.memsz, 8), align);
    LittleEndianRoundTrip(p.typ, 4);
    LittleEndianRoundTrip(p.offset, 8);
    LittleEndianRoundTrip(p.vaddr, 8);
    LittleEndianRoundTrip(p.filesz, 8);
    LittleEndianRoundTrip(p.memsz, 8);
  }

  /** Bytes after the header. */
  lemma HeaderThen(h: Header, version: seq<Byte>, middle: seq<Byte>, tail: seq<Byte>, rest: seq<Byte>)
    requires |h.ident| == 16 && |version| == 4 && |middle| == 14 && |tail| == 6
    ensures HeaderBytes(h, version, middle, tail + rest) == HeaderBytes(h, version, middle, tail) + rest
    ensures |HeaderBytes(h, version, middle, tail)| == EHDR_SIZE
  {
    var fields := h.ident + ToLittleEndian(h.typ, 2) + ToLittleEndian(h.machine, 2) + version
      + ToLittleEndian(h.entry, 8) + ToLittleEndian(h.phoff, 8) + middle
      + ToLittleEndian(h.phentsize, 2) + ToLittleEndian(h.phnum, 2);
    JoinThree(fields, tail, rest);
  }

  lemma JoinThree(a: seq<Byte>, b: seq<Byte>, c: seq<Byte>)
    ensures a + (b + c) == (a + b) + c
  {
  }

  // ---- Whole files ----

  /** A program header with the bytes that the loader ignores. */
  datatype RawSegment = RawSegment(p: Segment, flags: seq<Byte>, paddr: seq<Byte>, align: seq<Byte>) {
    predicate Storable() {
      && |flags| == 4 && |paddr| == 8 && |align| >= 8 && p.typ < 0x1_0000_0000
      && p.offset < TWO64 && p.filesz < TWO64 && p.memsz < TWO64
    }

    function Bytes(): seq<Byte> { SegmentBytes(p, flags, paddr, align) }
  }

  function TableBytes(raw: seq<RawSegment>): seq<Byte> {
    Joined(seq(|raw|, i requires 0 <= i < |raw| => raw[i].Bytes()))
  }

  /** An executable as a linker lays it out: ELF header, a gap, the program headers one stride
      apart, and the rest. */
  datatype ElfFile = ElfFile(h: Header, version: seq<Byte>, middle: seq<Byte>, tail: seq<Byte>, gap: seq<Byte>,
                           raw: seq<RawSegment>, rest: seq<Byte>)
  {
    predicate Storable() {
      && |h.ident| == 16 && |version| == 4 && |middle| == 14 && |tail| == 6
      && h.typ < 0x1_0000 && h.machine < 0x1_0000 && h.phentsize < 0x1_0000 && h.phnum < 0x1_0000
      && h.entry < TWO64 && h.phoff < TWO64
      && h.phoff == EHDR_SIZE + |gap| && h.phnum == |raw|
      && StrideKept(raw, h.phentsize)
    }

    function Segments(): seq<Segment> { seq(|raw|, i requires 0 <= i < |raw| => raw[i].p) }

    function Bytes(): seq<Byte> { HeaderBytes(h, version, middle, tail) + gap + TableBytes(raw) + rest }
  }

  predicate StrideKept(raw: seq<RawSegment>, stride: nat) {
    && (forall i :: 0 <= i < |raw| ==> raw[i].Storable())
    && (forall i :: 0 <= i < |raw| - 1 ==> |raw[i].Bytes()| == stride)
  }

  /** Program header `i` is read as it was written. */
  lemma TableSegment(before: seq<Byte>, raw: seq<RawSegment>, rest: seq<Byte>, stride: nat, i: nat, at: nat)
    requires StrideKept(raw, stride) && i < |raw| && at == i * stride
    ensures |before| + at + PHDR_SIZE <= |before + TableBytes(raw) + rest|
    ensures SegmentAt(before + TableBytes(raw) + rest, |before| + at) == raw[i].p
  {
    ChunkAt(seq(|raw|, j requires 0 <= j < |raw| => raw[j].Bytes()), stride, i);
    RawSegmentReads(raw[i]);
    SegmentWithin(before, TableBytes(raw), rest, at, raw[i].Bytes());
  }

  lemma RawSegmentReads(r: RawSegment)
    requires r.Storable()
    ensures |r.Bytes()| >= PHDR_SIZE && SegmentAt(r.Bytes(), 0) == r.p
  {
    assert Pow2(32) == 0x1_0000_0000 && Pow2(64) == TWO64 by { Pow2Values(); }
    SegmentRoundTrip(r.p, r.flags, r.paddr, r.align);
  }

  lemma SegmentWithin(before: seq<Byte>, table: seq<Byte>, rest: seq<Byte>, at: nat, p: seq<Byte>)
    requires |p| >= PHDR_SIZE && at + |p| <= |table| && table[at..at + |p|] == p
    ensures SegmentAt(before + table + rest, |before| + at) == SegmentAt(p, 0)
  {
    var f, n := before + table + rest, |before| + at;
    assert f[n..n + |p|] == p;
    assert f[n..n + 4] == p[0..4] && f[n + 8..n + 16] == p[8..16] && f[n + 16..n + 24] == p[16..24];
    assert f[n + 32..n + 40] == p[32..40] && f[n + 40..n + 48] == p[40..48];
  }

  lemma HeaderFirst(h: Header, version: seq<Byte>, middle: seq<Byte>, tail: seq<Byte>, more: seq<Byte>)
    requires |h.ident| == 16 && |version| == 4 && |middle| == 14 && |tail| == 6
    requires h.typ < 0x1_0000 && h.machine < 0x1_0000 && h.phentsize < 0x1_0000 && h.phnum < 0x1_0000
    requires h.entry < TWO64 && h.phoff < TWO64
    ensures |HeaderBytes(h, version, middle, tail)| == EHDR_SIZE
    ensures ReadHeader(HeaderBytes(h, version, middle, tail) + more) == h
  {
    HeaderThen(h, version, middle, tail, more);
    assert Pow2(16) == 0x1_0000 && Pow2(64) == TWO64 by { Pow2Values(); }
    HeaderRoundTrip(h, version, middle, tail + more);
  }

  lemma JoinFour(a: seq<Byte>, b: seq<Byte>, c: seq<Byte>, d: seq<Byte>)
    ensures a + b + c + d == a + (b + c + d)
  {
  }

  /** The loader sees the program headers that the linker wrote: any number of them, at any
      stride, wherever they start and whatever the other bytes hold. */
  lemma FileRoundTrip(elf: ElfFile)
    requires elf.Storable()
    ensures Parsable(elf.Bytes()) && |elf.Bytes()| >= EHDR_SIZE && ReadHeader(elf.Bytes()) == elf.h
    ensures FileSegments(elf.Bytes()) == if ValidateElfHeader(elf.h) then elf.Segments() else []
  {
    var h, front := elf.h, HeaderBytes(elf.h, elf.version, elf.middle, elf.tail);
    HeaderFirst(h, elf.version, elf.middle, elf.tail, elf.gap + TableBytes(elf.raw) + elf.rest);
    JoinFour(front, elf.gap, TableBytes(elf.raw), elf.rest);
    TableParses(elf.Bytes(), front + elf.gap, h, elf.raw, elf.rest);
    assert HeadersInFile(elf.Bytes(), h) ==> Segments(elf.Bytes(), h) == elf.Segments();
  }

  lemma TableParses(file: seq<Byte>, before: seq<Byte>, h: Header, raw: seq<RawSegment>, rest: seq<Byte>)
    requires StrideKept(raw, h.phentsize) && h.phnum == |raw| && h.phoff == |before|
    requires file == before + TableBytes(raw) + rest
    ensures HeadersInFile(file, h) && forall i :: 0 <= i < |raw| ==> Segments(file, h)[i] == raw[i].p
  {
    forall i | 0 <= i < |raw|
      ensures SegmentOffset(h, i) + PHDR_SIZE <= |file| && SegmentAt(file, SegmentOffset(h, i)) == raw[i].p
    {
      TableSegment(before, raw, rest, h.phentsize, i, i * h.phentsize);
    }
  }

  /** Which headers pass, byte by byte: the magic number, 64-bit little-endian, an executable
      for x86-64, and program headers of some number and size. */
  lemma AcceptedHeader(file: seq<Byte>)
    requires |file| >= EHDR_SIZE
    ensures ValidateElfHeader(ReadHeader(file)) <==>
      && file[0..6] == [0x7F, 0x45, 0x4C, 0x46, 2, 1] && file[16..20] == [2, 0, 62, 0]
      && file[54..56] != [0, 0] && file[56..58] != [0, 0]
  {
    TwoBytes(file[16..18]);
    TwoBytes(file[18..20]);
    TwoBytes(file[54..56]);
    TwoBytes(file[56..58]);
    var h := ReadHeader(file);
    assert h.ident[0] == file[0] && h.ident[1] == file[1] && h.ident[2] == file[2];
    assert h.ident[3] == file[3] && h.ident[4] == file[4] && h.ident[5] == file[5];
    assert file[0..6] == [file[0], file[1], file[2], file[3], file[4], file[5]];
    assert file[16..20] == file[16..18] + file[18..20] && file[16..18] + file[18..20] == file[16..20];
    assert h.typ == ET_EXEC <==> file[16..18] == [2, 0];
    assert h.machine == EM_X86_64 <==> file[18..20] == [62, 0];
    assert h.phentsize == 0 <==> file[54..56] == [0, 0];
    assert h.phnum == 0 <==> file[56..58] == [0, 0];
    FourBytes(file[16..18], file[18..20], file[16..20]);
  }

  lemma FourBytes(a: seq<Byte>, b: seq<Byte>, c: seq<Byte>)
    requires |a| == 2 && |b| == 2 && c == a + b
    ensures c == [2, 0, 62, 0] <==> a == [2, 0] && b == [62, 0]
  {
    assert a == c[..2] && b == c[2..];
  }

  lemma TwoBytes(b: seq<Byte>)
    requires |b| == 2
    ensures var lo: nat, hi: nat := b[0], b[1]; b == [b[0], b[1]] && LittleEndian(b) == lo + 256 * hi
  {
    assert LittleEndian(b[1..]) == b[1] + 256 * LittleEndian(b[1..][1..]);
  }

  predicate IsLoad(p: Segment) { p.typ == PT_LOAD }

  /** End of a segment, in 64-bit arithmetic. */
  function SegmentEnd(p: Segment): Word { (p.vaddr + p.memsz) % TWO64 }

  // ---- The span of the image ----

  function LowestVaddr(segs: seq<Segment>): Word {
    if segs == [] then TWO64 - 1
    else
      var p, rest := segs[|segs| - 1], LowestVaddr(segs[..|segs| - 1]);
      if IsLoad(p) && p.vaddr < rest then p.vaddr else rest
  }

  function HighestEnd(segs: seq<Segment>): Word {
    if segs == [] then 0
    else
      var p, rest := segs[|segs| - 1], HighestEnd(segs[..|segs| - 1]);
      if IsLoad(p) && SegmentEnd(p) > rest then SegmentEnd(p) else rest
  }

  predicate AllHigh(segs: seq<Segment>) {
    forall i :: 0 <= i < |segs| && IsLoad(segs[i]) ==> segs[i].vaddr >= KERNEL_VIRTUAL_BASE
  }

  predicate AnyLoad(segs: seq<Segment>) {
    exists i :: 0 <= i < |segs| && IsLoad(segs[i])
  }

  /** The lowest address and the highest end are bounds, and are attained. */
  lemma {:induction false} SpanExact(segs: seq<Segment>)
    ensures forall i :: 0 <= i < |segs| && IsLoad(segs[i]) ==>
      LowestVaddr(segs) <= segs[i].vaddr && SegmentEnd(segs[i]) <= HighestEnd(segs)
    ensures AnyLoad(segs) ==> exists i :: 0 <= i < |segs| && IsLoad(segs[i]) && segs[i].vaddr == LowestVaddr(segs)
    ensures AnyLoad(segs) ==> exists i :: 0 <= i < |segs| && IsLoad(segs[i]) && SegmentEnd(segs[i]) == HighestEnd(segs)
    ensures !AnyLoad(segs) ==> LowestVaddr(segs) == TWO64 - 1 && HighestEnd(segs) == 0
  {
    if segs != [] {
      var n := |segs| - 1;
      var init, p := segs[..n], segs[n];
      SpanExact(init);
      forall i | 0 <= i < n ensures segs[i] == init[i] {}
      if AnyLoad(init) {
        var i :| 0 <= i < |init| && IsLoad(init[i]) && init[i].vaddr == LowestVaddr(init);
        var j :| 0 <= j < |init| && IsLoad(init[j]) && SegmentEnd(init[j]) == HighestEnd(init);
        assert IsLoad(segs[i]) && IsLoad(segs[j]);
      }
    }
  }

  lemma OneMoreHeader(segs: seq<Segment>, i: nat)
    requires i < |segs|
    ensures AllHigh(segs[..i + 1]) <==> AllHigh(segs[..i]) && (IsLoad(segs[i]) ==> segs[i].vaddr >= KERNEL_VIRTUAL_BASE)
    ensures AnyLoad(segs[..i + 1]) <==> AnyLoad(segs[..i]) || IsLoad(segs[i])
  {
    var a, b := segs[..i], segs[..i + 1];
    assert b[i] == segs[i];
    forall j | 0 <= j < i ensures b[j] == a[j] {}
    if AnyLoad(a) {
      var j :| 0 <= j < |a| && IsLoad(a[j]);
      assert IsLoad(b[j]);
    }
  }

  /** One pass over the program headers; `None` for a segment below the kernel's base
      or no segment at all. */
  method FindSpan(file: seq<Byte>, h: Header) returns (r: Option<(Word, Word)>)
    requires HeadersInFile(file, h)
    ensures r.Some? <==> AllHigh(Segments(file, h)) && AnyLoad(Segments(file, h))
    ensures r.Some? ==> r.value == (LowestVaddr(Segments(file, h)), HighestEnd(Segments(file, h)))
  {
    ghost var segs := Segments(file, h);
    var minVAddr: Word, maxVAddrEnd: Word, found := TWO64 - 1, 0, false;
    for i := 0 to h.phnum
      invariant AllHigh(segs[..i]) && (found <==> AnyLoad(segs[..i]))
      invariant minVAddr == LowestVaddr(segs[..i]) && maxVAddrEnd == HighestEnd(segs[..i])
    {
      var p := ReadSegment(file, h, i);
      assert segs[..i + 1][..i] == segs[..i];
      OneMoreHeader(segs, i);
      if IsLoad(p) {
        if p.vaddr < KERNEL_VIRTUAL_BASE {
          return None;
        }
        found := true;
        if p.vaddr < minVAddr { minVAddr := p.vaddr; }
        if SegmentEnd(p) > maxVAddrEnd { maxVAddrEnd := SegmentEnd(p); }
      }
    }
    assert segs[..h.phnum] == segs;
    if !found {
      return None;
    }
    return Some((minVAddr, maxVAddrEnd));
  }

  // ---- What is accepted ----

  datatype Plan = Plan(lowest: Word, size: Word, entry: Word)

  /** 64-bit `RoundUpTo(end - lowest, 2 MiB)`. */
  function ImageSize(lowest: Word, end: Word): Word {
    AlignUp((end + TWO64 - lowest) % TWO64, PAGE_SIZE_2M)
  }

  /** Program headers are read only once the ELF header has passed; then they must lie
      in the file, which the loader does not test. */
  predicate Parsable(file: seq<Byte>) {
    |file| >= EHDR_SIZE && ValidateElfHeader(ReadHeader(file)) ==> HeadersInFile(file, ReadHeader(file))
  }

  /** The program headers of a file, none if its header does not pass. */
  function FileSegments(file: seq<Byte>): seq<Segment>
    requires Parsable(file)
  {
    if |file| < EHDR_SIZE || !ValidateElfHeader(ReadHeader(file)) then [] else Segments(file, ReadHeader(file))
  }

  /** The image a file asks for, if the loader accepts the file. */
  function PlanOf(file: seq<Byte>): Option<Plan>
    requires Parsable(file)
  {
    if |file| < EHDR_SIZE || !ValidateElfHeader(ReadHeader(file)) then None
    else
      var h, segs := ReadHeader(file), FileSegments(file);
      var lowest, end := LowestVaddr(segs), HighestEnd(segs);
      var size := ImageSize(lowest, end);
      if AllHigh(segs) && AnyLoad(segs) && 0 < size <= KERNEL_MAX_SIZE_BYTES && lowest <= h.entry < end
      then Some(Plan(lowest, size, h.entry)) else None
  }

  method MakePlan(file: seq<Byte>) returns (r: Option<Plan>)
    requires Parsable(file)
    ensures r == PlanOf(file)
  {
    if |file| < EHDR_SIZE {
      return None;
    }
    var h := ReadHeader(file);
    if !ValidateElfHeader(h) {
      return None;
    }
    var span := FindSpan(file, h);
    if span.None? {
      return None;
    }
    var (minVAddr, maxVAddrEnd) := span.value;
    var alignedSize := ImageSize(minVAddr, maxVAddrEnd);
    if alignedSize == 0 || alignedSize > KERNEL_MAX_SIZE_BYTES {
      return None;
    }
    if h.entry < minVAddr || h.entry >= maxVAddrEnd {
      return None;
    }
    return Some(Plan(minVAddr, alignedSize, h.entry));
  }

  // ---- Which files are accepted, segment by segment ----

  /** Segment `i` is loaded. */
  predicate Loads(segs: seq<Segment>, i: nat) { i < |segs| && segs[i].typ == 1 }

  function EndOf(p: Segment): nat { p.vaddr + p.memsz }

  /** Something is loaded, all of it from the kernel's base up and within 1 GiB, and the entry
      point lies between the first and the last byte. */
  ghost predicate Loadable(segs: seq<Segment>, entry: nat) {
    && (forall i: nat :: Loads(segs, i) ==> segs[i].vaddr >= 0xFFFF_FFFF_8000_0000)
    && (forall i: nat, j: nat :: Loads(segs, i) && Loads(segs, j) ==> EndOf(segs[j]) - segs[i].vaddr <= 0x4000_0000)
    && (exists i: nat :: Loads(segs, i) && segs[i].vaddr <= entry)
    && (exists i: nat :: Loads(segs, i) && entry < EndOf(segs[i]))
  }

  /** For every file whose segments do not wrap around the address space: the loader accepts
      it if and only if its header passes and its segments are loadable. */
  lemma AcceptedIff(file: seq<Byte>)
    requires Parsable(file)
    requires forall i: nat :: Loads(FileSegments(file), i) ==> EndOf(FileSegments(file)[i]) < TWO64
    ensures PlanOf(file).Some? <==>
      && |file| >= EHDR_SIZE && ValidateElfHeader(ReadHeader(file))
      && Loadable(FileSegments(file), LittleEndian(file[24..32]))
  {
    var segs := FileSegments(file);
    if |file| >= EHDR_SIZE && ValidateElfHeader(ReadHeader(file)) {
      SpanLoadable(segs, ReadHeader(file).entry);
    }
  }

  lemma SpanLoadable(segs: seq<Segment>, entry: Word)
    requires forall i: nat :: Loads(segs, i) ==> EndOf(segs[i]) < TWO64
    ensures var lowest, end := LowestVaddr(segs), HighestEnd(segs);
      var size := ImageSize(lowest, end);
      AllHigh(segs) && AnyLoad(segs) && 0 < size <= KERNEL_MAX_SIZE_BYTES && lowest <= entry < end <==>
        Loadable(segs, entry)
  {
    var lowest, end := LowestVaddr(segs), HighestEnd(segs);
    SpanExact(segs);
    assert AllHigh(segs) <==> forall i: nat :: Loads(segs, i) ==> segs[i].vaddr >= KERNEL_VIRTUAL_BASE;
    forall i: nat | Loads(segs, i) ensures SegmentEnd(segs[i]) == EndOf(segs[i]) && AnyLoad(segs) {
      NoWrap(segs[i]);
      assert IsLoad(segs[i]);
    }
    if AnyLoad(segs) {
      var i: nat :| i < |segs| && IsLoad(segs[i]) && segs[i].vaddr == lowest;
      var j: nat :| j < |segs| && IsLoad(segs[j]) && SegmentEnd(segs[j]) == end;
      assert Loads(segs, i) && Loads(segs, j);
      if AllHigh(segs) && lowest < end { SizeWithin(lowest, end); }
    }
  }

  lemma SizeWithin(lowest: Word, end: Word)
    requires KERNEL_VIRTUAL_BASE <= lowest < end
    ensures 0 < ImageSize(lowest, end) <= KERNEL_MAX_SIZE_BYTES <==> end - lowest <= 0x4000_0000
  {
    SizeExact(lowest, end);
    var size := ImageSize(lowest, end);
    if end - lowest <= 0x4000_0000 && size > KERNEL_MAX_SIZE_BYTES {
      MultiplesApart(KERNEL_MAX_SIZE_BYTES, size, PAGE_SIZE_2M);
    }
  }

  /** A segment's file bytes are in the file, and it has no more of them than bytes in
      memory, whose end does not wrap: what makes it well formed beyond what the loader
      tests. */
  predicate WellFormedSegment(file: seq<Byte>, p: Segment) {
    IsLoad(p) ==> p.offset + p.filesz <= |file| && p.filesz <= p.memsz && p.vaddr + p.memsz < TWO64
  }

  predicate WellFormed(file: seq<Byte>, segs: seq<Segment>) {
    forall i :: 0 <= i < |segs| ==> WellFormedSegment(file, segs[i])
  }

  /** The file bytes of every segment are in the file. */
  predicate InFile(file: seq<Byte>, segs: seq<Segment>) {
    forall i :: 0 <= i < |segs| && IsLoad(segs[i]) ==> segs[i].offset + segs[i].filesz <= |file|
  }

  /** The bytes copied for every segment fall inside the image. */
  predicate CopiesInside(segs: seq<Segment>, lowest: Word, size: nat) {
    forall i :: 0 <= i < |segs| && IsLoad(segs[i]) ==>
      lowest <= segs[i].vaddr && segs[i].vaddr + segs[i].filesz <= lowest + size
  }

  lemma SizeExact(lowest: Word, end: Word)
    requires KERNEL_VIRTUAL_BASE <= lowest < end
    ensures ImageSize(lowest, end) % PAGE_SIZE_2M == 0 && ImageSize(lowest, end) > 0
    ensures end - lowest <= ImageSize(lowest, end) < end - lowest + PAGE_SIZE_2M
  {
    ModUnique(end + TWO64 - lowest, TWO64, 1, end - lowest);
    assert IsPow2(PAGE_SIZE_2M) by { Pow2Values(); assert Pow2(21) == PAGE_SIZE_2M; }
    AlignUpExact(end - lowest, PAGE_SIZE_2M);
  }

  /** Every segment lies in the image. */
  predicate HoldsAll(segs: seq<Segment>, lowest: Word, size: nat) {
    forall i :: 0 <= i < |segs| && IsLoad(segs[i]) ==>
      lowest <= segs[i].vaddr && segs[i].vaddr + segs[i].memsz <= lowest + size
  }

  lemma SpanHoldsAll(file: seq<Byte>, segs: seq<Segment>, size: nat)
    requires WellFormed(file, segs) && LowestVaddr(segs) <= HighestEnd(segs) <= LowestVaddr(segs) + size
    ensures HoldsAll(segs, LowestVaddr(segs), size)
  {
    SpanExact(segs);
    forall i | 0 <= i < |segs| && IsLoad(segs[i])
      ensures LowestVaddr(segs) <= segs[i].vaddr && segs[i].vaddr + segs[i].memsz <= LowestVaddr(segs) + size
    {
      assert WellFormedSegment(file, segs[i]);
      NoWrap(segs[i]);
    }
  }

  lemma NoWrap(p: Segment)
    requires p.vaddr + p.memsz < TWO64
    ensures SegmentEnd(p) == p.vaddr + p.memsz
  {
  }

  /** An accepted image is a whole number of 2 MiB pages, at most 1 GiB, starts at the
      lowest segment, and has the entry point inside. */
  lemma PlanExact(file: seq<Byte>, plan: Plan)
    requires Parsable(file) && PlanOf(file) == Some(plan)
    ensures KERNEL_VIRTUAL_BASE <= plan.lowest <= plan.entry < plan.lowest + plan.size
    ensures plan.size % 0x20_0000 == 0 && 0 < plan.size <= 0x4000_0000
    ensures |file| >= EHDR_SIZE && plan.entry == LittleEndian(file[24..32])
    ensures var segs := FileSegments(file);
      && plan.lowest == LowestVaddr(segs)
      && HighestEnd(segs) <= plan.lowest + plan.size < HighestEnd(segs) + 0x20_0000
      && exists i :: 0 <= i < |segs| && IsLoad(segs[i]) && segs[i].vaddr == plan.lowest
  {
    var segs := FileSegments(file);
    SpanExact(segs);
    SizeExact(plan.lowest, HighestEnd(segs));
  }

  /** If the file is well formed, the image holds every segment. */
  lemma PlanHoldsImage(file: seq<Byte>, plan: Plan)
    requires Parsable(file) && PlanOf(file) == Some(plan) && WellFormed(file, FileSegments(file))
    ensures HoldsAll(FileSegments(file), plan.lowest, plan.size)
    ensures InFile(file, FileSegments(file)) && CopiesInside(FileSegments(file), plan.lowest, plan.size)
  {
    var segs := FileSegments(file);
    PlanExact(file, plan);
    SpanHoldsAll(file, segs, plan.size);
    forall i | 0 <= i < |segs| && IsLoad(segs[i])
      ensures segs[i].offset + segs[i].filesz <= |file| && segs[i].filesz <= segs[i].memsz
    {
      assert WellFormedSegment(file, segs[i]);
    }
  }

  // ---- Placing the image ----

  /** Header `p` puts a file byte at offset `k` of an image that starts at `lowest`. */
  predicate CopiesTo(p: Segment, lowest: Word, k: int) {
    IsLoad(p) && p.vaddr - lowest <= k < p.vaddr - lowest + p.filesz
  }

  /** Byte `k` of the image: the last segment with file bytes there decides; zero if
      there is none. */
  function ImageByte(file: seq<Byte>, segs: seq<Segment>, lowest: Word, k: int): Byte
    requires InFile(file, segs)
  {
    if segs == [] then 0
    else
      var p := segs[|segs| - 1];
      if CopiesTo(p, lowest, k) then file[p.offset + (k - (p.vaddr - lowest))]
      else ImageByte(file, segs[..|segs| - 1], lowest, k)
  }

  ghost predicate ImageAt(bytes: seq<Byte>, base: nat, size: nat, file: seq<Byte>, segs: seq<Segment>, lowest: Word)
    requires base + size <= |bytes| && InFile(file, segs)
  {
    forall a :: base <= a < base + size ==> bytes[a] == ImageByte(file, segs, lowest, a - base)
  }

  ghost predicate OutsideUnchanged(before: seq<Byte>, after: seq<Byte>, base: nat, size: nat) {
    |after| == |before| && forall a :: 0 <= a < |after| && !(base <= a < base + size) ==> after[a] == before[a]
  }

  method CopyBytes(memory: array<Byte>, dest: nat, file: seq<Byte>, src: nat, count: nat)
    requires dest + count <= memory.Length && src + count <= |file|
    modifies memory
    ensures forall a :: dest <= a < dest + count ==> memory[a] == file[src + (a - dest)]
    ensures forall a :: 0 <= a < memory.Length && !(dest <= a < dest + count) ==> memory[a] == old(memory[a])
  {
    for b := 0 to count
      invariant forall a :: dest <= a < dest + b ==> memory[a] == file[src + (a - dest)]
      invariant forall a :: 0 <= a < memory.Length && !(dest <= a < dest + b) ==> memory[a] == old(memory[a])
    {
      memory[dest + b] := file[src + b];
    }
  }

  method ZeroBytes(memory: array<Byte>, base: nat, size: nat)
    requires base + size <= memory.Length
    modifies memory
    ensures forall a :: base <= a < base + size ==> memory[a] == 0
    ensures OutsideUnchanged(old(memory[..]), memory[..], base, size)
  {
    for i := 0 to size
      invariant forall a :: base <= a < base + i ==> memory[a] == 0
      invariant forall a :: 0 <= a < memory.Length && !(base <= a < base + i) ==> memory[a] == old(memory[a])
    {
      memory[base + i] := 0;
    }
  }

  /** One header's copy, seen on the whole image. */
  lemma OneMoreSegment(before: seq<Byte>, after: seq<Byte>, base: nat, size: nat, file: seq<Byte>, segs: seq<Segment>,
                       i: nat, lowest: Word)
    requires InFile(file, segs) && i < |segs| && base + size <= |before| == |after|
    requires ImageAt(before, base, size, file, segs[..i], lowest)
    requires forall a :: base <= a < base + size ==>
      after[a] ==
        if CopiesTo(segs[i], lowest, a - base) then file[segs[i].offset + (a - base - (segs[i].vaddr - lowest))]
        else before[a]
    ensures ImageAt(after, base, size, file, segs[..i + 1], lowest)
  {
    assert segs[..i + 1][..i] == segs[..i];
  }

  /** Zero the destination, then copy each segment's file bytes over it. */
  method PlaceSegments(file: seq<Byte>, h: Header, memory: array<Byte>, base: nat, lowest: Word, size: nat)
    requires HeadersInFile(file, h) && InFile(file, Segments(file, h)) && base + size <= memory.Length
    requires CopiesInside(Segments(file, h), lowest, size)
    modifies memory
    ensures ImageAt(memory[..], base, size, file, Segments(file, h), lowest)
    ensures OutsideUnchanged(old(memory[..]), memory[..], base, size)
  {
    ghost var segs := Segments(file, h);
    ZeroBytes(memory, base, size);
    for i := 0 to h.phnum
      invariant ImageAt(memory[..], base, size, file, segs[..i], lowest)
      invariant OutsideUnchanged(old(memory[..]), memory[..], base, size)
    {
      PlaceSegment(file, h, i, memory, base, lowest, size);
    }
    assert segs[..h.phnum] == segs;
  }

  /** One turn of that loop. */
  method PlaceSegment(file: seq<Byte>, h: Header, i: nat, memory: array<Byte>, base: nat, lowest: Word, size: nat)
    requires HeadersInFile(file, h) && InFile(file, Segments(file, h)) && base + size <= memory.Length && i < h.phnum
    requires CopiesInside(Segments(file, h), lowest, size)
    requires ImageAt(memory[..], base, size, file, Segments(file, h)[..i], lowest)
    modifies memory
    ensures ImageAt(memory[..], base, size, file, Segments(file, h)[..i + 1], lowest)
    ensures OutsideUnchanged(old(memory[..]), memory[..], base, size)
  {
    ghost var segs := Segments(file, h);
    var p := ReadSegment(file, h, i);
    if IsLoad(p) {
      CopyBytes(memory, base + (p.vaddr - lowest), file, p.offset, p.filesz);
    }
    OneMoreSegment(old(memory[..]), memory[..], base, size, file, segs, i, lowest);
  }

  datatype LoadedKernel = LoadedKernel(physicalBase: nat, virtualBase: Word, sizeBytes: Word, entryPoint: Word)

  /** Pages asked of the firmware: one 2 MiB block more than the image, so that a 2 MiB
      aligned base can be chosen. */
  function PagesNeeded(size: nat): nat { (size + PAGE_SIZE_2M) / FRAME_SIZE }

  /** What `AllocatePages` with a maximum address promises. */
  ghost predicate Honest(allocate: nat -> Option<nat>) {
    forall pages: nat :: allocate(pages).Some? ==>
      allocate(pages).value % FRAME_SIZE == 0 && allocate(pages).value + pages * FRAME_SIZE <= IDENTITY_MAP_LIMIT
  }

  /** The rounded-up base plus the image always fits the allocation. */
  lemma RoundedBaseFits(allocation: nat, size: nat)
    requires allocation + PagesNeeded(size) * FRAME_SIZE <= IDENTITY_MAP_LIMIT && size % PAGE_SIZE_2M == 0
    ensures var base := AlignUp(allocation, PAGE_SIZE_2M);
      base % PAGE_SIZE_2M == 0 && allocation <= base && base + size <= allocation + PagesNeeded(size) * FRAME_SIZE
  {
    assert IsPow2(PAGE_SIZE_2M) by { Pow2Values(); assert Pow2(21) == PAGE_SIZE_2M; }
    AlignUpExact(allocation, PAGE_SIZE_2M);
    var n := size / PAGE_SIZE_2M;
    ModUnique(size + PAGE_SIZE_2M, FRAME_SIZE, (n + 1) * 512, 0);
  }

  /** What the loader does not test of a file it accepts: that the bytes it copies are in
      the file and fall inside the image. */
  predicate Copyable(file: seq<Byte>)
    requires Parsable(file)
  {
    PlanOf(file).Some? ==>
      && InFile(file, FileSegments(file))
      && CopiesInside(FileSegments(file), PlanOf(file).value.lowest, PlanOf(file).value.size)
  }

  /** The loader's answer for a file, and physical memory afterwards. */
  ghost predicate Loaded(file: seq<Byte>, k: LoadedKernel, bytes: seq<Byte>)
    requires Parsable(file) && Copyable(file)
  {
    && PlanOf(file) == Some(Plan(k.virtualBase, k.sizeBytes, k.entryPoint))
    && k.physicalBase % PAGE_SIZE_2M == 0 && k.physicalBase + k.sizeBytes <= IDENTITY_MAP_LIMIT == |bytes|
    && ImageAt(bytes, k.physicalBase, k.sizeBytes, file, FileSegments(file), k.virtualBase)
  }

  /** The image lies in the pages the firmware granted. */
  predicate InAllocation(k: LoadedKernel, granted: Option<nat>) {
    && granted.Some? && granted.value <= k.physicalBase
    && k.physicalBase + k.sizeBytes <= granted.value + PagesNeeded(k.sizeBytes) * FRAME_SIZE
  }

  method LoadKernelElf(file: seq<Byte>, allocate: nat -> Option<nat>, memory: array<Byte>)
    returns (r: Option<LoadedKernel>)
    requires Parsable(file) && Copyable(file)
    requires Honest(allocate) && memory.Length == IDENTITY_MAP_LIMIT
    modifies memory
    ensures r.Some? <==> PlanOf(file).Some? && allocate(PagesNeeded(PlanOf(file).value.size)).Some?
    ensures r.None? ==> memory[..] == old(memory[..])
    ensures r.Some? ==> Loaded(file, r.value, memory[..])
    ensures r.Some? ==> InAllocation(r.value, allocate(PagesNeeded(PlanOf(file).value.size)))
    ensures r.Some? ==> OutsideUnchanged(old(memory[..]), memory[..], r.value.physicalBase, r.value.sizeBytes)
  {
    var plan := MakePlan(file);
    if plan.None? {
      return None;
    }
    var Plan(minVAddr, alignedSize, entryPoint) := plan.value;
    PlanExact(file, plan.value);
    var granted := allocate(PagesNeeded(alignedSize));
    if granted.None? {
      return None;
    }
    RoundedBaseFits(granted.value, alignedSize);
    var physBase := AlignUp(granted.value, PAGE_SIZE_2M);
    PlaceSegments(file, ReadHeader(file), memory, physBase, minVAddr, alignedSize);
    return Some(LoadedKernel(physBase, minVAddr, alignedSize, entryPoint));
  }

  // ---- What the image holds ----

  predicate SegmentsApart(segs: seq<Segment>) {
    forall i, j :: 0 <= i < j < |segs| && IsLoad(segs[i]) && IsLoad(segs[j]) ==>
      segs[i].vaddr + segs[i].memsz <= segs[j].vaddr || segs[j].vaddr + segs[j].memsz <= segs[i].vaddr
  }

  /** What an ELF segment means: byte `b` of it comes from the file, or is zero. */
  function SegmentByte(file: seq<Byte>, p: Segment, b: nat): Byte
    requires WellFormedSegment(file, p) && IsLoad(p)
  {
    if b < p.filesz then file[p.offset + b] else 0
  }

  lemma WellFormedInFile(file: seq<Byte>, segs: seq<Segment>)
    requires WellFormed(file, segs)
    ensures InFile(file, segs)
  {
    forall i | 0 <= i < |segs| && IsLoad(segs[i]) ensures segs[i].offset + segs[i].filesz <= |file| {
      assert WellFormedSegment(file, segs[i]);
    }
  }

  /** Nothing after a segment overwrites it. */
  lemma {:induction false} ImageByteOfSegment(file: seq<Byte>, segs: seq<Segment>, lowest: Word, i: nat, b: nat)
    requires WellFormed(file, segs) && SegmentsApart(segs) && i < |segs| && IsLoad(segs[i]) && b < segs[i].memsz
    ensures InFile(file, segs)
    ensures ImageByte(file, segs, lowest, segs[i].vaddr - lowest + b) == SegmentByte(file, segs[i], b)
    decreases |segs|
  {
    var n, k := |segs| - 1, segs[i].vaddr - lowest + b;
    WellFormedInFile(file, segs);
    if i < n {
      assert WellFormedSegment(file, segs[n]);
      assert !CopiesTo(segs[n], lowest, k);
      ImageByteOfSegment(file, segs[..n], lowest, i, b);
    } else if b >= segs[i].filesz {
      NoSegmentByte(file, segs[..n], lowest, k, segs[i], segs);
    }
  }

  lemma {:induction false} NoSegmentByte(file: seq<Byte>, init: seq<Segment>, lowest: Word, k: int, p: Segment,
                                         segs: seq<Segment>)
    requires WellFormed(file, segs) && SegmentsApart(segs) && init < segs && IsLoad(p) && p == segs[|segs| - 1]
    requires p.vaddr - lowest <= k < p.vaddr - lowest + p.memsz
    ensures InFile(file, init) && ImageByte(file, init, lowest, k) == 0
    decreases |init|
  {
    WellFormedInFile(file, segs);
    if init != [] {
      var n := |init| - 1;
      assert init[n] == segs[n] && WellFormedSegment(file, segs[n]);
      assert !CopiesTo(init[n], lowest, k);
      NoSegmentByte(file, init[..n], lowest, k, p, segs);
    }
  }
}

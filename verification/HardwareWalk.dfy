/**
 What the processor does with an address, bit by bit (sections 4.5 and 4.6 of the Intel SDM,
 Volume 3A): four tables, one after the other, each entry tested and masked as hardware does.
 It knows nothing of index paths or of trees of tables, and agrees with `Translation` and
 `Access` on every memory and every address.
 */
module HardwareWalk {
  import opened Bits
  import opened PageFormat
  import opened PageTables
  import opened Options
  import opened AddressSpace

  /** What the processor takes from an entry. */
  datatype Fields = Fields(present: bool, writable: bool, pageSize: bool, noExecute: bool,
                           base: nat, base2M: nat, base1G: nat)

  function Decode(e: Word): Fields {
    Fields(And(e, 1) != 0, And(e, 2) != 0, And(e, 0x80) != 0, And(e, 0x8000_0000_0000_0000) != 0,
           And(e, 0xF_FFFF_FFFF_F000), And(e, 0xF_FFFF_FFE0_0000), And(e, 0xF_FFFF_C000_0000))
  }

  /** What it takes from an address: an index for each level, and offsets into the three sizes
      of page. */
  datatype Split = Split(i4: nat, i3: nat, i2: nat, i1: nat, in4K: nat, in2M: nat, in1G: nat)

  function SplitOf(virt: Word): Split {
    Split(And(Shr(virt, 39), 0x1FF), And(Shr(virt, 30), 0x1FF), And(Shr(virt, 21), 0x1FF), And(Shr(virt, 12), 0x1FF),
          And(virt, 0xFFF), And(virt, 0x1F_FFFF), And(virt, 0x3FFF_FFFF))
  }

  datatype Outcome = Fault | Reach(phys: nat, writable: bool, noExecute: bool)

  /** The word at physical address `a`; a table at or above 4 GiB is outside the modelled
      memory, and the walks through it count as faults. */
  function Fetch(ram: Ram, a: nat): Word {
    if a / 8 < RAM_WORDS then ram[a / 8] else 0
  }

  function PtWalk(ram: Ram, decode: Word -> Fields, pt: nat, v: Split, writable: bool, noExecute: bool): Outcome {
    var e := decode(Fetch(ram, pt + 8 * v.i1));
    if pt >= 0x1_0000_0000 || !e.present then Fault
    else Reach(e.base + v.in4K, writable && e.writable, noExecute || e.noExecute)
  }

  function PdWalk(ram: Ram, decode: Word -> Fields, pd: nat, v: Split, writable: bool, noExecute: bool): Outcome {
    var e := decode(Fetch(ram, pd + 8 * v.i2));
    if pd >= 0x1_0000_0000 || !e.present then Fault
    else if e.pageSize then Reach(e.base2M + v.in2M, writable && e.writable, noExecute || e.noExecute)
    else PtWalk(ram, decode, e.base, v, writable && e.writable, noExecute || e.noExecute)
  }

  function PdptWalk(ram: Ram, decode: Word -> Fields, pdpt: nat, v: Split, writable: bool, noExecute: bool): Outcome {
    var e := decode(Fetch(ram, pdpt + 8 * v.i3));
    if pdpt >= 0x1_0000_0000 || !e.present then Fault
    else if e.pageSize then Reach(e.base1G + v.in1G, writable && e.writable, noExecute || e.noExecute)
    else PdWalk(ram, decode, e.base, v, writable && e.writable, noExecute || e.noExecute)
  }

  function Pml4Walk(ram: Ram, decode: Word -> Fields, cr3: nat, v: Split): Outcome {
    var e := decode(Fetch(ram, cr3 + 8 * v.i4));
    if cr3 >= 0x1_0000_0000 || !e.present then Fault
    else PdptWalk(ram, decode, e.base, v, e.writable, e.noExecute)
  }

  function Walked(ram: Ram, cr3: nat, virt: Word): Outcome { Pml4Walk(ram, Decode, cr3, SplitOf(virt)) }

  // ---- Agreement, from the last level up ----

  /** The physical address behind a mapping. */
  function Target(decode: Word -> Fields, mapping: Mapping, v: Split): Option<nat> {
    match mapping
    case NotMapped => None
    case Unreachable => None
    case Leaf(e) => Some(decode(e).base + v.in4K)
    case Huge(levels, e) => Some(if levels == 3 then decode(e).base1G + v.in1G else decode(e).base2M + v.in2M)
  }

  /** What a mapping and its permissions amount to, below entries that permit `writable` and
      `noExecute`. */
  function Finish(target: Option<nat>, rights: Option<PageFlags>, writable: bool, noExecute: bool): Outcome {
    if target.None? || rights.None? then Fault
    else Reach(target.value, writable && rights.value.writable, noExecute || rights.value.noExecute)
  }

  /** The decoder finds the bits that the model looks at. */
  ghost predicate Decodes(decode: Word -> Fields) {
    forall e: Word :: && decode(e).present == IsPresent(e) && decode(e).writable == IsWritable(e)
                      && decode(e).pageSize == IsHuge(e) && decode(e).noExecute == IsNoExecute(e)
                      && decode(e).base == Addr(e)
  }

  predicate Indices(v: Split) { v.i4 < 512 && v.i3 < 512 && v.i2 < 512 && v.i1 < 512 }

  /** The fields of an entry and of an address in the model's terms. */
  function Plain(e: Word): Fields {
    Fields(IsPresent(e), IsWritable(e), IsHuge(e), IsNoExecute(e), Addr(e), Addr(e) - Addr(e) % PAGE_SIZE_2M,
           Addr(e) - Addr(e) % ONE_GIB)
  }

  function PlainSplit(virt: Word): Split {
    Split(Pml4Index(virt), PdptIndex(virt), PdIndex(virt), PtIndex(virt), virt % FRAME_SIZE, virt % PAGE_SIZE_2M,
          virt % ONE_GIB)
  }

  lemma DecodeIsPlain(e: Word)
    ensures Decode(e) == Plain(e)
  {
    AccessorForms(e);
    HugeBases(e);
  }

  lemma DecodeDecodes()
    ensures Decodes(Decode)
  {
    forall e: Word ensures Decode(e) == Plain(e) { DecodeIsPlain(e); }
  }

  lemma SplitIsPlain(virt: Word)
    ensures SplitOf(virt) == PlainSplit(virt)
  {
    IndexForms(virt);
    assert Pow2(21) == PAGE_SIZE_2M && Pow2(30) == ONE_GIB by { Pow2Values(); }
    LowMask(virt, 21);
    LowMask(virt, 30);
  }

  lemma FetchEntry(ram: Ram, t: nat, i: nat, a: nat)
    requires IsTable(t) && i < 512 && a == t + 8 * i
    ensures Fetch(ram, a) == Entry(ram, t, i)
  {
    var n := t / FRAME_SIZE;
    ModUnique(t, 8, 512 * n, 0);
    ModUnique(a, 8, 512 * n + i, 0);
  }

  lemma MaskFrom(e: Word, k: nat, size: nat)
    requires k <= 52 && size == Pow2(k) && size > 0
    ensures size <= PHYS_LIMIT && And(e, PHYS_LIMIT - size) == e % PHYS_LIMIT - e % size
  {
    assert Pow2(52) == PHYS_LIMIT by { Pow2Values(); }
    AndMask(e, k, 52);
  }

  lemma FrameRemainders(e: Word)
    ensures Addr(e) == e % PHYS_LIMIT - e % 4096
  {
    assert Pow2(12) == 4096 by { Pow2Values(); }
    MaskFrom(e, 12, 4096);
    AddrMaskExact(e);
  }

  /** Remainders by a divisor of a divisor. */
  lemma Nest2M(e: nat)
    ensures var a := e % PHYS_LIMIT - e % 4096; a >= 0 && e % PHYS_LIMIT - e % 0x20_0000 == a - a % 0x20_0000
  {
    var x, y := e / PHYS_LIMIT, e % PHYS_LIMIT;
    var q, z := y / 0x20_0000, y % 0x20_0000;
    var p, w := z / 4096, z % 4096;
    ModUnique(e, 0x20_0000, x * 0x8000_0000 + q, z);
    ModUnique(e, 4096, (x * 0x8000_0000 + q) * 512 + p, w);
    ModUnique(y - w, 0x20_0000, q, z - w);
  }

  lemma Nest1G(e: nat)
    ensures var a := e % PHYS_LIMIT - e % 4096; a >= 0 && e % PHYS_LIMIT - e % 0x4000_0000 == a - a % 0x4000_0000
  {
    var x, y := e / PHYS_LIMIT, e % PHYS_LIMIT;
    var q, z := y / 0x4000_0000, y % 0x4000_0000;
    var p, w := z / 4096, z % 4096;
    ModUnique(e, 0x4000_0000, x * 0x40_0000 + q, z);
    ModUnique(e, 4096, (x * 0x40_0000 + q) * 0x4_0000 + p, w);
    ModUnique(y - w, 0x4000_0000, q, z - w);
  }

  lemma HugeBases(e: Word)
    ensures And(e, 0xF_FFFF_FFE0_0000) == Addr(e) - Addr(e) % PAGE_SIZE_2M
    ensures And(e, 0xF_FFFF_C000_0000) == Addr(e) - Addr(e) % ONE_GIB
  {
    assert Pow2(21) == PAGE_SIZE_2M && Pow2(30) == ONE_GIB by { Pow2Values(); }
    FrameRemainders(e);
    MaskFrom(e, 21, PAGE_SIZE_2M);
    MaskFrom(e, 30, ONE_GIB);
    Nest2M(e);
    Nest1G(e);
  }

  lemma PtAgrees(ram: Ram, decode: Word -> Fields, t: nat, v: Split, writable: bool, noExecute: bool)
    requires t % FRAME_SIZE == 0 && Decodes(decode) && Indices(v)
    ensures PtWalk(ram, decode, t, v, writable, noExecute)
         == Finish(Target(decode, Resolve(ram, t, [v.i1]), v), Rights(ram, t, [v.i1]), writable, noExecute)
  {
    if t < IDENTITY_MAP_LIMIT {
      FetchEntry(ram, t, v.i1, t + 8 * v.i1);
    }
  }

  lemma PdAgrees(ram: Ram, decode: Word -> Fields, t: nat, v: Split, writable: bool, noExecute: bool)
    requires t % FRAME_SIZE == 0 && Decodes(decode) && Indices(v)
    ensures var path := [v.i2, v.i1];
      PdWalk(ram, decode, t, v, writable, noExecute)
        == Finish(Target(decode, Resolve(ram, t, path), v), Rights(ram, t, path), writable, noExecute)
  {
    var path := [v.i2, v.i1];
    if t < IDENTITY_MAP_LIMIT {
      var e := Entry(ram, t, v.i2);
      assert Fetch(ram, t + 8 * v.i2) == e by { FetchEntry(ram, t, v.i2, t + 8 * v.i2); }
      if !IsPresent(e) {
        assert Rights(ram, t, path) == None;
      } else if IsHuge(e) {
        assert Resolve(ram, t, path) == Huge(|path|, e) && Rights(ram, t, path) == Some(FlagsOf(e));
      } else {
        assert path[1..] == [v.i1];
        assert Resolve(ram, t, path) == Resolve(ram, Addr(e), [v.i1]);
        PtAgrees(ram, decode, Addr(e), v, writable && IsWritable(e), noExecute || IsNoExecute(e));
      }
    }
  }

  lemma PdptAgrees(ram: Ram, decode: Word -> Fields, t: nat, v: Split, writable: bool, noExecute: bool)
    requires t % FRAME_SIZE == 0 && Decodes(decode) && Indices(v)
    ensures var path := [v.i3, v.i2, v.i1];
      PdptWalk(ram, decode, t, v, writable, noExecute)
        == Finish(Target(decode, Resolve(ram, t, path), v), Rights(ram, t, path), writable, noExecute)
  {
    var path := [v.i3, v.i2, v.i1];
    if t < IDENTITY_MAP_LIMIT {
      var e := Entry(ram, t, v.i3);
      assert Fetch(ram, t + 8 * v.i3) == e by { FetchEntry(ram, t, v.i3, t + 8 * v.i3); }
      if !IsPresent(e) {
        assert Rights(ram, t, path) == None;
      } else if IsHuge(e) {
        assert Resolve(ram, t, path) == Huge(|path|, e) && Rights(ram, t, path) == Some(FlagsOf(e));
      } else {
        assert path[1..] == [v.i2, v.i1];
        assert Resolve(ram, t, path) == Resolve(ram, Addr(e), [v.i2, v.i1]);
        PdAgrees(ram, decode, Addr(e), v, writable && IsWritable(e), noExecute || IsNoExecute(e));
      }
    }
  }

  lemma Pml4Agrees(ram: Ram, decode: Word -> Fields, t: nat, v: Split)
    requires t % FRAME_SIZE == 0 && Decodes(decode) && Indices(v)
    ensures var path := [v.i4, v.i3, v.i2, v.i1];
      Pml4Walk(ram, decode, t, v)
        == Finish(Target(decode, Resolve(ram, t, path), v), Rights(ram, t, path), true, false)
  {
    var path := [v.i4, v.i3, v.i2, v.i1];
    if t < IDENTITY_MAP_LIMIT {
      var e := Entry(ram, t, v.i4);
      assert Fetch(ram, t + 8 * v.i4) == e by { FetchEntry(ram, t, v.i4, t + 8 * v.i4); }
      if !IsPresent(e) {
        assert Rights(ram, t, path) == None;
      } else {
        assert path[1..] == [v.i3, v.i2, v.i1];
        assert Resolve(ram, t, path) == Resolve(ram, Addr(e), [v.i3, v.i2, v.i1]);
        PdptAgrees(ram, decode, Addr(e), v, IsWritable(e), IsNoExecute(e));
      }
    }
  }

  lemma TargetIs(decode: Word -> Fields, mapping: Mapping, v: Split, virt: Word)
    requires v == PlainSplit(virt)
    requires mapping.Leaf? || mapping.Huge? ==> decode(mapping.entry) == Plain(mapping.entry)
    ensures Target(decode, mapping, v) == AddressVia(mapping, virt)
  {
  }

  /** The processor reaches what `Translation` says, with the permissions that `Access` says,
      and faults where they say nothing. */
  lemma HardwareAgrees(s: PtState, virt: Word)
    requires s.root % FRAME_SIZE == 0
    ensures Translation(s, virt).Some? <==> Access(s, virt).Some?
    ensures Walked(s.ram, s.root, virt) ==
      if Translation(s, virt).None? then Fault
      else Reach(Translation(s, virt).value, Access(s, virt).value.writable, Access(s, virt).value.noExecute)
  {
    SplitIsPlain(virt);
    DecodeDecodes();
    var mapping := View(s, Path(virt));
    if mapping.Leaf? || mapping.Huge? { DecodeIsPlain(mapping.entry); }
    TargetIs(Decode, mapping, SplitOf(virt), virt);
    Pml4Agrees(s.ram, Decode, s.root, SplitOf(virt));
    MappedBoth(s.ram, s.root, Path(virt), virt);
  }

  lemma {:induction false} MappedBoth(ram: Ram, t: nat, path: seq<nat>, virt: Word)
    requires t % FRAME_SIZE == 0 && 1 <= |path| && ValidPath(path)
    ensures AddressVia(Resolve(ram, t, path), virt).Some? <==> Rights(ram, t, path).Some?
    decreases |path|
  {
    if t < IDENTITY_MAP_LIMIT && |path| > 1 { MappedBoth(ram, Addr(Entry(ram, t, path[0])), path[1..], virt); }
  }
}

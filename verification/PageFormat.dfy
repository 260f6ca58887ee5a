/**
 The x86-64 paging format: page-table entries (Intel SDM Vol. 3A, section 4.5) and
 the 9/9/9/9/12 split of a virtual address.

 Entries and indices are defined by digits and arithmetic; the `...Form` lemmas prove
 each definition equal to the mask-and-shift expression the kernel and the boot loader
 compute.
 */
module PageFormat {
  import opened Bits

  const FRAME_SIZE: nat := 4096
  const PAGE_SIZE_2M: nat := 0x20_0000
  const ONE_GIB: nat := 0x4000_0000
  /** The bootloader identity-maps physical addresses below this one, and the
      kernel can dereference no other. */
  const IDENTITY_MAP_LIMIT: nat := 0x1_0000_0000

  const FLAG_PRESENT: Word := 1
  const FLAG_WRITABLE: Word := 2
  const FLAG_PAGE_SIZE: Word := 0x80
  const FLAG_NO_EXECUTE: Word := 0x8000_0000_0000_0000
  const ADDR_MASK: Word := 0x000F_FFFF_FFFF_F000
  /** Physical addresses fit in the 52 bits an entry has room for. */
  const PHYS_LIMIT: nat := 0x10_0000_0000_0000

  datatype PageFlags = PageFlags(writable: bool, noExecute: bool)

  const READ_WRITE := PageFlags(true, false)

  predicate IsPresent(e: Word) { Bit(e, 0) }

  predicate IsWritable(e: Word) { Bit(e, 1) }

  predicate IsHuge(e: Word) { Bit(e, 7) }

  predicate IsNoExecute(e: Word) { Bit(e, 63) }

  function FlagsOf(e: Word): PageFlags {
    PageFlags(IsWritable(e), IsNoExecute(e))
  }

  /** The physical address an entry points to: bits 51:12, in place. */
  function Addr(e: Word): (a: nat)
    ensures a % FRAME_SIZE == 0 && a < PHYS_LIMIT
  {
    FrameBase(e)
  }

  /** Pointer to a next-level table: present and writable. */
  function NewTablePointer(addr: Word): (e: Word)
    ensures IsPresent(e) && IsWritable(e) && !IsHuge(e) && !IsNoExecute(e)
    ensures Addr(e) == FrameBase(addr)
  {
    DecodeSum(FrameBase(addr), true, false, false);
    EntrySum(FrameBase(addr), true, false, false)
  }

  /** A leaf keeps the flags it was given and the low 52 bits of the frame address. */
  function NewLeaf(addr: Word, flags: PageFlags): (e: Word)
    ensures IsPresent(e)
    ensures FlagsOf(e) == flags
    ensures Addr(e) == FrameBase(addr)
  {
    DecodeSum(FrameBase(addr), flags.writable, false, flags.noExecute);
    EntrySum(FrameBase(addr), flags.writable, false, flags.noExecute)
  }

  /** The boot loader's 2 MiB entry. */
  function NewHuge(addr: Word): (e: Word)
    requires addr % PAGE_SIZE_2M == 0 && addr < PHYS_LIMIT
    ensures IsPresent(e) && IsWritable(e) && IsHuge(e) && !IsNoExecute(e) && Addr(e) == addr
  {
    FrameAligned2M(addr);
    DecodeSum(addr, true, true, false);
    EntrySum(addr, true, true, false)
  }

  /** The accessors are the kernel's mask tests. */
  lemma AccessorForms(e: Word)
    ensures IsPresent(e) <==> And(e, FLAG_PRESENT) != 0
    ensures IsWritable(e) <==> And(e, FLAG_WRITABLE) != 0
    ensures IsHuge(e) <==> And(e, FLAG_PAGE_SIZE) != 0
    ensures IsNoExecute(e) <==> And(e, FLAG_NO_EXECUTE) != 0
    ensures Addr(e) == And(e, ADDR_MASK)
  {
    Pow2Values();
    AndFlag(e, 0);
    AndFlag(e, 1);
    AndFlag(e, 7);
    AndFlag(e, 63);
    AddrMaskExact(e);
  }

  lemma EntryDigits(e: Word)
    ensures IsPresent(e) <==> e % 2 == 1
    ensures IsWritable(e) <==> e / 2 % 2 == 1
    ensures IsHuge(e) <==> e / 0x80 % 2 == 1
    ensures IsNoExecute(e) <==> e / 0x8000_0000_0000_0000 % 2 == 1
  {
    Pow2Values();
    BitIsDigit(e, 1);
    BitIsDigit(e, 7);
    BitIsDigit(e, 63);
  }

  /** Bits 51:12 of a word, in place. */
  function FrameBase(e: nat): (a: nat)
    ensures a % FRAME_SIZE == 0 && a < PHYS_LIMIT
    ensures e % FRAME_SIZE == 0 && e < PHYS_LIMIT ==> a == e
  {
    e / FRAME_SIZE % 0x100_0000_0000 * FRAME_SIZE
  }

  lemma AddrMaskExact(e: nat)
    ensures And(e, ADDR_MASK) == FrameBase(e)
  {
    assert ADDR_MASK == Pow2(52) - Pow2(12) && Pow2(12) == 4096 && Pow2(52) == PHYS_LIMIT by { Pow2Values(); }
    AndMask(e, 12, 52);
    var n := e / FRAME_SIZE;
    ModUnique(e, PHYS_LIMIT, n / 0x100_0000_0000, FrameBase(e) + e % FRAME_SIZE);
  }

  /** An entry assembled from an aligned address and its flags. */
  function EntrySum(addr: nat, writable: bool, huge: bool, noExecute: bool): nat {
    addr + 1 + (if writable then 2 else 0) + (if huge then 0x80 else 0)
    + (if noExecute then 0x8000_0000_0000_0000 else 0)
  }

  // The digits of `4096 * x + low + 2^63 * n`: the three fields do not mix.

  lemma LowDigit(x: nat, low: nat, n: nat, q: nat, scale: nat)
    requires low < 4096 && n < 2 && q > 0 && q * scale * 2 == 4096
    ensures (4096 * x + low + 0x8000_0000_0000_0000 * n) / q % 2 == low / q % 2
  {
    var e := 4096 * x + low + 0x8000_0000_0000_0000 * n;
    var y := x + 0x8_0000_0000_0000 * n;
    assert e == 4096 * y + low;
    assert 4096 * y == (2 * scale * y) * q;
    ModUnique(e, q, 2 * scale * y + low / q, low % q);
    ModUnique(low / q + 2 * (scale * y), 2, scale * y + low / q / 2, low / q % 2);
  }

  lemma HighDigit(x: nat, low: nat, n: nat)
    requires low < 4096 && x < 0x100_0000_0000 && n < 2
    ensures (4096 * x + low + 0x8000_0000_0000_0000 * n) / 0x8000_0000_0000_0000 % 2 == n
  {
  }

  lemma AddrField(x: nat, low: nat, n: nat)
    requires low < 4096 && x < 0x100_0000_0000 && n < 2
    ensures FrameBase(4096 * x + low + 0x8000_0000_0000_0000 * n) == 4096 * x
  {
    var e := 4096 * x + low + 0x8000_0000_0000_0000 * n;
    ModUnique(e, 4096, x + 0x8_0000_0000_0000 * n, low);
    ModUnique(x + 0x8_0000_0000_0000 * n, 0x100_0000_0000, 0x800 * n, x);
  }

  /** Reading an assembled entry gives back exactly what went into it. */
  lemma DecodeSum(addr: nat, writable: bool, huge: bool, noExecute: bool)
    requires addr % FRAME_SIZE == 0 && addr < PHYS_LIMIT
    ensures EntrySum(addr, writable, huge, noExecute) < TWO64
    ensures var e := EntrySum(addr, writable, huge, noExecute);
            && IsPresent(e) && IsWritable(e) == writable && IsHuge(e) == huge
            && IsNoExecute(e) == noExecute && Addr(e) == addr
  {
    var low := 1 + (if writable then 2 else 0) + (if huge then 0x80 else 0);
    var n := if noExecute then 1 else 0;
    FieldDigits(addr / 4096, low, n, EntrySum(addr, writable, huge, noExecute));
    EntryDigits(EntrySum(addr, writable, huge, noExecute));
  }

  lemma FieldDigits(x: nat, low: nat, n: nat, e: nat)
    requires low < 4096 && x < 0x100_0000_0000 && n < 2 && e == 4096 * x + low + 0x8000_0000_0000_0000 * n
    ensures e / 1 % 2 == low / 1 % 2 && e / 2 % 2 == low / 2 % 2 && e / 0x80 % 2 == low / 0x80 % 2
    ensures e / 0x8000_0000_0000_0000 % 2 == n && FrameBase(e) == 4096 * x
  {
    LowDigit(x, low, n, 1, 2048);
    LowDigit(x, low, n, 2, 1024);
    LowDigit(x, low, n, 0x80, 16);
    HighDigit(x, low, n);
    AddrField(x, low, n);
  }

  lemma SetFlag(y: nat, low: nat, k: nat, flag: nat, scale: nat)
    requires y % 4096 == low && flag == Pow2(k) && flag * scale * 2 == 4096 && low / flag % 2 == 0
    ensures Or(y, flag) == y + flag
  {
    LowDigit(y / 4096, low, 0, flag, scale);
    BitIsDigit(y, k);
    OrFlag(y, k);
  }

  lemma SetPresent(y: nat)
    requires y % 4096 == 0
    ensures Or(y, FLAG_PRESENT) == y + 1
  {
    SetFlag(y, 0, 0, 1, 2048);
  }

  lemma SetWritable(y: nat)
    requires y % 4096 == 1
    ensures Or(y, FLAG_WRITABLE) == y + 2
  {
    SetFlag(y, 1, 1, 2, 1024);
  }

  lemma SetPageSize(y: nat)
    requires y % 4096 == 3
    ensures Or(y, FLAG_PAGE_SIZE) == y + 0x80
  {
    Pow2Values();
    SetFlag(y, 3, 7, 0x80, 16);
  }

  lemma SetNoExecute(y: nat)
    requires y < FLAG_NO_EXECUTE
    ensures Or(y, FLAG_NO_EXECUTE) == y + FLAG_NO_EXECUTE
  {
    Pow2Values();
    BitIsDigit(y, 63);
    OrFlag(y, 63);
  }

  /** The constructors assemble entries as the sources do, with `|`. */
  lemma TablePointerForm(addr: Word)
    ensures NewTablePointer(addr) == Or(Or(And(addr, ADDR_MASK), FLAG_PRESENT), FLAG_WRITABLE)
  {
    AddrMaskExact(addr);
    var x := And(addr, ADDR_MASK);
    SetPresent(x);
    SetWritable(x + 1);
  }

  /** `new_leaf` accumulates the bits one flag at a time. */
  function LeafBits(addr: Word, flags: PageFlags): nat { FlagBits(And(addr, ADDR_MASK), flags) }

  function FlagBits(masked: nat, flags: PageFlags): nat {
    var bits := Or(masked, FLAG_PRESENT);
    var bits := if flags.writable then Or(bits, FLAG_WRITABLE) else bits;
    if flags.noExecute then Or(bits, FLAG_NO_EXECUTE) else bits
  }

  lemma LeafForm(addr: Word, flags: PageFlags)
    ensures NewLeaf(addr, flags) == LeafBits(addr, flags)
  {
    AddrMaskExact(addr);
    LeafFlags(FrameBase(addr));
    LeafCases(FrameBase(addr), flags, And(addr, ADDR_MASK));
  }

  lemma LeafCases(x: nat, flags: PageFlags, masked: nat)
    requires x == masked && Or(x, FLAG_PRESENT) == x + 1 && Or(x + 1, FLAG_WRITABLE) == x + 3
    requires Or(x + 1, FLAG_NO_EXECUTE) == x + 1 + FLAG_NO_EXECUTE
    requires Or(x + 3, FLAG_NO_EXECUTE) == x + 3 + FLAG_NO_EXECUTE
    ensures EntrySum(x, flags.writable, false, flags.noExecute) == FlagBits(masked, flags)
  {
  }

  lemma LeafFlags(x: nat)
    requires x % FRAME_SIZE == 0 && x < PHYS_LIMIT
    ensures Or(x, FLAG_PRESENT) == x + 1 && Or(x + 1, FLAG_WRITABLE) == x + 3
    ensures Or(x + 1, FLAG_NO_EXECUTE) == x + 1 + FLAG_NO_EXECUTE
    ensures Or(x + 3, FLAG_NO_EXECUTE) == x + 3 + FLAG_NO_EXECUTE
  {
    SetPresent(x);
    SetWritable(x + 1);
    SetNoExecute(x + 1);
    SetNoExecute(x + 3);
  }

  lemma HugeForm(addr: Word)
    requires addr % PAGE_SIZE_2M == 0 && addr < PHYS_LIMIT
    ensures NewHuge(addr) == Or(Or(Or(addr, FLAG_PRESENT), FLAG_WRITABLE), FLAG_PAGE_SIZE)
  {
    FrameAligned2M(addr);
    HugeBits(addr);
  }

  lemma HugeBits(addr: Word)
    requires addr % FRAME_SIZE == 0
    ensures Or(Or(Or(addr, FLAG_PRESENT), FLAG_WRITABLE), FLAG_PAGE_SIZE) == addr + 0x83
  {
    SetPresent(addr);
    SetWritable(addr + 1);
    SetPageSize(addr + 3);
  }

  lemma FrameAligned2M(addr: nat)
    requires addr % PAGE_SIZE_2M == 0
    ensures addr % FRAME_SIZE == 0
  {
    ModUnique(addr, FRAME_SIZE, 512 * (addr / PAGE_SIZE_2M), 0);
  }

  // ---- Virtual addresses ----

  predicate IsPageAligned(v: nat) { v % FRAME_SIZE == 0 }

  // Bits 47:39, 38:30, 29:21, 20:12 and 11:0.

  function Pml4Index(v: Word): (i: nat)
    ensures i < 512
  { v / 0x80_0000_0000 % 512 }

  function PdptIndex(v: Word): (i: nat)
    ensures i < 512
  { v / 0x4000_0000 % 512 }

  function PdIndex(v: Word): (i: nat)
    ensures i < 512
  { v / 0x20_0000 % 512 }

  function PtIndex(v: Word): (i: nat)
    ensures i < 512
  { v / 0x1000 % 512 }

  function PageOffset(v: Word): (o: nat) { v % FRAME_SIZE }

  lemma IndexMask(x: nat)
    ensures And(x, 0x1FF) == x % 512
  {
    Pow2Values();
    AndMask(x, 0, 9);
  }

  /** The split is the shift-and-mask decomposition of the kernel. */
  lemma IndexForms(v: Word)
    ensures Pml4Index(v) == And(Shr(v, 39), 0x1FF)
    ensures PdptIndex(v) == And(Shr(v, 30), 0x1FF)
    ensures PdIndex(v) == And(Shr(v, 21), 0x1FF)
    ensures PtIndex(v) == And(Shr(v, 12), 0x1FF)
    ensures PageOffset(v) == And(v, 0xFFF)
  {
    Pow2Values();
    IndexMask(Shr(v, 39));
    IndexMask(Shr(v, 30));
    IndexMask(Shr(v, 21));
    IndexMask(Shr(v, 12));
    AndMask(v, 0, 12);
  }

  /** The four table indices of an address, outermost first. */
  function Path(v: Word): (p: seq<nat>)
    ensures |p| == 4 && ValidPath(p)
  {
    [Pml4Index(v), PdptIndex(v), PdIndex(v), PtIndex(v)]
  }

  predicate ValidPath(p: seq<nat>) {
    |p| <= 4 && forall i :: 0 <= i < |p| ==> p[i] < 512
  }

  /** The page number among the 2^36 that the low 48 bits distinguish. */
  function PageNumber(v: nat): nat { v / FRAME_SIZE % 0x10_0000_0000 }

  /** Dividing by two adjacent level sizes in turn. */
  lemma ShiftChain(v: nat)
    ensures v / 0x20_0000 == v / 0x1000 / 512
    ensures v / 0x4000_0000 == v / 0x20_0000 / 512
    ensures v / 0x80_0000_0000 == v / 0x4000_0000 / 512
  {
    ModUnique(v, 0x20_0000, v / 0x1000 / 512, 0x1000 * (v / 0x1000 % 512) + v % 0x1000);
    ModUnique(v, 0x4000_0000, v / 0x20_0000 / 512, 0x20_0000 * (v / 0x20_0000 % 512) + v % 0x20_0000);
    ModUnique(v, 0x80_0000_0000, v / 0x4000_0000 / 512, 0x4000_0000 * (v / 0x4000_0000 % 512) + v % 0x4000_0000);
  }

  /** The four base-512 digits of a page number. */
  lemma Base512(n: nat)
    ensures n % 0x10_0000_0000 ==
      n / 512 / 512 / 512 % 512 * 0x800_0000 + n / 512 / 512 % 512 * 0x4_0000 + n / 512 % 512 * 0x200 + n % 512
  {
    var a, b, c := n / 512, n / 512 / 512, n / 512 / 512 / 512;
    var low := c % 512 * 0x800_0000 + b % 512 * 0x4_0000 + a % 512 * 0x200 + n % 512;
    assert n == 512 * a + n % 512 && a == 512 * b + a % 512 && b == 512 * c + b % 512 && c == 512 * (c / 512) + c % 512;
    ModUnique(n, 0x10_0000_0000, c / 512, low);
  }

  /** The decomposition loses nothing of the low 48 bits. */
  lemma IndicesRecombine(v: Word)
    ensures PageNumber(v) == Pml4Index(v) * 0x800_0000 + PdptIndex(v) * 0x4_0000 + PdIndex(v) * 0x200 + PtIndex(v)
    ensures v % 0x1_0000_0000_0000 == PageNumber(v) * FRAME_SIZE + PageOffset(v)
  {
    ShiftChain(v);
    Base512(v / 0x1000);
    var n := v / 0x1000;
    ModUnique(v, 0x1_0000_0000_0000, n / 0x10_0000_0000, PageNumber(v) * FRAME_SIZE + v % 0x1000);
  }

  /** Indices and page number determine each other: two addresses walk the same
      way exactly when their low 48 bits name the same page. */
  lemma PathIsPageNumber(u: Word, v: Word)
    ensures Path(u) == Path(v) <==> PageNumber(u) == PageNumber(v)
  {
    IndicesRecombine(u);
    IndicesRecombine(v);
    PathDigits(u);
    PathDigits(v);
    DigitsUnique(Pml4Index(u), PdptIndex(u), PdIndex(u), PtIndex(u), Pml4Index(v), PdptIndex(v), PdIndex(v),
      PtIndex(v));
  }

  lemma PathDigits(v: Word)
    ensures Path(v)[0] == Pml4Index(v) && Path(v)[1] == PdptIndex(v)
    ensures Path(v)[2] == PdIndex(v) && Path(v)[3] == PtIndex(v)
  {
  }

  lemma DigitsUnique(a: nat, b: nat, c: nat, d: nat, a': nat, b': nat, c': nat, d': nat)
    requires a < 512 && b < 512 && c < 512 && d < 512 && a' < 512 && b' < 512 && c' < 512 && d' < 512
    ensures a * 0x800_0000 + b * 0x4_0000 + c * 0x200 + d == a' * 0x800_0000 + b' * 0x4_0000 + c' * 0x200 + d'
         ==> a == a' && b == b' && c == c' && d == d'
  {
  }
}

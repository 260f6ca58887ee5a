/**
 Machine words as naturals, and the bitwise operators the sources use on them.

 `And` and `Or` are defined one binary digit at a time, independently of any
 arithmetic meaning. The lemmas below relate each mask-and-shift idiom of the
 sources (`x & (2^h - 2^l)`, `x | (1 << k)`, `x & !(1 << k)`, `base | offset`)
 to `/`, `%`, `+` and `-`, so that the rest of the project can use the latter.
 */
module Bits {

  const TWO64: nat := 0x1_0000_0000_0000_0000

  type Word = w: nat | w < TWO64

  type Byte = b: nat | b < 256

  function Pow2(k: nat): (p: nat)
    ensures p > 0
  {
    if k == 0 then 1 else 2 * Pow2(k - 1)
  }

  function And(a: nat, b: nat): (r: nat)
    ensures r <= a && r <= b
  {
    if a == 0 || b == 0 then 0
    else 2 * And(a / 2, b / 2) + (if a % 2 == 1 && b % 2 == 1 then 1 else 0)
  }

  function Or(a: nat, b: nat): (r: nat)
    ensures a <= r && b <= r && r <= a + b
  {
    if a == 0 then b
    else if b == 0 then a
    else 2 * Or(a / 2, b / 2) + (if a % 2 == 1 || b % 2 == 1 then 1 else 0)
  }

  /** Binary digit `k` of `a`. */
  predicate Bit(a: nat, k: nat) {
    if k == 0 then a % 2 == 1 else Bit(a / 2, k - 1)
  }

  /** `!a` on a `width`-bit word. */
  function Complement(a: nat, width: nat): nat
    requires a < Pow2(width)
  {
    Pow2(width) - 1 - a
  }

  ghost predicate IsPow2(a: nat) {
    exists k: nat {:trigger Pow2(k)} :: a == Pow2(k)
  }

  /** The powers of two that appear as constants in the sources. */
  lemma Pow2Values()
    ensures Pow2(0) == 1 && Pow2(1) == 2 && Pow2(2) == 4 && Pow2(3) == 8
    ensures Pow2(7) == 0x80 && Pow2(8) == 0x100 && Pow2(9) == 0x200
    ensures Pow2(12) == 0x1000 && Pow2(21) == 0x20_0000 && Pow2(30) == 0x4000_0000
    ensures Pow2(39) == 0x80_0000_0000 && Pow2(52) == 0x10_0000_0000_0000
    ensures Pow2(63) == 0x8000_0000_0000_0000 && Pow2(64) == TWO64
  {
  }

  lemma {:induction false} Pow2Mono(j: nat, k: nat)
    requires j <= k
    ensures Pow2(j) <= Pow2(k)
    ensures Pow2(k) % Pow2(j) == 0
    decreases k
  {
    if j < k {
      Pow2Mono(j, k - 1);
      MulMod(Pow2(k - 1), 2, Pow2(j));
    }
  }

  lemma MulMod(a: nat, c: nat, m: nat)
    requires m > 0 && a % m == 0
    ensures (c * a) % m == 0
  {
    var q := a / m;
    assert a == q * m;
    assert c * a == (c * q) * m;
    ModUnique(c * a, m, c * q, 0);
  }

  lemma MulAtLeast(m: nat, d: int)
    requires d >= 1
    ensures m * d >= m
  {
    assert m * d == m * (d - 1) + m;
  }

  lemma ModUnique(a: int, m: int, q: int, r: int)
    requires m > 0 && 0 <= r < m && a == q * m + r
    ensures a / m == q && a % m == r
  {
    var q1, r1 := a / m, a % m;
    assert a == m * q1 + r1;
    assert m * (q1 - q) == m * q1 - m * q == r - r1;
    if q1 > q {
      MulAtLeast(m, q1 - q);
    } else if q1 < q {
      assert m * (q - q1) == r1 - r;
      MulAtLeast(m, q - q1);
    }
  }

  /** Peeling the lowest digit off a remainder modulo a power of two. */
  lemma ModHalf(a: nat, k: nat)
    requires k > 0
    ensures a % Pow2(k) == 2 * ((a / 2) % Pow2(k - 1)) + a % 2
    ensures a / Pow2(k) == (a / 2) / Pow2(k - 1)
  {
    var m := Pow2(k - 1);
    var q, r := (a / 2) / m, (a / 2) % m;
    assert a / 2 == m * q + r;
    assert a == q * (2 * m) + (2 * r + a % 2);
    ModUnique(a, 2 * m, q, 2 * r + a % 2);
  }

  /** The lowest `k` digits of `a`, digit by digit. */
  function LowDigits(a: nat, k: nat): nat {
    if k == 0 then 0 else 2 * LowDigits(a / 2, k - 1) + a % 2
  }

  lemma {:induction false} LowDigitsIsMod(a: nat, k: nat)
    ensures LowDigits(a, k) == a % Pow2(k)
  {
    if k > 0 {
      LowDigitsIsMod(a / 2, k - 1);
      ModHalf(a, k);
    }
  }

  /** The mask with ones in positions `l .. h-1`. */
  function Ones(l: nat, h: nat): nat
    requires l <= h
  {
    if h == 0 then 0
    else if l == 0 then 2 * Ones(0, h - 1) + 1
    else 2 * Ones(l - 1, h - 1)
  }

  lemma {:induction false} OnesValue(l: nat, h: nat)
    requires l <= h
    ensures Pow2(h) == Ones(l, h) + Pow2(l)
    decreases h
  {
    if h > 0 { OnesValue(if l == 0 then 0 else l - 1, h - 1); }
  }

  lemma {:induction false} AndOnes(a: nat, l: nat, h: nat)
    requires l <= h
    ensures And(a, Ones(l, h)) == LowDigits(a, h) - LowDigits(a, l)
    decreases h
  {
    if h > 0 {
      var l', digit := if l == 0 then 0 else l - 1, if l == 0 then 1 else 0;
      var b, upper := a / 2, Ones(l', h - 1);
      var x, y, z := And(b, upper), LowDigits(b, h - 1), LowDigits(b, l');
      assert x == y - z by { AndOnes(b, l', h - 1); }
      assert And(a, Ones(l, h)) == 2 * x + (if digit == 1 then a % 2 else 0) by { AndDouble(a, upper, digit); }
      assert LowDigits(a, h) == 2 * y + a % 2;
      assert LowDigits(a, l) == if l == 0 then 0 else 2 * z + a % 2;
    }
  }

  /** A mask of ones in positions `l .. h-1` keeps exactly those digits. */
  lemma AndMask(a: nat, l: nat, h: nat)
    requires l <= h
    ensures Pow2(l) <= Pow2(h)
    ensures And(a, Pow2(h) - Pow2(l)) == a % Pow2(h) - a % Pow2(l)
  {
    OnesValue(l, h);
    AndOnes(a, l, h);
    LowDigitsIsMod(a, l);
    LowDigitsIsMod(a, h);
  }

  /** One digit of `And`, with the mask given as its upper part and lowest digit. */
  lemma AndDouble(a: nat, upper: nat, digit: nat)
    requires digit < 2
    ensures And(a, 2 * upper + digit) == 2 * And(a / 2, upper) + (if digit == 1 then a % 2 else 0)
  {
    var b := 2 * upper + digit;
    assert b / 2 == upper && b % 2 == digit;
  }

  /** `a >> k` */
  function Shr(a: nat, k: nat): (r: nat)
    ensures r == a / Pow2(k)
  {
    if k == 0 then a else ModHalf(a, k); Shr(a / 2, k - 1)
  }

  lemma {:induction false} BitIsDigit(a: nat, k: nat)
    ensures Bit(a, k) <==> a / Pow2(k) % 2 == 1
  {
    if k > 0 {
      BitIsDigit(a / 2, k - 1);
      ModHalf(a, k);
    }
  }

  lemma {:induction false} BitAnd(a: nat, b: nat, k: nat)
    ensures Bit(And(a, b), k) <==> Bit(a, k) && Bit(b, k)
    decreases k
  {
    if a == 0 || b == 0 {
      BitZero(k);
    } else if k > 0 {
      BitAnd(a / 2, b / 2, k - 1);
      assert And(a, b) / 2 == And(a / 2, b / 2);
    }
  }

  lemma {:induction false} BitOr(a: nat, b: nat, k: nat)
    ensures Bit(Or(a, b), k) <==> Bit(a, k) || Bit(b, k)
    decreases k
  {
    if a == 0 || b == 0 {
      BitZero(k);
    } else if k > 0 {
      BitOr(a / 2, b / 2, k - 1);
      assert Or(a, b) / 2 == Or(a / 2, b / 2);
    }
  }

  lemma {:induction false} BitZero(k: nat)
    ensures !Bit(0, k)
  {
    if k > 0 { BitZero(k - 1); }
  }

  lemma {:induction false} BitPow2(j: nat, k: nat)
    ensures Bit(Pow2(j), k) <==> j == k
  {
    if j == 0 {
      if k > 0 { BitZero(k - 1); }
    } else if k > 0 {
      BitPow2(j - 1, k - 1);
      assert Pow2(j) / 2 == Pow2(j - 1);
    }
  }

  lemma {:induction false} BitComplement(a: nat, width: nat, k: nat)
    requires a < Pow2(width) && k < width
    ensures Bit(Complement(a, width), k) <==> !Bit(a, k)
    decreases k
  {
    if k > 0 {
      BitComplement(a / 2, width - 1, k - 1);
      assert Complement(a, width) / 2 == Complement(a / 2, width - 1);
    }
  }

  /** `a & (1 << k) != 0` tests digit `k`. */
  lemma {:induction false} AndFlag(a: nat, k: nat)
    ensures And(a, Pow2(k)) != 0 <==> Bit(a, k)
    decreases k
  {
    if a == 0 {
      BitZero(k);
    } else if k > 0 {
      AndFlag(a / 2, k - 1);
      assert Pow2(k) / 2 == Pow2(k - 1);
    }
  }

  /** Setting a clear digit adds its weight. */
  lemma {:induction false} OrFlag(a: nat, k: nat)
    requires !Bit(a, k)
    ensures Or(a, Pow2(k)) == a + Pow2(k)
    decreases k
  {
    if a != 0 && k > 0 {
      OrFlag(a / 2, k - 1);
      assert Pow2(k) / 2 == Pow2(k - 1);
    }
  }

  /** `base | offset` is a sum when `base` is aligned past the offset. */
  lemma {:induction false} OrOffset(base: nat, offset: nat, k: nat)
    requires base % Pow2(k) == 0 && offset < Pow2(k)
    ensures Or(base, offset) == base + offset
    decreases k
  {
    if base != 0 && offset != 0 {
      assert k > 0;
      ModHalf(base, k);
      OrOffset(base / 2, offset / 2, k - 1);
    }
  }

  /** The rounding idiom of both halves of the system (`align_up` in the kernel,
      `RoundUpTo` in the loader), on 64-bit words that wrap. */
  function AlignUp(addr: Word, align: Word): (r: Word)
    requires align > 0
  {
    var sum := (addr + align - 1) % TWO64;
    RemainderBound(sum, align);
    sum - sum % align
  }

  lemma RemainderBound(a: nat, m: nat)
    requires m > 0
    ensures 0 <= a % m <= a
  {
    if a < m { ModUnique(a, m, 0, a); }
  }

  /** `(addr + align - 1) & !(align - 1)` */
  lemma AlignUpForm(addr: Word, align: Word)
    requires IsPow2(align)
    ensures AlignUp(addr, align) == And((addr + align - 1) % TWO64, TWO64 - 1 - (align - 1))
  {
    var k :| align == Pow2(k);
    WordExponent(k);
    HighMask((addr + align - 1) % TWO64, k);
  }

  /** Rounding up by a power of two is exact as long as the sum does not wrap:
      the least multiple of `align` that is at least `addr`. */
  lemma AlignUpExact(addr: Word, align: Word)
    requires IsPow2(align) && addr + align - 1 < TWO64
    ensures AlignUp(addr, align) % align == 0
    ensures addr <= AlignUp(addr, align) < addr + align
    ensures forall x: nat :: addr <= x && x % align == 0 ==> AlignUp(addr, align) <= x
  {
    var s := addr + align - 1;
    RoundDown(s, align);
    var r := AlignUp(addr, align);
    forall x: nat | addr <= x && x % align == 0
      ensures r <= x
    {
      if x < r { MultiplesApart(x, r, align); }
    }
  }

  lemma RoundDown(s: nat, m: nat)
    requires m > 0
    ensures (s - s % m) % m == 0
  {
    assert s == m * (s / m) + s % m;
    ModUnique(s - s % m, m, s / m, 0);
  }

  /** Two distinct multiples of `m` differ by at least `m`. */
  lemma MultiplesApart(x: int, y: int, m: int)
    requires m > 0 && x % m == 0 && y % m == 0 && x < y
    ensures x + m <= y
  {
    var p, q := x / m, y / m;
    assert x == m * p && y == m * q;
    assert m * (q - p) == y - x;
    if q - p >= 1 {
      MulAtLeast(m, q - p);
    } else if q - p < 0 {
      MulAtLeast(m, p - q);
    }
  }

  lemma WordExponent(k: nat)
    requires Pow2(k) < TWO64
    ensures k < 64
  {
    Pow2Values();
    if k >= 64 { Pow2Mono(64, k); }
  }

  lemma HighMask(w: Word, k: nat)
    requires k < 64
    ensures Pow2(k) <= TWO64 && And(w, TWO64 - Pow2(k)) == w - w % Pow2(k)
  {
    Pow2Values();
    AndMask(w, k, 64);
    assert w % TWO64 == w;
  }

  lemma LowMask(w: Word, k: nat)
    ensures Pow2(k) >= 1 && And(w, Pow2(k) - 1) == w % Pow2(k)
  {
    AndMask(w, 0, k);
    assert Pow2(0) == 1;
    ModUnique(w, 1, w, 0);
  }

  /** When the sum does wrap, the rounded address is zero: below every nonzero
      input. So rounding up is correct exactly when the sum stays in range. */
  lemma AlignUpWraps(addr: Word, align: Word)
    requires IsPow2(align)
    ensures addr <= AlignUp(addr, align) <==> addr + align - 1 < TWO64
    ensures addr + align - 1 >= TWO64 ==> AlignUp(addr, align) == 0
  {
    if addr + align - 1 < TWO64 {
      AlignUpExact(addr, align);
    } else {
      var w := addr + align - 1 - TWO64;
      ModUnique(w, align, 0, w);
    }
  }
}

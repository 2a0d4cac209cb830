/**
 The machine words of the fixed-point operators: 16- and 32-bit two's complement
 integers, saturation, wrap-around, and the C shift and bitwise operators given
 as functions on mathematical integers.
 */
module Words {
  const MAX_16 := 0x7fff
  const MIN_16 := -0x8000
  const MAX_32 := 0x7fff_ffff
  const MIN_32 := -0x8000_0000

  type UInt8 = x: int | 0 <= x < 0x100
  type UInt16 = x: int | 0 <= x < 0x1_0000
  type Word16 = x: int | MIN_16 <= x <= MAX_16
  type Word32 = x: int | MIN_32 <= x <= MAX_32

  predicate InRange16(x: int) {
    MIN_16 <= x <= MAX_16
  }

  predicate InRange32(x: int) {
    MIN_32 <= x <= MAX_32
  }

  /** The nearest 16-bit value. */
  function Clamp16(x: int): Word16 {
    if x > MAX_16 then MAX_16 else if x < MIN_16 then MIN_16 else x
  }

  /** The nearest 32-bit value. */
  function Clamp32(x: int): Word32 {
    if x > MAX_32 then MAX_32 else if x < MIN_32 then MIN_32 else x
  }

  /** Conversion to a 16-bit type: the low 16 bits, read as two's complement. */
  function Wrap16(x: int): Word16 {
    (x + 0x8000) % 0x1_0000 - 0x8000
  }

  /** What a 32-bit `int` computation keeps of an exact result. */
  function Wrap32(x: int): Word32 {
    (x + 0x8000_0000) % 0x1_0000_0000 - 0x8000_0000
  }

  /** No other value of the width is nearer. */
  lemma ClampNearest(x: int, y: Word32)
    ensures Magnitude(x - Clamp32(x)) < Magnitude(x - y) || y == Clamp32(x)
    ensures InRange16(y) ==> Magnitude(x - Clamp16(x)) < Magnitude(x - y) || y == Clamp16(x)
  {
  }

  /** Wrapping keeps the residue, so it loses whole multiples of the word size. */
  lemma WrapCongruent(x: int)
    ensures (Wrap16(x) - x) % 0x1_0000 == 0
    ensures (Wrap32(x) - x) % 0x1_0000_0000 == 0
  {
    ModUnique(Wrap16(x) - x, 0x1_0000, -((x + 0x8000) / 0x1_0000), 0);
    ModUnique(Wrap32(x) - x, 0x1_0000_0000, -((x + 0x8000_0000) / 0x1_0000_0000), 0);
  }

  /** The arithmetic shift is the exact quotient rounded down. */
  lemma AsrIsFloor(x: int, n: nat)
    ensures Asr(x, n) * Pow2(n) <= x < Asr(x, n) * Pow2(n) + Pow2(n)
  {
  }

  /** Only one 32-bit value has the residue. */
  lemma WrapUnique(x: int, w: Word32)
    requires (w - x) % 0x1_0000_0000 == 0
    ensures Wrap32(x) == w
  {
    var q := (w - x) / 0x1_0000_0000;
    ModUnique(x + 0x8000_0000, 0x1_0000_0000, -q, w + 0x8000_0000);
  }

  function Pow2(n: nat): (p: int)
    ensures p > 0
  {
    if n == 0 then 1 else 2 * Pow2(n - 1)
  }

  /** `x << n` on a 32-bit `int`, for the shift amounts C defines. */
  function Lsl(x: int, n: nat): Word32
    requires n < 32
  {
    Wrap32(x * Pow2(n))
  }

  /** `x >> n` on a signed type. */
  function Asr(x: int, n: nat): int {
    x / Pow2(n)
  }

  /** `~x` */
  function Not(x: int): int {
    -1 - x
  }

  function Magnitude(x: int): nat {
    if x < 0 then -x else x
  }

  /** `x & y` on sign-extended two's complement integers of any width. */
  function And(x: int, y: int): int
    decreases Magnitude(x)
  {
    if x == 0 then 0
    else if x == -1 then y
    else 2 * And(x / 2, y / 2) + (x % 2) * (y % 2)
  }

  /** `x | y` on sign-extended two's complement integers of any width. */
  function Or(x: int, y: int): int
    decreases Magnitude(x)
  {
    if x == 0 then y
    else if x == -1 then -1
    else 2 * Or(x / 2, y / 2) + (if x % 2 == 1 || y % 2 == 1 then 1 else 0)
  }

  /** `x ^ y` on sign-extended two's complement integers of any width. */
  function Xor(x: int, y: int): int
    decreases Magnitude(x)
  {
    if x == 0 then y
    else if x == -1 then Not(y)
    else 2 * Xor(x / 2, y / 2) + (x % 2 + y % 2) % 2
  }

  /** Bit k of the two's complement representation of x. */
  predicate Bit(x: int, k: nat)
    decreases k
  {
    if k == 0 then x % 2 == 1 else Bit(x / 2, k - 1)
  }

  // --------------------------------------------------------------------------
  // The recursive bitwise operators are the bit-by-bit ones
  // --------------------------------------------------------------------------

  lemma {:induction false} NotBit(x: int, k: nat)
    ensures Bit(Not(x), k) == !Bit(x, k)
    decreases k
  {
    if k > 0 {
      assert Not(x) / 2 == Not(x / 2);
      NotBit(x / 2, k - 1);
    }
  }

  lemma {:induction false} SignBit(s: int, k: nat)
    requires s == 0 || s == -1
    ensures Bit(s, k) == (s == -1)
  {
    if k > 0 {
      SignBit(s, k - 1);
    }
  }

  lemma {:induction false} AndBit(x: int, y: int, k: nat)
    ensures Bit(And(x, y), k) == (Bit(x, k) && Bit(y, k))
    decreases k
  {
    if x == 0 || x == -1 {
      SignBit(x, k);
      SignBit(0, k);
    } else {
      LastBit(And(x / 2, y / 2), if x % 2 == 1 && y % 2 == 1 then 1 else 0);
      if k > 0 {
        AndBit(x / 2, y / 2, k - 1);
      }
    }
  }

  lemma LastBit(half: int, last: int)
    requires last == 0 || last == 1
    ensures (2 * half + last) / 2 == half && (2 * half + last) % 2 == last
  {
  }

  lemma {:induction false} OrBit(x: int, y: int, k: nat)
    ensures Bit(Or(x, y), k) == (Bit(x, k) || Bit(y, k))
    decreases k
  {
    if x == 0 || x == -1 {
      SignBit(x, k);
    } else {
      LastBit(Or(x / 2, y / 2), if x % 2 == 1 || y % 2 == 1 then 1 else 0);
      if k > 0 {
        OrBit(x / 2, y / 2, k - 1);
      }
    }
  }

  lemma {:induction false} XorBit(x: int, y: int, k: nat)
    ensures Bit(Xor(x, y), k) == (Bit(x, k) != Bit(y, k))
    decreases k
  {
    if x == 0 || x == -1 {
      SignBit(x, k);
      NotBit(y, k);
    } else {
      LastBit(Xor(x / 2, y / 2), (x % 2 + y % 2) % 2);
      if k > 0 {
        XorBit(x / 2, y / 2, k - 1);
      }
    }
  }

  /** Bit k is the parity of the shifted value. */
  lemma {:induction false} BitIsParity(x: int, k: nat)
    ensures Bit(x, k) == (Asr(x, k) % 2 == 1)
    decreases k
  {
    if k > 0 {
      BitIsParity(x / 2, k - 1);
      DivDiv(x, 2, Pow2(k - 1));
    }
  }

  /** Reduction modulo 2^n keeps the bits below n. */
  lemma {:induction false} LowBitsSurvive(x: int, n: nat, k: nat)
    requires k < n
    ensures Bit(x % Pow2(n), k) == Bit(x, k)
    decreases k
  {
    HalveMod(x, Pow2(n - 1));
    LastBit(x / 2 % Pow2(n - 1), x % 2);
    if k > 0 {
      LowBitsSurvive(x / 2, n - 1, k - 1);
    }
  }

  // --------------------------------------------------------------------------
  // What the operators use the bitwise operations for
  // --------------------------------------------------------------------------

  lemma {:induction false} XorSign(x: int, y: int)
    ensures (Xor(x, y) < 0) == ((x < 0) != (y < 0))
    decreases Magnitude(x)
  {
    if x != 0 && x != -1 {
      XorSign(x / 2, y / 2);
    }
  }

  lemma {:induction false} XorRange(x: int, y: int, k: nat)
    requires -Pow2(k) <= x < Pow2(k) && -Pow2(k) <= y < Pow2(k)
    ensures -Pow2(k) <= Xor(x, y) < Pow2(k)
    decreases k
  {
    if x != 0 && x != -1 {
      XorRange(x / 2, y / 2, k - 1);
    }
  }

  /** `(x ^ y) >> 31` is nonzero exactly when the signs of x and y differ. */
  lemma SignsDiffer(x: Word32, y: Word32)
    ensures (Asr(Xor(x, y), 31) != 0) == ((x < 0) != (y < 0))
  {
    Pow2Table();
    XorSign(x, y);
    XorRange(x, y, 31);
  }

  /** Masking with 2^k - 1 is reduction modulo 2^k. */
  lemma {:induction false} AndMask(x: int, k: nat)
    ensures And(x, Pow2(k) - 1) == x % Pow2(k)
    decreases k
  {
    if k == 0 {
      AndZero(x);
    } else if x == 0 {
    } else if x == -1 {
      ModUnique(-1, Pow2(k), -1, Pow2(k) - 1);
    } else {
      var p := Pow2(k - 1);
      AndMask(x / 2, k - 1);
      HalveMod(x, p);
    }
  }

  lemma HalveMod(x: int, p: int)
    requires p > 0
    ensures x % (2 * p) == 2 * (x / 2 % p) + x % 2
  {
    var h := x / 2;
    var q, r := h / p, h % p;
    assert h == q * p + r;
    assert q * (2 * p) == 2 * (q * p);
    ModUnique(x, 2 * p, q, 2 * r + x % 2);
  }

  /** The union of a field and the bits below it is their sum. */
  lemma {:induction false} OrDisjoint(x: int, y: int, k: nat)
    requires x >= 0 && x % Pow2(k) == 0 && 0 <= y < Pow2(k)
    ensures Or(x, y) == x + y
    decreases k
  {
    if k == 0 {
      OrZero(x);
    } else if x != 0 {
      HalveMod(x, Pow2(k - 1));
      OrDisjoint(x / 2, y / 2, k - 1);
    }
  }

  lemma {:induction false} OrZero(x: int)
    ensures Or(x, 0) == x
    decreases Magnitude(x)
  {
    if x != 0 && x != -1 {
      OrZero(x / 2);
    }
  }

  lemma {:induction false} AndZero(x: int)
    ensures And(x, 0) == 0
    decreases Magnitude(x)
  {
    if x != 0 && x != -1 {
      AndZero(x / 2);
    }
  }

  /** Testing with the mask 2^k reads bit k, which is the parity of x >> k. */
  lemma {:induction false} AndSingleBit(x: int, k: nat)
    ensures (And(x, Pow2(k)) != 0) == (Asr(x, k) % 2 == 1)
    decreases k
  {
    if x == 0 {
      DivUnique(0, Pow2(k), 0, 0);
    } else if x == -1 {
      DivUnique(-1, Pow2(k), -1, Pow2(k) - 1);
    } else if k == 0 {
      AndZero(x / 2);
    } else {
      AndSingleBit(x / 2, k - 1);
      DivDiv(x, 2, Pow2(k - 1));
    }
  }

  // --------------------------------------------------------------------------
  // Powers of two and floor division
  // --------------------------------------------------------------------------

  lemma Pow2Table()
    ensures Pow2(0) == 0x1
    ensures Pow2(1) == 0x2
    ensures Pow2(2) == 0x4
    ensures Pow2(3) == 0x8
    ensures Pow2(4) == 0x10
    ensures Pow2(6) == 0x40
    ensures Pow2(5) == 0x20
    ensures Pow2(7) == 0x80
    ensures Pow2(8) == 0x100
    ensures Pow2(13) == 0x2000
    ensures Pow2(14) == 0x4000
    ensures Pow2(15) == 0x8000
    ensures Pow2(16) == 0x10000
    ensures Pow2(17) == 0x20000
    ensures Pow2(29) == 0x20000000
    ensures Pow2(30) == 0x40000000
    ensures Pow2(31) == 0x80000000
    ensures Pow2(32) == 0x100000000
  {
    assert Pow2(8) == 0x100;
    assert Pow2(16) == 0x1_0000;
    assert Pow2(24) == 0x100_0000;
  }

  lemma {:induction false} Pow2Monotone(m: nat, n: nat)
    requires m <= n
    ensures Pow2(m) <= Pow2(n)
    decreases n
  {
    if m < n {
      Pow2Monotone(m, n - 1);
    }
  }

  lemma {:induction false} Pow2Sum(m: nat, n: nat)
    ensures Pow2(m + n) == Pow2(m) * Pow2(n)
    decreases m
  {
    if m > 0 {
      Pow2Sum(m - 1, n);
      MulDouble(Pow2(m - 1), Pow2(n));
    }
  }

  lemma MulMonotone(a: int, b: int, c: int)
    requires a <= b && c >= 0
    ensures a * c <= b * c
  {
  }

  lemma MulDistributes(a: int, b: int, c: int)
    ensures (a + b) * c == a * c + b * c
    ensures (a - b) * c == a * c - b * c
  {
  }

  /** Multiples of c are ordered as their factors, and a step is at least c. */
  lemma MulCompare(a: int, b: int, c: int)
    requires c > 0
    ensures a < b <==> a * c < b * c
    ensures a < b <==> a * c + c <= b * c
  {
    MulDistributes(a, b, c);
    MulSteps(a - b, c);
  }

  lemma MulSteps(e: int, d: int)
    requires d > 0
    ensures e >= 1 ==> e * d >= d
    ensures e <= -1 ==> e * d <= -d
  {
  }

  lemma MulDouble(a: int, b: int)
    ensures 2 * a * b == 2 * (a * b)
  {
  }

  lemma DivUnique(x: int, d: int, q: int, r: int)
    requires d > 0 && 0 <= r < d && x == q * d + r
    ensures x / d == q && x % d == r
  {
    var q' := x / d;
    assert x == q' * d + x % d;
    assert (q' - q) * d == q' * d - q * d;
    MulSteps(q' - q, d);
  }

  lemma ModUnique(x: int, d: int, q: int, r: int)
    requires d > 0 && 0 <= r < d && x == q * d + r
    ensures x % d == r
  {
    DivUnique(x, d, q, r);
  }

  lemma MulBounds(r: int, c: int, d: int)
    requires 0 <= r < d && c > 0
    ensures 0 <= r * c <= c * d - c
  {
    assert (d - 1 - r) * c >= 0;
    assert (d - 1 - r) * c == d * c - c - r * c;
  }

  lemma MulRegroup(q: int, r: int, c: int, d: int)
    ensures (q * d + r) * c == q * (c * d) + r * c
  {
    assert (q * d + r) * c == q * d * c + r * c;
    assert q * d * c == q * (c * d);
  }

  lemma DivDiv(x: int, c: int, d: int)
    requires c > 0 && d > 0
    ensures c * d > 0 && x / (c * d) == x / c / d
  {
    var q, r := x / c, x % c;
    var q', r' := q / d, q % d;
    MulBounds(r', c, d);
    MulRegroup(q', r', c, d);
    assert q == q' * d + r';
    assert x == q * c + r;
    var e := c * d;
    assert e > 0;
    DivUnique(x, e, q', r' * c + r);
  }

  lemma DivMonotone(x: int, y: int, d: int)
    requires d > 0 && x <= y
    ensures x / d <= y / d
  {
    var p, q := x / d, y / d;
    assert x == p * d + x % d && y == q * d + y % d;
    assert (p - q) * d == p * d - q * d;
    MulSteps(p - q, d);
  }

  /** A right shift by at least the width leaves only copies of the sign. */
  lemma AsrSign(x: int, n: nat)
    requires -Pow2(n) <= x < Pow2(n)
    ensures Asr(x, n) == if x < 0 then -1 else 0
  {
    if x < 0 {
      DivUnique(x, Pow2(n), -1, x + Pow2(n));
    } else {
      DivUnique(x, Pow2(n), 0, x);
    }
  }

  /** A right shift stays between the value and its sign. */
  lemma {:induction false} AsrWithin(x: int, n: nat)
    ensures x >= 0 ==> 0 <= Asr(x, n) <= x
    ensures x < 0 ==> x <= Asr(x, n) < 0
    decreases n
  {
    if n == 0 {
      DivUnique(x, 1, x, 0);
    } else {
      AsrWithin(x / 2, n - 1);
      DivDiv(x, 2, Pow2(n - 1));
    }
  }

  /** `~(~x >> n)`, the portable arithmetic shift, is the arithmetic shift. */
  lemma NotAsrNot(x: int, n: nat)
    ensures Not(Asr(Not(x), n)) == Asr(x, n)
  {
    var d := Pow2(n);
    var q, r := x / d, x % d;
    assert -1 - x == (-1 - q) * d + (d - 1 - r) by {
      assert (-1 - q) * d == -d - q * d;
    }
    DivUnique(-1 - x, d, -1 - q, d - 1 - r);
  }

  /** A result less than one period out of range wraps to the other end. */
  lemma WrapCases(x: int)
    ensures InRange32(x) ==> Wrap32(x) == x
    ensures MAX_32 < x <= MAX_32 + 0x1_0000_0000 ==> Wrap32(x) == x - 0x1_0000_0000
    ensures MIN_32 - 0x1_0000_0000 <= x < MIN_32 ==> Wrap32(x) == x + 0x1_0000_0000
  {
  }

  /** Whole periods vanish, and the upper half of a period is negative. */
  lemma WrapPeriodic(q: int, z: int)
    requires 0 <= z < 0x1_0000_0000
    ensures Wrap32(q * 0x1_0000_0000 + z) == if z < 0x8000_0000 then z else z - 0x1_0000_0000
  {
    var carry := if z < 0x8000_0000 then 0 else 1;
    ModUnique(q * 0x1_0000_0000 + z + 0x8000_0000, 0x1_0000_0000, q + carry, z + 0x8000_0000 - carry * 0x1_0000_0000);
  }

  /** What wrapping leaves of a product by a factor p of the period. */
  lemma WrappedProduct(x: int, p: int, period: int)
    requires p > 0 && period > 0 && p * period == 0x1_0000_0000
    ensures var z := x % period * p;
      0 <= z < 0x1_0000_0000 && Wrap32(x * p) == if z < 0x8000_0000 then z else z - 0x1_0000_0000
  {
    var q, r := x / period, x % period;
    assert x == q * period + r;
    MulRegroup(q, r, p, period);
    MulBounds(r, p, period);
    WrapPeriodic(q, r * p);
  }

  /** The sign of a left shift is decided by the 32 - n bits that are not shifted out. */
  lemma LslSign(x: int, n: nat)
    requires 0 < n < 32
    ensures (Lsl(x, n) > 0) == (0 < x % Pow2(32 - n) < Pow2(31 - n))
    ensures (Lsl(x, n) < 0) == (x % Pow2(32 - n) >= Pow2(31 - n))
  {
    PowersOfPeriod(n);
    WrappedProduct(x, Pow2(n), Pow2(32 - n));
    MulCompare(x % Pow2(32 - n), Pow2(31 - n), Pow2(n));
    MulCompare(0, x % Pow2(32 - n), Pow2(n));
  }

  lemma PowersOfPeriod(n: nat)
    requires 0 < n < 32
    ensures Pow2(n) * Pow2(32 - n) == 0x1_0000_0000
    ensures Pow2(31 - n) * Pow2(n) == 0x8000_0000
  {
    Pow2Table();
    Pow2Sum(n, 32 - n);
    Pow2Sum(31 - n, n);
  }

  lemma WrapExact(x: int)
    requires InRange32(x)
    ensures Wrap32(x) == x
  {
  }

  /** The shift of zero or of a value whose exact shift fits loses nothing. */
  lemma LslExact(x: int, n: nat)
    requires n < 32 && InRange32(x * Pow2(n))
    ensures Lsl(x, n) == x * Pow2(n)
  {
  }
}

/**
 The reference fixed-point operators of Host/AMR/Include/BASOP.H: the saturating
 multiply and accumulate expressions, the bit-serial shifts with their Overflow
 flag, normalisation and restoring division.
 */
module ReferenceOps {
  import opened Words

  /** The global Overflow flag. */
  class Flags {
    var overflow: bool

    constructor ()
      ensures !overflow
    {
      overflow := false;
    }
  }

  datatype Option<+T> = None | Some(value: T)

  // --------------------------------------------------------------------------
  // The ARM instructions the expressions are written with
  // --------------------------------------------------------------------------

  /** Product of two 16-bit values; it always fits in 32 bits. */
  function Smulbb(x: Word16, y: Word16): (p: Word32)
    ensures p == 0x4000_0000 <==> x == MIN_16 && y == MIN_16
    ensures -0x3fff_8000 <= p <= 0x3fff_8000 || p == 0x4000_0000
  {
    ProductRange(x, y);
    x * y
  }

  lemma ProductRange(x: Word16, y: Word16)
    ensures -0x3fff_8000 <= x * y <= 0x3fff_8000 || x * y == 0x4000_0000
    ensures x * y == 0x4000_0000 <==> x == MIN_16 && y == MIN_16
  {
    var s: int := x;
    if s >= 0 {
      MulMonotone(MIN_16, y, s);
      MulMonotone(y, MAX_16, s);
    } else {
      MulMonotone(y, MAX_16, -s);
      if y > MIN_16 {
        MulMonotone(MIN_16 + 1, y, -s);
      }
    }
  }

  function Qadd(x: Word32, y: Word32): Word32 {
    Clamp32(x + y)
  }

  function Qsub(x: Word32, y: Word32): Word32 {
    Clamp32(x - y)
  }

  /** Double with saturation, then add with saturation. */
  function Qdadd(x: Word32, y: Word32): Word32 {
    Clamp32(x + Clamp32(2 * y))
  }

  // --------------------------------------------------------------------------
  // Expressions
  // --------------------------------------------------------------------------

  function LAdd(x: Word32, y: Word32): Word32 {
    Qadd(x, y)
  }

  function LSub(x: Word32, y: Word32): Word32 {
    Qsub(x, y)
  }

  function LMac(acc: Word32, x: Word16, y: Word16): Word32 {
    Qdadd(acc, Smulbb(x, y))
  }

  function LMult(x: Word16, y: Word16): Word32 {
    var p := Smulbb(x, y);
    Qadd(p, p)
  }

  /** The sums and products, each saturating to the nearest representable value. */
  lemma SumsAndProducts(a: Word32, b: Word32, x: Word16, y: Word16)
    ensures LAdd(a, b) == Clamp32(a + b) && LSub(a, b) == Clamp32(a - b)
    ensures LMult(x, y) == Clamp32(2 * (x * y))
    ensures LMac(a, x, y) == Clamp32(a + Clamp32(2 * (x * y)))
  {
  }

  /** The saturated Q15 product: the exact one, rounded down. */
  function Mult(x: Word16, y: Word16): (r: Word16)
    ensures r == Clamp16(Asr(x * y, 15))
  {
    Pow2Table();
    var p := Smulbb(x, y);
    DivDiv(2 * p, 2, Pow2(15));
    Asr(Qadd(p, p), 16)
  }

  /** Round to the nearest multiple of 2^16, keeping the high half. */
  function Round(x: Word32): (r: Word16)
    ensures r == Clamp16(Asr(x + 0x8000, 16))
  {
    Pow2Table();
    Asr(Qadd(x, 0x8000), 16)
  }

  /** Product of a 32-bit and a Q15 value, computed from the two halves of v32. */
  function LMls(v32: Word32, v: Word16): Word32 {
    LMlsSum(Wrap32(And(v32, 0xffff) * v), Wrap16(Asr(v32, 16)), v)
  }

  function LMlsSum(lowProduct: Word32, high: Word16, v: Word16): Word32 {
    AsrWithin(lowProduct, 15);
    Qdadd(Asr(lowProduct, 15), Smulbb(v, high))
  }

  /** The only inputs on which LMls is off. */
  predicate LMlsOffByOne(v32: Word32, v: Word16) {
    v == MIN_16 && MIN_32 < v32 < MIN_32 + 0x1_0000
  }

  lemma LMlsMeaning(v32: Word32, v: Word16)
    ensures LMls(v32, v) == Clamp32(Asr(v32 * v, 15)) - (if LMlsOffByOne(v32, v) then 1 else 0)
  {
    var hi, lo := v32 / 0x1_0000, v32 % 0x1_0000;
    LowHalfProduct(lo, v);
    LMlsHalves(v32, hi, lo, v);
    HalvesProduct(v32, hi, lo, v);
    InnerClamp(lo * v, hi, lo, v);
  }

  lemma LMlsHalves(v32: Word32, hi: Word16, lo: int, v: Word16)
    requires 0 <= lo < 0x1_0000 && v32 == hi * 0x1_0000 + lo && InRange32(lo * v)
    ensures LMls(v32, v) == LMlsSum(lo * v, hi, v)
  {
    assert And(v32, 0xffff) == lo by {
      Pow2Table();
      AndMask(v32, 16);
    }
    assert Wrap16(Asr(v32, 16)) == hi by {
      Pow2Table();
    }
    WrapExact(lo * v);
  }

  /** Saturating the doubled product first matters only for the product 2^30. */
  lemma InnerClamp(product: Word32, hi: Word16, lo: int, v: Word16)
    requires 0 <= lo < 0x1_0000 && (v == MIN_16 ==> Asr(product, 15) == -lo)
    ensures LMlsSum(product, hi, v)
         == Clamp32(2 * (v * hi) + Asr(product, 15)) - (if v == MIN_16 && hi == MIN_16 && lo > 0 then 1 else 0)
  {
    ProductRange(v, hi);
  }

  lemma LowHalfProduct(lo: int, v: Word16)
    requires 0 <= lo < 0x1_0000
    ensures InRange32(lo * v)
    ensures v == MIN_16 ==> Asr(lo * v, 15) == -lo
    ensures -0x1_0000 <= Asr(lo * v, 15) < 0x1_0000
  {
    MulMonotone(MIN_16, v, lo);
    MulMonotone(v, MAX_16, lo);
    Pow2Table();
  }

  lemma HalvesProduct(v32: int, hi: int, lo: int, v: int)
    requires v32 == hi * 0x1_0000 + lo
    ensures Asr(v32 * v, 15) == 2 * (v * hi) + Asr(lo * v, 15)
  {
    Pow2Table();
    MulDistributes(hi * 0x1_0000, lo, v);
    assert hi * 0x1_0000 * v == 0x1_0000 * (v * hi);
  }

  // --------------------------------------------------------------------------
  // Saturation and shifts
  // --------------------------------------------------------------------------

  /** The flag is rewritten, not accumulated: a value in range clears it. */
  method Sature(flags: Flags, x: Word32) returns (r: Word16)
    modifies flags
    ensures r == Clamp16(x)
    ensures flags.overflow == !InRange16(x)
  {
    if x > 0x7fff {
      flags.overflow := true;
      r := MAX_16;
    } else if x < -0x8000 {
      flags.overflow := true;
      r := MIN_16;
    } else {
      flags.overflow := false;
      r := Wrap16(x);
    }
  }

  /** Shift by a signed amount: saturating to the left, rounding down to the right. */
  function Shift16(x: Word16, n: int): Word16 {
    if n >= 0 then Clamp16(x * Pow2(n)) else AsrWithin(x, -n); Asr(x, -n)
  }

  function Shift32(x: Word32, n: int): Word32 {
    if n >= 0 then Clamp32(x * Pow2(n)) else AsrWithin(x, -n); Asr(x, -n)
  }

  predicate Saturates16(x: Word16, n: int) {
    n >= 0 && !InRange16(x * Pow2(n))
  }

  predicate Saturates32(x: Word32, n: int) {
    n >= 0 && !InRange32(x * Pow2(n))
  }

  /** To the left the exact product or the end of the range it lies beyond, to the right the quotient rounded down. */
  lemma ShiftMeaning16(x: Word16, n: int)
    ensures n >= 0 && x * Pow2(n) > MAX_16 ==> Shift16(x, n) == MAX_16
    ensures n >= 0 && x * Pow2(n) < MIN_16 ==> Shift16(x, n) == MIN_16
    ensures n >= 0 && MIN_16 <= x * Pow2(n) <= MAX_16 ==> Shift16(x, n) == x * Pow2(n)
    ensures n < 0 ==> Shift16(x, n) * Pow2(-n) <= x < Shift16(x, n) * Pow2(-n) + Pow2(-n)
    ensures Saturates16(x, n) <==> n >= 0 && Shift16(x, n) != x * Pow2(n)
  {
    if n < 0 {
      AsrIsFloor(x, -n);
    }
  }

  lemma ShiftMeaning32(x: Word32, n: int)
    ensures n >= 0 && x * Pow2(n) > MAX_32 ==> Shift32(x, n) == MAX_32
    ensures n >= 0 && x * Pow2(n) < MIN_32 ==> Shift32(x, n) == MIN_32
    ensures n >= 0 && MIN_32 <= x * Pow2(n) <= MAX_32 ==> Shift32(x, n) == x * Pow2(n)
    ensures n < 0 ==> Shift32(x, n) * Pow2(-n) <= x < Shift32(x, n) * Pow2(-n) + Pow2(-n)
    ensures Saturates32(x, n) <==> n >= 0 && Shift32(x, n) != x * Pow2(n)
  {
    if n < 0 {
      AsrIsFloor(x, -n);
    }
  }

  /** The exact quotient by 2^n rounded half up. */
  function RoundedAsr(x: int, n: nat): int
    requires n >= 1
  {
    Asr(x + Pow2(n - 1), n)
  }

  /** The multiple of 2^n that is at most half a step away, the upper one of two. */
  lemma RoundsToNearest(x: int, n: nat)
    requires n >= 1
    ensures x - Pow2(n - 1) < RoundedAsr(x, n) * Pow2(n) <= x + Pow2(n - 1)
  {
    AsrIsFloor(x + Pow2(n - 1), n);
  }

  /** The rounding right shift by a signed amount; a left shift is exact or saturates. */
  function RoundedShift16(x: Word16, n: int): int {
    if n >= 1 then RoundedAsr(x, n) else Shift16(x, -n)
  }

  function RoundedShift32(x: Word32, n: int): int {
    if n >= 1 then RoundedAsr(x, n) else Shift32(x, -n)
  }

  /** A shift of at most 15 fits in 32 bits and keeps the sign. */
  lemma SmallShift16(x: Word16, n: nat)
    requires n <= 15
    ensures Pow2(n) <= 0x8000 && InRange32(x * Pow2(n))
    ensures (x > 0) == (x * Pow2(n) > 0)
  {
    Pow2Table();
    Pow2Monotone(n, 15);
    MulSteps(x, Pow2(n));
    MulMonotone(MIN_16, x, Pow2(n));
    MulMonotone(x, MAX_16, Pow2(n));
  }

  /** A nonzero value shifted left by 16 or more leaves the 16-bit range on its own side. */
  lemma LargeShift16(x: Word16, n: nat)
    requires n > 15 && x != 0
    ensures Saturates16(x, n)
    ensures Shift16(x, n) == if x > 0 then MAX_16 else MIN_16
  {
    Pow2Table();
    Pow2Monotone(16, n);
    MulSteps(x, Pow2(n));
  }

  /** `x * (1 << n)`, exact in 32 bits where the source reads it. */
  method ShlProduct(x: Word16, n: nat) returns (product: Word32)
    ensures n <= 15 || x == 0 ==> product == x * Pow2(n) && (x > 0) == (x * Pow2(n) > 0)
  {
    // C leaves 1 << n undefined from n = 32 on, so any value may come out.
    var power: Word32 := *;
    if n < 32 {
      power := Lsl(1, n);
    }
    product := Wrap32(x * power);
    if n <= 15 {
      SmallShift16(x, n);
      LslExact(1, n);
      WrapExact(x * Pow2(n));
    }
  }

  method Shl(flags: Flags, x: Word16, n: Word16) returns (r: Word16)
    requires n != MIN_16
    modifies flags
    ensures r == Shift16(x, n)
    ensures flags.overflow == (old(flags.overflow) || Saturates16(x, n))
    decreases n < 0
  {
    if n < 0 {
      r := Shr(flags, x, Wrap16(-n));
    } else {
      var product := ShlProduct(x, n);
      if n > 15 && x != 0 {
        LargeShift16(x, n);
      }
      if (n > 15 && x != 0) || product != Wrap16(product) {
        flags.overflow := true;
        r := if x > 0 then MAX_16 else MIN_16;
      } else {
        r := Wrap16(product);
      }
    }
  }

  method Shr(flags: Flags, x: Word16, n: Word16) returns (r: Word16)
    requires n != MIN_16
    modifies flags
    ensures r == Shift16(x, -n)
    ensures flags.overflow == (old(flags.overflow) || (n < 0 && Saturates16(x, -n)))
    decreases n < 0
  {
    if n < 0 {
      r := Shl(flags, x, Wrap16(-n));
    } else {
      AsrWithin(x, n);
      if n == 0 {
        DivUnique(x, 1, x, 0);
      }
      if n >= 15 {
        Pow2Table();
        Pow2Monotone(15, n);
        AsrSign(x, n);
        r := if x < 0 then -1 else 0;
      } else if x < 0 {
        NotAsrNot(x, n);
        r := Not(Asr(Not(x), n));
      } else {
        r := Asr(x, n);
      }
    }
  }

  /** n doublings, the way the bit-serial loops scale. */
  function Doubled(x: int, n: nat): int
    decreases n
  {
    if n == 0 then x else Doubled(2 * x, n - 1)
  }

  lemma {:induction false} DoubledIsProduct(x: int, n: nat)
    ensures Doubled(x, n) == x * Pow2(n)
    decreases n
  {
    if n > 0 {
      DoubledIsProduct(2 * x, n - 1);
      MulSwap(x, 2, Pow2(n - 1));
    }
  }

  lemma MulSwap(a: int, b: int, c: int)
    ensures a * (b * c) == a * b * c
    ensures a * (c * b) == a * b * c
  {
  }

  /** A value whose double does not fit stays out of range however often it is doubled. */
  lemma {:induction false} SaturatedFromHere(x: int, n: nat)
    requires n >= 1
    ensures x > 0x3fff_ffff ==> Doubled(x, n) > MAX_32
    ensures x < -0x4000_0000 ==> Doubled(x, n) < MIN_32
    decreases n
  {
    if n > 1 {
      SaturatedFromHere(2 * x, n - 1);
    }
  }

  method LShl(flags: Flags, x0: Word32, n0: Word16) returns (r: Word32)
    requires n0 != MIN_16
    modifies flags
    ensures r == Shift32(x0, n0)
    ensures flags.overflow == (old(flags.overflow) || Saturates32(x0, n0))
    decreases n0 <= 0
  {
    r := 0;
    if n0 <= 0 {
      r := LShr(flags, x0, Wrap16(-n0));
    } else {
      DoubledIsProduct(x0, n0);
      var x, n := x0, n0;
      while n > 0
        invariant 0 <= n <= n0
        invariant Doubled(x, n) == Doubled(x0, n0)
        invariant n < n0 ==> r == x
        invariant flags.overflow == old(flags.overflow)
      {
        SaturatedFromHere(x, n);
        if x > 0x3fff_ffff {
          flags.overflow := true;
          r := MAX_32;
          break;
        } else if x < -0x4000_0000 {
          flags.overflow := true;
          r := MIN_32;
          break;
        }
        x := Wrap32(x * 2);
        r := x;
        n := n - 1;
      }
    }
  }

  method LShr(flags: Flags, x: Word32, n: Word16) returns (r: Word32)
    requires n != MIN_16
    modifies flags
    ensures r == Shift32(x, -n)
    ensures flags.overflow == (old(flags.overflow) || (n < 0 && Saturates32(x, -n)))
    decreases n < 0
  {
    if n < 0 {
      r := LShl(flags, x, Wrap16(-n));
    } else {
      AsrWithin(x, n);
      if n == 0 {
        DivUnique(x, 1, x, 0);
      }
      if n >= 31 {
        Pow2Table();
        Pow2Monotone(31, n);
        AsrSign(x, n);
        r := if x < 0 then -1 else 0;
      } else if x < 0 {
        NotAsrNot(x, n);
        r := Not(Asr(Not(x), n));
      } else {
        r := Asr(x, n);
      }
    }
  }

  // The mutual recursion of the left and right shifts, as calls on shift amounts.

  datatype ShiftCall = LeftCall(n: Word16) | RightCall(n: Word16)

  /** The call a shift makes of its opposite; the 32-bit left shift also delegates n = 0. */
  function Callee(long: bool, c: ShiftCall): Option<ShiftCall> {
    var n: int := c.n;
    match c
    case LeftCall(_) =>
      if n < 0 || (long && n == 0) then Some(RightCall(Wrap16(-n))) else None
    case RightCall(_) =>
      if n < 0 then Some(LeftCall(Wrap16(-n))) else None
  }

  ghost predicate ReturnsWithin(long: bool, c: ShiftCall, depth: nat)
    decreases depth
  {
    var next := Callee(long, c);
    next.None? || (depth > 0 && ReturnsWithin(long, next.value, depth - 1))
  }

  ghost predicate Returns(long: bool, c: ShiftCall) {
    exists depth: nat :: ReturnsWithin(long, c, depth)
  }

  /** The recursion ends, after at most one delegation, except for the shift amount -32768. */
  lemma ShiftsReturn(long: bool, c: ShiftCall)
    ensures Returns(long, c) <==> c.n != MIN_16
    ensures c.n != MIN_16 ==> ReturnsWithin(long, c, 1)
  {
    if c.n == MIN_16 {
      forall depth: nat
        ensures !ReturnsWithin(long, c, depth)
      {
        NeverReturns(long, c, depth);
      }
    } else {
      ReturnsAtOnce(long, c, 1);
      assert Returns(long, c);
    }
  }

  lemma ReturnsAtOnce(long: bool, c: ShiftCall, depth: nat)
    requires c.n != MIN_16 && depth >= 1
    ensures ReturnsWithin(long, c, depth)
  {
    var next := Callee(long, c);
    if next.Some? {
      assert ReturnsWithin(long, next.value, depth - 1);
    }
  }

  lemma {:induction false} NeverReturns(long: bool, c: ShiftCall, depth: nat)
    requires c.n == MIN_16
    ensures !ReturnsWithin(long, c, depth)
    decreases depth
  {
    if depth > 0 {
      NeverReturns(long, Callee(long, c).value, depth - 1);
    }
  }

  // --------------------------------------------------------------------------
  // Rounding right shifts
  // --------------------------------------------------------------------------

  /** Adding back the last bit shifted out rounds half up. */
  lemma LastBitRounds(x: int, n: nat)
    requires n >= 1
    ensures RoundedAsr(x, n) == Asr(x, n) + (if And(x, Pow2(n - 1)) != 0 then 1 else 0)
    ensures RoundedAsr(x, n) == (Asr(x, n - 1) + 1) / 2
  {
    AndSingleBit(x, n - 1);
    HalfUp(x, Pow2(n - 1));
  }

  lemma HalfUp(x: int, h: int)
    requires h > 0
    ensures x / (2 * h) == x / h / 2
    ensures (x + h) / (2 * h) == (x / h + 1) / 2
  {
    MulDistributes(x / h, 1, h);
    DivUnique(x + h, h, x / h + 1, x % h);
    DivDiv(x, h, 2);
    DivDiv(x + h, h, 2);
  }

  lemma MaskIsPower(n: nat)
    requires n <= 30
    ensures Lsl(1, n) == Pow2(n)
  {
    assert Pow2(n) <= 0x4000_0000 by {
      Pow2Table();
      Pow2Monotone(n, 30);
    }
    WrapExact(Pow2(n));
  }

  /** Right shifts by more than the width round to zero. */
  lemma RoundsToZero(x: int, n: nat, width: nat)
    requires n > width && -Pow2(width) <= x < Pow2(width)
    ensures RoundedAsr(x, n) == 0
  {
    Pow2Monotone(width, n - 1);
    DivUnique(x + Pow2(n - 1), Pow2(n), 0, x + Pow2(n - 1));
  }

  method ShrR(flags: Flags, x: Word16, n: Word16) returns (r: Word16)
    requires n != MIN_16
    modifies flags
    ensures r == RoundedShift16(x, n)
    ensures flags.overflow == (old(flags.overflow) || (n <= 0 && Saturates16(x, -n)))
  {
    if n > 15 {
      Pow2Table();
      RoundsToZero(x, n, 15);
      r := 0;
    } else {
      r := Shr(flags, x, n);
      if n > 0 {
        LastBitRounds(x, n);
        MaskIsPower(n - 1);
        RoundedFits(x, n, MAX_16);
        if And(x, Lsl(1, n - 1)) != 0 {
          r := r + 1;
        }
      }
    }
  }

  lemma RoundedFits(x: int, n: nat, max: nat)
    requires n >= 1 && x <= max && max >= 1
    ensures Asr(x, n) + 1 <= max
  {
    DivDiv(x, 2, Pow2(n - 1));
    AsrWithin(x / 2, n - 1);
  }

  method LShrR(flags: Flags, x: Word32, n: Word16) returns (r: Word32)
    requires n != MIN_16
    modifies flags
    ensures r == RoundedShift32(x, n)
    ensures flags.overflow == (old(flags.overflow) || (n <= 0 && Saturates32(x, -n)))
  {
    if n > 31 {
      Pow2Table();
      RoundsToZero(x, n, 31);
      r := 0;
    } else {
      r := LShr(flags, x, n);
      if n > 0 {
        LastBitRounds(x, n);
        MaskIsPower(n - 1);
        RoundedFits(x, n, MAX_32);
        if And(x, Lsl(1, n - 1)) != 0 {
          r := r + 1;
        }
      }
    }
  }

  // --------------------------------------------------------------------------
  // Normalisation
  // --------------------------------------------------------------------------

  /** The top bit of a `width`-bit value differs from its sign: no headroom is left. */
  predicate Normalized(y: int, width: nat)
    requires width >= 2
  {
    Pow2(width - 2) <= y < Pow2(width - 1) || -Pow2(width - 1) <= y < -Pow2(width - 2)
  }

  /** The ranges the comments of norm_s and norm_l give. */
  lemma NormalizedRanges(y: int)
    ensures Normalized(y, 16) <==> 0x4000 <= y <= 0x7fff || -0x8000 <= y < -0x4000
    ensures Normalized(y, 32) <==> 0x4000_0000 <= y <= 0x7fff_ffff || -0x8000_0000 <= y < -0x4000_0000
  {
    Pow2Table();
  }

  /** At most one shift normalises a value. */
  lemma NormUnique(x: int, m: nat, n: nat, width: nat)
    requires width >= 2
    requires Normalized(x * Pow2(m), width) && Normalized(x * Pow2(n), width)
    ensures m == n
  {
    if m < n {
      NormStrict(x, m, n, width);
    } else if n < m {
      NormStrict(x, n, m, width);
    }
  }

  lemma NormStrict(x: int, m: nat, n: nat, width: nat)
    requires width >= 2 && m < n
    requires Normalized(x * Pow2(m), width)
    ensures !Normalized(x * Pow2(n), width)
  {
    Pow2Sum(n - m, m);
    Pow2Monotone(1, n - m);
    MulSwap(x, Pow2(m), Pow2(n - m));
    NoHeadroom(x * Pow2(m), Pow2(n - m), Pow2(width - 2));
  }

  lemma NoHeadroom(y: int, p: int, half: int)
    requires p >= 2 && half > 0
    ensures y >= half ==> y * p >= 2 * half
    ensures y < -half ==> y * p < -2 * half
  {
    if y >= 0 {
      MulMonotone(2, p, y);
    } else {
      MulMonotone(2, p, -y);
    }
  }

  /** Shifting the complement and complementing back normalises a negative value. */
  lemma ComplementNorm(x: int, n: nat, width: nat)
    requires width >= 2 && x < -1
    requires Pow2(width - 2) <= Not(x) * Pow2(n) < Pow2(width - 1)
    requires n < width - 1
    ensures Normalized(x * Pow2(n), width)
  {
    var p, q := Pow2(n), Pow2(width - 1 - n);
    MulDistributes(-1, x, p);
    // The upper bound is a multiple of 2^n too, so the complement is 2^n below it.
    Pow2Sum(width - 1 - n, n);
    MulCompare(Not(x), q, p);
  }

  method NormS(x0: Word16) returns (r: Word16)
    ensures x0 == 0 ==> r == 0
    ensures x0 != 0 ==> 0 <= r <= 15 && Normalized(x0 * Pow2(r), 16)
  {
    Pow2Table();
    var x := x0;
    if x == 0 {
      r := 0;
    } else if x == -1 {
      r := 15;
    } else {
      if x < 0 {
        x := Not(x);
      }
      ghost var start := x;
      r := 0;
      while x < 0x4000
        invariant 0 <= r <= 14 && 0 < x <= MAX_16
        invariant x == start * Pow2(r)
        invariant start > 0
        decreases 0x4000 - x
      {
        NormStep(start, r, 14, 0x4000);
        x := Wrap16(x * 2);
        r := r + 1;
      }
      if x0 < 0 {
        ComplementNorm(x0, r, 16);
      }
    }
  }

  method NormL(x0: Word32) returns (r: Word16)
    ensures x0 == 0 ==> r == 0
    ensures x0 != 0 ==> 0 <= r <= 31 && Normalized(x0 * Pow2(r), 32)
  {
    Pow2Table();
    var x := x0;
    if x == 0 {
      r := 0;
    } else if x == -1 {
      r := 31;
    } else {
      if x < 0 {
        x := Not(x);
      }
      ghost var start := x;
      r := 0;
      while x < 0x4000_0000
        invariant 0 <= r <= 30 && 0 < x <= MAX_32
        invariant x == start * Pow2(r)
        invariant start > 0
        decreases 0x4000_0000 - x
      {
        NormStep(start, r, 30, 0x4000_0000);
        x := Wrap32(x * 2);
        r := r + 1;
      }
      if x0 < 0 {
        ComplementNorm(x0, r, 32);
      }
    }
  }

  /** One doubling of a value still below 2^top. */
  lemma NormStep(start: int, r: nat, top: nat, bound: int)
    requires start > 0 && bound == Pow2(top) && start * Pow2(r) < bound
    ensures start * Pow2(r + 1) == start * Pow2(r) * 2
    ensures r < top
  {
    var p := Pow2(r);
    assert start * (2 * p) == start * p * 2;
    MulSteps(start, p);
    if r >= top {
      Pow2Monotone(top, r);
      assert false;
    }
  }

  /** Normalise, then shift back: nothing saturates on the way and the value returns. */
  method NormalizeAndBack(flags: Flags, x: Word32) returns (n: Word16, y: Word32, back: Word32)
    modifies flags
    ensures back == x
    ensures n >= 0 && y == x * Pow2(n)
    ensures x != 0 ==> Normalized(y, 32)
    ensures flags.overflow == old(flags.overflow)
  {
    n := NormL(x);
    Pow2Table();
    y := LShl(flags, x, n);
    back := LShr(flags, y, n);
    DivUnique(y, Pow2(n), x, 0);
  }

  // --------------------------------------------------------------------------
  // Restoring division
  // --------------------------------------------------------------------------

  datatype DivResult = Quotient(q: Word16) | DivisionError | DivisionByZero

  /** One restoring step keeps num0 * 2^i == quotient * den + num. */
  lemma RestoringStep(num0: int, den: int, i: nat, q: int, num: int)
    requires den > 0 && num0 * Pow2(i) == q * den + num
    ensures num0 * Pow2(i + 1) == 2 * q * den + 2 * num
    ensures num0 * Pow2(i + 1) == (2 * q + 1) * den + (2 * num - den)
  {
    var p := Pow2(i);
    assert num0 * (2 * p) == 2 * (num0 * p);
    assert 2 * (q * den + num) == 2 * q * den + 2 * num;
    assert (2 * q + 1) * den == 2 * q * den + den;
  }

  /** A quotient of a proper fraction scaled by 2^i needs i bits. */
  lemma QuotientBits(num0: int, den: int, i: nat, q: int, num: int)
    requires 0 <= num0 < den && 0 <= num < den && num0 * Pow2(i) == q * den + num
    ensures 0 <= q < Pow2(i)
  {
    var p := Pow2(i);
    MulMonotone(0, num0, p);
    MulCompare(-1, q, den);
    MulMonotone(num0, den - 1, p);
    MulDistributes(den, 1, p);
    MulCompare(q, p, den);
  }

  /** The Q15 fraction num / den rounded down, with one represented by MAX_16. */
  function Fraction15(num: Word16, den: Word16): Word16
    requires 0 <= num <= den && den > 0
  {
    if num == den then
      MAX_16
    else
      FractionRange(num, den);
      num * 0x8000 / den
  }

  lemma FractionRange(num: int, den: int)
    requires 0 <= num < den
    ensures 0 <= num * 0x8000 / den <= MAX_16
  {
    var q, r := num * 0x8000 / den, num * 0x8000 % den;
    Pow2Table();
    QuotientBits(num, den, 15, q, r);
  }

  /** The fifteen restoring steps that div_s and div_l run; no step leaves its word. */
  method Restoring(num0: Word32, den: Word32) returns (q: Word16, num: Word32)
    requires 0 <= num0 < den <= 0x4000_0000
    ensures num0 * 0x8000 == q * den + num && 0 <= num < den && 0 <= q
  {
    q, num := 0, num0;
    var iteration := 0;
    assert Pow2(0) == 1;
    while iteration < 15
      invariant 0 <= iteration <= 15
      invariant 0 <= num < den
      invariant num0 * Pow2(iteration) == q * den + num
    {
      QuotientBits(num0, den, iteration, q, num);
      SmallPower(iteration);
      RestoringStep(num0, den, iteration, q, num);
      q := Wrap16(q * 2);
      num := Wrap32(num * 2);
      if num >= den {
        num := LSub(num, den);
        q := q + 1;
      }
      iteration := iteration + 1;
    }
    QuotientBits(num0, den, 15, q, num);
    Pow2Table();
  }

  lemma SmallPower(i: nat)
    requires i <= 14
    ensures Pow2(i) <= 0x4000
  {
    Pow2Table();
    Pow2Monotone(i, 14);
  }

  method DivS(num0: Word16, den: Word16) returns (r: DivResult)
    ensures num0 > den || num0 < 0 || den < 0 ==> r == DivisionError
    ensures num0 == 0 && den == 0 ==> r == DivisionByZero
    ensures 0 <= num0 <= den && den > 0 ==> r == Quotient(Fraction15(num0, den))
    ensures num0 == den > 0 ==> r == Quotient(MAX_16)
    ensures 0 <= num0 < den ==> r.Quotient? && r.q * den <= num0 * 0x8000 < r.q * den + den
  {
    if num0 > den || num0 < 0 || den < 0 {
      return DivisionError;
    }
    if den == 0 {
      return DivisionByZero;
    }
    if num0 == 0 {
      DivUnique(0, den, 0, 0);
      return Quotient(0);
    }
    if num0 == den {
      return Quotient(MAX_16);
    }
    var q, rest := Restoring(num0, den);
    DivUnique(num0 * 0x8000, den, q, rest);
    r := Quotient(q);
  }

  method DivL(num0: Word32, den0: Word16) returns (r: DivResult)
    ensures den0 == 0 ==> r == DivisionByZero
    ensures den0 != 0 && (num0 < 0 || den0 < 0) ==> r == DivisionError
    ensures num0 >= 0 && den0 > 0 && num0 < den0 * 0x1_0000 ==> r == Quotient(num0 / (2 * den0))
    ensures num0 >= 0 && den0 > 0 && num0 >= den0 * 0x1_0000 ==> r == Quotient(MAX_16)
  {
    if den0 == 0 {
      return DivisionByZero;
    }
    if num0 < 0 || den0 < 0 {
      return DivisionError;
    }
    var den: Word32 := den0 * 0x1_0000;
    if num0 >= den {
      return Quotient(MAX_16);
    }
    Pow2Table();
    var num := Asr(num0, 1);
    den := Asr(den, 1);
    var q, rest := Restoring(num, den);
    ScaledQuotient(num, den0, q, rest);
    DivDiv(num0, 2, den0);
    r := Quotient(q);
  }

  /** Scaling both sides of a division by 2^15 leaves the quotient alone. */
  lemma ScaledQuotient(n: int, d: int, q: int, rest: int)
    requires d > 0 && 0 <= rest < d * 0x8000 && n * 0x8000 == q * (d * 0x8000) + rest
    ensures n / d == q
  {
    assert q * (d * 0x8000) == q * d * 0x8000;
    DivUnique(n, d, q, n - q * d);
  }
}

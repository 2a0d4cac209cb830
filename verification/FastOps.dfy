/**
 The hand-optimised operators of Host/AMR/Include/basic_op.h (the portable branch)
 and the exact sets of inputs on which they agree with the reference operators.
 */
module FastOps {
  import opened Words
  import opened ReferenceOps

  /** `(x ^ y) >> 31`, used as a condition. */
  predicate SignsXor(x: Word32, y: Word32)
    ensures SignsXor(x, y) == ((x < 0) != (y < 0))
  {
    SignsDiffer(x, y);
    Asr(Xor(x, y), 31) != 0
  }

  function Extreme(x: Word32): Word32 {
    if x < 0 then MIN_32 else MAX_32
  }

  // --------------------------------------------------------------------------
  // Addition and multiply-accumulate by sign comparison
  // --------------------------------------------------------------------------

  function QLAdd(x: Word32, y: Word32): Word32 {
    var result := Wrap32(x + y);
    if !SignsXor(x, y) && SignsXor(result, x) then Extreme(x) else result
  }

  lemma QLAddRefines(x: Word32, y: Word32)
    ensures QLAdd(x, y) == LAdd(x, y) == Clamp32(x + y)
  {
    WrapCases(x + y);
  }

  function QLSub(x: Word32, y: Word32): Word32 {
    var result := Wrap32(x - y);
    if SignsXor(x, y) && SignsXor(result, x) then Extreme(x) else result
  }

  lemma QLSubRefines(x: Word32, y: Word32)
    ensures QLSub(x, y) == LSub(x, y) == Clamp32(x - y)
  {
    WrapCases(x - y);
  }

  function QLMac(acc: Word32, x: Word16, y: Word16): Word32 {
    MacSum(acc, Wrap32(x * y))
  }

  function MacSum(acc: Word32, product: Word32): Word32 {
    if product == 0x4000_0000 then
      if acc > 0 then MAX_32 else Wrap32(MAX_32 + acc)
    else
      var result := Wrap32(acc + Lsl(product, 1));
      if MacWraps(acc, product, result) then Extreme(acc) else result
  }

  /** The sign test on the accumulator, the product and the wrapped sum. */
  predicate MacWraps(acc: Word32, product: Word32, result: Word32) {
    !SignsXor(product, acc) && SignsXor(result, acc)
  }

  /** The accumulation leaves the 32-bit range, or doubles the one product that does. */
  predicate MacOverflows(acc: Word32, x: Word16, y: Word16) {
    SumOverflows(acc, x * y)
  }

  predicate SumOverflows(acc: int, product: int) {
    product == 0x4000_0000 || !InRange32(acc + 2 * product)
  }

  /** The sign test fires exactly when the sum wraps. */
  lemma SignTest(acc: Word32, product: Word32)
    requires -0x4000_0000 <= product < 0x4000_0000
    ensures Lsl(product, 1) == 2 * product
    ensures MacWraps(acc, product, Wrap32(acc + 2 * product)) == !InRange32(acc + 2 * product)
    ensures !InRange32(acc + 2 * product) ==> (acc < 0) == (acc + 2 * product < 0)
  {
    LslExact(product, 1);
    WrapCases(acc + 2 * product);
  }

  lemma MacSumMeaning(acc: Word32, product: Word32)
    requires -0x4000_0000 <= product <= 0x4000_0000
    ensures MacSum(acc, product) == Qdadd(acc, product)
  {
    if product == 0x4000_0000 {
      WrapCases(MAX_32 + acc);
    } else {
      SignTest(acc, product);
      WrapCases(acc + 2 * product);
      assert MacSum(acc, product)
          == if InRange32(acc + 2 * product) then acc + 2 * product else Extreme(acc);
    }
  }

  lemma QLMacRefines(acc: Word32, x: Word16, y: Word16)
    ensures QLMac(acc, x, y) == LMac(acc, x, y) == Clamp32(acc + Clamp32(2 * (x * y)))
  {
    ProductRange(x, y);
    WrapExact(x * y);
    MacSumMeaning(acc, x * y);
  }

  /** QL_mac with the sticky flag. */
  method OLMac(flags: Flags, acc: Word32, x: Word16, y: Word16) returns (result: Word32)
    modifies flags
    ensures result == LMac(acc, x, y) == Clamp32(acc + Clamp32(2 * (x * y)))
    ensures flags.overflow == (old(flags.overflow) || MacOverflows(acc, x, y))
    ensures MacOverflows(acc, x, y) <==> x == y == MIN_16 || !(MIN_32 <= acc + 2 * (x * y) <= MAX_32)
  {
    var product: Word32 := Wrap32(x * y);
    ProductRange(x, y);
    WrapExact(x * y);
    result := OLMacSum(flags, acc, product);
  }

  method OLMacSum(flags: Flags, acc: Word32, product: Word32) returns (result: Word32)
    requires -0x4000_0000 <= product <= 0x4000_0000
    modifies flags
    ensures result == Qdadd(acc, product)
    ensures flags.overflow == (old(flags.overflow) || SumOverflows(acc, product))
  {
    if product == 0x4000_0000 {
      WrapCases(MAX_32 + acc);
      flags.overflow := true;
      if acc > 0 {
        return MAX_32;
      } else {
        return Wrap32(MAX_32 + acc);
      }
    } else {
      LslExact(product, 1);
      var doubled := Lsl(product, 1);
      WrapCases(acc + doubled);
      result := Wrap32(acc + doubled);
      var opposed := TestSigns(product, acc);
      var flipped := TestSigns(result, acc);
      if !opposed && flipped {
        flags.overflow := true;
        result := if acc < 0 then MIN_32 else MAX_32;
      }
    }
  }

  method TestSigns(x: Word32, y: Word32) returns (differ: bool)
    ensures differ == ((x < 0) != (y < 0))
  {
    differ := SignsXor(x, y);
  }

  /** Accumulate a square; the test against 0x8000 never fires on a sign-extended x. */
  function QLMda(acc: Word32, x: Word16): Word32 {
    if x == 0x8000 || acc == MAX_32 then MAX_32 else SquareSum(acc, Wrap32(x * x))
  }

  function SquareSum(acc: Word32, square: Word32): Word32 {
    var result := Wrap32(acc + Lsl(square, 1));
    if result < 0 then MAX_32 else result
  }

  lemma SquareRange(x: Word16)
    ensures 0 <= x * x <= 0x4000_0000
    ensures x * x == 0x4000_0000 <==> x == MIN_16
    ensures x != MIN_16 ==> x * x <= MAX_16 * MAX_16
  {
    ProductRange(x, x);
    var s: int := x;
    if s >= 0 {
      MulMonotone(s, MAX_16, s);
    } else if s != MIN_16 {
      MulMonotone(-s, MAX_16, -s);
    }
  }

  /** QL_mda is the reference accumulation of a square exactly on these inputs. */
  lemma QLMdaAgrees(acc: Word32, x: Word16)
    ensures QLMda(acc, x) == LMac(acc, x, x)
       <==> acc >= 0 || (x != MIN_16 && acc + 2 * (x * x) >= 0)
  {
    SquareRange(x);
    WrapExact(x * x);
    SquareSumAgrees(acc, x * x);
  }

  /** Where it is not, it is one too large for x = -32768 and gives MAX_32 instead of the negative sum otherwise. */
  lemma QLMdaOtherwise(acc: Word32, x: Word16)
    requires acc < 0 && (x == MIN_16 || acc + 2 * (x * x) < 0)
    ensures x == MIN_16 ==> LMac(acc, x, x) == acc + MAX_32 && QLMda(acc, x) == acc + MAX_32 + 1
    ensures x != MIN_16 ==> LMac(acc, x, x) == acc + 2 * (x * x) && QLMda(acc, x) == MAX_32
  {
    SquareRange(x);
    WrapExact(x * x);
    NegativeSquareSum(acc, x * x);
  }

  lemma NegativeSquareSum(acc: Word32, square: Word32)
    requires acc < 0 && (0 <= square <= MAX_16 * MAX_16 || square == 0x4000_0000)
    ensures square == 0x4000_0000 ==> SquareSum(acc, square) == acc + MAX_32 + 1
    ensures square < 0x4000_0000 && acc + 2 * square < 0 ==> SquareSum(acc, square) == MAX_32
  {
    assert Pow2(1) == 2;
    WrapCases(2 * square);
    WrapCases(acc + Wrap32(2 * square));
  }

  lemma SquareSumAgrees(acc: Word32, square: Word32)
    requires 0 <= square <= MAX_16 * MAX_16 || square == 0x4000_0000
    ensures acc == MAX_32 ==> Qdadd(acc, square) == MAX_32
    ensures SquareSum(acc, square) == Qdadd(acc, square)
       <==> acc >= 0 || (square != 0x4000_0000 && acc + 2 * square >= 0)
  {
    assert Pow2(1) == 2;
    WrapCases(2 * square);
    WrapCases(acc + Wrap32(2 * square));
  }

  // --------------------------------------------------------------------------
  // Left shifts
  // --------------------------------------------------------------------------

  method QLShl(x0: Word32, shift0: Word32) returns (x: Word32)
    requires shift0 > -32
    ensures x == Shift32(x0, shift0)
  {
    x := x0;
    if shift0 < 0 {
      AsrWithin(x, -shift0);
      return Asr(x, -shift0);
    }
    DoubledIsProduct(x0, shift0);
    var shift := shift0;
    while shift > 0
      invariant 0 <= shift
      invariant Doubled(x, shift) == Doubled(x0, shift0)
    {
      SaturatedFromHere(x, shift);
      Pow2Table();
      if x > 0x3fff_ffff {
        x := MAX_32;
        break;
      } else if x < -0x4000_0000 {
        x := MIN_32;
        break;
      }
      x := Lsl(x, 1);
      shift := shift - 1;
    }
  }

  function QLShl1(x: Word32): Word32 {
    if x > 0x3fff_ffff then MAX_32 else if x < -0x4000_0000 then MIN_32 else Lsl(x, 1)
  }

  function QLShl3(x: Word32): Word32 {
    if x > 0x0fff_ffff then MAX_32 else if x < -0x1000_0000 then MIN_32 else Lsl(x, 3)
  }

  function QLShl4(x: Word32): Word32 {
    if x > 0x07ff_ffff then MAX_32 else if x < -0x0800_0000 then MIN_32 else Lsl(x, 4)
  }

  function QLShl6(x: Word32): Word32 {
    if x > 0x01ff_ffff then MAX_32 else if x < -0x0200_0000 then MIN_32 else Lsl(x, 6)
  }

  function QLShl7(x: Word32): Word32 {
    if x > 0x00ff_ffff then MAX_32 else if x < -0x0100_0000 then MIN_32 else Lsl(x, 7)
  }

  lemma LiteralShift(x: Word32, n: nat, p: int)
    requires n < 32 && Pow2(n) == p
    ensures Shift32(x, n) == Clamp32(x * p)
    ensures InRange32(x * p) ==> Lsl(x, n) == x * p
  {
    if InRange32(x * p) {
      LslExact(x, n);
    }
  }

  lemma ThresholdShifts(x: Word32)
    ensures QLShl1(x) == Shift32(x, 1)
    ensures QLShl3(x) == Shift32(x, 3)
    ensures QLShl4(x) == Shift32(x, 4)
    ensures QLShl6(x) == Shift32(x, 6)
    ensures QLShl7(x) == Shift32(x, 7)
  {
    assert QLShl1(x) == Shift32(x, 1) by {
      assert Pow2(1) == 2;
      LiteralShift(x, 1, 2);
    }
    assert QLShl3(x) == Shift32(x, 3) by {
      assert Pow2(3) == 8;
      LiteralShift(x, 3, 8);
    }
    assert QLShl4(x) == Shift32(x, 4) by {
      assert Pow2(4) == 16;
      LiteralShift(x, 4, 16);
    }
    assert QLShl6(x) == Shift32(x, 6) by {
      assert Pow2(6) == 64;
      LiteralShift(x, 6, 64);
    }
    assert QLShl7(x) == Shift32(x, 7) by {
      assert Pow2(7) == 128;
      LiteralShift(x, 7, 128);
    }
  }

  function QPLShl2(x: Word32): Word32 {
    if x > 0x1fff_ffff then MAX_32 else Lsl(x, 2)
  }

  /** Written for x >= 0, QPL_shl2 is right on more: all but one negative x that saturates is wrong. */
  lemma QPLShl2Agrees(x: Word32)
    ensures QPLShl2(x) == Shift32(x, 2) <==> x >= -0x2000_0000 || x == -0x6000_0000
    ensures x < -0x2000_0000 ==> (QPLShl2(x) - 4 * x) % 0x1_0000_0000 == 0
  {
    Pow2Table();
    WrapCongruent(4 * x);
  }

  /** The shift saturating to 16 bits, computed in 32 bits. */
  function Qshl(x: Word16, y: int): int
    requires -32 < y < 32
  {
    Clamp16(if y < 0 then Asr(x, -y) else Lsl(x, y))
  }

  /** The bits of x that a 32-bit shift by n keeps are those of a value with the sign of x. */
  predicate KeepsSign(x: Word16, n: nat)
    requires 0 < n < 32
  {
    var kept, half := x % Pow2(32 - n), Pow2(31 - n);
    x == 0 || (if x > 0 then 0 < kept < half else half <= kept)
  }

  lemma KeepsSignMeaning(x: Word16, n: nat)
    requires 0 < n < 32
    ensures KeepsSign(x, n) <==> x == 0 || (x > 0 && Lsl(x, n) > 0) || (x < 0 && Lsl(x, n) < 0)
    ensures n <= 16 ==> KeepsSign(x, n) && Lsl(x, n) == x * Pow2(n)
  {
    LslSign(x, n);
    if n <= 16 {
      Shift16Fits(x, n);
      WrapExact(x * Pow2(n));
      MulSteps(x, Pow2(n));
    }
  }

  /** Clamping the 32-bit shift to 16 bits is right exactly when the kept bits have the sign of x. */
  lemma QshlAgreesAt(x: Word16, y: int)
    requires -32 < y < 32
    ensures Qshl(x, y) == Shift16(x, y) <==> y <= 0 || KeepsSign(x, y)
  {
    if y <= 0 {
      QshlInRange(x, y);
    } else {
      KeepsSignMeaning(x, y);
      if y > 16 {
        CoarseShift(x, y);
        if x != 0 {
          LargeShift16(x, y);
        }
      }
    }
  }

  lemma QshlAgrees(y: int)
    requires -32 < y < 32
    ensures (forall x: Word16 :: Qshl(x, y) == Shift16(x, y)) <==> y <= 16
  {
    if y <= 16 {
      forall x: Word16
        ensures Qshl(x, y) == Shift16(x, y)
      {
        QshlInRange(x, y);
      }
    } else {
      QshlWraps(y);
    }
  }

  lemma QshlInRange(x: Word16, y: int)
    requires -32 < y <= 16
    ensures Qshl(x, y) == Shift16(x, y)
  {
    if y < 0 {
      AsrWithin(x, -y);
    } else {
      Shift16Fits(x, y);
      WrapExact(x * Pow2(y));
    }
  }

  lemma Shift16Fits(x: Word16, y: nat)
    requires y <= 16
    ensures InRange32(x * Pow2(y))
  {
    Pow2Table();
    Pow2Monotone(y, 16);
    MulMonotone(MIN_16, x, Pow2(y));
    MulMonotone(x, MAX_16, Pow2(y));
  }

  lemma QshlWraps(y: nat)
    requires 16 < y < 32
    ensures Qshl(MIN_16, y) != Shift16(MIN_16, y)
  {
    Pow2Table();
    Pow2Sum(15 + (y - 17), 17);
    Pow2Sum(15, y - 17);
    Pow2Sum(17, y - 17);
    var q := Pow2(y - 17);
    assert MIN_16 * Pow2(y) == -q * 0x1_0000_0000;
    DivUnique(MIN_16 * Pow2(y) + 0x8000_0000, 0x1_0000_0000, -q, 0x8000_0000);
  }

  function Qshr(x: Word16, y: int): int
    requires -32 < y < 32
  {
    if y < 0 then
      var result := Lsl(x, -y);
      if result > MAX_16 then MAX_16 else result
    else
      Asr(x, y)
  }

  /** Without the lower clamp a left shift must also not fall below the 16-bit minimum. */
  lemma {:induction false} QshrAgrees(x: Word16, y: int)
    requires -32 < y < 32
    ensures Qshr(x, y) == Shift16(x, -y)
       <==> y >= 0 || (x * Pow2(-y) >= MIN_16 && KeepsSign(x, -y))
  {
    if y == 0 {
      assert Pow2(0) == 1;
    } else if y < 0 {
      KeepsSignMeaning(x, -y);
      MulSteps(x, Pow2(-y));
      if y < -16 {
        CoarseShift(x, -y);
        if x != 0 {
          LargeShift16(x, -y);
        }
      }
    }
  }

  /** What the 32-bit shift keeps of the exact product is what the three forms clamp. */
  lemma LeftShiftsWrap(x: Word16, n: int, w: Word32)
    requires 0 < n < 32 && (w - x * Pow2(n)) % 0x1_0000_0000 == 0
    ensures Qshl(x, n) == Clamp16(w) && QshrR(x, -n) == Clamp16(w)
    ensures Qshr(x, -n) == if w > MAX_16 then MAX_16 else w
  {
    WrapUnique(x * Pow2(n), w);
  }

  /** From 17 on, whatever is left of a shifted value is a multiple of 2^17. */
  lemma CoarseShift(x: Word16, n: nat)
    requires 17 <= n < 32
    ensures Lsl(x, n) % 0x2_0000 == 0
  {
    Pow2Table();
    Pow2Sum(n - 17, 17);
    var t := x * Pow2(n - 17);
    MulSwap(x, Pow2(n - 17), 0x2_0000);
    var z := t * 0x2_0000;
    var m := (z + 0x8000_0000) / 0x1_0000_0000;
    assert Wrap32(z) == z - m * 0x1_0000_0000;
    ModUnique(Wrap32(z), 0x2_0000, t - m * 0x8000, 0);
  }

  // --------------------------------------------------------------------------
  // Right shifts
  // --------------------------------------------------------------------------

  /** The saturating shift loop shared by L_shrsq and QL_shr_r; it does not run for n0 <= 0. */
  method SaturatingDoublings(flags: Flags, x0: Word32, n0: int) returns (x: Word32)
    modifies flags
    ensures n0 >= 0 ==> x == Shift32(x0, n0)
    ensures n0 < 0 ==> x == x0
    ensures flags.overflow == (old(flags.overflow) || Saturates32(x0, n0))
  {
    x := x0;
    if n0 >= 0 {
      DoubledIsProduct(x0, n0);
    }
    var shift := n0;
    while shift > 0
      invariant n0 < 0 ==> shift == n0 && x == x0
      invariant n0 >= 0 ==> shift >= 0 && Doubled(x, shift) == Doubled(x0, n0)
      invariant flags.overflow == old(flags.overflow)
    {
      SaturatedFromHere(x, shift);
      Pow2Table();
      if x > 0x3fff_ffff {
        flags.overflow := true;
        x := MAX_32;
        break;
      } else if x < -0x4000_0000 {
        flags.overflow := true;
        x := MIN_32;
        break;
      }
      x := Lsl(x, 1);
      shift := shift - 1;
    }
  }

  /** `-shift` in 32 bits: the minimum is its own negation. */
  function Negated(shift: Word32): Word32 {
    Wrap32(0 - shift)
  }

  lemma NegatedIs(shift: Word32)
    ensures Negated(shift) == if shift == MIN_32 then MIN_32 else 0 - shift
  {
  }

  /** The values a left shift by 31 or more saturates to themselves. */
  predicate FixedPoint(x: Word32) {
    x == 0 || x == MAX_32 || x == MIN_32
  }

  lemma HugeShift(x: Word32, n: nat)
    requires n >= 31
    ensures Shift32(x, n) == x <==> FixedPoint(x)
  {
    Pow2Table();
    Pow2Monotone(31, n);
    MulSteps(x, Pow2(n));
  }

  /** The branch of both for a negative amount. */
  method NegativeShift(flags: Flags, x0: Word32, shift: Word32) returns (x: Word32)
    requires shift < 0
    modifies flags
    ensures x == Shift32(x0, 0 - shift) <==> shift != MIN_32 || FixedPoint(x0)
    ensures shift == MIN_32 ==> x == x0
    ensures flags.overflow == (old(flags.overflow) || (MIN_32 < shift && Saturates32(x0, 0 - shift)))
  {
    NegatedIs(shift);
    x := SaturatingDoublings(flags, x0, Negated(shift));
    if shift == MIN_32 {
      HugeShift(x0, 0 - shift);
    }
  }

  /**
   Any signed shift amount, also those C leaves undefined: result and flag are those of L_shr, but
   for the one amount whose negation wraps, which shifts nothing.
   */
  method LShrsq(flags: Flags, x0: Word32, shift: Word32) returns (x: Word32)
    modifies flags
    ensures x == Shift32(x0, 0 - shift) <==> shift != MIN_32 || FixedPoint(x0)
    ensures shift == MIN_32 ==> x == x0
    ensures flags.overflow == (old(flags.overflow) || (MIN_32 < shift < 0 && Saturates32(x0, 0 - shift)))
  {
    if shift < 0 {
      x := NegativeShift(flags, x0, shift);
    } else if shift > 31 {
      Pow2Table();
      Pow2Monotone(31, shift);
      AsrSign(x0, shift);
      x := if x0 < 0 then -1 else 0;
    } else {
      AsrWithin(x0, shift);
      if shift == 0 {
        assert Pow2(0) == 1;
      }
      x := Asr(x0, shift);
    }
  }

  function ShrRMacro(x: Word16, shift: int): int
    requires 1 <= shift <= 31
  {
    Asr(Wrap32(x + Lsl(1, shift - 1)), shift)
  }

  lemma ShrRMacroRefines(x: Word16, shift: int)
    requires 1 <= shift <= 31
    ensures ShrRMacro(x, shift) == RoundedShift16(x, shift)
  {
    MaskIsPower(shift - 1);
    Pow2Table();
    Pow2Monotone(shift - 1, 30);
    WrapExact(x + Pow2(shift - 1));
  }

  function QshrR(x: Word16, shift: int): int
    requires -32 < shift < 32 && shift != 0
  {
    if shift < 0 then Clamp16(Lsl(x, -shift)) else ShrRMacro(x, shift)
  }

  lemma QshrRAgreesAt(x: Word16, shift: int)
    requires -32 < shift < 32 && shift != 0
    ensures QshrR(x, shift) == RoundedShift16(x, shift) <==> shift > 0 || KeepsSign(x, -shift)
  {
    if shift > 0 {
      ShrRMacroRefines(x, shift);
    } else {
      QshlAgreesAt(x, -shift);
    }
  }

  lemma QshrRAgrees(shift: int)
    requires -32 < shift < 32 && shift != 0
    ensures (forall x: Word16 :: QshrR(x, shift) == RoundedShift16(x, shift)) <==> shift >= -16
  {
    if shift < -16 {
      QshlWraps(-shift);
      assert QshrR(MIN_16, shift) != RoundedShift16(MIN_16, shift);
    } else {
      forall x: Word16
        ensures QshrR(x, shift) == RoundedShift16(x, shift)
      {
        if shift < 0 {
          QshlInRange(x, -shift);
        } else {
          ShrRMacroRefines(x, shift);
        }
      }
    }
  }

  /** Shift by one less, increment, shift by one: the increment may wrap. */
  function HalfStepRound(x: Word32, shift: int): int
    requires 1 <= shift <= 32
  {
    Asr(Wrap32(Asr(x, shift - 1) + 1), 1)
  }

  lemma HalfStepAgrees(x: Word32, shift: int)
    requires 1 <= shift <= 32
    ensures HalfStepRound(x, shift) == RoundedShift32(x, shift) <==> !(x == MAX_32 && shift == 1)
  {
    LastBitRounds(x, shift);
    assert Pow2(1) == 2;
    var q := Asr(x, shift - 1);
    if shift == 1 {
      assert q == x;
      WrapCases(x + 1);
    } else {
      AsrHalved(x, shift - 1);
      WrapExact(q + 1);
    }
  }

  /** The increment wraps the largest value around to the smallest. */
  lemma HalfStepWraps()
    ensures HalfStepRound(MAX_32, 1) == -0x4000_0000
  {
    assert Pow2(0) == 1 && Pow2(1) == 2;
    WrapCases(MAX_32 + 1);
  }

  lemma AsrHalved(x: Word32, n: nat)
    requires n >= 1
    ensures -0x4000_0000 <= Asr(x, n) <= 0x3fff_ffff
  {
    DivDiv(x, 2, Pow2(n - 1));
    AsrWithin(x / 2, n - 1);
  }

  /** L_shr_rl: any positive shift. */
  function LShrRl(x: Word32, shift: int): int
    requires shift >= 1
  {
    if shift > 31 then 0 else HalfStepRound(x, shift)
  }

  lemma LShrRlAgrees(x: Word32, shift: int)
    requires shift >= 1
    ensures LShrRl(x, shift) == RoundedShift32(x, shift) <==> !(x == MAX_32 && shift == 1)
    ensures x == MAX_32 && shift == 1 ==> LShrRl(x, shift) == -0x4000_0000
  {
    if shift > 31 {
      Pow2Table();
      RoundsToZero(x, shift, 31);
    } else {
      HalfStepAgrees(x, shift);
      HalfStepWraps();
    }
  }

  method QLShrR(flags: Flags, x0: Word32, shift: Word32) returns (x: Word32)
    modifies flags
    ensures x == RoundedShift32(x0, shift) <==>
      && !(x0 == MAX_32 && shift == 1)
      && !(x0 < 0 && shift > 31)
      && !(shift == MIN_32 && !FixedPoint(x0))
    ensures x0 == MAX_32 && shift == 1 ==> x == -0x4000_0000
    ensures x0 < 0 && shift > 31 ==> x == -1
    ensures shift == MIN_32 ==> x == x0
    ensures flags.overflow == (old(flags.overflow) || (MIN_32 < shift <= 0 && Saturates32(x0, 0 - shift)))
  {
    if shift < 0 {
      x := NegativeShift(flags, x0, shift);
    } else if shift > 31 {
      Pow2Table();
      RoundsToZero(x0, shift, 31);
      x := if x0 < 0 then -1 else 0;
    } else {
      x := x0;
      if shift > 0 {
        HalfStepAgrees(x0, shift);
        AsrWithin(x0, shift - 1);
        x := Asr(x, shift - 1);
        x := Wrap32(x + 1);
        AsrWithin(x, 1);
        x := Asr(x, 1);
      } else {
        assert Pow2(0) == 1;
      }
    }
  }

  // --------------------------------------------------------------------------
  // Rounding, products, normalisation and division
  // --------------------------------------------------------------------------

  function Qround(x: Word32): int {
    if x > 0x7fff_0000 then MAX_16 else Asr(Wrap32(x + 0x8000), 16)
  }

  lemma QroundRefines(x: Word32)
    ensures Qround(x) == Round(x)
  {
    Pow2Table();
  }

  function MultMacro(x: Word16, y: Word16): int {
    Asr(Wrap32(x * y), 15)
  }

  function LMultMacro(x: Word16, y: Word16): Word32 {
    Lsl(Wrap32(x * y), 1)
  }

  /** The product macros miss only the saturation of (-1) * (-1). */
  lemma ProductMacrosAgree(x: Word16, y: Word16)
    ensures MultMacro(x, y) == Mult(x, y) <==> !(x == MIN_16 && y == MIN_16)
    ensures LMultMacro(x, y) == LMult(x, y) <==> !(x == MIN_16 && y == MIN_16)
  {
    ProductRange(x, y);
    WrapExact(x * y);
    ShiftedProducts(x * y);
  }

  lemma ShiftedProducts(p: Word32)
    requires -0x3fff_8000 <= p <= 0x3fff_8000 || p == 0x4000_0000
    ensures Asr(p, 15) == Clamp16(Asr(p, 15)) <==> p != 0x4000_0000
    ensures Lsl(p, 1) == Qadd(p, p) <==> p != 0x4000_0000
  {
    Pow2Table();
    WrapCases(2 * p);
  }

  /** The comparison ladder; it returns nothing for x < 0. */
  function NormSLadder(x: int): Word16
    requires 0 <= x
  {
    if x >= 0x800 then
      if x >= 0x4000 then 0 else if x >= 0x2000 then 1 else if x >= 0x1000 then 2 else 3
    else if x >= 0x80 then
      if x >= 0x400 then 4 else if x >= 0x200 then 5 else if x >= 0x100 then 6 else 7
    else if x >= 0x8 then
      if x >= 0x40 then 8 else if x >= 0x20 then 9 else if x >= 0x10 then 10 else 11
    else
      if x >= 0x4 then 12 else if x >= 0x2 then 13 else if x >= 0x1 then 14 else 0
  }

  lemma NormSLadderRefines(x: Word16)
    requires x >= 0
    ensures 0 <= NormSLadder(x) <= 14
    ensures x == 0 ==> NormSLadder(x) == 0
    ensures x != 0 ==> Normalized(x * Pow2(NormSLadder(x)), 16)
    ensures x != 0 ==> forall n: nat :: Normalized(x * Pow2(n), 16) ==> n == NormSLadder(x)
  {
    LadderNormalizes(x);
    if x != 0 {
      forall n: nat | Normalized(x * Pow2(n), 16)
        ensures n == NormSLadder(x)
      {
        NormUnique(x, n, NormSLadder(x), 16);
      }
    }
  }

  lemma LadderNormalizes(x: Word16)
    requires x >= 0
    ensures 0 <= NormSLadder(x) <= 14
    ensures x != 0 ==> 0x4000 <= x * Pow2(NormSLadder(x)) < 0x8000
    ensures Pow2(14) == 0x4000 && Pow2(15) == 0x8000
  {
    Pow2Table();
    assert Pow2(5) == 0x20 && Pow2(8) == 0x100 && Pow2(9) == 0x200 && Pow2(10) == 0x400;
    assert Pow2(11) == 0x800 && Pow2(12) == 0x1000 && Pow2(13) == 0x2000;
  }

  /** The one-line division, for the operands its comment allows. */
  function DivSMacro(x: Word16, y: Word16): int
    requires 0 <= x && 0 < y
  {
    Lsl(x, 15) / y
  }

  lemma DivSMacroAgrees(x: Word16, y: Word16)
    requires 0 <= x <= y && 0 < y
    ensures DivSMacro(x, y) == Fraction15(x, y) <==> x != y
  {
    Pow2Table();
    WrapExact(x * 0x8000);
    if x == y {
      DivUnique(x * 0x8000, y, 0x8000, 0);
    }
  }

  /** 32 by 16 bit product on the split representation hi * 2^16 + 2 * lo. */
  function Mpy3216(hi: Word16, lo: Word16, n: Word16): Word32 {
    MpySum(Wrap32(hi * n), Wrap32(lo * n))
  }

  function MpySum(high: Word32, low: Word32): Word32 {
    AsrWithin(low, 15);
    Wrap32(Lsl(high, 1) + Lsl(Asr(low, 15), 1))
  }

  /** m under-approximates the exact product (hi * 2^16 + 2 * lo) * n / 2^15 by less than 2. */
  predicate MpyApproximates(m: int, hi: int, lo: int, n: int) {
    0 <= (hi * 0x1_0000 + 2 * lo) * n - m * 0x8000 < 0x1_0000
  }

  lemma Mpy3216Agrees(hi: Word16, lo: Word16, n: Word16)
    requires lo >= 0
    ensures MpyApproximates(Mpy3216(hi, lo, n), hi, lo, n) <==> !(hi == MIN_16 && n == MIN_16 && lo == 0)
    ensures Mpy3216(hi, lo, n) == if hi == n == MIN_16 && lo == 0 then MIN_32 else 2 * (hi * n) + 2 * (lo * n / 0x8000)
  {
    ProductRange(hi, n);
    ProductRange(lo, n);
    WrapExact(hi * n);
    WrapExact(lo * n);
    MpySumBounds(hi * n, lo * n);
    if n == MIN_16 {
      assert lo * n == -0x8000 * lo;
    }
    MpyExpand(hi, lo, n);
  }

  lemma MpyExpand(hi: int, lo: int, n: int)
    ensures (hi * 0x1_0000 + 2 * lo) * n == 0x1_0000 * (hi * n) + 2 * (lo * n)
  {
    MulDistributes(hi * 0x1_0000, 2 * lo, n);
  }

  /** The sum is exact up to the rounding of the low term unless 2^31 is not brought back into range. */
  lemma MpySumBounds(high: Word32, low: Word32)
    requires -0x3fff_8000 <= high <= 0x3fff_8000 || high == 0x4000_0000
    requires -0x3fff_8000 <= low <= 0x3fff_8000
    requires high == 0x4000_0000 ==> low <= 0
    ensures 0 <= 0x1_0000 * high + 2 * low - MpySum(high, low) * 0x8000 < 0x1_0000
       <==> !(high == 0x4000_0000 && low >= 0)
    ensures MpySum(high, low) == if high == 0x4000_0000 && low >= 0 then 2 * (low / 0x8000) + MIN_32 else 2 * high + 2 * (low / 0x8000)
  {
    assert Pow2(15) == 0x8000 && Pow2(1) == 2 by {
      Pow2Table();
    }
    var d := low / 0x8000;
    WrapExact(2 * d);
    if high == 0x4000_0000 {
      assert Wrap32(2 * high) == MIN_32;
      WrapCases(MIN_32 + 2 * d);
    } else {
      WrapExact(2 * high);
      WrapExact(2 * high + 2 * d);
    }
  }

  /** One input outside each domain of agreement. */
  lemma AccumulationDisagrees()
    ensures QLMda(-1, 0) != LMac(-1, 0, 0) && QLMda(-1, MIN_16) != LMac(-1, MIN_16, MIN_16)
  {
    QLMdaAgrees(-1, 0);
    QLMdaAgrees(-1, MIN_16);
  }

  lemma ShiftsDisagree()
    ensures QPLShl2(MIN_32) != Shift32(MIN_32, 2)
    ensures Qshr(MIN_16, -1) != Shift16(MIN_16, 1)
    ensures HalfStepRound(MAX_32, 1) != RoundedShift32(MAX_32, 1)
  {
    QPLShl2Agrees(MIN_32);
    QshrAgrees(MIN_16, -1);
    HalfStepAgrees(MAX_32, 1);
  }

  lemma ProductsDisagree()
    ensures MultMacro(MIN_16, MIN_16) == MAX_16 + 1 && Mult(MIN_16, MIN_16) == MAX_16
    ensures LMultMacro(MIN_16, MIN_16) == MIN_32 && LMult(MIN_16, MIN_16) == MAX_32
    ensures !MpyApproximates(Mpy3216(MIN_16, 0, MIN_16), MIN_16, 0, MIN_16)
  {
    assert MIN_16 * MIN_16 == 0x4000_0000;
    LargestSquare();
    Mpy3216Agrees(MIN_16, 0, MIN_16);
  }

  lemma LargestSquare()
    ensures Wrap32(0x4000_0000) == 0x4000_0000 && Lsl(0x4000_0000, 1) == MIN_32 && Asr(0x4000_0000, 15) == 0x8000
  {
    assert Pow2(1) == 2;
    assert Pow2(15) == 0x8000 by {
      Pow2Table();
    }
  }

  /** Equal operands: 32768, which no 16-bit word holds, where the reference gives 32767. */
  lemma EqualOperandsDisagree(x: Word16)
    requires x > 0
    ensures DivSMacro(x, x) == MAX_16 + 1 && Fraction15(x, x) == MAX_16
  {
    assert Pow2(15) == 0x8000 by {
      Pow2Table();
    }
    WrapExact(x * 0x8000);
    DivUnique(x * 0x8000, x, 0x8000, 0);
  }
}

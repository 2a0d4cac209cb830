/**
 Runs of multiply-accumulate over sample sequences of any length: what the sticky
 Overflow flag of OL_mac tells about the accumulator, and the saturating energy
 computed with QL_mda.
 */
module MacRuns {
  import opened Words
  import opened ReferenceOps
  import opened FastOps

  datatype Sample = Sample(x: Word16, y: Word16) {
    function Product(): int {
      Smulbb(x, y)
    }
  }

  /** The reference accumulation of a run, left to right. */
  function MacFold(acc: Word32, run: seq<Sample>): Word32 {
    if run == [] then acc
    else
      var last := run[|run| - 1];
      LMac(MacFold(acc, run[..|run| - 1]), last.x, last.y)
  }

  /** acc + sum of 2 * x * y, without any bound. */
  function ExactSum(acc: int, run: seq<Sample>): int {
    if run == [] then acc
    else
      var last := run[|run| - 1];
      ExactSum(acc, run[..|run| - 1]) + 2 * last.Product()
  }

  /** Step i doubles no product past MAX_32 and its exact running sum stays in the 32-bit range. */
  ghost predicate CleanAt(acc: Word32, run: seq<Sample>, i: nat)
    requires i < |run|
  {
    run[i].Product() != 0x4000_0000 && InRange32(ExactSum(acc, run[..i + 1]))
  }

  ghost predicate Clean(acc: Word32, run: seq<Sample>) {
    forall i :: 0 <= i < |run| ==> CleanAt(acc, run, i)
  }

  lemma CleanStep(acc: Word32, run: seq<Sample>, i: nat)
    requires i < |run|
    ensures Clean(acc, run[..i + 1]) <==> Clean(acc, run[..i]) && CleanAt(acc, run, i)
  {
    var longer, shorter := run[..i + 1], run[..i];
    assert longer[..i + 1] == longer;
    assert CleanAt(acc, longer, i) == CleanAt(acc, run, i);
    forall j | 0 <= j < i
      ensures CleanAt(acc, longer, j) == CleanAt(acc, shorter, j)
    {
      assert longer[..j + 1] == shorter[..j + 1];
    }
  }

  lemma FoldStep(acc: Word32, run: seq<Sample>, i: nat)
    requires i < |run|
    ensures MacFold(acc, run[..i + 1]) == LMac(MacFold(acc, run[..i]), run[i].x, run[i].y)
    ensures ExactSum(acc, run[..i + 1]) == ExactSum(acc, run[..i]) + 2 * run[i].Product()
  {
    assert run[..i + 1][..i] == run[..i];
  }

  /** The samples are accumulated first to last. */
  lemma {:induction false} FirstSampleFirst(acc: Word32, first: Sample, rest: seq<Sample>)
    ensures MacFold(acc, [first] + rest) == MacFold(Clamp32(acc + Clamp32(2 * (first.x * first.y))), rest)
    decreases |rest|
  {
    var run := [first] + rest;
    var n := |rest|;
    if rest == [] {
      assert run[..0] == [] && run[0] == first;
    } else {
      assert run[..n] == [first] + rest[..n - 1];
      FirstSampleFirst(acc, first, rest[..n - 1]);
    }
  }

  /** Without overflow, one accumulation is exact. */
  lemma ExactStep(acc: Word32, x: Word16, y: Word16)
    ensures !MacOverflows(acc, x, y) ==> LMac(acc, x, y) == acc + 2 * (x * y)
  {
    ProductRange(x, y);
  }

  /**
   A run of OL_mac: from a clear flag, the flag stays clear exactly on clean runs,
   and then the accumulator is the exact sum.
   */
  method OLMacRun(flags: Flags, acc0: Word32, run: seq<Sample>) returns (acc: Word32)
    modifies flags
    ensures acc == MacFold(acc0, run)
    ensures flags.overflow == (old(flags.overflow) || !Clean(acc0, run))
    ensures !flags.overflow ==> acc == ExactSum(acc0, run)
  {
    acc := acc0;
    var i := 0;
    while i < |run|
      invariant i <= |run|
      invariant acc == MacFold(acc0, run[..i])
      invariant flags.overflow == (old(flags.overflow) || !Clean(acc0, run[..i]))
      invariant Clean(acc0, run[..i]) ==> acc == ExactSum(acc0, run[..i])
    {
      CleanStep(acc0, run, i);
      FoldStep(acc0, run, i);
      ExactStep(acc, run[i].x, run[i].y);
      acc := OLMac(flags, acc, run[i].x, run[i].y);
      i := i + 1;
    }
    assert run[..|run|] == run;
  }

  // --------------------------------------------------------------------------
  // Energy
  // --------------------------------------------------------------------------

  /** Accumulating squares with QL_mda. */
  function MdaFold(acc: Word32, xs: seq<Word16>): Word32 {
    if xs == [] then acc else QLMda(MdaFold(acc, xs[..|xs| - 1]), xs[|xs| - 1])
  }

  function Square(x: Word16): (s: int)
    ensures 0 <= s <= 0x4000_0000
  {
    SquareRange(x);
    Smulbb(x, x)
  }

  /** Sum of 2 * x * x, without any bound. */
  function Energy(xs: seq<Word16>): (e: int)
    ensures e >= 0
  {
    if xs == [] then 0
    else
      Energy(xs[..|xs| - 1]) + 2 * Square(xs[|xs| - 1])
  }

  function Squares(xs: seq<Word16>): (run: seq<Sample>)
    ensures |run| == |xs| && forall i :: 0 <= i < |xs| ==> run[i] == Sample(xs[i], xs[i])
  {
    seq(|xs|, i requires 0 <= i < |xs| => Sample(xs[i], xs[i]))
  }

  /** A run of QL_mda saturates the exact energy once, at the end. */
  lemma {:induction false} EnergyRun(acc: Word32, xs: seq<Word16>)
    requires acc >= 0
    ensures MdaFold(acc, xs) == Clamp32(acc + Energy(xs))
  {
    if xs != [] {
      var n := |xs| - 1;
      EnergyRun(acc, xs[..n]);
      SquareRange(xs[n]);
      QLMdaAgrees(MdaFold(acc, xs[..n]), xs[n]);
      SaturatedTail(acc + Energy(xs[..n]), xs[n]);
    }
  }

  /** It equals the run of reference accumulations. */
  lemma {:induction false} EnergyMatchesReference(acc: Word32, xs: seq<Word16>)
    requires acc >= 0
    ensures MdaFold(acc, xs) == MacFold(acc, Squares(xs))
  {
    if xs != [] {
      var n := |xs| - 1;
      EnergyMatchesReference(acc, xs[..n]);
      assert Squares(xs)[..n] == Squares(xs[..n]);
      EnergyRun(acc, xs[..n]);
      QLMdaAgrees(MdaFold(acc, xs[..n]), xs[n]);
    }
  }

  /** Once saturated upwards, adding squares changes nothing. */
  lemma SaturatedTail(exact: int, x: Word16)
    requires exact >= 0
    ensures LMac(Clamp32(exact), x, x) == Clamp32(exact + 2 * Square(x))
  {
  }

  /** The energy, saturated or not, does not depend on the order of the samples. */
  lemma {:induction false} EnergyOrderFree(acc: Word32, xs: seq<Word16>, ys: seq<Word16>)
    requires acc >= 0 && multiset(xs) == multiset(ys)
    ensures MdaFold(acc, xs) == MdaFold(acc, ys)
  {
    EnergyRun(acc, xs);
    EnergyRun(acc, ys);
    EnergyOfPermutation(xs, ys);
  }

  lemma {:induction false} EnergyOfPermutation(xs: seq<Word16>, ys: seq<Word16>)
    requires multiset(xs) == multiset(ys)
    ensures Energy(xs) == Energy(ys)
    decreases |xs|
  {
    if xs == [] {
      assert |multiset(ys)| == 0;
    } else {
      var n := |xs| - 1;
      var x := xs[n];
      assert xs == xs[..n] + [x];
      assert x in multiset(ys);
      var k :| 0 <= k < |ys| && ys[k] == x;
      var rest := ys[..k] + ys[k + 1..];
      assert ys == ys[..k] + [x] + ys[k + 1..];
      assert multiset(rest) == multiset(ys) - multiset{x};
      EnergyOfPermutation(xs[..n], rest);
      EnergyWithout(ys, k);
    }
  }

  lemma {:induction false} EnergyWithout(ys: seq<Word16>, k: nat)
    requires k < |ys|
    ensures Energy(ys) == Energy(ys[..k] + ys[k + 1..]) + 2 * Square(ys[k])
    decreases |ys|
  {
    var n := |ys| - 1;
    if k == n {
      assert ys[..k] + ys[k + 1..] == ys[..n];
    } else {
      var rest := ys[..k] + ys[k + 1..];
      EnergyWithout(ys[..n], k);
      assert rest[..|rest| - 1] == ys[..n][..k] + ys[..n][k + 1..];
    }
  }
}

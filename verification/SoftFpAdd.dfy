/** Addition (softfp_template.h, add_sf). */
module SoftFpAdd {
  import opened Powers
  import opened Rounding
  import opened Float64
  import opened SoftFpCore
  import Ieee754

  /** The exponent field with subnormals moved to 1. */
  function EffExp(a: u64): nat {
    if ExpField(a) == 0 then 1 else ExpField(a)
  }

  /** The mantissa with its implicit bit. */
  function EffMant(a: u64): nat {
    MantField(a) + if ExpField(a) == 0 then 0 else TWO_52
  }

  /** add_sf after the swap: |a| >= |b|. clz0 stands for the undefined clz(0). */
  function AddOrdered(a: u64, b: u64, rm: RoundingMode, clz0: nat): u64
    requires Index(a) >= Index(b) && 1 <= clz0 <= 64
  {
    if ExpField(a) == EXP_MASK then
      if MantField(a) != 0 then QNAN
      else if ExpField(b) == EXP_MASK && Sign(a) != Sign(b) then QNAN
      else a
    else
      AddFinite(a, b, rm, clz0)
  }

  function AddFinite(a: u64, b: u64, rm: RoundingMode, clz0: nat): u64
    requires Index(a) >= Index(b) && 1 <= clz0 <= 64 && IsFinite(a)
  {
    var aMant := EffMant(a) * 8;
    var bMant := Aligned(a, b);
    var mant := if Sign(a) == Sign(b) then aMant + bMant else (aMant - bMant) % TWO_64;
    var sign := if Sign(a) != Sign(b) && mant == 0 then rm == RDN else Sign(a);
    NormalizeSf(sign, EffExp(a) + (RND_SIZE - 3), mant, rm, clz0)
  }

  /** The smaller mantissa moved to the exponent of the larger, three extra bits. */
  function Aligned(a: u64, b: u64): (r: u64)
    requires Index(a) >= Index(b) && IsFinite(a)
    ensures r <= EffMant(a) * 8 < 8 * TWO_53
  {
    EffOrdered(a, b);
    RShiftRndShrinks(EffMant(b) * 8, EffExp(a) - EffExp(b));
    RShiftRnd(EffMant(b) * 8, EffExp(a) - EffExp(b))
  }

  lemma EffOrdered(a: u64, b: u64)
    requires Index(a) >= Index(b) && IsFinite(a)
    ensures EffExp(a) >= EffExp(b)
    ensures EffExp(a) == EffExp(b) ==> EffMant(a) >= EffMant(b)
    ensures EffMant(a) < TWO_53 && EffMant(b) < TWO_53
    ensures EffExp(a) > 1 ==> EffMant(a) >= TWO_52
  {
    Fields(a);
    Fields(b);
  }

  lemma RShiftRndShrinks(v: u64, d: nat)
    requires v < 8 * TWO_53 && v % 8 == 0
    ensures d == 0 ==> RShiftRnd(v, d) == v
    ensures d > 0 ==> RShiftRnd(v, d) <= 8 * TWO_52
  {
    if 0 < d < 64 {
      var q := ShiftRight(v, d);
      hide ShiftRight, ShiftedOut, Pow2;
      assert 2 * q <= v;
      SetBit0Bound(q);
      assert q < 8 * TWO_52;
    }
  }

  function AddSf(a: u64, b: u64, rm: RoundingMode, clz0: nat): u64
    requires 1 <= clz0 <= 64
  {
    if Index(a) < Index(b) then AddOrdered(b, a, rm, clz0) else AddOrdered(a, b, rm, clz0)
  }

  function SubSf(a: u64, b: u64, rm: RoundingMode, clz0: nat): u64
    requires 1 <= clz0 <= 64
  {
    AddSf(a, FlipSign(b), rm, clz0)
  }

  function FlipSign(a: u64): u64 {
    if Sign(a) then a - TWO_63 else a + TWO_63
  }

  lemma EffValue(a: u64)
    requires IsFinite(a)
    ensures EffExp(a) >= 1 && EffMant(a) < TWO_53
    ensures Units(a) == EffMant(a) * Pow2(EffExp(a) - 1)
    ensures EffExp(a) > 1 ==> EffMant(a) >= TWO_52
  {
    Fields(a);
    GridFields(ExpField(a), MantField(a));
  }

  /** The exact sum or difference of two aligned magnitudes, at the exponent of
      the smaller operand. */
  function ExactAligned(ma: nat, mb: nat, d: nat, subtract: bool): int {
    if subtract then ma * Pow2(d) - mb else ma * Pow2(d) + mb
  }

  /** The three-extra-bits result is the sticky image of the exact one. */
  lemma AlignedSticky(ma: nat, mb: nat, d: nat, subtract: bool, r: nat)
    requires r == RoundingSticky(8 * mb, d)
    requires subtract ==> mb <= ma * Pow2(d)
    ensures subtract ==> r <= 8 * ma
    ensures RoundingSticky(8 * ExactAligned(ma, mb, d, subtract), d) == if subtract then 8 * ma - r else 8 * ma + r
  {
    var p := Pow2(d);
    assert r == Sticky(8 * mb, p);
    var k := ExactAligned(ma, mb, d, subtract);
    assert k == if subtract then ma * p - mb else ma * p + mb;
    assert RoundingSticky(8 * k, d) == Sticky(8 * k, p);
    hide *;
    MulAssoc(8, ma, p);
    if subtract {
      StickySub(8 * ma, 8 * mb, p);
    } else {
      StickyAdd(8 * ma, 8 * mb, p);
    }
  }

  function RoundingSticky(n: nat, d: nat): nat {
    Sticky(n, Pow2(d))
  }

  /** Three extra bits are exact up to an alignment of three places, and beyond
      that at most one leading bit can cancel. */
  lemma AlignedEnough(ma: nat, mb: nat, d: nat, subtract: bool, k: nat)
    requires k == ExactAligned(ma, mb, d, subtract)
    requires mb < TWO_53 && (d > 0 ==> ma >= TWO_52)
    ensures (8 * k) % Pow2(d) == 0 || Pow2(54) * Pow2(d) <= 8 * k
  {
    if d <= 3 {
      DividesEight(k, d);
    } else {
      AlignedLong(ma, mb, d, subtract, k);
    }
  }

  lemma AlignedLong(ma: nat, mb: nat, d: nat, subtract: bool, k: nat)
    requires k == ExactAligned(ma, mb, d, subtract)
    requires mb < TWO_53 && ma >= TWO_52 && d >= 4
    ensures Pow2(54) * Pow2(d) <= 8 * k
  {
    Pow2Constants();
    Pow2Monotone(4, d);
    assert Pow2(4) == 16 && Pow2(54) == 2 * TWO_53;
    var p := Pow2(d);
    var y := ma * p;
    assert k >= y - mb;
    hide *;
    assert y >= TWO_52 * p by { MulMonotone(TWO_52, ma, p); }
    CancelOneBit(p, y, mb, k);
  }

  lemma CancelOneBit(p: nat, y: nat, mb: nat, k: nat)
    requires p >= 16 && y >= TWO_52 * p && mb < TWO_53 && k >= y - mb
    ensures (2 * TWO_53) * p <= 8 * k
  {}

  lemma DividesEight(k: nat, d: nat)
    requires d <= 3
    ensures (8 * k) % Pow2(d) == 0
  {
    if d == 0 { assert Pow2(d) == 1; }
    else if d == 1 { assert Pow2(d) == 2; }
    else if d == 2 { assert Pow2(d) == 4; }
    else { assert Pow2(d) == 8; }
  }

  lemma AlignedRounds(ma: nat, mb: nat, d: nat, subtract: bool, k: nat, e: nat, dir: Direction)
    requires k == ExactAligned(ma, mb, d, subtract) && e >= 1
    requires mb < TWO_53 && (d > 0 ==> ma >= TWO_52)
    ensures RoundScaled(RoundingSticky(8 * k, d), 1, e + d - 4, dir) == RoundMag(k * Pow2(e - 1), 1, dir)
  {
    AlignedEnough(ma, mb, d, subtract, k);
    assert Pow2(3) == 8;
    assert RoundScaled(k, 1, e - 1, dir) == RoundMag(k * Pow2(e - 1), 1, dir);
    assert RoundingSticky(8 * k, d) == Sticky(8 * k, Pow2(d));
    hide *;
    var t := e + d - 4;
    RoundScaledSticky(8 * k, Pow2(d), t, dir);
    RoundScaledDen(8 * k, 1, d, t, dir);
    RoundScaledShift(k, 1, 3, e - 1, dir);
    assert 1 * Pow2(d) == Pow2(d);
    assert t - d == e - 1 - 3;
  }

  /** The word add_sf hands to normalisation. */
  function SumMantissa(a: u64, b: u64): (mant: nat)
    requires Index(a) >= Index(b) && IsFinite(a)
    ensures mant < 16 * TWO_53
  {
    if Sign(a) == Sign(b) then EffMant(a) * 8 + Aligned(a, b) else EffMant(a) * 8 - Aligned(a, b)
  }

  lemma AddFiniteUnfold(a: u64, b: u64, rm: RoundingMode, clz0: nat, mant: nat)
    requires Index(a) >= Index(b) && 1 <= clz0 <= 64 && IsFinite(a)
    requires mant == SumMantissa(a, b)
    ensures AddFinite(a, b, rm, clz0)
            == NormalizeSf(if Sign(a) != Sign(b) && mant == 0 then rm == RDN else Sign(a), EffExp(a) + 7, mant, rm, clz0)
  {
    hide Aligned, EffMant, NormalizeSf;
    SmallWord(mant);
  }

  lemma SumMantissaSticky(a: u64, b: u64, d: nat, k: nat)
    requires Index(a) >= Index(b) && IsFinite(a) && d == EffExp(a) - EffExp(b)
    requires k == ExactAligned(EffMant(a), EffMant(b), d, Sign(a) != Sign(b))
    ensures SumMantissa(a, b) == RoundingSticky(8 * k, d)
  {
    RShiftRndIsSticky(8 * EffMant(b), d);
    AlignedSticky(EffMant(a), EffMant(b), d, Sign(a) != Sign(b), Aligned(a, b));
  }

  /** The finite case: the rounding of the exact aligned sum k. */
  lemma AddFiniteScaled(a: u64, b: u64, rm: RoundingMode, clz0: nat, d: nat, k: nat, sign: bool)
    requires Index(a) >= Index(b) && 1 <= clz0 <= 64 && IsFinite(a) && d == EffExp(a) - EffExp(b)
    requires k == ExactAligned(EffMant(a), EffMant(b), d, Sign(a) != Sign(b))
    requires sign == if Sign(a) != Sign(b) && k == 0 then rm == RDN else Sign(a)
    ensures AddFinite(a, b, rm, clz0)
            == Encode(sign, RoundMag(k * Pow2(EffExp(b) - 1), 1, DirectionOf(rm, sign)), DirectionOf(rm, sign))
  {
    var mant := SumMantissa(a, b);
    AddFiniteUnfold(a, b, rm, clz0, mant);
    SumMantissaSticky(a, b, d, k);
    StickyZero(8 * k, d);
    EffOrdered(a, b);
    NormalizeCorrect(sign, EffExp(a) + 7, mant, rm, clz0);
    AlignedRounds(EffMant(a), EffMant(b), d, Sign(a) != Sign(b), k, EffExp(b), DirectionOf(rm, sign));
    assert EffExp(a) + 7 - 11 == EffExp(b) + d - 4;
    hide AddFinite, NormalizeSf, RoundScaled, RoundingSticky, SumMantissa, Encode;
  }

  lemma StickyZero(n: nat, d: nat)
    ensures RoundingSticky(n, d) == 0 <==> n == 0
  {}

  lemma ExactSumCore(x: nat, mb: nat, p: nat)
    requires p > 0
    ensures (x + mb) * p == x * p + mb * p
    ensures x >= mb ==> (x - mb) * p == x * p - mb * p
    ensures x * p >= mb * p ==> x >= mb
    ensures x * p == mb * p <==> x == mb
  {
    Distribute(x, mb, p);
    MulCancel(x, mb, p);
    MulCancel(mb, x, p);
  }

  /** The exact sum in units is the aligned sum at the smaller exponent. */
  lemma ExactSum(a: u64, b: u64, d: nat) returns (k: nat, p: nat)
    requires Index(a) >= Index(b) && IsFinite(a) && IsFinite(b) && d == EffExp(a) - EffExp(b)
    ensures k == ExactAligned(EffMant(a), EffMant(b), d, Sign(a) != Sign(b))
    ensures EffExp(b) >= 1 && p == Pow2(EffExp(b) - 1)
    ensures Units(a) >= Units(b)
    ensures k * p == if Sign(a) != Sign(b) then Units(a) - Units(b) else Units(a) + Units(b)
  {
    EffValue(a);
    EffValue(b);
    GridScaled(Index(b), Index(a), 1);
    hide Grid, Index, EffMant, EffExp, Pow2, Sign;
    k, p := ExactSumOf(EffMant(a), EffMant(b), d, EffExp(b), Units(a), Units(b), Sign(a) != Sign(b));
  }

  lemma ExactSumOf(ma: nat, mb: nat, d: nat, e: nat, u: nat, v: nat, subtract: bool) returns (k: nat, p: nat)
    requires e >= 1 && u == ma * Pow2(d + e - 1) && v == mb * Pow2(e - 1) && u >= v
    ensures k == ExactAligned(ma, mb, d, subtract) && p == Pow2(e - 1)
    ensures k * p == if subtract then u - v else u + v
  {
    Pow2Add(d, e - 1);
    p := Pow2(e - 1);
    var x := ma * Pow2(d);
    assert u == x * p by { MulAssoc(ma, Pow2(d), p); }
    hide Pow2;
    ExactSumCore(x, mb, p);
    k := if subtract then x - mb else x + mb;
  }

  lemma AddFiniteCorrect(a: u64, b: u64, rm: RoundingMode, clz0: nat)
    requires Index(a) >= Index(b) && 1 <= clz0 <= 64 && IsFinite(a) && IsFinite(b)
    ensures AddFinite(a, b, rm, clz0) == Ieee754.Sum(a, b, rm)
  {
    EffOrdered(a, b);
    hide *;
    var d := EffExp(a) - EffExp(b);
    var k, p := ExactSum(a, b, d);
    MulCancel(0, k, p);
    var sign := if Sign(a) != Sign(b) && k == 0 then rm == RDN else Sign(a);
    AddFiniteScaled(a, b, rm, clz0, d, k, sign);
    SumInTerms(a, b, rm, k * p, sign);
  }

  lemma SumInTerms(a: u64, b: u64, rm: RoundingMode, s: nat, sign: bool)
    requires IsFinite(a) && IsFinite(b) && Units(a) >= Units(b)
    requires s == if Sign(a) != Sign(b) then Units(a) - Units(b) else Units(a) + Units(b)
    requires sign == if Sign(a) != Sign(b) && s == 0 then rm == RDN else Sign(a)
    ensures Ieee754.Sum(a, b, rm) == Encode(sign, RoundMag(s, 1, DirectionOf(rm, sign)), DirectionOf(rm, sign))
  {
    RoundScaledZero(1, 0, DirectionOf(rm, sign));
    assert RoundScaled(s, 1, 0, DirectionOf(rm, sign)) == RoundMag(s, 1, DirectionOf(rm, sign)) by {
      assert s * Pow2(0) == s;
    }
    hide Grid, RoundMag, RoundScaled, Sign, Index;
    assert SignedUnits(a) + SignedUnits(b) == if Sign(a) then 0 - s else s;
  }

  lemma SumCommutes(a: u64, b: u64, rm: RoundingMode)
    requires Index(a) < Index(b)
    ensures Ieee754.Sum(a, b, rm) == Ieee754.Sum(b, a, rm)
  {
    hide Grid, RoundScaled, Encode;
  }

  lemma AddOrderedCorrect(a: u64, b: u64, rm: RoundingMode, clz0: nat)
    requires Index(a) >= Index(b) && 1 <= clz0 <= 64
    ensures AddOrdered(a, b, rm, clz0) == Ieee754.Sum(a, b, rm)
  {
    Fields(a);
    Fields(b);
    if ExpField(a) != EXP_MASK {
      AddFiniteCorrect(a, b, rm, clz0);
    }
    hide AddFinite, Grid, RoundScaled, Encode;
  }

  /** add_sf is the correctly rounded sum, special values and signed zeros
      included, in every mode and whatever clz(0) is. */
  lemma AddCorrect(a: u64, b: u64, rm: RoundingMode, clz0: nat)
    requires 1 <= clz0 <= 64
    ensures AddSf(a, b, rm, clz0) == Ieee754.Sum(a, b, rm)
  {
    if Index(a) < Index(b) {
      AddOrderedCorrect(b, a, rm, clz0);
      SumCommutes(a, b, rm);
    } else {
      AddOrderedCorrect(a, b, rm, clz0);
    }
  }

  lemma FlipSignIs(b: u64)
    ensures Sign(FlipSign(b)) == !Sign(b) && Index(FlipSign(b)) == Index(b)
    ensures Index(b) == INFINITY ==> FlipSign(b) == Ieee754.Infinity(!Sign(b))
  {}

  /** sub_sf is the correctly rounded difference. */
  lemma SubCorrect(a: u64, b: u64, rm: RoundingMode, clz0: nat)
    requires 1 <= clz0 <= 64
    ensures SubSf(a, b, rm, clz0) == Ieee754.Difference(a, b, rm)
  {
    hide AddSf, FlipSign, Index, Sign, RoundToDouble, Grid, Ieee754.Zero, Ieee754.Infinity;
    AddCorrect(a, FlipSign(b), rm, clz0);
    FlipSignIs(b);
  }
}

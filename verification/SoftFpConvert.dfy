/** Conversions between doubles and integers (softfp_template_icvt.h). */
module SoftFpConvert {
  import opened Powers
  import opened Rounding
  import opened Float64
  import opened SoftFpCore
  import opened SoftFpFmod

  /** The target integer type: 32 or 64 bits, signed or unsigned. */
  datatype IntType = IntType(wide: bool, unsigned: bool) {
    function Size(): nat { if wide then 64 else 32 }

    function Modulus(): nat { if wide then TWO_64 else 0x1_0000_0000 }

    function MaxValue(): int { if unsigned then Modulus() - 1 else Modulus() / 2 - 1 }

    function MinValue(): int { if unsigned then 0 else 0 - Modulus() / 2 }

    predicate Contains(v: int) { MinValue() <= v <= MaxValue() }

    /** The integer a word stands for. */
    function Decode(word: nat): int {
      if !unsigned && word >= Modulus() / 2 then word - Modulus() else word
    }

    function Clamp(v: int): int {
      if v < MinValue() then MinValue() else if v > MaxValue() then MaxValue() else v
    }
  }

  /** The largest word allowed for the sign: r_max in the source. */
  function MaxWord(t: IntType, sign: bool): nat {
    if t.unsigned then (if sign then 0 else t.Modulus() - 1)
    else t.Modulus() / 2 - (if sign then 0 else 1)
  }

  /** The rounded magnitude, or nothing when it cannot be formed in the type. */
  datatype Magnitude = TooLarge | Magnitude(value: nat)

  function RoundedMagnitude(a: u64, sign: bool, rm: RoundingMode, t: IntType): Magnitude {
    var e := ExpField(a);
    var mant: nat := MantField(a) + if e == 0 then 0 else TWO_52;
    var exp := (if e == 0 then 1 else e) - 1023 - 52;
    if exp >= 0 then
      if exp <= t.Size() - 1 - 52 then Magnitude(mant * Pow2(exp) % t.Modulus()) else TooLarge
    else
      MantissaWord(a);
      Magnitude(RoundOff(RShiftRnd(mant * RND_UNIT, 0 - exp), sign, rm))
  }

  lemma MantissaWord(a: u64)
    ensures (MantField(a) + TWO_52) * RND_UNIT < TWO_63
  {}

  /** internal_cvt_sf64_i: the word for a, before it is read in the type t. */
  function FloatToWord(a: u64, rm: RoundingMode, t: IntType): nat {
    var sign := Sign(a) && !(ExpField(a) == EXP_MASK && MantField(a) != 0);
    var max := MaxWord(t, sign);
    match RoundedMagnitude(a, sign, rm, t)
    case TooLarge => max
    case Magnitude(r) =>
      if r > max then max
      else if sign then (t.Modulus() - r) % t.Modulus() else r
  }

  function FloatToInt(a: u64, rm: RoundingMode, t: IntType): int {
    t.Decode(FloatToWord(a, rm, t))
  }

  /** What the conversion means: NaN gives the maximum, anything else is rounded
      to an integer in mode rm and clamped to the type. */
  function ConvertedInt(a: u64, rm: RoundingMode, t: IntType): int {
    if IsNaN(a) then t.MaxValue()
    else if !IsFinite(a) then (if Sign(a) then t.MinValue() else t.MaxValue())
    else
      var m := RoundDiv(Units(a), Pow2(1074), DirectionOf(rm, Sign(a)));
      t.Clamp(if Sign(a) then 0 - m else m)
  }

  /** Reading back a clamped magnitude with its sign. */
  lemma WordMeaning(t: IntType, sign: bool, m: nat)
    ensures var max := MaxWord(t, sign);
            var word := if m > max then max else if sign then (t.Modulus() - m) % t.Modulus() else m;
            t.Decode(word) == t.Clamp(if sign then 0 - m else m)
  {
    if m <= MaxWord(t, sign) && sign {
      if m == 0 {
        DivUnique(t.Modulus(), t.Modulus(), 1, 0);
      } else {
        DivUnique(t.Modulus() - m, t.Modulus(), 0, t.Modulus() - m);
      }
    }
  }

  /** Integer values: the shift is exact, or too large for the type. */
  lemma WholeMagnitude(mant: nat, exp: nat, t: IntType, dir: Direction)
    requires TWO_52 <= mant < TWO_53
    ensures exp > t.Size() - 1 - 52 ==> mant * Pow2(exp) > MaxWord(t, true) && mant * Pow2(exp) > MaxWord(t, false)
    ensures exp <= t.Size() - 1 - 52 ==> mant * Pow2(exp) % t.Modulus() == mant * Pow2(exp)
  {
    Pow2Constants();
    hide Pow2;
    if exp > t.Size() - 1 - 52 {
      if t.wide {
        Pow2Monotone(12, exp);
        assert Pow2(12) == 0x1000 by { TwelveBits(); }
        MulMonotone(0x1000, Pow2(exp), mant);
        MulCommute(mant, Pow2(exp));
      } else {
        MulMonotone(1, Pow2(exp), mant);
        MulCommute(mant, Pow2(exp));
      }
    } else {
      Pow2Monotone(exp, 11);
      MulMonotone(Pow2(exp), 0x800, mant);
      MulCommute(mant, Pow2(exp));
      DivUnique(mant * Pow2(exp), t.Modulus(), 0, mant * Pow2(exp));
    }
  }

  lemma TwelveBits()
    ensures Pow2(12) == 0x1000
  {}

  /** Fractional values: shift with sticky and rounding off is rounding. */
  lemma FractionMagnitude(mant: nat, d: nat, sign: bool, rm: RoundingMode)
    requires mant < TWO_53 && d >= 1
    ensures RoundOff(RShiftRnd(mant * RND_UNIT, d), sign, rm) == RoundDiv(mant, Pow2(d), DirectionOf(rm, sign))
  {
    hide Pow2, RoundOff, RShiftRnd, RoundDiv, Sticky;
    var dir := DirectionOf(rm, sign);
    var p := Pow2(d);
    StickyHalves(mant * RND_UNIT, d);
    RShiftRndIsSticky(mant * RND_UNIT, d);
    RoundOffIsRoundDiv(RShiftRnd(mant * RND_UNIT, d), sign, rm);
    StickyRound(mant * RND_UNIT, p, RND_UNIT, dir);
    RoundDivScale(mant, p, RND_UNIT, dir);
    MulCommute(p, RND_UNIT);
  }

  /** The value of a finite double as mant * 2^(e - 1) units, over 2^1074. */
  lemma UnitsOverOne(mant: nat, e: nat, dir: Direction)
    requires 1 <= e
    ensures e >= 1075 ==> RoundDiv(mant * Pow2(e - 1), Pow2(1074), dir) == mant * Pow2(e - 1075)
    ensures e < 1075 ==> RoundDiv(mant * Pow2(e - 1), Pow2(1074), dir) == RoundDiv(mant, Pow2(1075 - e), dir)
  {
    hide Pow2, RoundDiv;
    if e >= 1075 {
      Pow2Add(e - 1075, 1074);
      MulAssoc(mant, Pow2(e - 1075), Pow2(1074));
      RoundDivExact(mant * Pow2(e - 1075), Pow2(1074), dir);
    } else {
      Pow2Add(1075 - e, e - 1);
      RoundDivScale(mant, Pow2(1075 - e), Pow2(e - 1), dir);
    }
  }

  /** For a finite double the magnitude is the rounded one, or too large. */
  lemma FiniteMagnitude(a: u64, sign: bool, rm: RoundingMode, t: IntType, m: nat)
    requires IsFinite(a) && m == RoundDiv(Units(a), Pow2(1074), DirectionOf(rm, sign))
    ensures RoundedMagnitude(a, sign, rm, t) == Magnitude(m)
            || (RoundedMagnitude(a, sign, rm, t) == TooLarge && m > MaxWord(t, sign))
  {
    Classify(a);
    hide Grid, Pow2, RoundOff, RShiftRnd, RoundDiv, Sign, ExpField, MantField, Index, MaxWord;
    var e := ExpField(a);
    var eff: nat := if e == 0 then 1 else e;
    var mant: nat := MantField(a) + if e == 0 then 0 else TWO_52;
    FiniteUnits(a, mant, eff);
    UnitsOverOne(mant, eff, DirectionOf(rm, sign));
    if eff >= 1075 {
      WholeMagnitude(mant, eff - 1075, t, DirectionOf(rm, sign));
    } else {
      FractionMagnitude(mant, 1075 - eff, sign, rm);
    }
  }

  /** Float to integer is rounding and clamping, in every mode and type. */
  lemma FloatToIntCorrect(a: u64, rm: RoundingMode, t: IntType)
    ensures FloatToInt(a, rm, t) == ConvertedInt(a, rm, t)
  {
    hide Grid, Pow2, RoundDiv, Sign, ExpField, MantField, Index, MaxWord, RoundedMagnitude;
    Classify(a);
    var sign := Sign(a) && !IsNaN(a);
    if IsFinite(a) {
      var m := RoundDiv(Units(a), Pow2(1074), DirectionOf(rm, sign));
      FiniteMagnitude(a, sign, rm, t, m);
      WordMeaning(t, sign, m);
    } else {
      SpecialMagnitude(a, sign, rm, t);
      WordMeaning(t, sign, MaxWord(t, sign) + 1);
      ClampBeyond(t, sign);
    }
  }

  lemma SpecialMagnitude(a: u64, sign: bool, rm: RoundingMode, t: IntType)
    requires !IsFinite(a)
    ensures RoundedMagnitude(a, sign, rm, t) == TooLarge
  {
    Classify(a);
  }

  lemma ClampBeyond(t: IntType, sign: bool)
    ensures var m := MaxWord(t, sign) + 1;
            t.Clamp(if sign then 0 - m else m) == if sign then t.MinValue() else t.MaxValue()
  {}

  lemma FiniteUnits(a: u64, mant: nat, eff: nat)
    requires IsFinite(a)
    requires eff == if ExpField(a) == 0 then 1 else ExpField(a)
    requires mant == MantField(a) + if ExpField(a) == 0 then 0 else TWO_52
    ensures Units(a) == mant * Pow2(eff - 1) && mant < TWO_53
    ensures eff > 1 ==> mant >= TWO_52
  {
    Fields(a);
    GridFields(ExpField(a), MantField(a));
  }

  // ----- integer to float

  /** internal_cvt_i_sf64: a 64-bit magnitude first loses one bit, kept sticky. */
  function IntToFloat(v: int, t: IntType, rm: RoundingMode, clz0: nat): u64
    requires t.Contains(v) && 1 <= clz0 <= 64
  {
    var r := Abs(v);
    ReducedFits(r);
    if r != 0 && BitLen(r) > 63 then
      NormalizeSf(v < 0, 1023 + 62 + 1, if r % 2 != 0 then SetBit0(r / 2) else r / 2, rm, clz0)
    else
      NormalizeSf(v < 0, 1023 + 62, r, rm, clz0)
  }

  lemma ReducedFits(r: nat)
    requires r < TWO_64
    ensures SetBit0(r / 2) < TWO_63
    ensures BitLen(r) <= 63 <==> r < TWO_63
  {
    Pow2Constants();
    if r < TWO_63 { BitLenAtMost(r, 63); } else { BitLenAtLeast(r, 63); }
  }

  /** Integer to float is correctly rounded. */
  lemma IntToFloatCorrect(v: int, t: IntType, rm: RoundingMode, clz0: nat)
    requires t.Contains(v) && 1 <= clz0 <= 64
    ensures IntToFloat(v, t, rm, clz0) == RoundToDouble(v < 0, Abs(v), 1, 1074, rm)
  {
    hide Pow2, BitLen, NormalizeSf, RoundScaled, Sticky;
    var r := Abs(v);
    ReducedFits(r);
    if r < TWO_63 {
      NormalizeCorrect(v < 0, 1085, r, rm, clz0);
    } else {
      NormalizeCorrect(v < 0, 1086, if r % 2 != 0 then SetBit0(r / 2) else r / 2, rm, clz0);
      TopBitDropped(r, DirectionOf(rm, v < 0));
    }
  }

  lemma TopBitDropped(r: nat, dir: Direction)
    requires TWO_63 <= r < TWO_64
    ensures RoundScaled(if r % 2 != 0 then SetBit0(r / 2) else r / 2, 1, 1075, dir) == RoundScaled(r, 1, 1074, dir)
  {
    Pow2Constants();
    assert Pow2(54) == 2 * TWO_53 && Pow2(1) == 2;
    hide Pow2, RoundScaled, SetBit0, Sticky;
    StickyChar(r, 2, r / 2, r % 2);
    RoundScaledStickyLong(r, 2, 1075, dir);
    RoundScaledDen(r, 1, 1, 1075, dir);
  }

  /** Integers of at most 53 bits survive the trip to double and back, in any
      pair of modes; every 32-bit integer is one. */
  lemma IntRoundTrip(v: int, t: IntType, rm: RoundingMode, rm': RoundingMode, clz0: nat)
    requires t.Contains(v) && 1 <= clz0 <= 64
    requires !t.wide || Abs(v) < TWO_53
    ensures FloatToInt(IntToFloat(v, t, rm, clz0), rm', t) == v
  {
    hide Grid, Pow2, RoundDiv, RoundScaled, IntToFloat, FloatToInt, Encode, Sign, Index;
    var m := Abs(v);
    IntToFloatCorrect(v, t, rm, clz0);
    var k := ExactInteger(m, DirectionOf(rm, v < 0));
    EncodeFinite(v < 0, k, DirectionOf(rm, v < 0));
    FloatToIntCorrect(IntToFloat(v, t, rm, clz0), rm', t);
    RoundDivExact(m, Pow2(1074), DirectionOf(rm', v < 0));
    FloatConstants();
    FiniteNotNaN(IntToFloat(v, t, rm, clz0));
  }

  lemma FiniteNotNaN(a: u64)
    requires IsFinite(a)
    ensures !IsNaN(a)
  {}

  lemma ExactInteger(m: nat, dir: Direction) returns (k: nat)
    requires m < TWO_53
    ensures Grid(k) == m * Pow2(1074) && k < INFINITY
    ensures RoundScaled(m, 1, 1074, dir) == k
  {
    hide Grid, Pow2, RoundMag;
    k := GridHas(m, 1074);
    GridIsFixed(k, dir);
    FloatConstants();
    if k >= INFINITY {
      GridScaled(INFINITY, k, 1);
      InfinityIsLarge(m);
      assert false;
    }
  }

  lemma InfinityIsLarge(m: nat)
    requires m < TWO_53
    ensures m * Pow2(1074) < Grid(INFINITY)
  {
    hide Grid, Pow2;
    GridFields(2047, 0);
    FloatConstants();
    assert 2047 * TWO_52 + 0 == INFINITY;
    Pow2Monotone(1075, 2046);
    Pow2Add(1, 1074);
    MulStrict(m, TWO_53, Pow2(1074));
    PowerOfOne();
  }

  lemma PowerOfOne()
    ensures Pow2(1) == 2
  {}
}

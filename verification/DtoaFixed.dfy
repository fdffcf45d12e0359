/** The fixed and fractional formats of js_dtoa (dtoa.c:1242-1277), which round
    half away from zero and are supported in radix 10. */
module DtoaFixed {
  import opened Powers
  import opened Rounding
  import opened Float64
  import opened Limbs
  import opened BigNum
  import opened RadixTables
  import opened RadixLog
  import opened RealPow
  import opened DtoaScale
  import opened DtoaNearest
  import opened DtoaSearch
  import opened DtoaRoom
  import opened DtoaFree
  import opened DtoaText

  /** JS_DTOA_MAX_DIGITS and MANT_LEN_MAX. */
  const MAX_DIGITS: nat := 101
  const MANT_LEN_MAX: nat := 18

  lemma TenParts()
    ensures IsRadix(10) && OddPart(10) == 5 && Twos(10) == 1 && !PowerOfTwo(10) && 10 == 5 * Pow2(1)
  {
    SmallPowers();
    TwosDivide(10);
    TwosBelow(10, 6);
    assert Twos(10) == 1;
  }

  lemma TenPower(n: nat)
    requires n <= MAX_DIGITS
    ensures 0 < Pow(5, n) <= Pow(10, n) <= Pow2(336)
  {
    hide Pow, Pow2;
    PowBaseMonotone(5, 10, n);
    PowMonotone(10, n, 101);
    PowPositive(5, n);
    AtMost(10, 101, 336);
  }

  lemma MantRoom(n: nat)
    requires n <= MAX_DIGITS
    ensures HasRoom(1, 1, MANT_LEN_MAX, 5, 1, n, false, 0)
    ensures Pow(5, n) * Pow2(n) == Pow(10, n) && Pow(10, n) < Weight(17)
  {
    hide Pow, Pow2, Weight;
    TenPower(n);
    WeightIsPow2(18);
    WeightIsPow2(17);
    Pow2Monotone(336, 543);
    Pow2Next(543);
    Pow2Monotone(544, 576);
    SplitPower(5, 1, n);
    TenParts();
    TimesOneIs(1, 1);
    MulCommute(1, Pow(5, n));
  }

  /** mant_max = 10^n. */
  method MantMax(mantMax: Mpb, n: nat)
    requires mantMax.tab.Length == MANT_LEN_MAX && n <= MAX_DIGITS
    modifies mantMax, mantMax.tab
    ensures mantMax.Valid() && mantMax.Normalized() && mantMax.Value() == Pow(10, n)
  {
    hide Val, Normal, Pow, Pow2, Weight, Scaled, HasRoom, RoundDiv;
    mantMax.len := 1;
    mantMax.tab[0] := 1;
    assert mantMax.tab[..mantMax.len] == [1];
    OneLimb(1);
    MantRoom(n);
    var shift, k := MulPow(mantMax, 5, 1, n, false, 0);
    ghost var v := mantMax.Value();
    ScaledExactly(v, 1, 5, n);
    assert v == Pow(5, n);
    RoomForShift(mantMax.tab[..mantMax.len], n, 17);
    ShiftRoundUp(v, 1, n, TowardZero);
    RoundDivByOne(v * Pow2(n), TowardZero);
    mantMax.ShrRound(shift, RNDZ);
  }

  /** Room for the trials of the fixed format. */
  lemma FixedRoom(m: nat, e: int, e0: int, x: int, n: nat)
    requires FullMantissa(m) && 0 - 1073 <= e <= 1024 && Bracket(10, e0, e) && e0 <= x <= e0 + 1 && n <= MAX_DIGITS
    ensures RoundRoom(m, e - 53, 5, 1, n - x, LEN_MAX)
  {
    hide RPow, Two, Times, Pow, Pow2, ValueOf, Bracket, FullMantissa, RoundRoom, OddPart, Twos, MaxExponent, MinExponent;
    FirstRange(10, e0, m, e, n);
    ValueRange(m, e);
    TenPower(n);
    RPowNat(10, n);
    TwoNat(336);
    TwoNext(336);
    SmallerTrial(ValueOf(m, e), 10, n - x, n - e0);
    TimesOrder(ScaledValue(ValueOf(m, e), 10, n - x), Two(337), Two(Pos(53 - e)));
    TwoAdd(337, Pos(53 - e));
    TwoMonotone(337 + Pos(53 - e), 1632);
    ExponentRange(10, e0, e);
    MantissaBelow(m);
    TenParts();
    PrintRoom(m, e, 10, n - x);
  }

  lemma MantissaBelow(m: nat)
    requires FullMantissa(m)
    ensures 0 < m < TWO_53 < TWO_64
  {}

  /** The mantissa of n digits at exponent x. */
  ghost function FixedMantissa(m: nat, e: int, n: nat, x: int): nat {
    RoundPow(m, e - 53, 10, n - x, NearestAway)
  }

  lemma FixedTrials(m: nat, e: int, e0: int, n: nat)
    requires FullMantissa(m) && Bracket(10, e0, e) && n >= 1
    ensures FixedMantissa(m, e, n, e0) >= Pow(10, n - 1)
    ensures FixedMantissa(m, e, n, e0) >= Pow(10, n) ==> HasDigits(FixedMantissa(m, e, n, e0 + 1), 10, n)
  {
    hide Pow, Near, ScaledValue, ValueOf, Bracket, FullMantissa, RoundPow;
    var v := ValueOf(m, e);
    RoundPowNear(m, e - 53, 10, n - e0, NearestAway);
    RoundPowNear(m, e - 53, 10, n - e0 - 1, NearestAway);
    ValueOfTimes(m, e);
    FirstMantissa(10, e0, m, e, n, FixedMantissa(m, e, n, e0));
    if FixedMantissa(m, e, n, e0) >= Pow(10, n) {
      SecondMantissa(10, e0, m, e, n, FixedMantissa(m, e, n, e0), FixedMantissa(m, e, n, e0 + 1));
    }
  }

  lemma ValueOfTimes(m: nat, e: int)
    ensures ValueOf(m, e) == Times(m as real, Two(e - 53))
  {}

  /** d rounded half away from zero to n significant digits: x is the exponent
      at which the rounded mantissa has n digits; at the exponent below it has more. */
  ghost predicate FixedRounding(mant: nat, x: int, n: nat, m: nat, e: int) {
    && HasDigits(mant, 10, n) && mant == FixedMantissa(m, e, n, x)
    && FixedMantissa(m, e, n, x - 1) >= Pow(10, n)
  }

  /** There is one such exponent, and so one such mantissa. */
  lemma FixedUnique(mant: nat, x: int, mant': nat, x': int, n: nat, m: nat, e: int)
    requires FullMantissa(m) && FixedRounding(mant, x, n, m, e) && FixedRounding(mant', x', n, m, e)
    ensures mant == mant' && x == x'
  {
    hide Pow, RoundPow, FullMantissa;
    if x < x' {
      FixedFalls(m, e, n, x, x' - 1);
    } else if x' < x {
      FixedFalls(m, e, n, x', x - 1);
    }
  }

  /** It is the one first chosen or the next. */
  lemma FixedExponent(mant: nat, x: int, n: nat, m: nat, e: int)
    requires FullMantissa(m) && 0 - 1073 <= e <= 1024 && n >= 1 && FixedRounding(mant, x, n, m, e)
    ensures 1 + MulLog2Radix(e - 1, 10) <= x <= 2 + MulLog2Radix(e - 1, 10)
  {
    hide Pow, RoundPow, FullMantissa, MulLog2Radix, Bracket;
    LogBracket(10, e);
    var e0 := 1 + MulLog2Radix(e - 1, 10);
    FixedTrials(m, e, e0, n);
    FixedTrials(m, e, e0, n + 1);
    if FixedMantissa(m, e, n, e0) < Pow(10, n) {
      FixedUnique(mant, x, FixedMantissa(m, e, n, e0), e0, n, m, e);
    } else {
      FixedUnique(mant, x, FixedMantissa(m, e, n, e0 + 1), e0 + 1, n, m, e);
    }
  }

  /** The exponent is at least y exactly when d has more than n digits below y. */
  lemma FixedAtLeast(mant: nat, x: int, n: nat, m: nat, e: int, y: int)
    requires FullMantissa(m) && FixedRounding(mant, x, n, m, e)
    ensures x >= y <==> FixedMantissa(m, e, n, y - 1) >= Pow(10, n)
  {
    hide Pow, RoundPow, FullMantissa;
    if x >= y {
      FixedFalls(m, e, n, y - 1, x - 1);
    } else if FixedMantissa(m, e, n, y - 1) >= Pow(10, n) {
      FixedFalls(m, e, n, x, y - 1);
    }
  }

  /** Once the mantissa has more than n digits, it has them at every lower exponent. */
  lemma FixedFalls(m: nat, e: int, n: nat, x: int, y: int)
    requires FullMantissa(m) && x <= y && FixedMantissa(m, e, n, y) >= Pow(10, n)
    ensures FixedMantissa(m, e, n, x) >= Pow(10, n)
  {
    hide Pow, Near, ScaledValue, ValueOf, RoundPow;
    if x < y {
      var v := ValueOf(m, e);
      ValueOfTimes(m, e);
      ValueRange(m, e);
      PowPositive(10, n);
      RoundPowNear(m, e - 53, 10, n - y, NearestAway);
      RoundPowNear(m, e - 53, 10, n - x, NearestAway);
      LowerByOne(v, 10, n - y + 1);
      SmallerTrial(v, 10, n - y + 1, n - x);
      NearTenfold(FixedMantissa(m, e, n, y), ScaledValue(v, 10, n - y), FixedMantissa(m, e, n, x), ScaledValue(v, 10, n - x), Pow(10, n));
    }
  }

  lemma NearTenfold(q: nat, y: real, r: nat, z: real, p: nat)
    requires Near(q, y) && Near(r, z) && q >= p >= 1 && z >= Times(y, 10.0)
    ensures r >= p
  {}

  /** The fixed format: n significant digits, the exponent raised at most once. */
  method FixedDigits(tmp1: Mpb, mantMax: Mpb, m: u64, e: int, n: nat) returns (x: int)
    requires tmp1.tab.Length == LEN_MAX && mantMax.tab.Length == MANT_LEN_MAX
    requires tmp1 != mantMax && tmp1.tab != mantMax.tab
    requires Searchable(m, e, 10) && 1 <= n <= MAX_DIGITS
    modifies tmp1, tmp1.tab, mantMax, mantMax.tab
    ensures tmp1.Valid() && tmp1.Normalized() && FixedRounding(tmp1.Value(), x, n, m, e)
    ensures 1 + MulLog2Radix(e - 1, 10) <= x <= 2 + MulLog2Radix(e - 1, 10)
  {
    hide Val, Normal, Pow, Pow2, Bracket, RoundRoom, RoundPow, MulLog2Radix, FullMantissa, HasDigits;
    var e0 := 1 + MulLog2Radix(e - 1, 10);
    LogBracket(10, e);
    MantissaBelow(m);
    TenParts();
    FixedTrials(m, e, e0, n);
    FixedTrials(m, e, e0, n + 1);
    FixedRoom(m, e, e0, e0, n);
    FixedRoom(m, e, e0, e0 + 1, n);
    MantMax(mantMax, n);
    x := e0;
    MulPowRound(tmp1, m, e - 53, 5, 1, n - x, RNDNA);
    var c := tmp1.Cmp(mantMax);
    while c >= 0
      invariant e0 <= x <= e0 + 1 && tmp1.Valid() && tmp1.Normalized() && mantMax.Valid() && mantMax.Normalized()
      invariant mantMax.Value() == Pow(10, n) && tmp1.Value() == FixedMantissa(m, e, n, x)
      invariant FixedMantissa(m, e, n, x - 1) >= Pow(10, n)
      invariant tmp1.Value() >= Pow(10, n - 1) && (x == e0 + 1 ==> HasDigits(tmp1.Value(), 10, n))
      invariant c >= 0 <==> tmp1.Value() >= Pow(10, n)
      decreases e0 + 1 - x
    {
      if x == e0 + 1 {
        DigitsBelow(tmp1.Value(), 10, n);
        assert false;
      }
      x := x + 1;
      MulPowRound(tmp1, m, e - 53, 5, 1, n - x, RNDNA);
      DigitsBelow(tmp1.Value(), 10, n);
      c := tmp1.Cmp(mantMax);
    }
    FirstHasDigits(tmp1.Value(), n);
  }

  lemma DigitsBelow(v: nat, radix: nat, n: nat)
    requires HasDigits(v, radix, n)
    ensures Pow(radix, n - 1) <= v < Pow(radix, n)
  {}

  lemma FirstHasDigits(v: nat, n: nat)
    requires n >= 1 && Pow(10, n - 1) <= v < Pow(10, n)
    ensures HasDigits(v, 10, n)
  {}

  // ----- the fractional format

  /** q / 10^n in the usual notation, with n digits after the dot. */
  function DecimalText(q: nat, n: nat): string {
    PowPositive(10, n);
    NumberText(Quot(q, Pow(10, n)), 10) + if n == 0 then "" else "." + DigitString(Rem(q, Pow(10, n)), 10, n)
  }

  /** Drop a zero in front of another digit. */
  function Trim(s: string): string {
    if |s| >= 2 && s[0] == '0' && s[1] != '.' then s[1..] else s
  }

  /** The first of w digits. */
  lemma FirstDigit(h: nat, radix: nat, w: nat)
    requires IsRadix(radix) && w >= 1 && h < Pow(radix, w)
    ensures h < Pow(radix, w - 1) ==> DigitString(h, radix, w) == "0" + DigitString(h, radix, w - 1)
    ensures h >= Pow(radix, w - 1) ==> DigitString(h, radix, w)[0] != '0'
  {
    hide Pow, Quot, Rem, DigitString;
    PowPositive(radix, w - 1);
    NextPowerOf(radix, w - 1);
    var p := Pow(radix, w - 1);
    var q, r := Quot(h, p), Rem(h, p);
    DigitPieces(h, q, r, radix, 1, w - 1);
    MulCancel(q, radix, p);
    OneDigit(q, radix);
    DigitCharIs(q);
    if h < p {
      QuotUnique(h, p, 0, h);
    } else if q == 0 {
      assert false;
    }
  }

  lemma OneDigit(d: nat, radix: nat)
    requires IsRadix(radix) && d < radix
    ensures DigitString(d, radix, 1) == [DigitChar(d)]
  {
    hide Quot, Rem;
    QuotUnique(d, radix, 0, d);
    assert DigitString(0, radix, 0) + [DigitChar(d)] == [DigitChar(d)];
  }

  /** One digit too many on the left, trimmed, is the number in full. */
  lemma TrimmedNumber(h: nat, w: nat, tail: string)
    requires w >= 1 && h < Pow(10, w) && (w >= 2 ==> Pow(10, w - 2) <= h || w == 2)
    requires tail == "" || tail[0] == '.'
    ensures Trim(DigitString(h, 10, w) + tail) == NumberText(h, 10) + tail
  {
    hide Pow, DigitString, NumDigits;
    FirstDigit(h, 10, w);
    PowZeroth(10);
    var s := DigitString(h, 10, w);
    if w == 1 {
      NumDigitsUnique(h, 10, 1);
    } else if h < Pow(10, w - 1) {
      NumDigitsUnique(h, 10, w - 1);
      SecondIsDigit(h, 10, w - 1);
      assert (s + tail)[1..] == DigitString(h, 10, w - 1) + tail;
    } else {
      NumDigitsUnique(h, 10, w);
      assert (s + tail)[0] == s[0];
    }
  }

  lemma SecondIsDigit(h: nat, radix: nat, w: nat)
    requires IsRadix(radix) && w >= 1 && h < Pow(radix, w)
    ensures DigitString(h, radix, w)[0] != '.'
  {
    hide Pow, Quot, Rem, DigitString;
    PowPositive(radix, w - 1);
    NextPowerOf(radix, w - 1);
    var p := Pow(radix, w - 1);
    var q, r := Quot(h, p), Rem(h, p);
    DigitPieces(h, q, r, radix, 1, w - 1);
    MulCancel(q, radix, p);
    OneDigit(q, radix);
    DigitCharIs(q);
  }

  /** The digits with the dot, and the extra digit on the left gone. */
  lemma FracTrimmed(q: nat, n: nat, w: nat)
    requires w >= 1 && q < Pow(10, w + n) && (w >= 2 ==> Pow(10, w - 2 + n) <= q)
    ensures Trim(WithDot(DigitString(q, 10, w + n), w)) == DecimalText(q, n)
  {
    hide Pow, Quot, Rem, DigitString, NumberText;
    PowPositive(10, n);
    PowAdd(10, w, n);
    var p := Pow(10, n);
    var h, low := Quot(q, p), Rem(q, p);
    DigitPieces(q, h, low, 10, w, n);
    MulCancel(h, Pow(10, w), p);
    if w >= 2 {
      PowAdd(10, w - 2, n);
      MulCancel(Pow(10, w - 2), h + 1, p);
      Distribute(h, 1, p);
    }
    var s, t := DigitString(h, 10, w), DigitString(low, 10, n);
    if n == 0 {
      assert t == "";
      assert s + t == s && WithDot(s + t, w) == s + "";
      TrimmedNumber(h, w, "");
      assert NumberText(h, 10) + "" == NumberText(h, 10);
    } else {
      assert (s + t)[..w] == s && (s + t)[w..] == t;
      assert s + "." + t == s + ("." + t);
      TrimmedNumber(h, w, "." + t);
    }
  }

  /** The range of the rounded number: at most one digit fewer than printed. */
  lemma FracRange(m: nat, e: int, e0: int, n: nat)
    requires FullMantissa(m) && Bracket(10, e0, e)
    ensures var q, w := RoundPow(m, e - 53, 10, n, NearestAway), Max(e0 + 1, 1);
            q < Pow(10, w + n) && (w >= 2 ==> Pow(10, w - 2 + n) <= q)
  {
    var w: nat := Max(e0 + 1, 1);
    hide Pow, Near, ScaledValue, ValueOf, Bracket, FullMantissa, RoundPow, RPow;
    RoundPowNear(m, e - 53, 10, n, NearestAway);
    ValueOfTimes(m, e);
    var q, v := RoundPow(m, e - 53, 10, n, NearestAway), ValueOf(m, e);
    FirstRange(10, e0, m, e, e0 + n);
    RPowMonotone(10, e0 + n, w - 1 + n);
    RPowNat(10, w - 1 + n);
    NearAtMost(q, ScaledValue(v, 10, n), 2 * Pow(10, w - 1 + n));
    NextPowerOf(10, w - 1 + n);
    PowPositive(10, w - 1 + n);
    if w >= 2 {
      RPowNat(10, w - 2 + n);
      NearAtLeast(q, ScaledValue(v, 10, n), Pow(10, w - 2 + n));
    }
  }

  lemma FracRoom(m: nat, e: int, n: nat)
    requires FullMantissa(m) && 0 - 1073 <= e <= 1024 && n <= MAX_DIGITS
    ensures RoundRoom(m, e - 53, 5, 1, n, LEN_MAX)
  {
    hide RPow, Two, Times, Pow, Pow2, ValueOf, FullMantissa, RoundRoom, OddPart, Twos;
    ValueRange(m, e);
    TenPower(n);
    RPowNat(10, n);
    TwoNat(336);
    TimesOrder(ValueOf(m, e), Two(e), RPow(10, n));
    ScaledValueIs(ValueOf(m, e), 10, n);
    FracBound(e, RPow(10, n), ScaledValue(ValueOf(m, e), 10, n));
    MantissaBelow(m);
    TenParts();
    PrintRoom(m, e, 10, n);
  }

  lemma FracBound(e: int, r: real, x: real)
    requires 0 - 1073 <= e <= 1024 && 0.0 < r <= Two(336) && x < Times(Two(e), r)
    ensures Times(x, Two(Pos(53 - e))) < Two(1632)
  {
    hide Times, Two;
    TimesCommute(Two(e), r);
    TimesCommute(Two(e), Two(336));
    TimesOrder(r, Two(336), Two(e));
    TwoAdd(e, 336);
    TimesOrder(x, Two(e + 336), Two(Pos(53 - e)));
    TwoAdd(e + 336, Pos(53 - e));
    TwoMonotone(e + 336 + Pos(53 - e), 1632);
  }

  /** The fractional format: d rounded half away from zero to n digits after the
      dot, in the usual notation. */
  method FracDigits(tmp1: Mpb, m: u64, e: int, n: nat) returns (text: string)
    requires tmp1.tab.Length == LEN_MAX && Searchable(m, e, 10) && n <= MAX_DIGITS
    modifies tmp1, tmp1.tab
    ensures text == DecimalText(RoundPow(m, e - 53, 10, n, NearestAway), n)
  {
    hide Val, Normal, Pow, Pow2, Bracket, RoundRoom, RoundPow, MulLog2Radix, FullMantissa, DigitString, DecimalText;
    var e0 := 1 + MulLog2Radix(e - 1, 10);
    LogBracket(10, e);
    MantissaBelow(m);
    TenParts();
    FracRoom(m, e, n);
    FracRange(m, e, e0, n);
    MulPowRound(tmp1, m, e - 53, 5, 1, n, RNDNA);
    FracTrimmed(tmp1.Value(), n, Max(e0 + 1, 1));
    text := OutputDigits(tmp1, 10, Max(e0 + 1, 1) + n, Max(e0 + 1, 1));
    if |text| >= 2 && text[0] == '0' && text[1] != '.' {
      text := text[1..];
    }
  }
}

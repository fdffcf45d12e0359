/** js_dtoa_max_len (dtoa.c:1031-1081) against the texts that js_dtoa prints: when the
    bound holds, for every double, radix, format and mode. */
module DtoaLength {
  import opened Powers
  import opened Rounding
  import opened Float64
  import opened RadixTables
  import opened RadixLog
  import opened RealPow
  import opened DtoaScale
  import opened DtoaNearest
  import opened DtoaSearch
  import opened DtoaFree
  import opened DtoaText
  import opened DtoaFixed
  import opened Dtoa

  /** js_dtoa_max_len. */
  function MaxLen(a: u64, radix: nat, n: nat, fmt: Format, mode: ExpMode): int
    requires IsRadix(radix)
  {
    var e := ExpField(a) - 1023;
    if fmt != Frac then
      var digits := if fmt == Free then DtoaMaxDigits(radix) else n;
      if mode != ExpDisabled then Max(digits + 8, 9)
      else if ExpField(a) == 0x7ff then 9
      else Max(digits + 10 + Abs(MulLog2Radix(e - 1, radix)), 9)
    else if ExpField(a) == 0x7ff then 9
    else Max((if e < 0 then 1 else 2 + MulLog2Radix(e - 1, radix)) + 3 + n, 9)
  }

  // ----- the logarithm

  /** One power of two more is at most one digit more. */
  lemma LogSteps(a: int, radix: nat)
    requires IsRadix(radix)
    ensures MulLog2Radix(a, radix) <= MulLog2Radix(a + 1, radix) <= MulLog2Radix(a, radix) + 1
  {
    if PowerOfTwo(radix) {
      RadixBitsCorrect(radix);
      hide RadixBits;
      BinaryLogSteps(a, RadixBits(radix));
    } else {
      MultSmall(radix);
      hide Mult;
      TableLogSteps(a, Mult(radix));
    }
  }

  lemma BinaryLogSteps(a: int, b: nat)
    requires 1 <= b <= 5
    ensures var l, l1 := TruncDiv(if a < 0 then a - (b - 1) else a, b), TruncDiv(if a + 1 < 0 then a + 1 - (b - 1) else a + 1, b);
            l <= l1 <= l + 1
  {
    if b == 1 {} else if b == 2 {} else if b == 3 {} else if b == 4 {} else {}
  }

  lemma MultSmall(radix: nat)
    requires TableRadix(radix)
    ensures Mult(radix) <= UNIT
  {}

  lemma TableLogSteps(a: int, m: nat)
    requires m <= UNIT
    ensures a * m / UNIT <= (a + 1) * m / UNIT <= a * m / UNIT + 1
  {
    Distribute(a, 1, m);
    NextQuotient(a * m, m);
  }

  lemma NextQuotient(p: int, m: nat)
    requires m <= UNIT
    ensures p / UNIT <= (p + m) / UNIT <= p / UNIT + 1
  {}

  // ----- how many digits a subnormal double takes

  /** A number less than half a unit away from a subnormal double reads as it. */
  lemma SubnormalClose(y: real, m: nat, e: int, k: nat, b: nat, c: nat, gap: real)
    requires IsDouble(m, e, k) && 0 < k < TWO_52 && InUnits(y, b, c)
    requires Within(y, ValueOf(m, e), gap) && gap < Two(0 - 1074)
    ensures RoundMag(b, c, NearestEven) == k
  {
    hide RoundDiv, Times, Two, ValueOf, IsDouble, RoundMag, Grid;
    SubnormalUnits(m, e, k);
    var u := Two(1074);
    TwoAdd(0 - 1074, 1074);
    TwoNat(0);
    TimesOrder(gap, Two(0 - 1074), u);
    ScaledError(y, ValueOf(m, e), gap, u, Times(gap, u));
    var yu := Times(y, u);
    FloatConstants();
    Compare(TWO_53, yu, b, c);
    RoundMagSmall(b, c);
    RoundDivNear(b, c, NearestEven) by { NearestIs(NearestEven); }
    QuotientNear(b, c, RoundDiv(b, c, NearestEven), yu);
    SameInteger(RoundDiv(b, c, NearestEven), k, yu);
  }

  lemma SubnormalUnits(m: nat, e: int, k: nat)
    requires IsDouble(m, e, k) && 0 < k < TWO_52
    ensures Times(ValueOf(m, e), Two(1074)) == k as real
  {
    hide Times, Two;
    GridReal(m, e, k);
    assert Grid(k) == k;
    TimesAssoc(m as real, Two(e - 53), Two(1074));
    TwoAdd(e - 53, 1074);
  }

  lemma RoundMagSmall(b: nat, c: nat)
    requires c > 0 && b < TWO_53 * c
    ensures RoundMag(b, c, NearestEven) == RoundDiv(b, c, NearestEven)
  {
    hide RoundDiv;
  }

  lemma SameInteger(q: nat, k: nat, y: real)
    requires Near(q, y) && y - k as real + (y - k as real) < 1.0 && k as real - y + (k as real - y) < 1.0
    ensures q == k
  {}

  /** With a last digit worth less than a unit, a trial reads back. */
  lemma FineTrialWorks(m: nat, e: int, radix: nat, p: nat, x: int, k: nat)
    requires IsRadix(radix) && FullMantissa(m) && IsDouble(m, e, k) && 0 < k < TWO_52
    requires x == TrialExponent(m, e, radix, 1 + MulLog2Radix(e - 1, radix), p) && RPow(radix, x - p) < Two(0 - 1074)
    ensures TrialWorks(m, e, radix, p, k)
  {
    hide MulLog2Radix, TrialExponent, MantissaAt, Near, ScaledValue, ValueOf, IsDouble, DoubleOf, InUnits, Within, RPow, Two, RoundMag;
    var mant := MantissaAt(m, e, radix, p, x);
    MantissaNear(m, e, radix, p, x);
    BackError(mant, ValueOf(m, e), radix, p - x);
    var b, c := DoubleOfIs(mant, radix, x - p, NearestEven);
    SubnormalClose(ScaledValue(mant as real, radix, x - p), m, e, k, b, c, RPow(radix, x - p));
  }

  /** So the search stops soon: the last digit is worth at most a unit and a digit. */
  lemma SubnormalDigits(mant: nat, x: int, p: nat, radix: nat, m: nat, e: int, k: nat)
    requires Chosen(mant, x, p, radix, m, e, k) && p > 1 && IsDouble(m, e, k) && 0 < k < TWO_52
    ensures p - x <= MulLog2Radix(1074, radix) + 2
  {
    hide MulLog2Radix, MantissaAt, IsDouble, TrialWorks, AllWork, Prints, PowAtMost, RPow, Two, DtoaMaxDigits, MinExponent, MaxExponent;
    var e0 := 1 + MulLog2Radix(e - 1, radix);
    var x1 := TrialExponent(m, e, radix, e0, p - 1);
    if RPow(radix, x1 - (p - 1)) < Two(0 - 1074) {
      FineTrialWorks(m, e, radix, p - 1, x1, k);
    } else {
      CoarseDigit(radix, p - 1 - x1);
    }
  }

  lemma CoarseDigit(radix: nat, j: int)
    requires IsRadix(radix) && RPow(radix, 0 - j) >= Two(0 - 1074)
    ensures j <= MulLog2Radix(1074, radix)
  {
    hide MulLog2Radix, PowAtMost, RPow, Two, Times;
    var l := MulLog2Radix(1074, radix) + 1;
    if j >= l {
      MulLog2RadixCorrect(1074, radix);
      PowAtMostReal(radix, l, 1074);
      RPowMonotone(radix, l, j);
      RPowAdd(radix, 0 - j, j);
      RPowZero(radix);
      TwoAdd(0 - 1074, 1074);
      TwoNat(0);
      var r, q, s, t := RPow(radix, 0 - j), RPow(radix, j), Two(0 - 1074), Two(1074);
      TimesOrder(t, q, s);
      TimesCommute(q, s);
      TimesCommute(q, r);
      TimesCommute(t, s);
      TimesOrder(s, r, q);
      TimesCommute(s, q);
    }
  }

  // ----- the lengths

  /** How long a layout is. */
  lemma LayoutSize(ds: string, x: int, radix: nat, exponential: bool)
    requires |ds| >= 1 && 0 - 1100 <= x <= 1100
    ensures exponential ==> |Layout(ds, x, radix, exponential)| <= |ds| + 7
    ensures !exponential && x <= 0 ==> |Layout(ds, x, radix, exponential)| == 2 - x + |ds|
    ensures !exponential && x > 0 ==> |Layout(ds, x, radix, exponential)| <= Max(|ds| + 1, x)
  {
    hide NumberText, RadixBits;
    WrittenSmall(x - 1, radix);
    SmallNumberLength(Abs(WrittenExponent(x - 1, radix)));
  }

  /** The exponent printed is the one first chosen or the next. */
  predicate NearExponent(x: int, radix: nat, e: int)
    requires IsRadix(radix)
  {
    1 + MulLog2Radix(e - 1, radix) <= x <= 2 + MulLog2Radix(e - 1, radix)
  }

  /** In a normal double's plain layout: the exponent costs what the bound allows for it. */
  lemma PlainFits(ds: string, x: int, radix: nat, e: int, sign: nat)
    requires IsRadix(radix) && |ds| >= 1 && 0 - 1100 <= x <= 1100 && NearExponent(x, radix, e) && sign <= 1
    ensures sign + |Layout(ds, x, radix, false)| <= |ds| + 10 + Abs(MulLog2Radix(e - 2, radix))
  {
    hide MulLog2Radix, Layout;
    LogSteps(e - 2, radix);
    LayoutSize(ds, x, radix, false);
  }

  /** With an automatic or enforced exponent the length is that of the digits and 8. */
  lemma AutoFits(ds: string, x: int, radix: nat, mode: ExpMode, xMax: int, sign: nat, digits: nat)
    requires mode != ExpDisabled && 1 <= |ds| <= digits && 0 - 1100 <= x <= 1100 && sign <= 1 && xMax <= digits + 4
    ensures sign + |Layout(ds, x, radix, Exponential(mode, x, xMax))| <= digits + 8
  {
    hide Layout;
    LayoutSize(ds, x, radix, Exponential(mode, x, xMax));
  }

  /** The tables leave room for the digits of the smallest doubles. */
  lemma SubnormalRoom(radix: nat)
    requires IsRadix(radix)
    ensures MulLog2Radix(1074, radix) + 5 <= DtoaMaxDigits(radix) + 10 - MulLog2Radix(0 - 1024, radix)
    ensures 3 - MinExponent(radix) <= DtoaMaxDigits(radix) + 10 - MulLog2Radix(0 - 1024, radix)
    ensures MulLog2Radix(0 - 1024, radix) < 0 && 0 - 1075 <= MinExponent(radix) && MaxExponent(radix) <= 1024
  {
    hide RadixBits, Mult, DtoaMaxDigits, MinExponent, MaxExponent;
    LogRange(radix);
    if TableRadix(radix) {
      RoomTable(radix);
      RoomFloors(Mult(radix), DtoaMaxDigits(radix), 0 - MinExponent(radix));
    } else {
      RoomBinary(radix);
    }
  }

  lemma LogRange(radix: nat)
    requires IsRadix(radix)
    ensures 0 - 1075 <= MinExponent(radix) && MaxExponent(radix) <= 1024
  {}

  lemma RoomTable(radix: nat)
    requires TableRadix(radix)
    ensures 50 * Mult(radix) <= (DtoaMaxDigits(radix) + 5) * UNIT && Mult(radix) > 0
    ensures (0 - MinExponent(radix) - DtoaMaxDigits(radix) - 7) * UNIT <= 1024 * Mult(radix)
  {}

  lemma RoomFloors(m: nat, p: nat, x: int)
    requires 50 * m <= (p + 5) * UNIT && (x - p - 7) * UNIT <= 1024 * m && m > 0
    ensures 1074 * m / UNIT + (0 - 1024) * m / UNIT <= p + 5
    ensures (0 - 1024) * m / UNIT < 0 && (0 - 1024) * m / UNIT <= p + 7 - x
  {}

  lemma RoomBinary(radix: nat)
    requires PowerOfTwo(radix)
    ensures RadixBits(radix) >= 1
    ensures var b := RadixBits(radix);
            var l := TruncDiv(0 - 1024 - (b - 1), b);
            && TruncDiv(1074, b) + 5 <= DtoaMaxDigits(radix) + 10 - l
            && 3 - MinExponent(radix) <= DtoaMaxDigits(radix) + 10 - l && l < 0
  {
    BitsTable();
  }

  lemma TrialNearExponent(mant: nat, x: int, p: nat, radix: nat, m: nat, e: int, k: nat)
    requires Chosen(mant, x, p, radix, m, e, k)
    ensures IsRadix(radix) && NearExponent(x, radix, e)
  {
    hide MulLog2Radix, MantissaAt, TrialWorks, AllWork, Prints, DtoaMaxDigits, MinExponent, MaxExponent;
  }

  /** Free format, digit search: the bound holds, subnormal or not. */
  lemma FreeFits(mant: nat, x: int, p: nat, radix: nat, m: nat, e: int, k: nat, mode: ExpMode, sign: nat)
    requires Chosen(mant, x, p, radix, m, e, k) && IsDouble(m, e, k) && k > 0 && 0 - 1073 <= e <= 1024 && sign <= 1
    ensures mode != ExpDisabled ==> sign + |FreeLayout(mant, x, p, radix, mode)| <= DtoaMaxDigits(radix) + 8
    ensures mode == ExpDisabled ==>
      sign + |FreeLayout(mant, x, p, radix, mode)|
        <= DtoaMaxDigits(radix) + 10 + Abs(MulLog2Radix(if k < TWO_52 then 0 - 1024 else e - 2, radix))
  {
    ChosenIs(mant, x, p, radix, m, e, k);
    hide Chosen, Prints, IsDouble, MulLog2Radix, DtoaMaxDigits, MinExponent, MaxExponent, Layout, DigitString;
    SubnormalRoom(radix);
    TrialNearExponent(mant, x, p, radix, m, e, k);
    var ds := DigitString(mant, radix, p);
    if mode != ExpDisabled {
      AutoFits(ds, x, radix, mode, DtoaMaxDigits(radix) + 4, sign, DtoaMaxDigits(radix));
    } else if k < TWO_52 {
      LayoutSize(ds, x, radix, false);
      SmallLog(m, e, k, radix);
      if p > 1 { SubnormalDigits(mant, x, p, radix, m, e, k); }
    } else {
      PlainFits(ds, x, radix, e, sign);
    }
  }

  /** A subnormal double is printed with a non-positive exponent. */
  lemma SmallLog(m: nat, e: int, k: nat, radix: nat)
    requires IsRadix(radix) && IsDouble(m, e, k) && 0 < k < TWO_52 && 0 - 1073 <= e
    ensures e <= 0 - 1022 && 2 + MulLog2Radix(e - 1, radix) <= 0
  {
    SmallExponent(m, e, k);
    MultAtLeast(radix);
    hide Mult, RadixBits, IsDouble;
    if TableRadix(radix) {
      LogBelow(e - 1, Mult(radix));
    } else {
      BinaryLogBelow(e - 1, RadixBits(radix));
    }
  }

  lemma LogBelow(a: int, m: nat)
    requires a <= 0 - 1023 && m >= 0x30_0000
    ensures a * m / UNIT <= 0 - 2
  {
    MulMonotone(a, 0 - 1023, m);
    QuotientBelowTwo(a * m);
  }

  lemma QuotientBelowTwo(p: int)
    requires p <= 0 - 2 * UNIT
    ensures p / UNIT <= 0 - 2
  {}

  lemma BinaryLogBelow(a: int, b: nat)
    requires a <= 0 - 1023 && 1 <= b <= 5
    ensures TruncDiv(a - (b - 1), b) <= 0 - 2
  {
    if b == 1 {} else if b == 2 {} else if b == 3 {} else if b == 4 {} else {}
  }

  lemma SmallExponent(m: nat, e: int, k: nat)
    requires IsDouble(m, e, k) && 0 < k < TWO_52
    ensures e <= 0 - 1022
  {}

  lemma MultAtLeast(radix: nat)
    requires IsRadix(radix)
    ensures TableRadix(radix) ==> Mult(radix) >= 0x30_0000
    ensures PowerOfTwo(radix) ==> 1 <= RadixBits(radix) <= 5
  {}

  /** When the text keeps within js_dtoa_max_len. It does, but for two uses: the fixed
      format without exponents for doubles that round below 10^-318 (10^-317 when
      negative), and the fractional format with an enforced exponent for a zero of more
      than four digits and sign. */
  ghost predicate Bounded(a: u64, n: nat, fmt: Format, mode: ExpMode, minusZero: bool) {
    if fmt == Frac && mode == ExpEnabled && Index(a) == 0 then n + SignLength(Sign(a) && minusZero) <= 4
    else if fmt == Fixed && mode == ExpDisabled && 0 < Index(a) < TWO_52 then
      exists m: nat, e: int :: IsDouble(m, e, Index(a)) && FixedMantissa(m, e, n, SignLength(Sign(a)) - 318) >= Pow(10, n)
    else true
  }

  function SignLength(neg: bool): nat {
    if neg then 1 else 0
  }

  lemma ZeroLength(radix: nat, n: nat, fmt: Format, mode: ExpMode, neg: bool)
    requires IsRadix(radix) && ValidFormat(fmt, radix, n)
    ensures ZeroDigits(fmt, n) >= 1
    ensures var s := SignLength(neg) + |Layout(DigitString(0, radix, ZeroDigits(fmt, n)), 1, radix, mode == ExpEnabled)|;
            match fmt
            case Free => s <= 9
            case Fixed => s <= n + 8
            case Frac => s <= Max(n + 4, 9) <==> (mode == ExpEnabled ==> n + SignLength(neg) <= 4)
  {
    hide DigitString, MulLog2Radix;
    var ds := DigitString(0, radix, ZeroDigits(fmt, n));
    LayoutSize(ds, 1, radix, mode == ExpEnabled);
    if fmt == Frac { NumDigitsZero(10); }
  }

  lemma MagnitudeLength(body: string, a: u64, radix: nat, n: nat, fmt: Format, mode: ExpMode, minusZero: bool)
    requires IsRadix(radix) && ValidFormat(fmt, radix, n) && IsFinite(a) && Index(a) != 0
    requires MagnitudeText(body, Index(a), radix, n, fmt, mode)
    ensures SignLength(Sign(a)) + |body| <= MaxLen(a, radix, n, fmt, mode) <==> Bounded(a, n, fmt, mode, minusZero)
  {
    hide FreeText, FixedText, FracText, MaxLen, Bounded, Index, Sign;
    match fmt
    case Free =>
      FreeTextLength(body, a, radix, n, mode);
      BoundedElse(a, n, fmt, mode, minusZero);
    case Fixed => FixedTextLength(body, a, n, mode, minusZero);
    case Frac =>
      FracTextLength(body, a, n, mode);
      BoundedElse(a, n, fmt, mode, minusZero);
  }

  lemma BoundedElse(a: u64, n: nat, fmt: Format, mode: ExpMode, minusZero: bool)
    requires Index(a) != 0 && (fmt != Fixed || mode != ExpDisabled || Index(a) >= TWO_52)
    ensures Bounded(a, n, fmt, mode, minusZero)
  {}

  /** The biased exponent from which js_dtoa_max_len starts. */
  lemma FieldOf(a: u64, m: nat, e: int)
    requires IsFinite(a) && Index(a) != 0 && IsDouble(m, e, Index(a)) && FullMantissa(m)
    ensures ExpField(a) < 0x7ff
    ensures if Index(a) < TWO_52 then ExpField(a) == 0 && e <= 0 - 1022 else ExpField(a) == e + 1022
  {
    Fields(a);
    if Index(a) < TWO_52 { SmallExponent(m, e, Index(a)); } else { LargeExponent(m, e, Index(a)); }
  }

  lemma LargeExponent(m: nat, e: int, k: nat)
    requires IsDouble(m, e, k) && k >= TWO_52
    ensures e >= 0 - 1021 && k == (e + 1021) * TWO_52 + m && TWO_52 <= m < TWO_53
  {
    if e < 0 - 1021 {
      Pow2Next(0 - 1022 - e);
      var p := Pow2(0 - 1021 - e);
      assert p >= 2;
      hide Pow2;
      MulMonotone(TWO_52, k, p);
    }
  }

  lemma FreeTextLength(body: string, a: u64, radix: nat, n: nat, mode: ExpMode)
    requires IsRadix(radix) && IsFinite(a) && Index(a) != 0 && FreeText(body, Index(a), radix, mode)
    ensures SignLength(Sign(a)) + |body| <= MaxLen(a, radix, n, Free, mode)
  {
    var m: nat, e: int :| IsDouble(m, e, Index(a)) && FullMantissa(m) && 0 - 1073 <= e <= 1024
        && if SmallInteger(m, e) && mode != ExpEnabled then body == NumberText(ShiftRight(m, 53 - e), radix)
           else FreeDigitsText(body, m, e, Index(a), radix, mode);
    hide IsDouble, FullMantissa, NumberText, ShiftRight, ShiftedOut, FreeDigitsText, Index, Sign, ExpField, IsFinite, MaxLen;
    FieldOf(a, m, e);
    if SmallInteger(m, e) && mode != ExpEnabled {
      IntegerLength(m, e, Index(a), radix);
      ShortEnough(a, radix, n, mode, |body|);
    } else {
      FreeDigitsLength(body, a, m, e, radix, n, mode);
    }
  }

  lemma ShortEnough(a: u64, radix: nat, n: nat, mode: ExpMode, length: nat)
    requires IsRadix(radix) && ExpField(a) < 0x7ff && length <= DtoaMaxDigits(radix)
    ensures SignLength(Sign(a)) + length <= MaxLen(a, radix, n, Free, mode)
  {
    hide DtoaMaxDigits, MulLog2Radix, Sign, ExpField;
  }

  lemma MaxLenFree(a: u64, radix: nat, n: nat, mode: ExpMode)
    requires IsRadix(radix) && ExpField(a) < 0x7ff
    ensures if mode != ExpDisabled then MaxLen(a, radix, n, Free, mode) >= DtoaMaxDigits(radix) + 8
            else MaxLen(a, radix, n, Free, mode) >= DtoaMaxDigits(radix) + 10 + Abs(MulLog2Radix(ExpField(a) - 1024, radix))
  {
    hide DtoaMaxDigits, MulLog2Radix, ExpField, Abs;
  }

  lemma FreeDigitsLength(body: string, a: u64, m: nat, e: int, radix: nat, n: nat, mode: ExpMode)
    requires IsRadix(radix) && Index(a) > 0 && IsDouble(m, e, Index(a)) && 0 - 1073 <= e <= 1024 && ExpField(a) < 0x7ff
    requires if Index(a) < TWO_52 then ExpField(a) == 0 else ExpField(a) == e + 1022
    requires FreeDigitsText(body, m, e, Index(a), radix, mode)
    ensures SignLength(Sign(a)) + |body| <= MaxLen(a, radix, n, Free, mode)
  {
    var mant: nat, x: int, p: nat :| Chosen(mant, x, p, radix, m, e, Index(a)) && body == FreeLayout(mant, x, p, radix, mode);
    hide IsDouble, DtoaMaxDigits, MulLog2Radix, Chosen, FreeLayout, Index, Sign, ExpField, MaxLen, Abs;
    MaxLenFree(a, radix, n, mode);
    assert (if Index(a) < TWO_52 then 0 - 1024 else e - 2) == ExpField(a) - 1024;
    FreeFits(mant, x, p, radix, m, e, Index(a), mode, SignLength(Sign(a)));
  }

  lemma FixedTextLength(body: string, a: u64, n: nat, mode: ExpMode, minusZero: bool)
    requires IsFinite(a) && Index(a) != 0 && 1 <= n <= MAX_DIGITS && FixedText(body, Index(a), n, mode)
    ensures SignLength(Sign(a)) + |body| <= MaxLen(a, 10, n, Fixed, mode) <==> Bounded(a, n, Fixed, mode, minusZero)
  {
    var m: nat, e: int, mant: nat, x: int :|
      && IsDouble(m, e, Index(a)) && FullMantissa(m) && 0 - 1073 <= e <= 1024 && FixedRounding(mant, x, n, m, e)
      && body == Layout(DigitString(mant, 10, n), x, 10, Exponential(mode, x, n));
    hide IsDouble, FullMantissa, FixedRounding, DigitString, Layout, MaxLen, Bounded, Index, Sign, ExpField, IsFinite, MulLog2Radix;
    FieldOf(a, m, e);
    FixedExponent(mant, x, n, m, e);
    ExponentModerate(e);
    if mode != ExpDisabled || Index(a) >= TWO_52 {
      FixedShort(DigitString(mant, 10, n), a, e, x, n, mode);
      BoundedElse(a, n, Fixed, mode, minusZero);
    } else {
      SmallLog(m, e, Index(a), 10);
      FixedLong(DigitString(mant, 10, n), a, m, e, mant, x, n, minusZero);
    }
  }

  lemma FixedShort(ds: string, a: u64, e: int, x: int, n: nat, mode: ExpMode)
    requires |ds| == n && n >= 1 && 0 - 1100 <= x <= 1100 && NearExponent(x, 10, e)
    requires mode != ExpDisabled || (Index(a) >= TWO_52 && ExpField(a) == e + 1022 < 0x7ff)
    ensures SignLength(Sign(a)) + |Layout(ds, x, 10, Exponential(mode, x, n))| <= MaxLen(a, 10, n, Fixed, mode)
  {
    hide Layout, MulLog2Radix, Index, Sign, ExpField;
    if mode != ExpDisabled {
      AutoFits(ds, x, 10, mode, n, SignLength(Sign(a)), n);
    } else {
      PlainFits(ds, x, 10, e, SignLength(Sign(a)));
    }
  }

  lemma FixedLong(ds: string, a: u64, m: nat, e: int, mant: nat, x: int, n: nat, minusZero: bool)
    requires |ds| == n && n >= 1 && 0 - 1100 <= x <= 0 && 0 < Index(a) < TWO_52 && ExpField(a) == 0
    requires FullMantissa(m) && IsDouble(m, e, Index(a)) && FixedRounding(mant, x, n, m, e)
    ensures SignLength(Sign(a)) + |Layout(ds, x, 10, false)| <= MaxLen(a, 10, n, Fixed, ExpDisabled)
            <==> Bounded(a, n, Fixed, ExpDisabled, minusZero)
  {
    hide IsDouble, FullMantissa, FixedRounding, Layout, Bounded, Index, Sign, ExpField, FixedMantissa, Pow, MulLog2Radix;
    LayoutSize(ds, x, 10, false);
    FixedAtLeast(mant, x, n, m, e, SignLength(Sign(a)) - 317);
    LeastLog();
    SameMantissa(a, m, e, n, minusZero);
  }

  lemma ExponentModerate(e: int)
    requires 0 - 1073 <= e <= 1024
    ensures 0 - 1000 <= MulLog2Radix(e - 1, 10) <= 1000
  {}

  lemma LeastLog()
    ensures MulLog2Radix(0 - 1024, 10) == 0 - 309
  {}

  lemma SameMantissa(a: u64, m: nat, e: int, n: nat, minusZero: bool)
    requires 0 < Index(a) < TWO_52 && IsDouble(m, e, Index(a))
    ensures Bounded(a, n, Fixed, ExpDisabled, minusZero) <==> FixedMantissa(m, e, n, SignLength(Sign(a)) - 318) >= Pow(10, n)
  {
    hide IsDouble, FixedMantissa, Pow, Index, Sign;
    if Bounded(a, n, Fixed, ExpDisabled, minusZero) {
      var m': nat, e': int :| IsDouble(m', e', Index(a)) && FixedMantissa(m', e', n, SignLength(Sign(a)) - 318) >= Pow(10, n);
      DoubleUnique(m, e, Index(a), m', e', Index(a));
    }
  }

  lemma FracTextLength(body: string, a: u64, n: nat, mode: ExpMode)
    requires IsFinite(a) && Index(a) != 0 && n <= MAX_DIGITS && FracText(body, Index(a), n)
    ensures SignLength(Sign(a)) + |body| <= MaxLen(a, 10, n, Frac, mode)
  {
    var k := Index(a);
    var m: nat, e: int :| IsDouble(m, e, k) && FullMantissa(m) && 0 - 1073 <= e <= 1024
      && body == DecimalText(RoundPow(m, e - 53, 10, n, NearestAway), n);
    hide IsDouble, FullMantissa, RoundPow, DecimalText, MulLog2Radix, Index, Sign, ExpField, Bracket, Pow;
    FieldOf(a, m, e);
    LogBracket(10, e);
    var e0 := 1 + MulLog2Radix(e - 1, 10);
    FracRange(m, e, e0, n);
    DecimalLength(RoundPow(m, e - 53, 10, n, NearestAway), n, Max(e0 + 1, 1));
    LogSteps(e - 2, 10);
    LogSign(e);
  }

  lemma LogSign(e: int)
    ensures e <= 0 ==> MulLog2Radix(e - 1, 10) <= 0 - 1
    ensures e >= 1 ==> MulLog2Radix(e - 1, 10) >= 0 && MulLog2Radix(e - 2, 10) >= 0 - 1
  {}

  /** A number with w digits before the dot. */
  lemma DecimalLength(q: nat, n: nat, w: nat)
    requires w >= 1 && q < Pow(10, w + n)
    ensures |DecimalText(q, n)| <= w + if n == 0 then 0 else n + 1
  {
    hide Pow, Quot, Rem, NumDigits, DigitString;
    PowPositive(10, n);
    PowAdd(10, w, n);
    var h := Quot(q, Pow(10, n));
    MulCancel(h, Pow(10, w), Pow(10, n));
    NumDigitsRange(h, 10);
    NumDigitsZero(10);
    if NumDigits(h, 10) > w {
      PowMonotone(10, w, NumDigits(h, 10) - 1);
    }
  }

  /** js_dtoa_max_len bounds the length of what js_dtoa prints, exactly then. */
  lemma TextLength(text: string, a: u64, radix: nat, n: nat, fmt: Format, mode: ExpMode, minusZero: bool)
    requires IsRadix(radix) && ValidFormat(fmt, radix, n) && Printed(text, a, radix, n, fmt, mode, minusZero)
    ensures |text| <= MaxLen(a, radix, n, fmt, mode) <==> Bounded(a, n, fmt, mode, minusZero)
  {
    hide MulLog2Radix, DtoaMaxDigits, Layout, DigitString, MagnitudeText, IsDouble, FixedMantissa, Pow, Sign, ExpField, MantField,
      ZeroDigits, ValidFormat;
    Classify(a);
    if IsNaN(a) || !IsFinite(a) {
    } else if Index(a) == 0 {
      ZeroLength(radix, n, fmt, mode, Sign(a) && minusZero);
    } else {
      var body: string :| text == SignText(Sign(a)) + body && MagnitudeText(body, Index(a), radix, n, fmt, mode);
      MagnitudeLength(body, a, radix, n, fmt, mode, minusZero);
    }
  }

  /** The smallest double in the fixed format without an exponent: 323 zeros after the
      dot, where the bound has room for 317. */
  lemma SmallestTooLong(text: string, n: nat)
    requires 1 <= n <= MAX_DIGITS && Printed(text, 1, 10, n, Fixed, ExpDisabled, false)
    ensures |text| > MaxLen(1, 10, n, Fixed, ExpDisabled)
  {
    hide Bounded, Printed, MaxLen, FixedMantissa, Pow;
    TextLength(text, 1, 10, n, Fixed, ExpDisabled, false);
    SmallestMantissa();
    SameMantissa(1, TWO_52, 0 - 1073, n, false);
    SmallestBelow(n);
  }

  lemma SmallestMantissa()
    ensures IsDouble(TWO_52, 0 - 1073, 1) && FullMantissa(TWO_52) && Index(1) == 1 && !Sign(1)
  {
    Pow2Constants();
    assert Pow2(52) == TWO_52;
  }

  /** 2^-1074 rounds to fewer digits there: its exponent is below -317. */
  lemma SmallestBelow(n: nat)
    requires n >= 1
    ensures FixedMantissa(TWO_52, 0 - 1073, n, 0 - 318) < Pow(10, n)
  {
    hide Pow, RoundPow, Bracket, MulLog2Radix, FixedMantissa;
    SmallestMantissa();
    var m, e := TWO_52, 0 - 1073;
    LogBracket(10, e);
    SmallestLog();
    FixedTrials(m, e, 0 - 323, n);
    if FixedMantissa(m, e, n, 0 - 318) >= Pow(10, n) {
      FixedFalls(m, e, n, 0 - 322, 0 - 318);
      FixedFalls(m, e, n, 0 - 323, 0 - 318);
    }
  }

  lemma SmallestLog()
    ensures 1 + MulLog2Radix(0 - 1074, 10) == 0 - 323
  {}
}

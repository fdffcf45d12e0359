/** js_dtoa (dtoa.c:1107-1318): a double as text, in free, fixed or fractional
    format. */
module Dtoa {
  import opened Powers
  import opened Rounding
  import opened Float64
  import opened Limbs
  import opened BigNum
  import opened RadixTables
  import opened RadixLog
  import opened DtoaScale
  import opened DtoaNearest
  import opened DtoaSearch
  import opened DtoaRoom
  import opened DtoaFree
  import opened DtoaText
  import opened DtoaFixed

  datatype Format = Free | Fixed | Frac
  datatype ExpMode = ExpAuto | ExpEnabled | ExpDisabled

  // ----- the layouts

  function Zeros(n: nat): string {
    seq(n, _ => '0')
  }

  /** The letter before the exponent; p counts powers of two instead of the radix. */
  function ExponentLetter(radix: nat): char {
    if radix == 10 then 'e' else if PowerOfTwo(radix) && RadixBits(radix) <= 4 then 'p' else '@'
  }

  function WrittenExponent(x: int, radix: nat): int {
    if ExponentLetter(radix) == 'p' && PowerOfTwo(radix) then x * RadixBits(radix) else x
  }

  function ExponentText(x: int, radix: nat): string {
    var v := WrittenExponent(x, radix);
    [ExponentLetter(radix)] + (if v < 0 then "-" else "+") + NumberText(Abs(v), 10)
  }

  /** The number 0.ds * radix^x in one of the three layouts. */
  function Layout(ds: string, x: int, radix: nat, exponential: bool): string
    requires |ds| >= 1
  {
    if exponential then WithDot(ds, 1) + ExponentText(x - 1, radix)
    else if x <= 0 then "0." + Zeros(0 - x) + ds
    else WithDot(ds, Min(|ds|, x)) + Zeros(Pos(x - |ds|))
  }

  predicate Exponential(mode: ExpMode, x: int, xMax: int) {
    mode == ExpEnabled || (mode == ExpAuto && (x <= -6 || x > xMax))
  }

  /** The exponent part as js_dtoa writes it. */
  method WriteExponent(x0: int, radix: nat) returns (text: string)
    requires IsRadix(radix)
    ensures text == ExponentText(x0, radix)
  {
    hide NumDigits, DigitString, RadixBits;
    var x := x0;
    text := "";
    if radix == 10 {
      text := text + "e";
    } else if OddPart(radix) == 1 && Twos(radix) <= 4 {
      RadixParts(radix);
      x := x * Twos(radix);
      text := text + "p";
    } else {
      RadixParts(radix);
      text := text + "@";
    }
    if x < 0 {
      text := text + "-";
      x := 0 - x;
    } else {
      text := text + "+";
    }
    var digits := WholeText(x, 10);
    text := text + digits;
  }

  /** The output part: the digits of tmp1 in the layout that fits. */
  method WriteNumber(tmp1: Mpb, radix: nat, p: nat, x: int, mode: ExpMode, xMax: int) returns (text: string)
    requires tmp1.Valid() && tmp1.Normalized() && IsRadix(radix) && p >= 1
    modifies tmp1, tmp1.tab
    ensures text == Layout(DigitString(old(tmp1.Value()), radix, p), x, radix, Exponential(mode, x, xMax))
  {
    hide Val, Normal, DigitString, ExponentText;
    if Exponential(mode, x, xMax) {
      text := OutputDigits(tmp1, radix, p, 1);
      var expo := WriteExponent(x - 1, radix);
      text := text + expo;
    } else if x <= 0 {
      text := "0.";
      var i := 0;
      while i < 0 - x
        invariant 0 <= i <= 0 - x && text == "0." + Zeros(i)
      {
        assert Zeros(i + 1) == Zeros(i) + "0";
        text := text + "0";
        i := i + 1;
      }
      var digits := OutputDigits(tmp1, radix, p, p);
      text := text + digits;
    } else {
      text := OutputDigits(tmp1, radix, p, Min(p, x));
      ghost var digits := text;
      var i := 0;
      assert text == digits + Zeros(0);
      while i < x - p
        invariant 0 <= i <= Pos(x - p) && text == digits + Zeros(i)
      {
        assert Zeros(i + 1) == Zeros(i) + "0";
        assert digits + Zeros(i) + "0" == digits + (Zeros(i) + "0");
        text := text + "0";
        i := i + 1;
      }
    }
  }

  // ----- taking the double apart

  /** The mantissa and exponent of a finite double other than zero: subnormal ones
      shifted up to a full mantissa. */
  method Unpack(a: u64) returns (m: u64, e: int)
    requires IsFinite(a) && Index(a) != 0
    ensures IsDouble(m, e, Index(a)) && FullMantissa(m) && 0 - 1073 <= e <= 1024
  {
    hide Pow2, BitLen;
    FloatConstants();
    Fields(a);
    e := ExpField(a);
    m := MantField(a);
    if e == 0 {
      SubnormalShift(m);
      var l := 53 - BitLen(m);
      e := e - (l - 1);
      m := m * Pow2(l);
    } else {
      m := m + TWO_52;
    }
    e := e - 1022;
  }

  /** The double is an integer of at most 53 bits. */
  predicate SmallInteger(m: nat, e: int) {
    1 <= e <= 53 && ShiftedOut(m, 53 - e) == 0
  }

  lemma SmallIntegerValue(m: nat, e: int, k: nat)
    requires IsDouble(m, e, k) && k > 0 && SmallInteger(m, e)
    ensures Grid(k) == ShiftRight(m, 53 - e) * Pow2(1074)
    ensures 0 < ShiftRight(m, 53 - e) < TWO_53
  {
    NormalGaps(m, e, k);
    FloatConstants();
    hide Grid, ShiftRight, ShiftedOut, Pow2;
    var v, s := ShiftRight(m, 53 - e), 53 - e;
    assert m == v * Pow2(s);
    Pow2Add(s, e + 1021);
    MulAssoc(v, Pow2(s), Pow2(e + 1021));
    if v == 0 { assert false; }
    MulMonotone(1, Pow2(s), v);
  }

  // ----- free format

  /** The digits chosen for a double in free format: they read back, one digit less
      does not, and the text is theirs. */
  ghost predicate FreeDigitsText(text: string, m: nat, e: int, k: nat, radix: nat, mode: ExpMode) {
    exists mant: nat, x: int, p: nat :: Chosen(mant, x, p, radix, m, e, k) && text == FreeLayout(mant, x, p, radix, mode)
  }

  function FreeLayout(mant: nat, x: int, p: nat, radix: nat, mode: ExpMode): string
    requires IsRadix(radix) && p >= 1
  {
    Layout(DigitString(mant, radix, p), x, radix, Exponential(mode, x, DtoaMaxDigits(radix) + 4))
  }

  /** What js_dtoa prints for the magnitude of a finite double other than zero. */
  ghost predicate FreeText(text: string, k: nat, radix: nat, mode: ExpMode) {
    && IsRadix(radix)
    && exists m: nat, e: int ::
         && IsDouble(m, e, k) && FullMantissa(m) && 0 - 1073 <= e <= 1024
         && if SmallInteger(m, e) && mode != ExpEnabled then text == NumberText(ShiftRight(m, 53 - e), radix)
            else FreeDigitsText(text, m, e, k, radix, mode)
  }

  function SignText(neg: bool): string {
    if neg then "-" else ""
  }

  /** The free-format branch, fast path for integers included. */
  method WriteFree(tmp1: Mpb, m: u64, e: int, radix: nat, mode: ExpMode, ghost k: nat) returns (text: string)
    requires tmp1.tab.Length == LEN_MAX && Searchable(m, e, radix) && IsDouble(m, e, k) && k > 0
    modifies tmp1, tmp1.tab
    ensures FreeText(text, k, radix, mode)
  {
    hide Val, Normal, NumberText, Layout, Chosen, IsDouble, DtoaMaxDigits, MinExponent, MaxExponent, ShiftRight, ShiftedOut;
    if SmallInteger(m, e) && mode != ExpEnabled {
      SmallIntegerValue(m, e, k);
      FloatConstants();
      text := U64toaRadix(ShiftRight(m, 53 - e), radix);
    } else {
      var mant, x, p := FreeDigits(tmp1, m, e, radix, k);
      ChosenIs(mant, x, p, radix, m, e, k);
      text := WriteNumber(tmp1, radix, p, x, mode, DtoaMaxDigits(radix) + 4);
    }
  }

  // ----- the other formats

  /** What js_dtoa prints with n significant digits: those of d rounded half away
      from zero. */
  ghost predicate FixedText(text: string, k: nat, n: nat, mode: ExpMode) {
    exists m: nat, e: int, mant: nat, x: int ::
      && IsDouble(m, e, k) && FullMantissa(m) && 0 - 1073 <= e <= 1024 && FixedRounding(mant, x, n, m, e)
      && text == Layout(DigitString(mant, 10, n), x, 10, Exponential(mode, x, n))
  }

  /** What js_dtoa prints with n digits after the dot. */
  ghost predicate FracText(text: string, k: nat, n: nat) {
    exists m: nat, e: int ::
      && IsDouble(m, e, k) && FullMantissa(m) && 0 - 1073 <= e <= 1024
      && text == DecimalText(RoundPow(m, e - 53, 10, n, NearestAway), n)
  }

  /** The digits printed for zero. */
  function ZeroDigits(fmt: Format, n: nat): nat {
    match fmt
    case Free => 1
    case Fixed => n
    case Frac => n + 1
  }

  predicate ValidFormat(fmt: Format, radix: nat, n: nat) {
    match fmt
    case Free => true
    case Fixed => radix == 10 && 1 <= n <= MAX_DIGITS
    case Frac => radix == 10 && n <= MAX_DIGITS
  }

  ghost predicate MagnitudeText(text: string, k: nat, radix: nat, n: nat, fmt: Format, mode: ExpMode) {
    match fmt
    case Free => FreeText(text, k, radix, mode)
    case Fixed => FixedText(text, k, n, mode)
    case Frac => FracText(text, k, n)
  }

  /** What js_dtoa prints. */
  ghost predicate Printed(text: string, a: u64, radix: nat, n: nat, fmt: Format, mode: ExpMode, minusZero: bool)
    requires IsRadix(radix) && ValidFormat(fmt, radix, n)
  {
    if IsNaN(a) then text == "NaN"
    else if !IsFinite(a) then text == SignText(Sign(a)) + "Infinity"
    else if Index(a) == 0 then
      text == SignText(Sign(a) && minusZero) + Layout(DigitString(0, radix, ZeroDigits(fmt, n)), 1, radix, mode == ExpEnabled)
    else
      exists body: string :: text == SignText(Sign(a)) + body && MagnitudeText(body, Index(a), radix, n, fmt, mode)
  }

  /** What is printed is determined: one text for each double, format and mode. */
  lemma PrintedUnique(text: string, text': string, a: u64, radix: nat, n: nat, fmt: Format, mode: ExpMode, minusZero: bool)
    requires IsRadix(radix) && ValidFormat(fmt, radix, n)
    requires Printed(text, a, radix, n, fmt, mode, minusZero) && Printed(text', a, radix, n, fmt, mode, minusZero)
    ensures text == text'
  {
    hide Layout, DigitString, MagnitudeText, ZeroDigits, ValidFormat;
    if !IsNaN(a) && IsFinite(a) && Index(a) != 0 {
      var body: string :| text == SignText(Sign(a)) + body && MagnitudeText(body, Index(a), radix, n, fmt, mode);
      var body': string :| text' == SignText(Sign(a)) + body' && MagnitudeText(body', Index(a), radix, n, fmt, mode);
      MagnitudeUnique(body, body', Index(a), radix, n, fmt, mode);
    }
  }

  lemma MagnitudeUnique(text: string, text': string, k: nat, radix: nat, n: nat, fmt: Format, mode: ExpMode)
    requires k != 0 && MagnitudeText(text, k, radix, n, fmt, mode) && MagnitudeText(text', k, radix, n, fmt, mode)
    ensures text == text'
  {
    hide FreeText, FixedText, FracText;
    match fmt
    case Free => FreeUnique(text, text', k, radix, mode);
    case Fixed => FixedTextUnique(text, text', k, n, mode);
    case Frac => FracTextUnique(text, text', k, n);
  }

  lemma FreeUnique(text: string, text': string, k: nat, radix: nat, mode: ExpMode)
    requires k != 0 && FreeText(text, k, radix, mode) && FreeText(text', k, radix, mode)
    ensures text == text'
  {
    hide FreeDigitsText, IsDouble, NumberText, ShiftRight, ShiftedOut;
    var m: nat, e: int :| IsDouble(m, e, k) && FullMantissa(m) && 0 - 1073 <= e <= 1024
        && if SmallInteger(m, e) && mode != ExpEnabled then text == NumberText(ShiftRight(m, 53 - e), radix)
           else FreeDigitsText(text, m, e, k, radix, mode);
    var m': nat, e': int :| IsDouble(m', e', k) && FullMantissa(m') && 0 - 1073 <= e' <= 1024
        && if SmallInteger(m', e') && mode != ExpEnabled then text' == NumberText(ShiftRight(m', 53 - e'), radix)
           else FreeDigitsText(text', m', e', k, radix, mode);
    DoubleUnique(m, e, k, m', e', k);
    if !SmallInteger(m, e) || mode == ExpEnabled {
      FreeDigitsUnique(text, text', m, e, k, radix, mode);
    }
  }

  lemma FreeDigitsUnique(text: string, text': string, m: nat, e: int, k: nat, radix: nat, mode: ExpMode)
    requires FreeDigitsText(text, m, e, k, radix, mode) && FreeDigitsText(text', m, e, k, radix, mode)
    ensures text == text'
  {
    var mant: nat, x: int, p: nat :| Chosen(mant, x, p, radix, m, e, k) && text == FreeLayout(mant, x, p, radix, mode);
    var mant': nat, x': int, p': nat :| Chosen(mant', x', p', radix, m, e, k) && text' == FreeLayout(mant', x', p', radix, mode);
    hide Chosen, FreeLayout;
    ChosenUnique(mant, x, p, mant', x', p', radix, m, e, k);
  }

  lemma FixedTextUnique(text: string, text': string, k: nat, n: nat, mode: ExpMode)
    requires k != 0 && FixedText(text, k, n, mode) && FixedText(text', k, n, mode)
    ensures text == text'
  {
    var m: nat, e: int, mant: nat, x: int :|
      && IsDouble(m, e, k) && FullMantissa(m) && 0 - 1073 <= e <= 1024 && FixedRounding(mant, x, n, m, e)
      && text == Layout(DigitString(mant, 10, n), x, 10, Exponential(mode, x, n));
    var m': nat, e': int, mant': nat, x': int :|
      && IsDouble(m', e', k) && FullMantissa(m') && 0 - 1073 <= e' <= 1024 && FixedRounding(mant', x', n, m', e')
      && text' == Layout(DigitString(mant', 10, n), x', 10, Exponential(mode, x', n));
    hide Layout, DigitString, IsDouble, FixedRounding, FullMantissa;
    DoubleUnique(m, e, k, m', e', k);
    FixedUnique(mant, x, mant', x', n, m, e);
  }

  lemma FracTextUnique(text: string, text': string, k: nat, n: nat)
    requires k != 0 && FracText(text, k, n) && FracText(text', k, n)
    ensures text == text'
  {
    hide DecimalText, IsDouble, RoundPow, FullMantissa;
    var m: nat, e: int :| IsDouble(m, e, k) && FullMantissa(m) && 0 - 1073 <= e <= 1024
      && text == DecimalText(RoundPow(m, e - 53, 10, n, NearestAway), n);
    var m': nat, e': int :| IsDouble(m', e', k) && FullMantissa(m') && 0 - 1073 <= e' <= 1024
      && text' == DecimalText(RoundPow(m', e' - 53, 10, n, NearestAway), n);
    DoubleUnique(m, e, k, m', e', k);
  }

  /** js_dtoa. */
  method JsDtoa(a: u64, radix: nat, n: nat, fmt: Format, mode: ExpMode, minusZero: bool, tmp1: Mpb, mantMax: Mpb)
    returns (text: string)
    requires IsRadix(radix) && ValidFormat(fmt, radix, n)
    requires tmp1.tab.Length == LEN_MAX && mantMax.tab.Length == MANT_LEN_MAX && tmp1 != mantMax && tmp1.tab != mantMax.tab
    modifies tmp1, tmp1.tab, mantMax, mantMax.tab
    ensures Printed(text, a, radix, n, fmt, mode, minusZero)
  {
    hide Val, Normal, Layout, DigitString, FreeText, FixedText, FracText, IsDouble, FullMantissa, DtoaMaxDigits;
    Classify(a);
    if ExpField(a) == 0x7ff {
      if MantField(a) == 0 {
        text := SignText(Sign(a)) + "Infinity";
      } else {
        text := "NaN";
      }
    } else if ExpField(a) == 0 && MantField(a) == 0 {
      tmp1.len := 1;
      tmp1.tab[0] := 0;
      assert tmp1.tab[..tmp1.len] == [0];
      OneLimb(0);
      var body := WriteNumber(tmp1, radix, ZeroDigits(fmt, n), 1, mode, if fmt == Fixed then n else DtoaMaxDigits(radix) + 4);
      text := SignText(Sign(a) && minusZero) + body;
    } else {
      var m, e := Unpack(a);
      var body := WriteMagnitude(tmp1, mantMax, m, e, radix, n, fmt, mode, Index(a));
      text := SignText(Sign(a)) + body;
    }
  }

  method WriteMagnitude(tmp1: Mpb, mantMax: Mpb, m: u64, e: int, radix: nat, n: nat, fmt: Format, mode: ExpMode, ghost k: nat)
    returns (text: string)
    requires IsRadix(radix) && ValidFormat(fmt, radix, n)
    requires tmp1.tab.Length == LEN_MAX && mantMax.tab.Length == MANT_LEN_MAX && tmp1 != mantMax && tmp1.tab != mantMax.tab
    requires IsDouble(m, e, k) && FullMantissa(m) && 0 - 1073 <= e <= 1024 && k > 0
    modifies tmp1, tmp1.tab, mantMax, mantMax.tab
    ensures MagnitudeText(text, k, radix, n, fmt, mode)
  {
    hide Val, Normal, Layout, DigitString, FreeText, DecimalText, RoundPow, IsDouble, FullMantissa, FixedRounding;
    SearchableIs(m, e, radix);
    match fmt
    case Free =>
      text := WriteFree(tmp1, m, e, radix, mode, k);
    case Frac =>
      text := FracDigits(tmp1, m, e, n);
    case Fixed =>
      var x := FixedDigits(tmp1, mantMax, m, e, n);
      text := WriteNumber(tmp1, 10, n, x, mode, n);
  }

  // ----- how long the parts are

  lemma WrittenSmall(x: int, radix: nat)
    requires 0 - 1200 <= x <= 1200
    ensures 0 - 6000 <= WrittenExponent(x, radix) <= 6000
  {
    hide RadixBits;
    if PowerOfTwo(radix) {
      RadixBitsCorrect(radix);
      FiveTimesAny(x, RadixBits(radix));
    }
  }

  lemma SmallNumberLength(v: nat)
    requires v <= 6000
    ensures |NumberText(v, 10)| <= 4
  {
    assert Pow(10, 4) == 10000;
    hide Pow, DigitString, NumDigits;
    NumDigitsRange(v, 10);
    if NumDigits(v, 10) > 4 {
      PowMonotone(10, 4, NumDigits(v, 10) - 1);
      assert false;
    }
  }

  /** An integer below 2^53 has no more digits than the search starts with. */
  lemma IntegerLength(m: nat, e: int, k: nat, radix: nat)
    requires IsRadix(radix) && IsDouble(m, e, k) && k > 0 && SmallInteger(m, e)
    ensures |NumberText(ShiftRight(m, 53 - e), radix)| <= DtoaMaxDigits(radix)
  {
    hide DigitString, NumDigits, Pow, Pow2, Grid, IsDouble, ShiftRight, ShiftedOut, DtoaMaxDigits;
    SmallIntegerValue(m, e, k);
    DtoaDigits(radix);
    FloatConstants();
    Pow2Constants();
    var v := ShiftRight(m, 53 - e);
    NumDigitsRange(v, radix);
    if NumDigits(v, radix) > DtoaMaxDigits(radix) {
      PowMonotone(radix, DtoaMaxDigits(radix) - 1, NumDigits(v, radix) - 1);
      assert false;
    }
  }
}

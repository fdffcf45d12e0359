/** What js_dtoa prints, from the text back to the number: its digits, where they stand,
    when there is an exponent and what it says. A printed number is an integer v of p
    digits and an exponent x, and stands for v * radix^(x - p), which lies between
    radix^(x - 1) and radix^x. */
module DtoaLaws {
  import opened Powers
  import opened Rounding
  import opened Float64
  import opened RadixTables
  import opened RadixLog
  import opened RealPow
  import opened DtoaScale
  import opened DtoaNearest
  import opened DtoaSearch
  import opened DtoaFree
  import opened DtoaText
  import opened DtoaFixed
  import opened Dtoa
  import opened AtodLex
  import opened NearestReals
  import opened RoundTrip

  // ----- digits and exponents as text

  /** Digits are written in lower case. */
  lemma DigitsWritten(d: nat)
    requires d < 36
    ensures d < 10 ==> DigitChar(d) as int == '0' as int + d
    ensures d >= 10 ==> DigitChar(d) as int == 'a' as int + (d - 10)
  {}

  /** ds are the digits of v, the most significant first, in lower case. */
  ghost predicate Writes(ds: string, v: nat, radix: nat) {
    && radix <= 36
    && (forall i :: 0 <= i < |ds| ==> ToDigit(ds[i]) < radix && !('A' <= ds[i] <= 'Z'))
    && DigitsValue(seq(|ds|, i requires 0 <= i < |ds| => ToDigit(ds[i])), radix) == v
  }

  /** 255 in radix 16 is "ff". */
  lemma WritesExample()
    ensures DigitString(255, 16, 2) == "ff" && Writes("ff", 255, 16)
  {
    QuotUnique(255, 16, 15, 15);
    QuotUnique(15, 16, 0, 15);
    assert DigitString(15, 16, 1) == DigitString(0, 16, 0) + ['f'];
    var s := seq(2, i requires 0 <= i < 2 => ToDigit("ff"[i]));
    assert s[..1] == [15] && s[1] == 15 && [15][..0] == [];
  }

  lemma DigitStringWrites(v: nat, radix: nat, n: nat)
    requires IsRadix(radix) && v < Pow(radix, n)
    ensures Writes(DigitString(v, radix, n), v, radix)
  {
    hide Pow, DigitString, DigitsOf, DigitsValue;
    DigitStringSpells(v, radix, n);
    LowerCase(v, radix, n);
    DigitsOfValue(v, radix, n);
    var ds := DigitString(v, radix, n);
    assert seq(|ds|, i requires 0 <= i < |ds| => ToDigit(ds[i])) == DigitsOf(v, radix, n);
  }

  /** The exponent: 'e' in radix 10, 'p' and a power of two in radix 2, 4, 8 and 16, '@'
      in the others; a sign; decimal digits without a leading zero. */
  lemma ExponentWritten(x: int, radix: nat) returns (w: nat, ds: string)
    requires IsRadix(radix)
    ensures ExponentText(x, radix) ==
      [if radix == 10 then 'e' else if radix in {2, 4, 8, 16} then 'p' else '@'] + (if x < 0 then "-" else "+") + ds
    ensures w == Abs(x) * (if radix == 4 then 2 else if radix == 8 then 3 else if radix == 16 then 4 else 1)
    ensures Writes(ds, w, 10) && |ds| >= 1 && (|ds| > 1 ==> ds[0] != '0')
  {
    hide DigitString, NumDigits, RadixBits, Writes;
    BitsTable();
    var v := WrittenExponent(x, radix);
    w := Abs(v);
    ds := NumberText(w, 10);
    NumberWrites(w, 10);
  }

  lemma NumberWrites(v: nat, radix: nat)
    requires IsRadix(radix)
    ensures var ds := NumberText(v, radix); Writes(ds, v, radix) && |ds| >= 1 && (|ds| > 1 ==> ds[0] != '0')
    ensures v > 0 ==> HasDigits(v, radix, |NumberText(v, radix)|) && NumberText(v, radix)[0] != '0'
  {
    NumDigitsRange(v, radix);
    DigitStringWrites(v, radix, NumDigits(v, radix));
    hide Pow, DigitString, NumDigits, Writes;
    if v > 0 {
      LeadingText(v, radix, NumDigits(v, radix));
    } else {
      NumDigitsZero(radix);
    }
  }

  // ----- the layouts

  /** The text of the digits ds with the exponent x: with an exponent, one digit in front
      of the dot; without, all of them where they belong, a dot only between digits. */
  lemma LayoutWritten(ds: string, x: int, radix: nat, exponential: bool)
    requires |ds| >= 1 && IsRadix(radix)
    ensures var p := |ds|; var text := Layout(ds, x, radix, exponential);
            && (exponential && p == 1 ==> text == ds + ExponentText(x - 1, radix))
            && (exponential && p > 1 ==> text == ds[..1] + "." + ds[1..] + ExponentText(x - 1, radix))
            && (!exponential && x <= 0 ==> text == "0." + seq(0 - x, _ => '0') + ds)
            && (!exponential && 0 < x < p ==> text == ds[..x] + "." + ds[x..])
            && (!exponential && x >= p ==> text == ds + seq(x - p, _ => '0'))
  {
    hide ExponentText;
    if !exponential && 0 < x < |ds| {
      assert ds[..x] + "." + ds[x..] + Zeros(0) == ds[..x] + "." + ds[x..];
    }
  }

  /** The letter of the exponent tells whether there is one. */
  lemma LetterTells(v: nat, p: nat, x: int, radix: nat, exponential: bool)
    requires IsRadix(radix) && p >= 1
    ensures ExponentLetter(radix) in Layout(DigitString(v, radix, p), x, radix, exponential) <==> exponential
  {
    hide DigitString, RadixBits;
    var ds := DigitString(v, radix, p);
    LayoutWritten(ds, x, radix, exponential);
    DigitStringSpells(v, radix, p);
    NoLetter(ds, radix);
    if exponential {
      var text := Layout(ds, x, radix, exponential);
      assert ExponentText(x - 1, radix)[0] == ExponentLetter(radix);
      assert text[if p == 1 then 1 else p + 1] == ExponentLetter(radix);
    }
  }

  lemma NoLetter(ds: string, radix: nat)
    requires IsRadix(radix) && forall i :: 0 <= i < |ds| ==> ToDigit(ds[i]) < radix
    ensures ExponentLetter(radix) !in ds
    ensures ExponentLetter(radix) != '.' && ExponentLetter(radix) != '0' && ExponentLetter(radix) != '-'
  {
    LetterIsNoDigit(radix);
  }

  lemma LetterIsNoDigit(radix: nat)
    requires IsRadix(radix)
    ensures ToDigit(ExponentLetter(radix)) >= radix
    ensures ExponentLetter(radix) != '.' && ExponentLetter(radix) != '0' && ExponentLetter(radix) != '-'
  {
    LetterEnds(radix, "");
  }

  // ----- which layout

  /** The number v * radix^(x - p). */
  ghost function NumberOf(v: nat, x: int, p: int, radix: nat): real
    requires radix >= 1
  {
    v as real * RPow(radix, x - p)
  }

  lemma NumberRange(v: nat, x: int, p: nat, radix: nat)
    requires radix >= 1 && HasDigits(v, radix, p)
    ensures RPow(radix, x - 1) <= NumberOf(v, x, p, radix) < RPow(radix, x)
  {
    HasDigitsAtLeast(v, radix, p);
    DigitsBelow(v, radix, p);
    RPowNat(radix, p - 1);
    RPowNat(radix, p);
    RPowAdd(radix, p - 1, x - p);
    RPowAdd(radix, p, x - p);
    hide RPow, Pow, HasDigits;
    var u := RPow(radix, x - p);
    TimesOrder(Pow(radix, p - 1) as real, v as real, u);
    TimesOrder(v as real, Pow(radix, p) as real, u);
  }

  lemma RPowOrder(radix: nat, x: int, y: int, n: real)
    requires radix >= 1 && RPow(radix, x - 1) <= n < RPow(radix, x)
    ensures x <= y <==> n < RPow(radix, y)
  {
    hide RPow;
    if x <= y { RPowMonotone(radix, x, y); } else { RPowMonotone(radix, y, x - 1); }
  }

  /** The mode decides when a number has an exponent: always, never, or below radix^-6 and
      from radix^limit on. */
  ghost predicate HasExponent(mode: ExpMode, y: real, radix: nat, limit: int)
    requires radix >= 1
  {
    match mode
    case ExpEnabled => true
    case ExpDisabled => false
    case ExpAuto => y < RPow(radix, 0 - 6) || y >= RPow(radix, limit)
  }

  lemma WhenExponential(v: nat, x: int, p: nat, radix: nat, mode: ExpMode, limit: int)
    requires radix >= 1 && HasDigits(v, radix, p)
    ensures Exponential(mode, x, limit) <==> HasExponent(mode, NumberOf(v, x, p, radix), radix, limit)
  {
    hide RPow, NumberOf, HasDigits;
    NumberRange(v, x, p, radix);
    RPowOrder(radix, x, 0 - 6, NumberOf(v, x, p, radix));
    RPowOrder(radix, x, limit, NumberOf(v, x, p, radix));
  }

  // ----- as few digits as the search finds

  /** c is the double k rounded to q digits, at the exponent y: one place further down
      there are more than q digits. That number does not read back. */
  ghost predicate FailsWith(c: nat, above: nat, y: int, q: nat, radix: nat, k: nat)
    requires radix >= 1
  {
    && HasDigits(c, radix, q) && Near(c, Times(DoubleReal(k), RPow(radix, q - y)))
    && above >= Pow(radix, q) && Near(above, Times(DoubleReal(k), RPow(radix, q - y + 1)))
    && !NearestReal(NumberOf(c, y, q, radix), k)
  }

  /** v are the digits of the double k rounded to p places, the last not zero, and
      rounded to one place less it does not read back. */
  ghost predicate Shortest(v: nat, x: int, p: nat, radix: nat, k: nat)
    requires radix >= 1
  {
    && v % radix != 0 && Near(v, Times(DoubleReal(k), RPow(radix, p - x)))
    && (p > 1 ==> FewerFail(p - 1, radix, k))
  }

  ghost predicate FewerFail(q: nat, radix: nat, k: nat)
    requires radix >= 1
  {
    exists c: nat, above: nat, y: int :: FailsWith(c, above, y, q, radix, k)
  }

  /** The digits that the search settles on are such. */
  lemma ChosenShortest(v: nat, x: int, p: nat, radix: nat, m: nat, e: int, k: nat)
    requires IsRadix(radix) && Chosen(v, x, p, radix, m, e, k) && IsDouble(m, e, k) && 0 < k < INFINITY && Searchable(m, e, radix)
    ensures Shortest(v, x, p, radix, k)
  {
    hide IsDouble, DoubleReal, RPow, Times, Near, Pow, MantissaAt, TrialExponent, HasDigits, DoubleOf, NumberOf, NearestReal, ValueOf,
      ScaledValue, MulLog2Radix, DtoaMaxDigits, AllWork, IsTrial, Searchable, FailsWith;
    DoubleRealOf(m, e, k);
    ScaledValueIs(ValueOf(m, e), radix, p - x);
    if p > 1 {
      var q := p - 1;
      var y := TrialExponent(m, e, radix, 1 + MulLog2Radix(e - 1, radix), q);
      assert DoubleOf(MantissaAt(m, e, radix, q, y), radix, y - q, NearestEven) != k;
      var above := TrialFailed(m, e, k, radix, q, y);
    }
  }

  lemma TrialFailed(m: nat, e: int, k: nat, radix: nat, q: nat, y: int) returns (above: nat)
    requires Searchable(m, e, radix) && IsDouble(m, e, k) && 0 < k < INFINITY && 1 <= q < DtoaMaxDigits(radix)
    requires y == TrialExponent(m, e, radix, 1 + MulLog2Radix(e - 1, radix), q)
    requires DoubleOf(MantissaAt(m, e, radix, q, y), radix, y - q, NearestEven) != k
    ensures FailsWith(MantissaAt(m, e, radix, q, y), above, y, q, radix, k)
  {
    hide *;
    SearchableIs(m, e, radix);
    RadixPositive(radix);
    LogBracket(radix, e);
    DoubleRealOf(m, e, k);
    var e0 := 1 + MulLog2Radix(e - 1, radix);
    TrialAt(m, e, radix, e0, q, y);
    if y == e0 {
      FirstTrialIs(m, e, radix, e0, q);
    } else {
      SecondTrialIs(m, e, radix, e0, q);
    }
    above := MantissaAt(m, e, radix, q, y - 1);
    ScaledValueIs(ValueOf(m, e), radix, q - y);
    ScaledValueIs(ValueOf(m, e), radix, q - y + 1);
    TrialUnread(MantissaAt(m, e, radix, q, y), above, y, q, radix, k);
  }

  lemma RadixPositive(radix: nat)
    requires IsRadix(radix)
    ensures radix >= 1
  {}

  lemma TrialAt(m: nat, e: int, radix: nat, e0: int, q: nat, y: int)
    requires radix >= 1 && y == TrialExponent(m, e, radix, e0, q)
    ensures y == e0 ==> MantissaAt(m, e, radix, q, e0) < Pow(radix, q)
    ensures y != e0 ==> y == e0 + 1 && MantissaAt(m, e, radix, q, e0) >= Pow(radix, q)
  {
    hide MantissaAt, Pow;
  }

  lemma TrialUnread(c: nat, above: nat, y: int, q: nat, radix: nat, k: nat)
    requires radix >= 1 && HasDigits(c, radix, q) && Near(c, Times(DoubleReal(k), RPow(radix, q - y)))
    requires above >= Pow(radix, q) && Near(above, Times(DoubleReal(k), RPow(radix, q - y + 1)))
    requires DoubleOf(c, radix, y - q, NearestEven) != k && k < INFINITY
    ensures FailsWith(c, above, y, q, radix, k)
  {
    hide HasDigits, Near, Times, DoubleReal, RPow, Pow, DoubleOf, NearestReal, NumberOf;
    if NearestReal(NumberOf(c, y, q, radix), k) {
      ReadsOnly(c, radix, y, q, k);
    }
  }

  lemma FirstTrialIs(m: nat, e: int, radix: nat, e0: int, q: nat)
    requires Searchable(m, e, radix) && Bracket(radix, e0, e) && 1 <= q <= DtoaMaxDigits(radix)
    requires MantissaAt(m, e, radix, q, e0) < Pow(radix, q)
    ensures HasDigits(MantissaAt(m, e, radix, q, e0), radix, q)
    ensures Near(MantissaAt(m, e, radix, q, e0), ScaledValue(ValueOf(m, e), radix, q - e0))
    ensures Near(MantissaAt(m, e, radix, q, e0 - 1), ScaledValue(ValueOf(m, e), radix, q - (e0 - 1)))
    ensures MantissaAt(m, e, radix, q, e0 - 1) >= Pow(radix, q)
  {
    hide *;
    FirstTrial(m, e, radix, e0, q);
    SearchableIs(m, e, radix);
    RadixPositive(radix);
    CandidateBelow(MantissaAt(m, e, radix, q, e0), e0, m, e, radix, q);
    MantissaNear(m, e, radix, q, e0 - 1);
    FirstRange(radix, e0, m, e, q + 1);
    RPowNat(radix, q);
    NearAtLeast(MantissaAt(m, e, radix, q, e0 - 1), ScaledValue(ValueOf(m, e), radix, q - (e0 - 1)), Pow(radix, q));
  }

  lemma SecondTrialIs(m: nat, e: int, radix: nat, e0: int, q: nat)
    requires Searchable(m, e, radix) && Bracket(radix, e0, e) && q >= 1 && MantissaAt(m, e, radix, q, e0) >= Pow(radix, q)
    ensures HasDigits(MantissaAt(m, e, radix, q, e0 + 1), radix, q)
    ensures Near(MantissaAt(m, e, radix, q, e0 + 1), ScaledValue(ValueOf(m, e), radix, q - (e0 + 1)))
    ensures Near(MantissaAt(m, e, radix, q, e0), ScaledValue(ValueOf(m, e), radix, q - e0))
  {
    hide *;
    SearchableIs(m, e, radix);
    RadixPositive(radix);
    SecondTrial(m, e, radix, e0, q);
    CandidateBelow(MantissaAt(m, e, radix, q, e0 + 1), e0 + 1, m, e, radix, q);
    MantissaNear(m, e, radix, q, e0);
  }

  /** Reading back as k is being nearest to k. */
  lemma ReadsOnly(c: nat, radix: nat, y: int, q: int, k: nat)
    requires radix >= 1 && NearestReal(NumberOf(c, y, q, radix), k) && k < INFINITY
    ensures DoubleOf(c, radix, y - q, NearestEven) == k
  {
    hide RPow, NearestReal, DoubleOf, NearestTo;
    NearestToReal(c, radix, y - q, 0);
    RPowZero(2);
    TimesOne(Times(c as real, RPow(radix, y - q)));
    TimesPlain(c as real, RPow(radix, y - q));
    var k' := DoubleOf(c, radix, y - q, NearestEven);
    NearestUnique(NumberOf(c, y, q, radix), k, if k' < INFINITY then k' else INFINITY);
  }

  // ----- the free format

  /** Free format: the number printed is one that the double k is nearest to, in as few
      digits as the search finds, or in full if it is an integer below 2^53. There is an
      exponent if the mode asks for it, or, left to itself, for numbers below radix^-6 and
      from radix^(P + 4) on, where P digits are the fewest for which radix^(P - 1) is at
      least 2^53. */
  lemma FreeWritten(text: string, k: nat, radix: nat, mode: ExpMode) returns (v: nat, x: int, ds: string, e: bool)
    requires 0 < k < INFINITY && FreeText(text, k, radix, mode)
    ensures |ds| >= 1 && ds[0] != '0' && Writes(ds, v, radix)
    ensures NearestReal(NumberOf(v, x, |ds|, radix), k)
    ensures Shortest(v, x, |ds|, radix, k) || (mode != ExpEnabled && x == |ds| && v < Pow2(53))
    ensures text == Layout(ds, x, radix, e) && (ExponentLetter(radix) in text <==> e)
    ensures e <==> HasExponent(mode, NumberOf(v, x, |ds|, radix), radix, DtoaMaxDigits(radix) + 4)
  {
    var m: nat, f: int :| IsDouble(m, f, k) && FullMantissa(m) && 0 - 1073 <= f <= 1024
        && if SmallInteger(m, f) && mode != ExpEnabled then text == NumberText(ShiftRight(m, 53 - f), radix)
           else FreeDigitsText(text, m, f, k, radix, mode);
    hide Layout, DigitString, Writes, FreeDigitsText, IsDouble, ShiftRight, ShiftedOut, NumDigits, HasDigits,
      DtoaMaxDigits, NearestReal, RPow, Pow, Pow2, NumberOf, ExponentLetter, HasExponent, Shortest;
    if SmallInteger(m, f) && mode != ExpEnabled {
      v, e := ShiftRight(m, 53 - f), false;
      x := IntegerWritten(m, f, k, radix, mode);
      ds := DigitString(v, radix, x);
      NumberWritten(v, x, x, radix, e, k);
      IntegerBelow(m, f, k);
    } else {
      v, x, ds, e := ChosenWritten(text, m, f, k, radix, mode);
    }
  }

  /** The digits of a number that reads as k, in either layout. */
  lemma NumberWritten(v: nat, x: int, p: nat, radix: nat, e: bool, k: nat)
    requires IsRadix(radix) && HasDigits(v, radix, p) && DoubleOf(v, radix, x - p, NearestEven) == k < INFINITY
    ensures var ds := DigitString(v, radix, p);
            && |ds| == p >= 1 && ds[0] != '0' && Writes(ds, v, radix)
            && NearestReal(NumberOf(v, x, p, radix), k)
            && (ExponentLetter(radix) in Layout(ds, x, radix, e) <==> e)
  {
    hide Layout, DigitString, Writes, HasDigits, NearestReal, Pow, Pow2, DoubleOf, ExponentLetter;
    LeadingText(v, radix, p);
    DigitsBelow(v, radix, p);
    HasDigitsAtLeast(v, radix, p);
    DigitStringWrites(v, radix, p);
    LetterTells(v, p, x, radix, e);
    ReadsNearest(v, radix, x, p, k);
  }

  lemma IntegerBelow(m: nat, f: int, k: nat)
    requires IsDouble(m, f, k) && k > 0 && SmallInteger(m, f)
    ensures ShiftRight(m, 53 - f) < Pow2(53)
  {
    hide IsDouble, ShiftRight, ShiftedOut, Grid, Pow2;
    SmallIntegerValue(m, f, k);
    FloatConstants();
    Pow2Constants();
  }

  lemma ChosenWritten(text: string, m: nat, f: int, k: nat, radix: nat, mode: ExpMode)
    returns (v: nat, x: int, ds: string, e: bool)
    requires IsRadix(radix) && 0 < k < INFINITY && FreeDigitsText(text, m, f, k, radix, mode)
    requires IsDouble(m, f, k) && FullMantissa(m) && 0 - 1073 <= f <= 1024
    ensures |ds| >= 1 && ds[0] != '0' && Writes(ds, v, radix)
    ensures NearestReal(NumberOf(v, x, |ds|, radix), k) && Shortest(v, x, |ds|, radix, k)
    ensures text == Layout(ds, x, radix, e) && (ExponentLetter(radix) in text <==> e)
    ensures e <==> HasExponent(mode, NumberOf(v, x, |ds|, radix), radix, DtoaMaxDigits(radix) + 4)
  {
    var v0: nat, x0: int, p: nat :| Chosen(v0, x0, p, radix, m, f, k) && text == FreeLayout(v0, x0, p, radix, mode);
    hide Layout, DigitString, Writes, Prints, Chosen, DoubleOf, HasDigits, DtoaMaxDigits, MinExponent, MaxExponent,
      NearestReal, RPow, Pow, Pow2, NumberOf, Exponential, ExponentLetter, HasExponent, Shortest, IsDouble, Searchable, FullMantissa;
    v, x := v0, x0;
    ChosenIs(v, x, p, radix, m, f, k);
    PrintsReads(v, x, p, radix, m, f, k);
    e := Exponential(mode, x, DtoaMaxDigits(radix) + 4);
    ds := DigitString(v, radix, p);
    WhenExponential(v, x, p, radix, mode, DtoaMaxDigits(radix) + 4);
    SearchableIs(m, f, radix);
    ChosenShortest(v, x, p, radix, m, f, k);
    NumberWritten(v, x, p, radix, e, k);
  }

  /** The fast path prints an integer below 2^53 in full. */
  lemma IntegerWritten(m: nat, f: int, k: nat, radix: nat, mode: ExpMode) returns (x: nat)
    requires IsRadix(radix) && IsDouble(m, f, k) && k > 0 && SmallInteger(m, f) && mode != ExpEnabled
    ensures var v := ShiftRight(m, 53 - f);
            && HasDigits(v, radix, x) && DoubleOf(v, radix, x - x, NearestEven) == k
            && NumberText(v, radix) == Layout(DigitString(v, radix, x), x, radix, false)
            && !HasExponent(mode, NumberOf(v, x, x, radix), radix, DtoaMaxDigits(radix) + 4)
  {
    hide IsDouble, ShiftRight, ShiftedOut, Grid, Pow, Pow2, NumDigits, DigitString, DoubleOf, DtoaMaxDigits, RPow, HasDigits, Writes;
    var v := ShiftRight(m, 53 - f);
    SmallIntegerValue(m, f, k);
    NumberWrites(v, radix);
    x := NumDigits(v, radix);
    IntegerDouble(v, k, radix);
    IntegerLength(m, f, k, radix);
    LayoutWritten(DigitString(v, radix, x), x, radix, false);
    assert DigitString(v, radix, x) + seq(0, _ => '0') == DigitString(v, radix, x);
    NumberRange(v, x, x, radix);
    RPowOrder(radix, x, 0 - 6, NumberOf(v, x, x, radix));
    RPowOrder(radix, x, DtoaMaxDigits(radix) + 4, NumberOf(v, x, x, radix));
  }

  /** DoubleOf is the nearest double. */
  lemma ReadsNearest(v: nat, radix: nat, x: int, p: int, k: nat)
    requires radix >= 1 && DoubleOf(v, radix, x - p, NearestEven) == k < INFINITY
    ensures NearestReal(NumberOf(v, x, p, radix), k)
  {
    hide RPow, NearestReal, DoubleOf, NearestTo;
    NearestToReal(v, radix, x - p, 0);
    RPowZero(2);
    TimesOne(Times(v as real, RPow(radix, x - p)));
    TimesPlain(v as real, RPow(radix, x - p));
  }

  // ----- the fixed and the fractional format

  lemma TimesPlain(x: real, y: real)
    ensures Times(x, y) == x * y
  {}

  /** q is x rounded to an integer, half a unit up. */
  ghost predicate HalfUp(q: nat, x: real) {
    x + x - 1.0 < (2 * q) as real <= x + x + 1.0
  }

  lemma RoundPowHalfUp(m: nat, e: int, k: nat, f: int)
    requires IsDouble(m, e, k) && k > 0 && 0 - 1073 <= e
    ensures HalfUp(RoundPow(m, e - 53, 10, f, NearestAway), Times(DoubleReal(k), RPow(10, f)))
  {
    hide IsDouble, DoubleReal, RPow, RoundPow, RoundDiv, ValueOf, Pow, Pow2, Times;
    DoubleRealOf(m, e, k);
    var b, c := RoundPowIs(m, e - 53, 10, f, NearestAway);
    ValueOfTimes(m, e);
    var y, q := ScaledValue(ValueOf(m, e), 10, f), RoundPow(m, e - 53, 10, f, NearestAway);
    ScaledValueIs(ValueOf(m, e), 10, f);
    RoundDivNear(b, c, NearestAway);
    RoundDivUp(b, c);
    QuotientNear(b, c, q, y);
    StrictlyUp(b, c, q, y);
  }

  lemma RoundDivUp(n: nat, d: nat)
    requires d > 0
    ensures 2 * n - d < 2 * RoundDiv(n, d, NearestAway) * d
  {
    hide RoundDiv;
    var q, r := Divide(n, d);
    RoundDivChar(n, d, NearestAway, q, r);
    Distribute(q, 1, d);
    MulAssoc(2, q, d);
    MulAssoc(2, q + 1, d);
  }

  lemma StrictlyUp(n: nat, d: nat, q: nat, x: real)
    requires d > 0 && 2 * n - d < 2 * q * d && n as real == Times(x, d as real)
    ensures x + x - 1.0 < (2 * q) as real
  {
    hide Times;
    var dr := d as real;
    TimesCast(2 * q, d);
    TimesDistribute(x, x, dr);
    TimesDistribute(x + x, 1.0, dr);
    TimesOne(dr);
    TimesOrder(x + x - 1.0, (2 * q) as real, dr);
  }

  /** Fixed format: n digits, those of the double at the exponent x, rounded half up; the
      same rule for the exponent, with radix^n as the limit. */
  lemma FixedWritten(text: string, k: nat, n: nat, mode: ExpMode) returns (v: nat, x: int, ds: string, e: bool)
    requires 0 < k < INFINITY && 1 <= n && FixedText(text, k, n, mode)
    ensures |ds| == n && ds[0] != '0' && Writes(ds, v, 10)
    ensures HalfUp(v, Times(DoubleReal(k), RPow(10, n - x)))
    ensures text == Layout(ds, x, 10, e) && ('e' in text <==> e)
    ensures e <==> HasExponent(mode, NumberOf(v, x, n, 10), 10, n)
  {
    var m: nat, f: int, mant: nat, xx: int :|
      && IsDouble(m, f, k) && FullMantissa(m) && 0 - 1073 <= f <= 1024 && FixedRounding(mant, xx, n, m, f)
      && text == Layout(DigitString(mant, 10, n), xx, 10, Exponential(mode, xx, n));
    RadixTen();
    hide *;
    v, x := mant, xx;
    ds, e := FixedNumber(v, x, n, m, f, k, mode);
  }

  lemma FixedNumber(v: nat, x: int, n: nat, m: nat, f: int, k: nat, mode: ExpMode) returns (ds: string, e: bool)
    requires IsDouble(m, f, k) && k > 0 && 0 - 1073 <= f && FixedRounding(v, x, n, m, f)
    ensures ds == DigitString(v, 10, n) && e == Exponential(mode, x, n)
    ensures |ds| == n && n >= 1 && ds[0] != '0' && Writes(ds, v, 10)
    ensures HalfUp(v, Times(DoubleReal(k), RPow(10, n - x)))
    ensures 'e' in Layout(ds, x, 10, e) <==> e
    ensures e <==> HasExponent(mode, NumberOf(v, x, n, 10), 10, n)
  {
    RadixTen();
    hide Layout, DigitString, Writes, IsDouble, FullMantissa, FixedRounding, RoundPow, Pow, HalfUp, DoubleReal, RPow, HasDigits,
      Exponential, NumberOf, HasExponent;
    ds, e := DigitString(v, 10, n), Exponential(mode, x, n);
    FixedIs(v, x, n, m, f);
    LetterOfTen();
    HasDigitsAtLeast(v, 10, n);
    LeadingText(v, 10, n);
    DigitsBelow(v, 10, n);
    DigitStringWrites(v, 10, n);
    LetterTells(v, n, x, 10, e);
    RoundPowHalfUp(m, f, k, n - x);
    WhenExponential(v, x, n, 10, mode, n);
  }

  lemma FixedIs(v: nat, x: int, n: nat, m: nat, e: int)
    requires FixedRounding(v, x, n, m, e)
    ensures HasDigits(v, 10, n) && v == RoundPow(m, e - 53, 10, n - x, NearestAway)
  {}

  lemma LetterOfTen()
    ensures ExponentLetter(10) == 'e'
  {}

  lemma RadixTen()
    ensures IsRadix(10)
  {}

  /** Fractional format: the double rounded half up to n digits behind the dot, its
      integer part without leading zeros. */
  lemma FracWritten(text: string, k: nat, n: nat) returns (q: nat, ip: string, fp: string)
    requires 0 < k < INFINITY && FracText(text, k, n)
    ensures HalfUp(q, Times(DoubleReal(k), RPow(10, n)))
    ensures text == ip + (if n == 0 then "" else "." + fp) && |fp| == n
    ensures |ip| >= 1 && (|ip| > 1 ==> ip[0] != '0') && Writes(ip + fp, q, 10)
  {
    var m: nat, f: int :| IsDouble(m, f, k) && FullMantissa(m) && 0 - 1073 <= f <= 1024
      && text == DecimalText(RoundPow(m, f - 53, 10, n, NearestAway), n);
    hide DigitString, Writes, IsDouble, FullMantissa, RoundPow, Pow, Quot, Rem, NumDigits, HalfUp, DoubleReal, RPow;
    q := RoundPow(m, f - 53, 10, n, NearestAway);
    RoundPowHalfUp(m, f, k, n);
    PowPositive(10, n);
    var h, low := Quot(q, Pow(10, n)), Rem(q, Pow(10, n));
    ip, fp := NumberText(h, 10), DigitString(low, 10, n);
    NumberWrites(h, 10);
    NumDigitsRange(h, 10);
    WritesPieces(q, h, low, NumDigits(h, 10), n);
  }

  lemma WritesPieces(q: nat, h: nat, low: nat, w: nat, n: nat)
    requires q == h * Pow(10, n) + low && low < Pow(10, n) && h < Pow(10, w)
    ensures Writes(DigitString(h, 10, w) + DigitString(low, 10, n), q, 10)
  {
    hide Writes, DigitString, Pow;
    DigitPieces(q, h, low, 10, w, n);
    PowAdd(10, w, n);
    Distribute(h, 1, Pow(10, n));
    MulMonotone(h + 1, Pow(10, w), Pow(10, n));
    DigitStringWrites(q, 10, w + n);
  }

  // ----- what js_dtoa prints

  /** A finite double other than zero in free format, its sign in front. */
  lemma FreePrinted(text: string, a: u64, radix: nat, n: nat, mode: ExpMode, minusZero: bool)
    returns (v: nat, x: int, ds: string, e: bool)
    requires IsRadix(radix) && IsFinite(a) && Index(a) > 0 && Printed(text, a, radix, n, Free, mode, minusZero)
    ensures |ds| >= 1 && ds[0] != '0' && Writes(ds, v, radix)
    ensures NearestReal(NumberOf(v, x, |ds|, radix), Index(a))
    ensures Shortest(v, x, |ds|, radix, Index(a)) || (mode != ExpEnabled && x == |ds| && v < Pow2(53))
    ensures text == (if Sign(a) then "-" else "") + Layout(ds, x, radix, e)
    ensures ExponentLetter(radix) in text <==> e
    ensures var y := NumberOf(v, x, |ds|, radix);
            e <==> match mode
              case ExpEnabled => true
              case ExpDisabled => false
              case ExpAuto => y < RPow(radix, 0 - 6) || y >= RPow(radix, DtoaMaxDigits(radix) + 4)
  {
    Finite(a);
    hide FreeText, Layout, Writes, NumberOf, RPow, NearestReal, DtoaMaxDigits, ExponentLetter, Sign, Index, IsFinite, IsNaN,
      Shortest, Pow2;
    var body: string :| text == SignText(Sign(a)) + body && MagnitudeText(body, Index(a), radix, n, Free, mode);
    v, x, ds, e := FreeWritten(body, Index(a), radix, mode);
    LetterIsNoDigit(radix);
  }

  lemma Finite(a: u64)
    ensures IsFinite(a) <==> Index(a) < INFINITY
    ensures IsFinite(a) ==> !IsNaN(a)
  {}

  /** In radix 10 an exponent for numbers below 10^-6 and from 10^21 on. */
  lemma DecimalPrinted(text: string, a: u64, n: nat, minusZero: bool) returns (v: nat, x: int, ds: string, e: bool)
    requires IsFinite(a) && Index(a) > 0 && Printed(text, a, 10, n, Free, ExpAuto, minusZero)
    ensures |ds| >= 1 && ds[0] != '0' && Writes(ds, v, 10)
    ensures NearestReal(NumberOf(v, x, |ds|, 10), Index(a))
    ensures Shortest(v, x, |ds|, 10, Index(a)) || (x == |ds| && v < Pow2(53))
    ensures text == (if Sign(a) then "-" else "") + Layout(ds, x, 10, e)
    ensures 'e' in text <==> e
    ensures e <==> NumberOf(v, x, |ds|, 10) < RPow(10, 0 - 6) || NumberOf(v, x, |ds|, 10) >= RPow(10, 21)
  {
    LetterOfTen();
    LimitOfTen();
    RadixTen();
    hide *;
    v, x, ds, e := FreePrinted(text, a, 10, n, ExpAuto, minusZero);
  }

  lemma LimitOfTen()
    ensures DtoaMaxDigits(10) + 4 == 21
  {}

  /** A finite double other than zero with n digits: they are those of the double at the
      exponent x, rounded half up. */
  lemma FixedPrinted(text: string, a: u64, n: nat, mode: ExpMode, minusZero: bool)
    returns (v: nat, x: int, ds: string, e: bool)
    requires IsFinite(a) && Index(a) > 0 && 1 <= n <= MAX_DIGITS && Printed(text, a, 10, n, Fixed, mode, minusZero)
    ensures |ds| == n && ds[0] != '0' && Writes(ds, v, 10)
    ensures HalfUp(v, Times(DoubleReal(Index(a)), RPow(10, n - x)))
    ensures text == (if Sign(a) then "-" else "") + Layout(ds, x, 10, e)
    ensures 'e' in text <==> e
    ensures e <==> match mode
              case ExpEnabled => true
              case ExpDisabled => false
              case ExpAuto => NumberOf(v, x, n, 10) < RPow(10, 0 - 6) || NumberOf(v, x, n, 10) >= RPow(10, n)
  {
    Finite(a);
    RadixTen();
    hide FixedText, Layout, Writes, NumberOf, RPow, HalfUp, DoubleReal, Sign, Index, IsFinite, IsNaN, Times;
    var body: string :| text == SignText(Sign(a)) + body && MagnitudeText(body, Index(a), 10, n, Fixed, mode);
    v, x, ds, e := FixedWritten(body, Index(a), n, mode);
  }

  /** And with n digits behind the dot, whatever the exponent mode. */
  lemma FracPrinted(text: string, a: u64, n: nat, mode: ExpMode, minusZero: bool) returns (q: nat, ip: string, fp: string)
    requires IsFinite(a) && Index(a) > 0 && n <= MAX_DIGITS && Printed(text, a, 10, n, Frac, mode, minusZero)
    ensures HalfUp(q, Times(DoubleReal(Index(a)), RPow(10, n)))
    ensures text == (if Sign(a) then "-" else "") + ip + (if n == 0 then "" else "." + fp) && |fp| == n
    ensures |ip| >= 1 && (|ip| > 1 ==> ip[0] != '0') && Writes(ip + fp, q, 10)
  {
    Finite(a);
    RadixTen();
    hide FracText, Writes, RPow, HalfUp, DoubleReal, Sign, Index, IsFinite, IsNaN, Times;
    var body: string :| text == SignText(Sign(a)) + body && MagnitudeText(body, Index(a), 10, n, Frac, mode);
    q, ip, fp := FracWritten(body, Index(a), n);
    var s := SignText(Sign(a));
    assert s + (ip + (if n == 0 then "" else "." + fp)) == s + ip + (if n == 0 then "" else "." + fp);
  }

  /** Zero, infinity and NaN; the sign of zero shows on demand only. */
  lemma SpecialPrinted(text: string, a: u64, radix: nat, n: nat, fmt: Format, mode: ExpMode, minusZero: bool)
    requires IsRadix(radix) && ValidFormat(fmt, radix, n) && Printed(text, a, radix, n, fmt, mode, minusZero)
    ensures IsNaN(a) ==> text == "NaN"
    ensures !IsNaN(a) && !IsFinite(a) ==> text == if Sign(a) then "-Infinity" else "Infinity"
    ensures Index(a) == 0 ==>
      var zeros := match fmt case Free => 0 case Fixed => n - 1 case Frac => n;
      text == (if Sign(a) && minusZero then "-" else "") + "0" + (if zeros == 0 then "" else "." + seq(zeros, _ => '0'))
              + (if mode == ExpEnabled then [ExponentLetter(radix), '+', '0'] else "")
  {
    hide Layout, DigitString, ExponentLetter;
    ZeroLayout(radix, ZeroDigits(fmt, n), mode == ExpEnabled);
  }

  lemma ZeroLayout(radix: nat, p: nat, exponential: bool)
    requires IsRadix(radix) && p >= 1
    ensures Layout(DigitString(0, radix, p), 1, radix, exponential)
            == "0" + (if p == 1 then "" else "." + seq(p - 1, _ => '0'))
               + (if exponential then [ExponentLetter(radix), '+', '0'] else "")
  {
    AllZeros(radix, p);
    ZeroExponent(radix);
    var ds := DigitString(0, radix, p);
    LayoutWritten(ds, 1, radix, exponential);
    hide Layout, DigitString, ExponentLetter, ExponentText;
    assert ds[..1] == "0" && ds[1..] == seq(p - 1, _ => '0');
    assert p == 1 ==> ds == "0" && ds + seq(0, _ => '0') == "0";
  }

  lemma {:induction false} AllZeros(radix: nat, n: nat)
    requires IsRadix(radix)
    ensures DigitString(0, radix, n) == seq(n, _ => '0')
  {
    if n > 0 {
      QuotUnique(0, radix, 0, 0);
      AllZeros(radix, n - 1);
    }
  }

  lemma ZeroExponent(radix: nat)
    requires IsRadix(radix)
    ensures ExponentText(0, radix) == [ExponentLetter(radix), '+', '0']
  {
    hide RadixBits;
    QuotUnique(0, 10, 0, 0);
    assert NumberText(0, 10) == DigitString(0, 10, 0) + ['0'];
    assert WrittenExponent(0, radix) == 0;
  }
}

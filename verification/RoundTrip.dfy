/** Printing in free format and parsing are inverse, in every radix. */
module RoundTrip {
  import opened Powers
  import opened Rounding
  import opened Float64
  import opened BigNum
  import opened RadixTables
  import opened RadixLog
  import opened DtoaScale
  import opened DtoaSearch
  import opened DtoaRoom
  import opened DtoaFree
  import opened DtoaText
  import opened DtoaFixed
  import opened Dtoa
  import opened AtodLex
  import opened AtodConvert
  import opened Atod

  // ----- reading runs of digits

  /** The characters of ds are the digits digits. */
  ghost predicate Spells(ds: string, digits: seq<nat>, radix: nat) {
    |ds| == |digits| && radix <= 36
    && forall i :: 0 <= i < |ds| ==> ToDigit(ds[i]) == digits[i] < radix
  }

  lemma {:induction false} DigitStringSpells(v: nat, radix: nat, n: nat)
    requires IsRadix(radix)
    ensures Spells(DigitString(v, radix, n), DigitsOf(v, radix, n), radix)
  {
    if n > 0 {
      hide Quot, Rem;
      DigitStringSpells(Quot(v, radix), radix, n - 1);
      DigitCharIs(Rem(v, radix));
    }
  }

  lemma ZerosSpell(n: nat, radix: nat)
    requires IsRadix(radix)
    ensures Spells(Zeros(n), seq(n, _ => 0), radix)
  {}

  lemma SpellsParts(a: string, b: string, x: seq<nat>, y: seq<nat>, radix: nat)
    requires Spells(a, x, radix) && Spells(b, y, radix)
    ensures Spells(a + b, x + y, radix)
  {}

  lemma SpellsSlices(ds: string, digits: seq<nat>, radix: nat, i: nat)
    requires Spells(ds, digits, radix) && i <= |ds|
    ensures Spells(ds[..i], digits[..i], radix) && Spells(ds[i..], digits[i..], radix)
  {}

  /** A digit is no dot and no separator. */
  lemma DigitIsPlain(c: char)
    requires ToDigit(c) < 36
    ensures c != '.' && c != '_' && c != '-' && c != '+' && c != '@' && c != '\0'
    ensures ToDigit(c) == 0 <==> c == '0'
  {}

  /** ScanDigits reads a run of digits. */
  lemma {:induction false} ScanRun(ds: string, digits: seq<nat>, rest: string, started: bool, pos: nat, dot: int, s: Style)
    requires Spells(ds, digits, s.radix)
    ensures var next := ScanDigits(Cursor(rest, started || |ds| > 0, pos + |ds|, dot), s);
            ScanDigits(Cursor(ds + rest, started, pos, dot), s) == (digits + next.0, next.1)
    decreases |ds|
  {
    hide ScanDigits;
    var next := ScanDigits(Cursor(rest, started || |ds| > 0, pos + |ds|, dot), s).0;
    if |ds| == 0 {
      assert ds + rest == rest;
      assert digits + next == next;
    } else {
      assert (ds + rest)[1..] == ds[1..] + rest;
      ScanOne(ds + rest, digits[0], started, pos, dot, s);
      ScanRun(ds[1..], digits[1..], rest, true, pos + 1, dot, s);
      assert [digits[0]] + (digits[1..] + next) == digits + next;
    }
  }

  lemma ScanOne(t: string, d: nat, started: bool, pos: nat, dot: int, s: Style)
    requires |t| > 0 && ToDigit(t[0]) == d < s.radix <= 36
    ensures var next := ScanDigits(Cursor(t[1..], true, pos + 1, dot), s);
            ScanDigits(Cursor(t, started, pos, dot), s) == ([d] + next.0, next.1)
  {
    DigitIsPlain(t[0]);
  }

  /** A dot in front of a digit is passed. */
  lemma ScanDot(rest: string, pos: nat, s: Style)
    requires s.dots && s.radix <= 36 && ToDigit(Head(rest)) < s.radix
    ensures ScanDigits(Cursor("." + rest, true, pos, -1), s) == ScanDigits(Cursor(rest, true, pos, pos), s)
  {
    DigitIsPlain(Head(rest));
    assert ("." + rest)[1..] == rest;
  }

  /** Nothing more to read: the end, or the letter of an exponent. */
  predicate Ends(t: string, radix: nat) {
    ToDigit(Head(t)) >= radix && Head(t) != '.' && Head(t) != '_'
  }

  lemma ScanEnd(c: Cursor, s: Style)
    requires Ends(c.rest, s.radix)
    ensures ScanDigits(c, s) == ([], c)
  {}

  lemma {:induction false} SkipRun(n: nat, rest: string, started: bool, pos: nat, dot: int, s: Style)
    ensures SkipZeros(Cursor(Zeros(n) + rest, started, pos, dot), s)
            == SkipZeros(Cursor(rest, started || n > 0, pos + n, dot), s)
    decreases n
  {
    if n == 0 {
      assert Zeros(n) + rest == rest;
    } else {
      var t := Zeros(n) + rest;
      assert t[0] == '0' && t[1..] == Zeros(n - 1) + rest;
      SkipRun(n - 1, rest, true, pos + 1, dot, s);
    }
  }

  /** No leading zero: nothing is skipped. */
  lemma SkipNone(c: Cursor, s: Style)
    requires Head(c.rest) != '0' && Head(c.rest) != '.' && Head(c.rest) != '_'
    ensures SkipZeros(c, s) == c
  {}

  /** "0." and zeros in front of a digit that is not zero. */
  lemma SkipFraction(n: nat, rest: string, s: Style)
    requires s.dots && ToDigit(Head(rest)) < 36 && Head(rest) != '0'
    ensures SkipZeros(Cursor("0." + Zeros(n) + rest, false, 0, -1), s) == Cursor(rest, true, 1 + n, 1)
  {
    DigitIsPlain(Head(rest));
    var t := Zeros(n) + rest;
    assert "0." + Zeros(n) + rest == "0." + t;
    assert ("0." + t)[1..] == "." + t && ("." + t)[1..] == t;
    SkipRun(n, rest, true, 1, 1, s);
    SkipNone(Cursor(rest, true, 1 + n, 1), s);
    SkipDot(t, s);
  }

  lemma SkipDot(t: string, s: Style)
    requires s.dots && Head(t) != '.' && Head(t) != '_'
    ensures SkipZeros(Cursor("." + t, true, 1, -1), s) == SkipZeros(Cursor(t, true, 1, 1), s)
  {
    assert ("." + t)[1..] == t;
  }

  // ----- reading the exponent

  lemma {:induction false} ScanExponentRun(ds: string, digits: seq<nat>, sep: bool)
    requires Spells(ds, digits, 10)
    ensures ScanExponent(ds, sep) == (digits, "")
    decreases |ds|
  {
    if |ds| > 0 {
      DigitIsPlain(ds[0]);
      ScanExponentRun(ds[1..], digits[1..], sep);
      assert [digits[0]] + digits[1..] == digits;
    }
  }

  lemma NumberSpells(v: nat, radix: nat)
    requires IsRadix(radix)
    ensures var n := NumDigits(v, radix);
            && Spells(NumberText(v, radix), DigitsOf(v, radix, n), radix)
            && |NumberText(v, radix)| >= 1 && DigitsValue(DigitsOf(v, radix, n), radix) == v
  {
    NumDigitsRange(v, radix);
    DigitStringSpells(v, radix, NumDigits(v, radix));
    DigitsOfValue(v, radix, NumDigits(v, radix));
  }

  /** The letters that start an exponent end the digits before it. */
  lemma LetterEnds(radix: nat, rest: string)
    requires IsRadix(radix)
    ensures Ends([ExponentLetter(radix)] + rest, radix)
    ensures ExponentLetter(radix) == 'p' <==> BitsOf(radix) != 0 && BitsOf(radix) <= 4
  {
    hide RadixBits;
    if PowerOfTwo(radix) { RadixBitsCorrect(radix); BitsTable(); }
  }

  /** A written exponent reads as what was written. */
  lemma ReadWritten(x: int, radix: nat, started: bool, pos: nat, dot: int, s: Style)
    requires IsRadix(radix) && s.radix == radix && s.dots && started
    ensures var v := WrittenExponent(x, radix);
            ReadExponent(Cursor(ExponentText(x, radix), started, pos, dot), s)
            == Written(v < 0, DigitsOf(Abs(v), 10, NumDigits(Abs(v), 10)), ExponentLetter(radix) == 'p', "")
  {
    hide NumDigits, DigitString, DigitsOf, RadixBits, ScanExponent, DigitsValue;
    var v := WrittenExponent(x, radix);
    var ds := NumberText(Abs(v), 10);
    var digits := DigitsOf(Abs(v), 10, NumDigits(Abs(v), 10));
    NumberSpells(Abs(v), 10);
    LetterEnds(radix, "");
    var t := ExponentText(x, radix);
    assert t[0] == ExponentLetter(radix) && t[2..] == ds;
    assert ds[1..] + "" == ds[1..];
    SpellsSlices(ds, digits, 10, 1);
    ScanExponentRun(ds[1..], digits[1..], s.sep);
    assert [digits[0]] + digits[1..] == digits;
  }

  // ----- reading the layouts

  function StartOf(text: string): Cursor {
    Cursor(text, false, 0, -1)
  }

  /** Digits with a dot among them, or none, and what follows. */
  lemma ScanMantissa(ds: string, digits: seq<nat>, i: nat, rest: string, s: Style)
    requires Spells(ds, digits, s.radix) && 1 <= i <= |ds| && ds[0] != '0' && s.dots && Ends(rest, s.radix)
    ensures ScanDigits(SkipZeros(StartOf(WithDot(ds, i) + rest), s), s)
            == (digits, Cursor(rest, true, |ds|, if i < |ds| then i else -1))
  {
    hide ScanDigits, SkipZeros;
    var text := WithDot(ds, i) + rest;
    DigitIsPlain(ds[0]);
    assert text[0] == ds[0];
    SkipNone(StartOf(text), s);
    if i == |ds| {
      ScanRun(ds, digits, rest, false, 0, -1, s);
      ScanEnd(Cursor(rest, true, |ds|, -1), s);
      assert digits + [] == digits;
    } else {
      var a, b := ds[..i], ds[i..];
      SpellsSlices(ds, digits, s.radix, i);
      assert text == a + ("." + (b + rest));
      ScanRun(a, digits[..i], "." + (b + rest), false, 0, -1, s);
      ScanDot(b + rest, i, s);
      ScanRun(b, digits[i..], rest, true, i, i, s);
      ScanEnd(Cursor(rest, true, |ds|, i), s);
      assert digits[..i] + (digits[i..] + []) == digits;
    }
  }

  /** A fraction below one. */
  lemma ScanFraction(n: nat, ds: string, digits: seq<nat>, s: Style)
    requires Spells(ds, digits, s.radix) && |ds| >= 1 && ds[0] != '0' && s.dots
    ensures ScanDigits(SkipZeros(StartOf("0." + Zeros(n) + ds), s), s) == (digits, Cursor("", true, 1 + n + |ds|, 1))
  {
    hide ScanDigits, SkipZeros;
    SkipFraction(n, ds, s);
    assert ds + "" == ds;
    ScanRun(ds, digits, "", true, 1 + n, 1, s);
    NoCharacterEnds(s.radix);
    ScanEnd(Cursor("", true, 1 + n + |ds|, 1), s);
    assert digits + [] == digits;
  }

  lemma NoCharacterEnds(radix: nat)
    requires radix <= 36
    ensures Ends("", radix)
  {}

  // ----- the number that the digits and the exponent stand for

  lemma {:induction false} ZeroDigitsValue(n: nat, radix: nat)
    ensures DigitsValue(seq(n, _ => 0), radix) == 0
  {
    if n > 0 {
      assert seq(n, _ => 0)[..n - 1] == seq(n - 1, _ => 0);
      ZeroDigitsValue(n - 1, radix);
    }
  }

  /** Trailing zeros move into the exponent. */
  lemma {:induction false} TrailingZeros(n: nat, i: nat, radix: nat, f: int)
    requires radix >= 1
    ensures DoubleOf(n * Pow(radix, i), radix, f, NearestEven) == DoubleOf(n, radix, f + i, NearestEven)
  {
    PowZeroth(radix);
    hide Pow, DoubleOf;
    if i == 0 {
      TimesOneIs(n, Pow(radix, 0));
    } else {
      NextPowerOf(radix, i - 1);
      var m := n * Pow(radix, i - 1);
      assert n * (radix * Pow(radix, i - 1)) == radix * m by {
        MulAssoc(n, radix, Pow(radix, i - 1));
        MulAssoc(radix, n, Pow(radix, i - 1));
        MulCommute(n, radix);
      }
      StripZero(m, radix, f + 1, NearestEven);
      TrailingZeros(n, i - 1, radix, f + 1);
    }
  }

  lemma DigitCounts(radix: nat)
    requires IsRadix(radix)
    ensures DtoaMaxDigits(radix) <= AtodMaxDigits(radix)
    ensures DtoaMaxDigits(radix) <= 54
  {}

  /** The index of digits followed by zeros. */
  lemma IndexWithZeros(mant: nat, p: nat, j: nat, radix: nat)
    requires IsRadix(radix) && HasDigits(mant, radix, p) && p <= DtoaMaxDigits(radix)
    ensures NumeralIndex(DigitsOf(mant, radix, p) + seq(j, _ => 0), radix, 0, 0, false)
            == Clamp(DoubleOf(mant, radix, j, NearestEven))
  {
    hide Pow, DoubleOf, DigitsValue, DigitsOf, NearestTo, DtoaMaxDigits, AtodMaxDigits, PowerOfTwo;
    DigitCounts(radix);
    var digits := DigitsOf(mant, radix, p) + seq(j, _ => 0);
    var kept := KeptDigits(digits, radix);
    var i: nat := |kept| - p;
    assert kept == DigitsOf(mant, radix, p) + seq(i, _ => 0);
    DigitsOfValue(mant, radix, p);
    ZeroDigitsValue(i, radix);
    DigitsValueSplit(DigitsOf(mant, radix, p), seq(i, _ => 0), radix);
    TableNumeral(mant * Pow(radix, i), radix, j - i);
    TrailingZeros(mant, i, radix, j - i);
  }

  /** The index of digits with frac of them behind the dot and an exponent of the
      radix itself. */
  lemma IndexWithFraction(mant: nat, p: nat, frac: nat, x: int, radix: nat)
    requires IsRadix(radix) && HasDigits(mant, radix, p) && p <= DtoaMaxDigits(radix)
    ensures NumeralIndex(DigitsOf(mant, radix, p), radix, frac, x, false)
            == Clamp(DoubleOf(mant, radix, x - frac, NearestEven))
  {
    hide Pow, DoubleOf, DigitsValue, DigitsOf, NearestTo, DtoaMaxDigits, AtodMaxDigits, PowerOfTwo;
    DigitCounts(radix);
    DigitsOfValue(mant, radix, p);
    TableNumeral(mant, radix, x - frac);
  }

  /** The same with an exponent of two. */
  lemma IndexWithBinary(mant: nat, p: nat, frac: nat, x: int, radix: nat)
    requires IsRadix(radix) && PowerOfTwo(radix) && HasDigits(mant, radix, p)
    ensures NumeralIndex(DigitsOf(mant, radix, p), radix, frac, x * RadixBits(radix), true)
            == Clamp(DoubleOf(mant, radix, x - frac, NearestEven))
  {
    hide Pow, DoubleOf, DigitsValue, DigitsOf, NearestTo, RadixBits, RoundScaled;
    DigitsOfValue(mant, radix, p);
    TableNumeral(mant, radix, x - frac);
    BinaryNumeral(mant, radix, x - frac, 0);
    BinaryNumeral(mant, radix, 0 - frac, x * RadixBits(radix));
    Distribute(x, frac, RadixBits(radix));
    Distribute(0, frac, RadixBits(radix));
  }

  // ----- the three layouts read back

  /** Exponents of printed numbers stay far inside 32 bits. */
  lemma SmallFits(x: int, binary: bool, radix: nat, offset: int, digitCount: nat)
    requires IsRadix(radix) && 0 - 6000 <= x <= 6000 && 0 - 3000 <= offset <= 3000 && digitCount <= 3000
    ensures WordsFit(x, binary, radix, offset, digitCount)
  {
    hide RadixBits;
    if PowerOfTwo(radix) {
      RadixBitsCorrect(radix);
      var b := RadixBits(radix);
      FiveTimesAny(x, b);
      FiveTimesAny(offset, b);
      FiveTimesAny(digitCount, b);
    }
  }

  /** What a layout must read as. */
  ghost predicate ReadsAs(text: string, s: Style, k: nat)
    requires IsRadix(s.radix)
  {
    (forall neg: bool :: ReadNumeral(StartOf(text), s, neg) == Reading(neg, k, "")) && NumeralFits(StartOf(text), s)
  }

  /** A number without an exponent part. */
  lemma ReadsPlain(text: string, s: Style, digits: seq<nat>, c: Cursor, k: nat)
    requires IsRadix(s.radix) && ScanDigits(SkipZeros(StartOf(text), s), s) == (digits, c)
    requires c.rest == "" && c.started && |digits| <= 2000 && 0 <= FractionDigits(c) <= 2000
    requires k == if digits == [] then 0 else NumeralIndex(digits, s.radix, FractionDigits(c), 0, false)
    ensures ReadsAs(text, s, k)
  {
    hide ScanDigits, SkipZeros, NumeralIndex, WordsFit, RadixBits, AtodMaxDigits;
    assert ReadExponent(c, s) == NoExponent;
    SmallFits(0, false, s.radix, FractionDigits(c) - (|digits| - KeptCount(digits, s.radix)), KeptCount(digits, s.radix));
  }

  /** A number with an exponent part. */
  lemma ReadsWritten(text: string, s: Style, digits: seq<nat>, c: Cursor, x: int, k: nat)
    requires IsRadix(s.radix) && s.dots && ScanDigits(SkipZeros(StartOf(text), s), s) == (digits, c)
    requires c.rest == ExponentText(x, s.radix) && c.started && |digits| <= 2000 && 0 <= FractionDigits(c) <= 2000
    requires 0 - 1200 <= x <= 1200
    requires var v := WrittenExponent(x, s.radix);
             k == if digits == [] then 0
                  else NumeralIndex(digits, s.radix, FractionDigits(c), v, ExponentLetter(s.radix) == 'p')
    ensures ReadsAs(text, s, k)
  {
    var v := WrittenExponent(x, s.radix);
    hide ScanDigits, SkipZeros, NumeralIndex, WordsFit, RadixBits, AtodMaxDigits, ReadExponent, NumDigits, DigitsOf, DigitsValue;
    ReadWritten(x, s.radix, c.started, c.pos, c.dot, s);
    NumberSpells(Abs(v), 10);
    WrittenSmall(x, s.radix);
    SmallFits(v, ExponentLetter(s.radix) == 'p', s.radix,
              FractionDigits(c) - (|digits| - KeptCount(digits, s.radix)), KeptCount(digits, s.radix));
  }

  lemma LeadingText(mant: nat, radix: nat, p: nat)
    requires IsRadix(radix) && HasDigits(mant, radix, p)
    ensures DigitString(mant, radix, p)[0] != '0'
    ensures Spells(DigitString(mant, radix, p), DigitsOf(mant, radix, p), radix)
  {
    hide Pow, DigitString, DigitsOf;
    FirstDigit(mant, radix, p);
    DigitStringSpells(mant, radix, p);
  }

  lemma ReadsExponential(mant: nat, x: int, p: nat, radix: nat, s: Style)
    requires IsRadix(radix) && s.radix == radix && s.dots && HasDigits(mant, radix, p) && p <= DtoaMaxDigits(radix)
    requires 0 - 1100 <= x <= 1100
    ensures ReadsAs(Layout(DigitString(mant, radix, p), x, radix, true), s, Clamp(DoubleOf(mant, radix, x - p, NearestEven)))
  {
    hide DigitString, DigitsOf, ScanDigits, SkipZeros, DoubleOf, ReadsAs, HasDigits, NumeralIndex, ExponentText, RadixBits,
      DtoaMaxDigits, AtodMaxDigits;
    DigitCounts(radix);
    LeadingText(mant, radix, p);
    var ds, digits, rest := DigitString(mant, radix, p), DigitsOf(mant, radix, p), ExponentText(x - 1, radix);
    ExponentEnds(x - 1, radix);
    HasDigitsAtLeast(mant, radix, p);
    ScanMantissa(ds, digits, 1, rest, s);
    var c := Cursor(rest, true, p, if 1 < p then 1 else -1);
    if ExponentLetter(radix) == 'p' {
      LetterMeansBinary(radix);
      IndexWithBinary(mant, p, p - 1, x - 1, radix);
    } else {
      IndexWithFraction(mant, p, p - 1, x - 1, radix);
    }
    ReadsWritten(WithDot(ds, 1) + rest, s, digits, c, x - 1, Clamp(DoubleOf(mant, radix, x - p, NearestEven)));
  }

  lemma LetterMeansBinary(radix: nat)
    ensures ExponentLetter(radix) == 'p' ==> PowerOfTwo(radix)
  {}

  lemma ExponentEnds(x: int, radix: nat)
    requires IsRadix(radix)
    ensures Ends(ExponentText(x, radix), radix)
  {
    LetterEnds(radix, ExponentText(x, radix)[1..]);
    assert ExponentText(x, radix) == [ExponentLetter(radix)] + ExponentText(x, radix)[1..];
  }

  lemma ReadsFraction(mant: nat, x: int, p: nat, radix: nat, s: Style)
    requires IsRadix(radix) && s.radix == radix && s.dots && HasDigits(mant, radix, p) && p <= DtoaMaxDigits(radix)
    requires 0 - 1100 <= x <= 0
    ensures ReadsAs(Layout(DigitString(mant, radix, p), x, radix, false), s, Clamp(DoubleOf(mant, radix, x - p, NearestEven)))
  {
    hide DigitString, DigitsOf, ScanDigits, SkipZeros, DoubleOf, ReadsAs, HasDigits, NumeralIndex, DtoaMaxDigits, AtodMaxDigits;
    DigitCounts(radix);
    LeadingText(mant, radix, p);
    HasDigitsAtLeast(mant, radix, p);
    var ds, digits := DigitString(mant, radix, p), DigitsOf(mant, radix, p);
    ScanFraction(0 - x, ds, digits, s);
    IndexWithFraction(mant, p, p - x, 0, radix);
    ReadsPlain("0." + Zeros(0 - x) + ds, s, digits, Cursor("", true, 1 - x + p, 1),
               Clamp(DoubleOf(mant, radix, x - p, NearestEven)));
  }

  lemma ReadsMiddle(mant: nat, x: int, p: nat, radix: nat, s: Style)
    requires IsRadix(radix) && s.radix == radix && s.dots && HasDigits(mant, radix, p) && p <= DtoaMaxDigits(radix)
    requires 0 < x <= 1100
    ensures ReadsAs(Layout(DigitString(mant, radix, p), x, radix, false), s, Clamp(DoubleOf(mant, radix, x - p, NearestEven)))
  {
    hide DigitString, DigitsOf, ScanDigits, SkipZeros, DoubleOf, ReadsAs, HasDigits, NumeralIndex, DtoaMaxDigits, AtodMaxDigits;
    DigitCounts(radix);
    LeadingText(mant, radix, p);
    HasDigitsAtLeast(mant, radix, p);
    NoCharacterEnds(radix);
    var ds, digits := DigitString(mant, radix, p), DigitsOf(mant, radix, p);
    var k := Clamp(DoubleOf(mant, radix, x - p, NearestEven));
    if p > x {
      ScanMantissa(ds, digits, x, "", s);
      IndexWithFraction(mant, p, p - x, 0, radix);
      assert WithDot(ds, x) + "" == WithDot(ds, x) + Zeros(0);
      ReadsPlain(WithDot(ds, x) + "", s, digits, Cursor("", true, p, x), k);
    } else {
      var j: nat := x - p;
      var all, padded := ds + Zeros(j), digits + seq(j, _ => 0);
      ZerosSpell(j, radix);
      SpellsParts(ds, Zeros(j), digits, seq(j, _ => 0), radix);
      ScanMantissa(all, padded, |all|, "", s);
      IndexWithZeros(mant, p, j, radix);
      assert WithDot(all, |all|) + "" == WithDot(ds, p) + Zeros(j);
      ReadsPlain(WithDot(all, |all|) + "", s, padded, Cursor("", true, |all|, -1), k);
    }
  }

  lemma LayoutReads(mant: nat, x: int, p: nat, radix: nat, exponential: bool, s: Style)
    requires IsRadix(radix) && s.radix == radix && s.dots && HasDigits(mant, radix, p) && p <= DtoaMaxDigits(radix)
    requires 0 - 1100 <= x <= 1100
    ensures ReadsAs(Layout(DigitString(mant, radix, p), x, radix, exponential), s, Clamp(DoubleOf(mant, radix, x - p, NearestEven)))
  {
    hide *;
    if exponential {
      ReadsExponential(mant, x, p, radix, s);
    } else if x <= 0 {
      ReadsFraction(mant, x, p, radix, s);
    } else {
      ReadsMiddle(mant, x, p, radix, s);
    }
  }

  // ----- the fast path for integers

  lemma IntegerReads(m: nat, e: int, k: nat, radix: nat, s: Style)
    requires IsRadix(radix) && s.radix == radix && s.dots && IsDouble(m, e, k) && k > 0 && SmallInteger(m, e)
    ensures ReadsAs(NumberText(ShiftRight(m, 53 - e), radix), s, Clamp(k))
  {
    hide DigitString, DigitsOf, ScanDigits, SkipZeros, DoubleOf, ReadsAs, NumeralIndex, DtoaMaxDigits, AtodMaxDigits,
      NumDigits, Pow, Pow2, Grid, IsDouble, ShiftRight, ShiftedOut, RoundMag;
    DtoaDigits(radix);
    DigitCounts(radix);
    SmallIntegerValue(m, e, k);
    FloatConstants();
    Pow2Constants();
    var v := ShiftRight(m, 53 - e);
    var n := NumDigits(v, radix);
    NumDigitsRange(v, radix);
    if n > DtoaMaxDigits(radix) {
      PowMonotone(radix, DtoaMaxDigits(radix) - 1, n - 1);
      assert false;
    }
    LeadingText(v, radix, n);
    NoCharacterEnds(radix);
    var ds, digits := DigitString(v, radix, n), DigitsOf(v, radix, n);
    ScanMantissa(ds, digits, n, "", s);
    assert WithDot(ds, n) + "" == ds;
    IndexWithFraction(v, n, 0, 0, radix);
    IntegerDouble(v, k, radix);
    ReadsPlain(ds, s, digits, Cursor("", true, n, -1), Clamp(k));
  }

  lemma IntegerDouble(v: nat, k: nat, radix: nat)
    requires radix >= 1 && Grid(k) == v * Pow2(1074)
    ensures DoubleOf(v, radix, 0, NearestEven) == k
  {
    PowZeroth(radix);
    hide Pow, Pow2, Grid, RoundMag;
    DoubleOfRaised(v, radix, 0, NearestEven);
    TimesOneIs(v, Pow(radix, 0));
    GridIsFixed(k, NearestEven);
  }

  // ----- sign and prefix

  /** A text that starts with a digit, and with a zero only in front of a dot, the
      end or an exponent: no prefix, no sign and no Infinity can be mistaken. */
  predicate PlainStart(text: string) {
    && |text| > 0 && (('0' <= text[0] <= '9') || ('a' <= text[0] <= 'z'))
    && (text[0] == '0' ==> Second(text) in {'.', '\0', 'e', 'p', '@'})
  }

  lemma PlainPrefix(text: string, radix: nat, flags: Flags, neg: bool)
    requires IsRadix(radix) && !flags.intOnly && PlainStart(text)
    ensures AfterSign(SignText(neg) + text) == text && Negative(SignText(neg) + text) == neg
    ensures ReadPrefix(text, radix, flags) == Start(StartOf(text), Style(radix, true, flags.underscores))
  {
    assert "" + text == text;
    assert ("-" + text)[1..] == text;
  }

  lemma {:induction false} LowerCase(v: nat, radix: nat, n: nat)
    requires IsRadix(radix)
    ensures forall i :: 0 <= i < n ==>
              ('0' <= DigitString(v, radix, n)[i] <= '9') || ('a' <= DigitString(v, radix, n)[i] <= 'z')
  {
    if n > 0 {
      hide Quot, Rem;
      LowerCase(Quot(v, radix), radix, n - 1);
    }
  }

  lemma LayoutStarts(mant: nat, x: int, p: nat, radix: nat, exponential: bool)
    requires IsRadix(radix) && HasDigits(mant, radix, p)
    ensures PlainStart(Layout(DigitString(mant, radix, p), x, radix, exponential))
  {
    hide DigitString, DigitsOf, HasDigits, ExponentText;
    LeadingText(mant, radix, p);
    LowerCase(mant, radix, p);
    HasDigitsAtLeast(mant, radix, p);
    var text := Layout(DigitString(mant, radix, p), x, radix, exponential);
    if !exponential && x <= 0 {
      assert text[0] == '0' && text[1] == '.';
    } else {
      assert text[0] == DigitString(mant, radix, p)[0];
    }
  }

  /** Whatever js_dtoa prints in free format for a magnitude reads as it. */
  lemma FreeReads(body: string, k: nat, radix: nat, mode: ExpMode, s: Style)
    requires IsRadix(radix) && s.radix == radix && s.dots && FreeText(body, k, radix, mode) && 0 < k < INFINITY
    ensures ReadsAs(body, s, k) && PlainStart(body)
  {
    var m: nat, e: int :| IsDouble(m, e, k) && FullMantissa(m) && 0 - 1073 <= e <= 1024
        && if SmallInteger(m, e) && mode != ExpEnabled then body == NumberText(ShiftRight(m, 53 - e), radix)
           else FreeDigitsText(body, m, e, k, radix, mode);
    hide Layout, DigitString, ReadsAs, PlainStart, Prints, Chosen, IsDouble, ShiftRight, ShiftedOut, NumDigits, DoubleOf, HasDigits,
      DtoaMaxDigits, MinExponent, MaxExponent;
    if SmallInteger(m, e) && mode != ExpEnabled {
      IntegerReads(m, e, k, radix, s);
      IntegerStarts(m, e, k, radix);
    } else {
      var mant: nat, x: int, p: nat :| Chosen(mant, x, p, radix, m, e, k) && body == FreeLayout(mant, x, p, radix, mode);
      ChosenIs(mant, x, p, radix, m, e, k);
      PrintsReads(mant, x, p, radix, m, e, k);
      ExponentsSmall(radix);
      var exponential := Exponential(mode, x, DtoaMaxDigits(radix) + 4);
      LayoutReads(mant, x, p, radix, exponential, s);
      LayoutStarts(mant, x, p, radix, exponential);
    }
  }

  lemma PrintsReads(mant: nat, x: int, p: int, radix: nat, m: nat, e: int, k: nat)
    requires radix >= 1 && Prints(mant, x, p, radix, m, e, k)
    ensures p >= 1 && HasDigits(mant, radix, p) && DoubleOf(mant, radix, x - p, NearestEven) == k
  {}

  lemma IntegerStarts(m: nat, e: int, k: nat, radix: nat)
    requires IsRadix(radix) && IsDouble(m, e, k) && k > 0 && SmallInteger(m, e)
    ensures PlainStart(NumberText(ShiftRight(m, 53 - e), radix))
  {
    hide DigitString, DigitsOf, NumDigits, Pow, Grid, IsDouble, ShiftRight, ShiftedOut;
    SmallIntegerValue(m, e, k);
    var v := ShiftRight(m, 53 - e);
    NumDigitsRange(v, radix);
    LeadingText(v, radix, NumDigits(v, radix));
    LowerCase(v, radix, NumDigits(v, radix));
  }

  /** Zero, with or without an exponent. */
  lemma ZeroReads(radix: nat, exponential: bool, s: Style)
    requires IsRadix(radix) && s.radix == radix && s.dots
    ensures var text := Layout("0", 1, radix, exponential); ReadsAs(text, s, 0) && PlainStart(text)
  {
    hide ScanDigits, SkipZeros, ReadsAs, NumeralIndex, RadixBits;
    var rest := if exponential then ExponentText(0, radix) else "";
    var text := Layout("0", 1, radix, exponential);
    assert text == Zeros(1) + rest;
    SkipRun(1, rest, false, 0, -1, s);
    var c := Cursor(rest, true, 1, -1);
    if exponential {
      ExponentEnds(0, radix);
    } else {
      NoCharacterEnds(radix);
    }
    SkipAtEnd(c, s);
    ScanEnd(c, s);
    if exponential {
      ReadsWritten(text, s, [], c, 0, 0);
    } else {
      ReadsPlain(text, s, [], c, 0);
    }
  }

  lemma SkipAtEnd(c: Cursor, s: Style)
    requires Ends(c.rest, s.radix) && s.radix >= 2
    ensures SkipZeros(c, s) == c
  {}

  // ----- the round trip

  lemma LayoutLength(ds: string, x: int, radix: nat, exponential: bool)
    requires 1 <= |ds| <= 54 && 0 - 1100 <= x <= 1100
    ensures |Layout(ds, x, radix, exponential)| <= 2000
  {
    hide NumberText, RadixBits;
    WrittenSmall(x - 1, radix);
    SmallNumberLength(Abs(WrittenExponent(x - 1, radix)));
  }

  lemma FreeLength(body: string, k: nat, radix: nat, mode: ExpMode)
    requires IsRadix(radix) && FreeText(body, k, radix, mode) && k > 0
    ensures |body| <= 2000
  {
    var m: nat, e: int :| IsDouble(m, e, k) && FullMantissa(m) && 0 - 1073 <= e <= 1024
        && if SmallInteger(m, e) && mode != ExpEnabled then body == NumberText(ShiftRight(m, 53 - e), radix)
           else FreeDigitsText(body, m, e, k, radix, mode);
    hide Layout, DigitString, Prints, Chosen, IsDouble, ShiftRight, ShiftedOut, NumDigits, DtoaMaxDigits, AtodMaxDigits, MinExponent,
      MaxExponent;
    if SmallInteger(m, e) && mode != ExpEnabled {
      IntegerLength(m, e, k, radix);
      DigitCounts(radix);
    } else {
      var mant: nat, x: int, p: nat :| Chosen(mant, x, p, radix, m, e, k) && body == FreeLayout(mant, x, p, radix, mode);
      ChosenIs(mant, x, p, radix, m, e, k);
      ExponentsSmall(radix);
      DigitCounts(radix);
      PrintsReads(mant, x, p, radix, m, e, k);
      LayoutLength(DigitString(mant, radix, p), x, radix, Exponential(mode, x, DtoaMaxDigits(radix) + 4));
    }
  }

  /** The sign that comes back: that of the double, except that -0 prints as 0
      unless asked otherwise. */
  predicate PrintedSign(a: u64, minusZero: bool) {
    Sign(a) && (Index(a) != 0 || minusZero)
  }

  lemma MeaningOfPlain(body: string, radix: nat, flags: Flags, neg: bool, k: nat)
    requires IsRadix(radix) && !flags.intOnly && PlainStart(body)
    requires ReadsAs(body, Style(radix, true, flags.underscores), k)
    ensures Meaning(SignText(neg) + body, radix, flags) == Reading(neg, k, "")
    ensures TextFits(SignText(neg) + body, radix, flags)
  {
    hide ReadNumeral, NumeralFits, PlainStart, ReadPrefix, AfterSign, Negative;
    PlainPrefix(body, radix, flags, neg);
    MeaningFrom(SignText(neg) + body, radix, flags, StartOf(body), Style(radix, true, flags.underscores));
  }

  lemma MeaningFrom(text: string, radix: nat, flags: Flags, c: Cursor, s: Style)
    requires IsRadixOrAuto(radix) && ReadPrefix(AfterSign(text), radix, flags) == Start(c, s) && IsRadix(s.radix)
    ensures Meaning(text, radix, flags) == ReadNumeral(c, s, Negative(text))
    ensures TextFits(text, radix, flags) == NumeralFits(c, s)
  {
    hide ReadNumeral, NumeralFits, ReadPrefix, AfterSign, Negative;
  }

  lemma InfinityMeaning(neg: bool, radix: nat, flags: Flags)
    requires IsRadix(radix) && !flags.intOnly
    ensures Meaning(SignText(neg) + "Infinity", radix, flags) == Reading(neg, INFINITY, "")
    ensures TextFits(SignText(neg) + "Infinity", radix, flags)
  {
    hide ReadNumeral, NumeralFits;
    var t := "Infinity";
    assert "" + t == t && ("-" + t)[1..] == t && t[8..] == "";
  }

  /** Every double other than NaN, printed in free format in any radix and any
      exponent mode, means itself when read back in that radix. */
  lemma FreeMeansItself(text: string, a: u64, radix: nat, n: nat, mode: ExpMode, minusZero: bool, flags: Flags)
    requires IsRadix(radix) && !IsNaN(a) && !flags.intOnly && Printed(text, a, radix, n, Free, mode, minusZero)
    ensures Meaning(text, radix, flags) == Reading(PrintedSign(a, minusZero), Index(a), "")
    ensures TextFits(text, radix, flags) && |text| <= 2001
  {
    hide Layout, DigitString, ReadsAs, PlainStart, FreeText, Meaning, TextFits;
    var s := Style(radix, true, flags.underscores);
    FloatConstants();
    if !IsFinite(a) {
      InfinityMeaning(Sign(a), radix, flags);
    } else if Index(a) == 0 {
      OneDigit(0, radix);
      assert [DigitChar(0)] == "0";
      ZeroReads(radix, mode == ExpEnabled, s);
      LayoutLength("0", 1, radix, mode == ExpEnabled);
      MeaningOfPlain(Layout("0", 1, radix, mode == ExpEnabled), radix, flags, Sign(a) && minusZero, 0);
    } else {
      var body: string :| text == SignText(Sign(a)) + body && MagnitudeText(body, Index(a), radix, n, Free, mode);
      FreeReads(body, Index(a), radix, mode, s);
      FreeLength(body, Index(a), radix, mode);
      MeaningOfPlain(body, radix, flags, Sign(a), Index(a));
    }
  }

  /** Print, then parse: the same bits come back. */
  method PrintAndParse(a: u64, radix: nat, mode: ExpMode, minusZero: bool, flags: Flags, tmp1: Mpb, mantMax: Mpb)
    returns (text: string, r: Result)
    requires IsRadix(radix) && !IsNaN(a) && !flags.intOnly
    requires tmp1.tab.Length == LEN_MAX && mantMax.tab.Length == MANT_LEN_MAX && tmp1 != mantMax && tmp1.tab != mantMax.tab
    modifies tmp1, tmp1.tab, mantMax, mantMax.tab
    ensures r == if a == TWO_63 && !minusZero then Number(0, "") else Number(a, "")
  {
    hide Printed, Meaning, TextFits;
    text := JsDtoa(a, radix, 0, Free, mode, minusZero, tmp1, mantMax);
    FreeMeansItself(text, a, radix, 0, mode, minusZero, flags);
    r := JsAtod(text, radix, flags, tmp1);
    Fields(a);
  }

  // ----- where the parser's 32 bit arithmetic gives out

  /** In radix 32 an exponent of a thousand million is still below the limit at
      which the parser stops counting, but five times as much is no int. */
  lemma OverflowExample(flags: Flags)
    requires !flags.intOnly
    ensures !TextFits("1@1000000000", 32, flags)
  {
    hide ScanDigits, SkipZeros, DigitsValue, ReadExponent, WordsFit, Saturates, ReadPrefix, AfterSign, Negative, NumeralFits, TextFits,
      ReadNumeral, AtodMaxDigits;
    var s := Style(32, true, flags.underscores);
    var text, rest := "1@1000000000", "@1000000000";
    PlainPrefix(text, 32, flags, false);
    assert SignText(false) + text == text;
    assert WithDot("1", 1) + rest == text;
    ScanMantissa("1", [1], 1, rest, s);
    var c := Cursor(rest, true, 1, -1);
    ExampleExponent(c, s);
    AtodAtLeastOne(32);
    ExampleOverflows();
    NumeralFitsIs(StartOf(text), s, [1], c);
    MeaningFrom(text, 32, flags, StartOf(text), s);
  }

  lemma NumeralFitsIs(c0: Cursor, s: Style, digits: seq<nat>, c: Cursor)
    requires IsRadix(s.radix) && ScanDigits(SkipZeros(c0, s), s) == (digits, c)
    ensures ReadExponent(c, s).Written? ==> |ReadExponent(c, s).digits| > 0
    ensures NumeralFits(c0, s) == ExponentFits(digits, c, ReadExponent(c, s), s.radix)
  {
    WrittenDigits(c, s);
    hide ScanDigits, SkipZeros, ReadExponent, ExponentFits;
  }

  const THOUSAND_MILLION: seq<nat> := [1, 0, 0, 0, 0, 0, 0, 0, 0, 0]

  lemma ExampleExponent(c: Cursor, s: Style)
    requires c == Cursor("@1000000000", true, 1, -1) && s.radix == 32 && s.dots
    ensures ReadExponent(c, s) == Written(false, THOUSAND_MILLION, false, "")
  {
    hide ScanExponent, RadixBits, DigitsValue, Saturates;
    var ds := "1000000000";
    assert c.rest[1..] == ds;
    ScanExponentRun(ds[1..], THOUSAND_MILLION[1..], s.sep);
    assert [1] + THOUSAND_MILLION[1..] == THOUSAND_MILLION;
  }

  lemma ExampleOverflows()
    ensures !Saturates(THOUSAND_MILLION) && !WordsFit(DigitsValue(THOUSAND_MILLION, 10), false, 32, 0, 1)
  {
    hide DigitsValue;
    TenDigits();
    assert THOUSAND_MILLION[..9] == [1, 0, 0, 0, 0, 0, 0, 0, 0];
    BitsTable();
  }

  lemma TenDigits()
    ensures DigitsValue([1, 0, 0, 0, 0, 0, 0, 0, 0, 0], 10) == 1000000000
    ensures DigitsValue([1, 0, 0, 0, 0, 0, 0, 0, 0], 10) == 100000000
  {
    hide *;
    NineDigits();
    assert [1, 0, 0, 0, 0, 0, 0, 0, 0, 0] == [1, 0, 0, 0, 0, 0, 0, 0, 0] + [0];
    DigitsValueOneMore([1, 0, 0, 0, 0, 0, 0, 0, 0], 0, 10);
  }

  lemma NineDigits()
    ensures DigitsValue([1, 0, 0, 0, 0, 0, 0, 0, 0], 10) == 100000000
  {
    hide *;
    assert [1, 0, 0, 0, 0, 0, 0, 0, 0] == [1] + seq(8, _ => 0);
    DigitsValueSplit([1], seq(8, _ => 0), 10);
    ZeroDigitsValue(8, 10);
    OneDigitValue();
  }

  lemma OneDigitValue()
    ensures DigitsValue([1], 10) == 1 && Pow(10, 8) == 100000000
  {
    assert [1][..0] == [];
  }
}

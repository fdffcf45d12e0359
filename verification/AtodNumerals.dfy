/** What js_atod reads, part by part: a sign, a prefix, digits with a dot among them, an
    exponent, and what is left. The number is given by its digits alone. */
module AtodNumerals {
  import opened Powers
  import opened Float64
  import opened RoundingModes
  import opened RadixTables
  import opened RadixLog
  import opened RealPow
  import opened NearestReals
  import opened DtoaRoom
  import opened AtodLex
  import opened Atod
  import opened RoundTrip

  // ----- digits

  /** The digits, for either case of the letters. */
  lemma DigitMeans(c: char, d: nat)
    ensures '0' <= c <= '9' ==> ToDigit(c) == c as int - '0' as int
    ensures 'a' <= c <= 'z' ==> ToDigit(c) == 10 + (c as int - 'a' as int)
    ensures 'A' <= c <= 'Z' ==> ToDigit(c) == 10 + (c as int - 'A' as int)
    ensures ToDigit(c) < 36 ==> '0' <= c <= '9' || 'a' <= c <= 'z' || 'A' <= c <= 'Z'
  {}

  function NoLeadingZeros(digits: seq<nat>): seq<nat> {
    if |digits| > 0 && digits[0] == 0 then NoLeadingZeros(digits[1..]) else digits
  }

  /** Skipping leading zeros first drops them from the digits and changes nothing else. */
  lemma {:induction false} SkipThenScan(c: Cursor, s: Style)
    requires IsRadix(s.radix)
    ensures ScanDigits(SkipZeros(c, s), s) == (NoLeadingZeros(ScanDigits(c, s).0), ScanDigits(c, s).1)
    decreases |c.rest|
  {
    hide ScanDigits, AtDot, PassDot, PassSep;
    var c1 := PassSep(PassDot(c, s), s, 1);
    if AtDot(c, s) && c.dot >= 0 {
      StopsAtDot(c, s);
    } else if Head(c1.rest) == '0' {
      var c2 := Cursor(c1.rest[1..], true, c1.pos + 1, c1.dot);
      ZeroNext(c, s);
      SkipThenScan(c2, s);
      var next := ScanDigits(c2, s).0;
      assert ([0] + next)[1..] == next;
    } else {
      NonZeroNext(c, s);
    }
  }

  lemma StopsAtDot(c: Cursor, s: Style)
    requires AtDot(c, s) && c.dot >= 0
    ensures ScanDigits(c, s) == ([], c)
  {}

  lemma ZeroNext(c: Cursor, s: Style)
    requires IsRadix(s.radix) && !(AtDot(c, s) && c.dot >= 0)
    requires Head(PassSep(PassDot(c, s), s, 1).rest) == '0'
    ensures var c1 := PassSep(PassDot(c, s), s, 1);
            |c1.rest| > 0 &&
            var next := ScanDigits(Cursor(c1.rest[1..], true, c1.pos + 1, c1.dot), s);
            ScanDigits(c, s) == ([0] + next.0, next.1)
  {
    hide AtDot, PassDot, PassSep;
    ZeroPassed(PassDot(c, s), s);
  }

  /** A separator in front of a zero is one in front of a digit. */
  lemma ZeroPassed(c: Cursor, s: Style)
    requires IsRadix(s.radix) && Head(PassSep(c, s, 1).rest) == '0'
    ensures PassSep(c, s, s.radix) == PassSep(c, s, 1)
  {}

  /** What is not a zero is read the same after the dot before it has been passed. */
  lemma NonZeroNext(c: Cursor, s: Style)
    requires IsRadix(s.radix) && !(AtDot(c, s) && c.dot >= 0)
    requires Head(PassSep(PassDot(c, s), s, 1).rest) != '0'
    ensures var d := ScanDigits(c, s);
            ScanDigits(PassSep(PassDot(c, s), s, 1), s) == d && NoLeadingZeros(d.0) == d.0
  {
    NoZeroPassed(PassDot(c, s), s);
    if AtDot(c, s) {
      DotPassed(c, s);
    }
  }

  lemma NoZeroPassed(c: Cursor, s: Style)
    requires IsRadix(s.radix) && Head(PassSep(c, s, 1).rest) != '0'
    ensures PassSep(c, s, 1) == c && Head(PassSep(c, s, s.radix).rest) != '0'
  {}

  lemma DotPassed(c: Cursor, s: Style)
    requires IsRadix(s.radix) && AtDot(c, s) && c.dot < 0
    ensures ScanDigits(PassDot(c, s), s) == ScanDigits(c, s)
  {}

  lemma {:induction false} LeadingZerosValue(digits: seq<nat>, radix: nat)
    ensures DigitsValue(NoLeadingZeros(digits), radix) == DigitsValue(digits, radix)
  {
    if |digits| > 0 && digits[0] == 0 {
      LeadingZerosValue(digits[1..], radix);
      DigitsValueSplit([0], digits[1..], radix);
      assert [0] + digits[1..] == digits;
      assert [0][..0] == [];
    }
  }

  // ----- the parts of a numeral

  /** What follows the digits belongs to no numeral that continues them. */
  predicate EndsDigits(t: string, s: Style, dot: bool) {
    && ToDigit(Head(t)) >= s.radix && (Head(t) == '.' ==> dot || !s.dots)
    && (Head(t) == '_' ==> !s.sep || ToDigit(Second(t)) >= s.radix)
  }

  lemma ScanStops(t: string, pos: nat, dot: int, s: Style)
    requires s.radix <= 36 && dot >= 0 - 1 && EndsDigits(t, s, dot >= 0)
    ensures ScanDigits(Cursor(t, true, pos, dot), s) == ([], Cursor(t, true, pos, dot))
  {}

  /** Digits before and after a dot, or without one. */
  lemma ScanParts(ip: string, fp: string, dot: bool, tail: string, a: seq<nat>, b: seq<nat>, s: Style, started: bool)
    requires Spells(ip, a, s.radix) && Spells(fp, b, s.radix) && (started || |ip| + |fp| > 0) && s.radix <= 36
    requires if dot then s.dots else fp == ""
    requires EndsDigits(tail, s, dot)
    ensures ScanDigits(Cursor(ip + (if dot then "." else "") + fp + tail, started, 0, -1), s)
            == (a + b, Cursor(tail, true, |ip| + |fp|, if dot then |ip| else -1))
  {
    hide ScanDigits;
    if !dot {
      assert ip + "" + fp + tail == ip + tail && b == [];
      ScanRun(ip, a, tail, started, 0, -1, s);
      ScanStops(tail, |ip|, -1, s);
      assert a + [] == a + b;
    } else {
      assert ip + "." + fp + tail == ip + ("." + (fp + tail));
      ScanRun(ip, a, "." + (fp + tail), started, 0, -1, s);
      PassTheDot(fp + tail, started || |ip| > 0, |ip|, s) by {
        if !started && |ip| == 0 { assert (fp + tail)[0] == fp[0]; }
      }
      ScanRun(fp, b, tail, true, |ip|, |ip|, s);
      ScanStops(tail, |ip| + |fp|, |ip|, s);
      assert a + (b + []) == a + b;
    }
  }

  lemma PassTheDot(t: string, started: bool, pos: nat, s: Style)
    requires s.dots && s.radix <= 36 && (started || ToDigit(Head(t)) < s.radix)
    ensures ScanDigits(Cursor("." + t, started, pos, -1), s) == ScanDigits(Cursor(t, true, pos, pos), s)
  {
    assert ("." + t)[1..] == t;
  }

  /** A separator between digits is passed over; elsewhere, or without leave for
      separators, it ends the digits (EndsDigits). */
  lemma SeparatorPassed(t: string, pos: nat, dot: int, s: Style)
    requires s.sep && s.radix <= 36 && ToDigit(Head(t)) < s.radix
    ensures ScanDigits(Cursor("_" + t, true, pos, dot), s) == ScanDigits(Cursor(t, true, pos, dot), s)
  {
    assert ("_" + t)[1..] == t;
    DigitIsPlain(Head(t));
  }

  /** Which letter may start an exponent, and whether it counts powers of two. */
  predicate ExponentStart(c: char, radix: nat) {
    if radix == 10 then c == 'e' || c == 'E'
    else c == '@' || (radix in [2, 4, 8, 16] && (c == 'p' || c == 'P'))
  }

  lemma StartsExponent(c: Cursor, s: Style)
    requires IsRadix(s.radix) && s.dots && c.started
    ensures AtExponent(c, s) <==> ExponentStart(Head(c.rest), s.radix)
  {
    hide RadixBits;
    if PowerOfTwo(s.radix) { RadixBitsCorrect(s.radix); }
    BitsTable();
  }

  predicate EndsExponent(t: string, s: Style) {
    ToDigit(Head(t)) >= 10 && (Head(t) == '_' ==> !s.sep || ToDigit(Second(t)) >= 10)
  }

  lemma {:induction false} ScanExponentDigits(ed: string, digits: seq<nat>, rest: string, s: Style)
    requires Spells(ed, digits, 10) && EndsExponent(rest, s)
    ensures ScanExponent(ed + rest, s.sep) == (digits, rest)
    decreases |ed|
  {
    if |ed| == 0 {
      assert ed + rest == rest;
    } else {
      DigitIsPlain(ed[0]);
      assert (ed + rest)[1..] == ed[1..] + rest;
      ScanExponentDigits(ed[1..], digits[1..], rest, s);
      assert [digits[0]] + digits[1..] == digits;
    }
  }

  /** An exponent: its letter, an optional sign, its digits. */
  lemma ReadParts(letter: char, esign: string, ed: string, digits: seq<nat>, rest: string, pos: nat, dot: int, s: Style)
    requires IsRadix(s.radix) && s.dots && ExponentStart(letter, s.radix) && esign in ["", "+", "-"]
    requires |ed| > 0 && Spells(ed, digits, 10) && EndsExponent(rest, s)
    ensures ReadExponent(Cursor([letter] + esign + ed + rest, true, pos, dot), s)
            == Written(esign == "-", digits, letter == 'p' || letter == 'P', rest)
  {
    hide ScanExponent, AtExponent;
    var t := [letter] + esign + ed + rest;
    StartsExponent(Cursor(t, true, pos, dot), s);
    DigitIsPlain(ed[0]);
    assert t[1 + |esign|..] == ed + rest;
    assert (ed + rest)[1..] == ed[1..] + rest;
    SpellsSlices(ed, digits, 10, 1);
    ScanExponentDigits(ed[1..], digits[1..], rest, s);
    assert [digits[0]] + digits[1..] == digits;
    if esign == "" { assert t[1] == ed[0]; } else { assert t[1] == esign[0]; }
  }

  // ----- the number

  /** Every digit counts while radix^n is at most 2^128 for the n digits behind leading
      zeros; in radices that are powers of two, however many there are. */
  lemma AllDigitsCount(digits: seq<nat>, radix: nat, frac: int, x: int, binary: bool)
    requires IsRadix(radix) && (radix in [2, 4, 8, 16, 32] || Pow(radix, |NoLeadingZeros(digits)|) <= Pow2(128))
    ensures var z := NoLeadingZeros(digits);
            var k := if z == [] then 0 else NumeralIndex(z, radix, frac, x, binary);
            NearestReal(Times(Times(DigitsValue(digits, radix) as real, RPow(radix, (if binary then 0 else x) - frac)),
                              RPow(2, if binary then x else 0)), k)
  {
    hide Pow, Pow2, AtodMaxDigits, DigitsValue, NearestTo, NearestReal, RPow, Times, NoLeadingZeros;
    var z := NoLeadingZeros(digits);
    LeadingZerosValue(digits, radix);
    if z == [] {
      assert DigitsValue(z, radix) == 0 by { NothingWritten(radix); }
      ZeroNearest(radix, (if binary then 0 else x) - frac, if binary then x else 0);
    } else {
      if !PowerOfTwo(radix) && |z| > AtodMaxDigits(radix) {
        AtodDigitsMost(radix);
        PowMonotone(radix, AtodMaxDigits(radix) + 1, |z|);
        assert false;
      }
      NearestToReal(DigitsValue(z, radix), radix, (if binary then 0 else x) - frac, if binary then x else 0);
    }
  }

  lemma NothingWritten(radix: nat)
    ensures DigitsValue([], radix) == 0
  {}

  lemma ZeroNearest(radix: nat, f: int, t: int)
    requires radix >= 1
    ensures NearestReal(Times(Times(0 as real, RPow(radix, f)), RPow(2, t)), 0)
  {
    hide RPow, Grid;
    assert Times(Times(0 as real, RPow(radix, f)), RPow(2, t)) == 0.0;
    assert Grid(0) == 0 by { GridZero(); }
    PositiveThreshold();
    forall j: nat
      ensures Gap(DoubleReal(0), 0.0) <= Gap(DoubleReal(j), 0.0)
      ensures j != 0 ==> Gap(DoubleReal(0), 0.0) < Gap(DoubleReal(j), 0.0)
    {
      if j > 0 {
        GridMonotone(0, j);
        DoubleRealIs(j);
        TimesPositive(Grid(j) as real, RPow(2, 0 - 1074));
      }
    }
  }

  lemma PositiveThreshold()
    ensures RPow(2, 1024) - RPow(2, 970) > 0.0
  {
    hide RPow;
    TwoIs(1024);
    TwoIs(970);
    TwoNext(970);
    TwoMonotone(971, 1024);
    TwoIs(971);
  }

  /** Longer numerals in the other radices keep their first n digits, the most that stay
      within 2^128; the rest counts for less than one unit of the last digit kept. */
  lemma LongNumerals(digits: seq<nat>, radix: nat, frac: int, x: int) returns (n: nat, d: nat, j: nat)
    requires TableRadix(radix) && AllDigits(digits, radix) && Pow(radix, |NoLeadingZeros(digits)|) > Pow2(128)
    ensures Pow(radix, n) <= Pow2(128) < Pow(radix, n + 1) && n + j == |NoLeadingZeros(digits)|
    ensures d * Pow(radix, j) <= DigitsValue(digits, radix) < d * Pow(radix, j) + Pow(radix, j)
    ensures NearestReal(Times(Times(d as real, RPow(radix, j + x - frac)), RPow(2, 0)),
                        NumeralIndex(NoLeadingZeros(digits), radix, frac, x, false))
  {
    hide Pow, Pow2, AtodMaxDigits, DigitsValue, NearestTo, NearestReal, RPow, Times, NoLeadingZeros;
    var z := NoLeadingZeros(digits);
    LeadingZerosValue(digits, radix);
    ZerosDropped(digits, radix);
    n := AtodMaxDigits(radix);
    AtodDigits(radix);
    AtodDigitsMost(radix);
    if |z| <= n {
      PowMonotone(radix, |z|, n);
      assert false;
    }
    j := |z| - n;
    d := DigitsValue(z[..n], radix);
    DigitsValueSplit(z[..n], z[n..], radix);
    assert z[..n] + z[n..] == z;
    DigitsValueBound(z[n..], radix);
    NearestToReal(d, radix, j + x - frac, 0);
  }

  lemma {:induction false} ZerosDropped(digits: seq<nat>, radix: nat)
    requires AllDigits(digits, radix)
    ensures AllDigits(NoLeadingZeros(digits), radix)
    ensures |NoLeadingZeros(digits)| <= |digits|
  {
    if |digits| > 0 && digits[0] == 0 {
      ZerosDropped(digits[1..], radix);
    }
  }

  // ----- numerals as text

  /** The exponent part of a numeral, if there is one. */
  datatype Power = NoPower | PowerOf(letter: char, sign: string, digits: string)

  /** The digits of a numeral with a dot among them or none, and its exponent. */
  datatype Numeral = Numeral(ip: string, dot: bool, fp: string, power: Power)

  predicate AreDigits(ds: string, radix: nat) {
    forall i :: 0 <= i < |ds| ==> ToDigit(ds[i]) < radix
  }

  function DigitsIn(ds: string): seq<nat> {
    seq(|ds|, i requires 0 <= i < |ds| => ToDigit(ds[i]))
  }

  lemma DigitsInSpell(ds: string, radix: nat)
    requires AreDigits(ds, radix) && radix <= 36
    ensures Spells(ds, DigitsIn(ds), radix)
  {}

  function PowerText(p: Power): string {
    match p
    case NoPower => ""
    case PowerOf(letter, sign, digits) => [letter] + sign + digits
  }

  function NumeralText(n: Numeral): string {
    n.ip + (if n.dot then "." else "") + n.fp + PowerText(n.power)
  }

  /** The exponent says x. */
  function PowerValue(p: Power): int {
    match p
    case NoPower => 0
    case PowerOf(_, sign, digits) =>
      if sign == "-" then 0 - DigitsValue(DigitsIn(digits), 10) else DigitsValue(DigitsIn(digits), 10)
  }

  /** And counts powers of two after 'p'. */
  predicate Binary(p: Power) {
    p.PowerOf? && (p.letter == 'p' || p.letter == 'P')
  }

  /** A numeral in the radix of s: digits, at least one unless there is a prefix; dot and
      exponent only outside integers; behind it nothing that would continue it. */
  predicate IsNumeral(n: Numeral, rest: string, s: Style, started: bool) {
    && IsRadix(s.radix) && AreDigits(n.ip, s.radix) && AreDigits(n.fp, s.radix) && (started || |n.ip| + |n.fp| > 0)
    && (if n.dot then s.dots else n.fp == "")
    && match n.power
       case NoPower => EndsDigits(rest, s, n.dot) && !(s.dots && ExponentStart(Head(rest), s.radix))
       case PowerOf(letter, sign, digits) =>
         s.dots && ExponentStart(letter, s.radix) && sign in ["", "+", "-"] && |digits| > 0 && AreDigits(digits, 10)
         && EndsExponent(rest, s)
  }

  /** The number: D * R^(x - f), or D * R^-f * 2^x after 'p', for the digits D, f of them
      behind the dot, and the exponent x. */
  ghost function ValueIn(n: Numeral, radix: nat): real
    requires radix >= 1
  {
    var x := PowerValue(n.power);
    Times(Times(DigitsValue(DigitsIn(n.ip + n.fp), radix) as real, RPow(radix, (if Binary(n.power) then 0 else x) - |n.fp|)),
          RPow(2, if Binary(n.power) then x else 0))
  }

  /** Whether every digit of the numeral counts. */
  predicate AllCount(n: Numeral, radix: nat) {
    radix in [2, 4, 8, 16, 32] || Pow(radix, |NoLeadingZeros(DigitsIn(n.ip + n.fp))|) <= Pow2(128)
  }

  /** The index that a numeral reads as. */
  function IndexOf(n: Numeral, radix: nat): nat
    requires IsRadix(radix)
  {
    var z := NoLeadingZeros(DigitsIn(n.ip + n.fp));
    if z == [] then 0 else NumeralIndex(z, radix, |n.fp|, PowerValue(n.power), Binary(n.power))
  }

  /** A numeral reads as the double nearest to its value. */
  lemma ReadsNumeral(n: Numeral, rest: string, s: Style, started: bool, neg: bool) returns (k: nat)
    requires IsNumeral(n, rest, s, started)
    ensures ReadNumeral(Cursor(NumeralText(n) + rest, started, 0, -1), s, neg) == Reading(neg, k, rest)
    ensures k == IndexOf(n, s.radix) && (AllCount(n, s.radix) ==> NearestReal(ValueIn(n, s.radix), k))
  {
    hide ScanDigits, SkipZeros, NearestReal, NumeralIndex, DigitsValue, RPow, Times, Pow, Pow2, NoLeadingZeros, ReadExponent,
      ExponentStart, EndsDigits, EndsExponent, AreDigits, Spells;
    var tail := PowerText(n.power) + rest;
    var text := n.ip + (if n.dot then "." else "") + n.fp;
    assert NumeralText(n) + rest == text + tail;
    DigitsInSpell(n.ip, s.radix);
    DigitsInSpell(n.fp, s.radix);
    assert DigitsIn(n.ip + n.fp) == DigitsIn(n.ip) + DigitsIn(n.fp);
    TailEnds(n, rest, s, started);
    ScanParts(n.ip, n.fp, n.dot, tail, DigitsIn(n.ip), DigitsIn(n.fp), s, started);
    SkipThenScan(Cursor(text + tail, started, 0, -1), s);
    var x, z := PowerValue(n.power), NoLeadingZeros(DigitsIn(n.ip + n.fp));
    ReadsTail(n, rest, s, |n.ip| + |n.fp|, if n.dot then |n.ip| else -1, started);
    k := if z == [] then 0 else NumeralIndex(z, s.radix, |n.fp|, x, Binary(n.power));
    if AllCount(n, s.radix) {
      AllDigitsCount(DigitsIn(n.ip + n.fp), s.radix, |n.fp|, x, Binary(n.power));
    }
  }

  lemma TailEnds(n: Numeral, rest: string, s: Style, started: bool)
    requires IsNumeral(n, rest, s, started)
    ensures EndsDigits(PowerText(n.power) + rest, s, n.dot)
  {
    if n.power.NoPower? {
      assert "" + rest == rest;
    } else {
      assert PowerText(n.power) + rest == [n.power.letter] + (n.power.sign + n.power.digits + rest);
      LetterEndsDigits(n.power.letter, n.power.sign + n.power.digits + rest, s, n.dot);
    }
  }

  lemma LetterEndsDigits(letter: char, t: string, s: Style, dot: bool)
    requires IsRadix(s.radix) && ExponentStart(letter, s.radix)
    ensures EndsDigits([letter] + t, s, dot)
  {}

  /** The exponent part is read as written. */
  lemma ReadsTail(n: Numeral, rest: string, s: Style, pos: nat, dot: int, started: bool)
    requires IsNumeral(n, rest, s, started)
    ensures ReadExponent(Cursor(PowerText(n.power) + rest, true, pos, dot), s) == match n.power
              case NoPower => NoExponent
              case PowerOf(_, sign, digits) => Written(sign == "-", DigitsIn(digits), Binary(n.power), rest)
  {
    hide ScanExponent, AtExponent, EndsDigits, DigitsValue, DigitsIn;
    match n.power
    case NoPower =>
      assert "" + rest == rest;
      var c := Cursor(rest, true, pos, dot);
      if s.dots { StartsExponent(c, s); } else { NoDotsNoExponent(c, s); }
    case PowerOf(letter, sign, digits) =>
      DigitsInSpell(digits, 10);
      ReadParts(letter, sign, digits, DigitsIn(digits), rest, pos, dot, s);
  }

  lemma NoDotsNoExponent(c: Cursor, s: Style)
    requires !s.dots
    ensures !AtExponent(c, s)
  {}

  // ----- prefixes

  /** 0x announces radix 16, 0o radix 8 and 0b radix 2, the last two on demand. */
  predicate Announces(pre: string, radix: nat, flags: Flags, r: nat) {
    || (pre in ["0x", "0X"] && radix in [0, 16] && r == 16)
    || (pre in ["0o", "0O"] && radix == 0 && flags.binOct && r == 8)
    || (pre in ["0b", "0B"] && radix == 0 && flags.binOct && r == 2)
  }

  /** A text that starts with no prefix, nor like a legacy octal number, nor with
      Infinity. */
  predicate NoPrefix(t: string, radix: nat, flags: Flags) {
    && (forall r :: 2 <= r <= 16 ==> |t| >= 2 ==> !Announces(t[..2], radix, flags, r))
    && (flags.legacyOctal && radix == 0 && |t| >= 2 && t[0] == '0' ==> !('0' <= t[1] <= '9'))
    && (flags.intOnly || !("Infinity" <= t))
  }

  lemma PrefixRead(pre: string, t: string, radix: nat, flags: Flags, r: nat)
    requires Announces(pre, radix, flags, r) && ToDigit(Head(t)) < r
    ensures ReadPrefix(pre + t, radix, flags) == Start(Cursor(t, true, 0, -1), Style(r, !flags.intOnly, flags.underscores))
  {
    assert (pre + t)[2..] == t;
  }

  /** A prefix without a digit behind it is no number. */
  lemma PrefixAlone(sign: string, pre: string, t: string, radix: nat, flags: Flags, r: nat)
    requires sign in ["", "+", "-"] && Announces(pre, radix, flags, r) && ToDigit(Head(t)) >= r && IsRadixOrAuto(radix)
    ensures Meaning(sign + pre + t, radix, flags) == Invalid(t)
  {
    Joined(sign, pre, t, "");
    BadPrefixRead(pre, t, radix, flags, r);
    SignedBad(sign, pre + t, radix, flags, t);
  }

  lemma SignedBad(sign: string, t: string, radix: nat, flags: Flags, u: string)
    requires IsRadixOrAuto(radix) && sign in ["", "+", "-"] && (sign == "" ==> Head(t) != '+' && Head(t) != '-')
    requires ReadPrefix(t, radix, flags) == BadPrefix(u)
    ensures Meaning(sign + t, radix, flags) == Invalid(u)
  {
    hide ReadNumeral, ReadPrefix, AfterSign;
    SignRead(sign, t);
  }

  lemma BadPrefixRead(pre: string, t: string, radix: nat, flags: Flags, r: nat)
    requires Announces(pre, radix, flags, r) && ToDigit(Head(t)) >= r
    ensures ReadPrefix(pre + t, radix, flags) == BadPrefix(t)
  {
    assert (pre + t)[2..] == t;
  }

  lemma PlainRead(t: string, radix: nat, flags: Flags)
    requires NoPrefix(t, radix, flags)
    ensures ReadPrefix(t, radix, flags)
            == Start(Cursor(t, false, 0, -1), Style(if radix == 0 then 10 else radix, !flags.intOnly, flags.underscores))
  {
    if |t| >= 2 {
      var h := t[..2];
      assert h == [t[0], t[1]];
      assert Announces(h, radix, flags, 16) == (h in ["0x", "0X"] && radix in [0, 16]);
      assert Announces(h, radix, flags, 8) == (h in ["0o", "0O"] && radix == 0 && flags.binOct);
      assert Announces(h, radix, flags, 2) == (h in ["0b", "0B"] && radix == 0 && flags.binOct);
    }
  }

  /** A zero in front of octal digits alone, where that is allowed. */
  lemma LegacyRead(ds: string, rest: string, flags: Flags)
    requires flags.legacyOctal && |ds| > 0 && AreDigits(ds, 8) && !('0' <= Head(rest) <= '9')
    ensures ReadPrefix("0" + ds + rest, 0, flags) == Start(Cursor(ds + rest, true, 0, -1), Style(8, !flags.intOnly, false))
  {
    assert ("0" + ds + rest)[1..] == ds + rest;
    RunOfOctals(ds, rest);
  }

  lemma {:induction false} RunOfOctals(ds: string, rest: string)
    requires AreDigits(ds, 8) && !('0' <= Head(rest) <= '9')
    ensures OctalRun(ds + rest)
    decreases |ds|
  {
    if |ds| > 0 {
      assert (ds + rest)[1..] == ds[1..] + rest;
      RunOfOctals(ds[1..], rest);
    } else {
      assert ds + rest == rest;
    }
  }

  /** But an 8 or 9 among the digits makes the number decimal. */
  lemma NotLegacy(ds: string, nine: char, t: string, flags: Flags)
    requires flags.legacyOctal && AreDigits(ds, 8) && nine in ['8', '9']
    ensures ReadPrefix("0" + ds + [nine] + t, 0, flags)
            == Start(Cursor("0" + ds + [nine] + t, false, 0, -1), Style(10, !flags.intOnly, false))
  {
    assert ("0" + ds + [nine] + t)[1..] == ds + ([nine] + t);
    NoRunOfOctals(ds, nine, t);
    if |ds| > 0 { assert ("0" + ds + [nine] + t)[1] == ds[0]; } else { assert ("0" + ds + [nine] + t)[1] == nine; }
  }

  lemma {:induction false} NoRunOfOctals(ds: string, nine: char, t: string)
    requires AreDigits(ds, 8) && nine in ['8', '9']
    ensures !OctalRun(ds + ([nine] + t))
    decreases |ds|
  {
    if |ds| > 0 {
      assert (ds + ([nine] + t))[1..] == ds[1..] + ([nine] + t);
      NoRunOfOctals(ds[1..], nine, t);
    } else {
      assert ds + ([nine] + t) == [nine] + t;
    }
  }

  lemma SignRead(sign: string, t: string)
    requires sign in ["", "+", "-"] && (sign == "" ==> Head(t) != '+' && Head(t) != '-')
    ensures AfterSign(sign + t) == t && Negative(sign + t) == (sign == "-")
  {
    if sign == "" { assert sign + t == t; } else { assert (sign + t)[1..] == t; }
  }

  // ----- what a text means

  /** A text without a prefix reads as the double nearest to its number, in the radix
      given, or 10. */
  lemma PlainMeans(sign: string, n: Numeral, rest: string, radix: nat, flags: Flags) returns (k: nat)
    requires IsRadixOrAuto(radix) && sign in ["", "+", "-"] && NoPrefix(NumeralText(n) + rest, radix, flags)
    requires IsNumeral(n, rest, Style(if radix == 0 then 10 else radix, !flags.intOnly, flags.underscores), false)
    ensures Meaning(sign + NumeralText(n) + rest, radix, flags) == Reading(sign == "-", k, rest)
    ensures var r := if radix == 0 then 10 else radix;
            IsRadix(r) && k == IndexOf(n, r) && (AllCount(n, r) ==> NearestReal(ValueIn(n, r), k))
  {
    hide IndexOf, ReadNumeral, NumeralText, NearestReal, ValueIn, AllCount, ReadPrefix;
    var s := Style(if radix == 0 then 10 else radix, !flags.intOnly, flags.underscores);
    var t := NumeralText(n) + rest;
    NumeralStart(n, rest, s);
    Joined(sign, NumeralText(n), rest, "");
    PlainRead(t, radix, flags);
    k := ReadsNumeral(n, rest, s, false, sign == "-");
    SignedStart(sign, t, radix, flags, Cursor(t, false, 0, -1), s);
  }

  /** Where not every digit counts, the first m digits behind leading zeros do, the most
      that stay within 2^128: the double is the one nearest to the number d that they
      write, scaled up by the j digits left out, which is at most the whole number D and
      off by less than one unit of the last digit kept. */
  lemma LongMeans(sign: string, n: Numeral, rest: string, radix: nat, flags: Flags) returns (k: nat, m: nat, d: nat, j: nat)
    requires IsRadix(radix) && sign in ["", "+", "-"] && NoPrefix(NumeralText(n) + rest, radix, flags)
    requires IsNumeral(n, rest, Style(radix, !flags.intOnly, flags.underscores), false) && !AllCount(n, radix)
    ensures Meaning(sign + NumeralText(n) + rest, radix, flags) == Reading(sign == "-", k, rest)
    ensures Pow(radix, m) <= Pow2(128) < Pow(radix, m + 1) && m + j == |NoLeadingZeros(DigitsIn(n.ip + n.fp))|
    ensures var all := DigitsValue(DigitsIn(n.ip + n.fp), radix);
            d * Pow(radix, j) <= all < d * Pow(radix, j) + Pow(radix, j)
    ensures NearestReal(Times(Times(d as real, RPow(radix, j + PowerValue(n.power) - |n.fp|)), RPow(2, 0)), k)
  {
    LongIs(n, rest, Style(radix, !flags.intOnly, flags.underscores));
    hide *;
    k := PlainMeans(sign, n, rest, radix, flags);
    m, d, j := LongIndex(n, radix);
  }

  lemma LongIndex(n: Numeral, radix: nat) returns (m: nat, d: nat, j: nat)
    requires TableRadix(radix) && AllDigits(DigitsIn(n.ip + n.fp), radix) && !Binary(n.power)
    requires Pow(radix, |NoLeadingZeros(DigitsIn(n.ip + n.fp))|) > Pow2(128) && NoLeadingZeros(DigitsIn(n.ip + n.fp)) != []
    ensures Pow(radix, m) <= Pow2(128) < Pow(radix, m + 1) && m + j == |NoLeadingZeros(DigitsIn(n.ip + n.fp))|
    ensures var all := DigitsValue(DigitsIn(n.ip + n.fp), radix);
            d * Pow(radix, j) <= all < d * Pow(radix, j) + Pow(radix, j)
    ensures NearestReal(Times(Times(d as real, RPow(radix, j + PowerValue(n.power) - |n.fp|)), RPow(2, 0)), IndexOf(n, radix))
  {
    hide NumeralIndex, NearestReal, DigitsValue, NoLeadingZeros, Pow, Pow2, Times, RPow, DigitsIn, PowerValue, Binary;
    m, d, j := LongNumerals(DigitsIn(n.ip + n.fp), radix, |n.fp|, PowerValue(n.power));
  }

  lemma LongIs(n: Numeral, rest: string, s: Style)
    requires IsNumeral(n, rest, s, false) && !AllCount(n, s.radix)
    ensures TableRadix(s.radix) && AllDigits(DigitsIn(n.ip + n.fp), s.radix) && !Binary(n.power)
    ensures Pow(s.radix, |NoLeadingZeros(DigitsIn(n.ip + n.fp))|) > Pow2(128) && NoLeadingZeros(DigitsIn(n.ip + n.fp)) != []
  {
    hide Pow, Pow2, EndsDigits, EndsExponent;
    PowZeroth(s.radix);
    Pow2Monotone(0, 128);
    assert Pow2(0) == 1 by { OneUnit(); }
  }

  lemma NumeralStart(n: Numeral, rest: string, s: Style)
    requires IsNumeral(n, rest, s, false)
    ensures var t := NumeralText(n) + rest; Head(t) != '+' && Head(t) != '-'
  {
    var t := NumeralText(n) + rest;
    if |n.ip| > 0 {
      assert t[0] == n.ip[0];
    } else if !n.dot {
      assert false;
    } else {
      assert t[0] == '.';
    }
  }

  /** A text with a prefix, in the radix of the prefix. */
  lemma PrefixMeans(sign: string, pre: string, n: Numeral, rest: string, radix: nat, flags: Flags, r: nat) returns (k: nat)
    requires IsRadixOrAuto(radix) && sign in ["", "+", "-"] && Announces(pre, radix, flags, r) && |n.ip| > 0
    requires IsNumeral(n, rest, Style(r, !flags.intOnly, flags.underscores), true)
    ensures Meaning(sign + pre + NumeralText(n) + rest, radix, flags) == Reading(sign == "-", k, rest)
    ensures NearestReal(ValueIn(n, r), k)
  {
    hide ReadNumeral, NumeralText, NearestReal, ValueIn, ReadPrefix;
    var s := Style(r, !flags.intOnly, flags.underscores);
    var t := NumeralText(n) + rest;
    NumeralHead(n, rest, s);
    PrefixRead(pre, t, radix, flags, r);
    Joined(sign, pre, NumeralText(n), rest);
    k := ReadsNumeral(n, rest, s, true, sign == "-");
    SignedStart(sign, pre + t, radix, flags, Cursor(t, true, 0, -1), s);
    PrefixRadix(pre, radix, flags, n, r);
  }

  lemma PrefixRadix(pre: string, radix: nat, flags: Flags, n: Numeral, r: nat)
    requires Announces(pre, radix, flags, r)
    ensures r >= 1 && AllCount(n, r)
  {}

  lemma NumeralHead(n: Numeral, rest: string, s: Style)
    requires IsNumeral(n, rest, s, true) && |n.ip| > 0
    ensures Head(NumeralText(n) + rest) == n.ip[0] && ToDigit(n.ip[0]) < s.radix
  {
    assert (NumeralText(n) + rest)[0] == n.ip[0];
  }

  lemma Joined(a: string, b: string, c: string, d: string)
    ensures a + b + c + d == a + (b + (c + d)) && a + b + c == a + (b + c)
  {}

  /** The sign goes first, then the prefix decides. */
  lemma SignedStart(sign: string, t: string, radix: nat, flags: Flags, c: Cursor, s: Style)
    requires IsRadixOrAuto(radix) && sign in ["", "+", "-"] && (sign == "" ==> Head(t) != '+' && Head(t) != '-')
    requires ReadPrefix(t, radix, flags) == Start(c, s) && IsRadix(s.radix)
    ensures Meaning(sign + t, radix, flags) == ReadNumeral(c, s, sign == "-")
  {
    hide ReadNumeral, ReadPrefix, AfterSign;
    SignRead(sign, t);
    MeaningFrom(sign + t, radix, flags, c, s);
  }

  /** Legacy octal: without separators and, as digits of it, only what belongs to radix 8. */
  lemma LegacyMeans(sign: string, n: Numeral, rest: string, flags: Flags) returns (k: nat)
    requires sign in ["", "+", "-"] && flags.legacyOctal && |n.ip| > 0
    requires IsNumeral(n, rest, Style(8, !flags.intOnly, false), true)
    requires !('0' <= Head((if n.dot then "." else "") + n.fp + PowerText(n.power) + rest) <= '9')
    ensures Meaning(sign + "0" + NumeralText(n) + rest, 0, flags) == Reading(sign == "-", k, rest)
    ensures NearestReal(ValueIn(n, 8), k)
  {
    hide ReadNumeral, NumeralText, NearestReal, ValueIn, ReadPrefix, PowerText, OctalRun;
    var s := Style(8, !flags.intOnly, false);
    var t := NumeralText(n) + rest;
    var after := (if n.dot then "." else "") + n.fp + PowerText(n.power) + rest;
    NumeralSplit(n, rest);
    LegacyRead(n.ip, after, flags);
    assert "0" + n.ip + after == "0" + t by { Joined("0", n.ip, after, ""); }
    Joined(sign, "0", NumeralText(n), rest);
    k := ReadsNumeral(n, rest, s, true, sign == "-");
    SignedStart(sign, "0" + t, 0, flags, Cursor(t, true, 0, -1), s);
  }

  lemma NumeralSplit(n: Numeral, rest: string)
    ensures NumeralText(n) + rest == n.ip + ((if n.dot then "." else "") + n.fp + PowerText(n.power) + rest)
  {}

  /** Infinity is read as such, except where integers are asked for. */
  lemma InfinityMeans(sign: string, rest: string, radix: nat, flags: Flags)
    requires IsRadixOrAuto(radix) && sign in ["", "+", "-"] && !flags.intOnly
    ensures Meaning(sign + "Infinity" + rest, radix, flags) == Reading(sign == "-", INFINITY, rest)
  {
    var t := "Infinity" + rest;
    Joined(sign, "Infinity", rest, "");
    SignRead(sign, t);
    assert t[..8] == "Infinity" && t[8..] == rest && t[0] == 'I';
    hide AfterSign, ReadNumeral;
  }

  /** A letter that starts an exponent must have digits behind it and its sign. */
  lemma BadExponentMeans(sign: string, ip: string, letter: char, esign: string, rest: string, radix: nat, flags: Flags)
    requires IsRadix(radix) && sign in ["", "+", "-"] && !flags.intOnly && |ip| > 0 && AreDigits(ip, radix)
    requires ExponentStart(letter, radix) && esign in ["", "+", "-"] && ToDigit(Head(rest)) >= 10
    requires esign == "" ==> Head(rest) != '+' && Head(rest) != '-'
    requires NoPrefix(ip + ([letter] + esign + rest), radix, flags)
    ensures Meaning(sign + ip + ([letter] + esign + rest), radix, flags) == Invalid(rest)
  {
    var s := Style(radix, true, flags.underscores);
    var tail := [letter] + esign + rest;
    var t := ip + tail;
    DigitsInSpell(ip, radix);
    var digits := DigitsIn(ip);
    hide DigitsIn, ScanDigits, SkipZeros, NumeralIndex, ReadPrefix, ReadExponent, ReadNumeral, NoPrefix, NoLeadingZeros, ExponentStart,
      Spells, AreDigits, Meaning, EndsDigits;
    FirstSpelled(ip, digits, radix);
    Joined(sign, ip, tail, "");
    PlainRead(t, radix, flags);
    SignedStart(sign, t, radix, flags, Cursor(t, false, 0, -1), s);
    Joined([letter], esign, rest, "");
    LetterEndsDigits(letter, esign + rest, s, false);
    NoFraction(ip, tail, digits, s);
    SkipThenScan(Cursor(t, false, 0, -1), s);
    NoExponentDigits(letter, esign, rest, |ip|, s);
    ReadsBad(Cursor(t, false, 0, -1), Cursor(tail, true, |ip|, -1), s, sign == "-", rest);
  }

  lemma ReadsBad(c0: Cursor, c: Cursor, s: Style, neg: bool, rest: string)
    requires IsRadix(s.radix) && ScanDigits(SkipZeros(c0, s), s).1 == c && ReadExponent(c, s) == BadExponent(rest)
    ensures ReadNumeral(c0, s, neg) == Invalid(rest)
  {
    hide ScanDigits, SkipZeros, ReadExponent, NumeralIndex;
  }

  lemma FirstSpelled(ip: string, digits: seq<nat>, radix: nat)
    requires |ip| > 0 && Spells(ip, digits, radix)
    ensures ip[0] != '+' && ip[0] != '-'
  {
    DigitIsPlain(ip[0]);
  }

  lemma NoFraction(ip: string, tail: string, digits: seq<nat>, s: Style)
    requires |ip| > 0 && Spells(ip, digits, s.radix) && s.radix <= 36 && EndsDigits(tail, s, false)
    ensures ScanDigits(Cursor(ip + tail, false, 0, -1), s) == (digits, Cursor(tail, true, |ip|, -1))
  {
    hide ScanDigits, EndsDigits;
    ScanParts(ip, "", false, tail, digits, [], s, false);
    assert ip + "" + "" + tail == ip + tail && digits + [] == digits;
  }

  lemma NoExponentDigits(letter: char, esign: string, rest: string, pos: nat, s: Style)
    requires IsRadix(s.radix) && s.dots && ExponentStart(letter, s.radix) && esign in ["", "+", "-"] && ToDigit(Head(rest)) >= 10
    requires esign == "" ==> Head(rest) != '+' && Head(rest) != '-'
    ensures ReadExponent(Cursor([letter] + esign + rest, true, pos, -1), s) == BadExponent(rest)
  {
    hide AtExponent, ExponentStart;
    var t := [letter] + esign + rest;
    StartsExponent(Cursor(t, true, pos, -1), s);
    assert t[1 + |esign|..] == rest;
    if esign != "" { assert t[1] == esign[0]; } else if |rest| > 0 { assert t[1] == rest[0]; }
  }

  /** Where separators are allowed, one between two digits might as well not be there. */
  lemma SeparatorMeans(sign: string, ip: string, t: string, radix: nat, flags: Flags)
    requires IsRadixOrAuto(radix) && sign in ["", "+", "-"] && flags.underscores
    requires NoPrefix(ip + ("_" + t), radix, flags) && NoPrefix(ip + t, radix, flags)
    requires var r := if radix == 0 then 10 else radix; |ip| > 0 && AreDigits(ip, r) && ToDigit(Head(t)) < r
    ensures Meaning(sign + (ip + ("_" + t)), radix, flags) == Meaning(sign + (ip + t), radix, flags)
  {
    var r := if radix == 0 then 10 else radix;
    StyleIs(radix, r);
    DigitsInSpell(ip, r);
    hide *;
    var s, digits := Style(r, !flags.intOnly, true), DigitsIn(ip);
    FirstSpelled(ip, digits, r);
    Headed(ip, "_" + t);
    Headed(ip, t);
    PlainRead(ip + ("_" + t), radix, flags);
    PlainRead(ip + t, radix, flags);
    var a, b := Cursor(ip + ("_" + t), false, 0, -1), Cursor(ip + t, false, 0, -1);
    SignedStart(sign, ip + ("_" + t), radix, flags, a, s);
    SignedStart(sign, ip + t, radix, flags, b, s);
    ScanSeparated(ip, digits, t, s);
    SameReading(a, b, s, sign == "-");
  }

  lemma StyleIs(radix: nat, r: nat)
    requires IsRadixOrAuto(radix) && r == if radix == 0 then 10 else radix
    ensures IsRadix(r) && r <= 36
  {}

  lemma Headed(ip: string, t: string)
    requires |ip| > 0
    ensures Head(ip + t) == ip[0]
  {}

  lemma ScanSeparated(ip: string, digits: seq<nat>, t: string, s: Style)
    requires s.sep && s.radix <= 36 && |ip| > 0 && Spells(ip, digits, s.radix) && ToDigit(Head(t)) < s.radix
    ensures ScanDigits(Cursor(ip + ("_" + t), false, 0, -1), s) == ScanDigits(Cursor(ip + t, false, 0, -1), s)
  {
    hide *;
    ScanRun(ip, digits, "_" + t, false, 0, -1, s);
    ScanRun(ip, digits, t, false, 0, -1, s);
    SeparatorPassed(t, |ip|, -1, s);
  }

  lemma SameReading(a: Cursor, b: Cursor, s: Style, neg: bool)
    requires IsRadix(s.radix) && ScanDigits(a, s) == ScanDigits(b, s)
    ensures ReadNumeral(a, s, neg) == ReadNumeral(b, s, neg)
  {
    SkipThenScan(a, s);
    SkipThenScan(b, s);
    hide NoLeadingZeros, ScanDigits, SkipZeros, ReadExponent, NumeralIndex;
  }

  // ----- texts with a prefix

  lemma PlainText(sign: string, ip: string, dot: bool, fp: string)
    ensures sign + NumeralText(Numeral(ip, dot, fp, NoPower)) + "" == sign + (ip + (if dot then "." else "") + fp)
  {
    var t := NumeralText(Numeral(ip, dot, fp, NoPower));
    assert t == ip + (if dot then "." else "") + fp;
    assert sign + t + "" == sign + t;
  }

  lemma PrefixText(sign: string, pre: string, ds: string)
    ensures sign + pre + NumeralText(Numeral(ds, false, "", NoPower)) + "" == sign + (pre + ds)
  {
    var t := NumeralText(Numeral(ds, false, "", NoPower));
    assert t == ds;
    Joined(sign, pre, ds, "");
  }

  lemma Announced(pre: string, flags: Flags, r: nat)
    requires pre in ["0x", "0X", "0o", "0O", "0b", "0B"] && (flags.binOct || pre in ["0x", "0X"])
    requires r == if pre in ["0x", "0X"] then 16 else if pre in ["0o", "0O"] then 8 else 2
    ensures Announces(pre, 0, flags, r) && r in [2, 8, 16]
  {}

  lemma NothingBehind(n: Numeral)
    requires !n.dot && n.fp == "" && n.power == NoPower
    ensures Head((if n.dot then "." else "") + n.fp + PowerText(n.power) + "") == '\0'
  {}

  /** Integers with a prefix: 0x in radix 16, 0o in radix 8, 0b in radix 2. */
  lemma PrefixReads(sign: string, pre: string, ds: string, flags: Flags) returns (k: nat)
    requires sign in ["", "+", "-"] && pre in ["0x", "0X", "0o", "0O", "0b", "0B"] && |ds| > 0
    requires flags.binOct || pre in ["0x", "0X"]
    requires AreDigits(ds, if pre in ["0x", "0X"] then 16 else if pre in ["0o", "0O"] then 8 else 2)
    ensures Meaning(sign + (pre + ds), 0, flags) == Reading(sign == "-", k, "")
    ensures var r := if pre in ["0x", "0X"] then 16 else if pre in ["0o", "0O"] then 8 else 2;
            NearestReal(DigitsValue(DigitsIn(ds), r) as real, k)
  {
    var r := if pre in ["0x", "0X"] then 16 else if pre in ["0o", "0O"] then 8 else 2;
    var n := Numeral(ds, false, "", NoPower);
    IntegerIs(ds, r, Style(r, !flags.intOnly, flags.underscores));
    Announced(pre, flags, r);
    PrefixText(sign, pre, ds);
    hide *;
    k := PrefixMeans(sign, pre, n, "", 0, flags, r);
  }

  lemma IntegerIs(ds: string, r: nat, s: Style)
    requires r in [2, 8, 16] && s.radix == r && |ds| > 0 && AreDigits(ds, r)
    ensures var n := Numeral(ds, false, "", NoPower);
            IsNumeral(n, "", s, true) && ValueIn(n, r) == DigitsValue(DigitsIn(ds), r) as real
  {
    hide RPow, DigitsValue, Times;
    assert ds + "" == ds;
    RPowZero(2);
    RPowZero(r);
    TimesOne(DigitsValue(DigitsIn(ds), r) as real);
  }

  /** A zero in front of octal digits: radix 8 where legacy octal numbers are allowed,
      else, or with an 8 or 9 among them, radix 10. */
  lemma LegacyReads(sign: string, ds: string, flags: Flags) returns (k: nat)
    requires sign in ["", "+", "-"] && |ds| > 0 && flags.legacyOctal && AreDigits(ds, 8)
    ensures Meaning(sign + ("0" + ds), 0, flags) == Reading(sign == "-", k, "")
    ensures NearestReal(DigitsValue(DigitsIn(ds), 8) as real, k)
  {
    var n := Numeral(ds, false, "", NoPower);
    IntegerIs(ds, 8, Style(8, !flags.intOnly, false));
    NothingBehind(n);
    PrefixText(sign, "0", ds);
    hide *;
    k := LegacyMeans(sign, n, "", flags);
  }

  // ----- texts in every radix

  /** In every radix a numeral of at most 20 digits without an exponent, with a dot or
      without, reads as the double nearest to the number of all its digits. */
  lemma PlainReads(sign: string, ip: string, dot: bool, fp: string, radix: nat, flags: Flags) returns (k: nat)
    requires IsRadix(radix) && sign in ["", "+", "-"] && !flags.intOnly && (!dot ==> fp == "")
    requires AreDigits(ip, radix) && AreDigits(fp, radix) && 1 <= |ip| + |fp| <= 20 && !("Infinity" <= ip)
    ensures Meaning(sign + (ip + (if dot then "." else "") + fp), radix, flags) == Reading(sign == "-", k, "")
    ensures NearestReal(Times(DigitsValue(DigitsIn(ip + fp), radix) as real, RPow(radix, 0 - |fp|)), k)
  {
    hide *;
    var n := Numeral(ip, dot, fp, NoPower);
    ShortIs(n, radix, flags);
    PlainValue(n, radix);
    PlainText(sign, ip, dot, fp);
    k := PlainMeans(sign, n, "", radix, flags);
  }

  lemma PlainValue(n: Numeral, radix: nat)
    requires radix >= 1 && n.power == NoPower
    ensures ValueIn(n, radix) == Times(DigitsValue(DigitsIn(n.ip + n.fp), radix) as real, RPow(radix, 0 - |n.fp|))
  {
    hide RPow, DigitsValue, Times, DigitsIn;
    RPowZero(2);
    TimesOne(Times(DigitsValue(DigitsIn(n.ip + n.fp), radix) as real, RPow(radix, 0 - |n.fp|)));
  }

  /** In every radix, a numeral of at most 20 digits with an exponent: in radix 10 after
      'e', in the others after '@' it scales by the radix; in radix 2, 4, 8 and 16 it counts
      powers of two after 'p'. */
  lemma ScaledReads(sign: string, ip: string, fp: string, letter: char, esign: string, ed: string, radix: nat, flags: Flags)
    returns (k: nat)
    requires IsRadix(radix) && sign in ["", "+", "-"] && esign in ["", "+", "-"] && !flags.intOnly
    requires AreDigits(ip, radix) && AreDigits(fp, radix) && 1 <= |ip| + |fp| <= 20 && AreDigits(ed, 10) && |ed| > 0
    requires letter in (if radix == 10 then "eE" else if radix in [2, 4, 8, 16] then "@pP" else "@")
    requires !("Infinity" <= ip)
    ensures Meaning(sign + (ip + "." + fp + ([letter] + esign + ed)), radix, flags) == Reading(sign == "-", k, "")
    ensures var e := DigitsValue(DigitsIn(ed), 10); var x := if esign == "-" then 0 - e else e;
            var d := DigitsValue(DigitsIn(ip + fp), radix) as real;
            NearestReal(if letter in "pP" then Times(Times(d, RPow(radix, 0 - |fp|)), RPow(2, x))
                        else Times(d, RPow(radix, x - |fp|)), k)
  {
    hide *;
    var n := Numeral(ip, true, fp, PowerOf(letter, esign, ed));
    ShortIs(n, radix, flags);
    ScaledValue(n, ip, fp, letter, esign, ed, radix);
    LetterText(sign, ip, fp, letter, esign, ed);
    k := PlainMeans(sign, n, "", radix, flags);
  }

  lemma ShortIs(n: Numeral, radix: nat, flags: Flags)
    requires IsRadix(radix) && AreDigits(n.ip, radix) && AreDigits(n.fp, radix) && 1 <= |n.ip| + |n.fp| <= 20
    requires !flags.intOnly && !("Infinity" <= n.ip) && (!n.dot ==> n.fp == "" && n.power == NoPower)
    requires n.power.PowerOf? ==>
      && n.power.letter in (if radix == 10 then "eE" else if radix in [2, 4, 8, 16] then "@pP" else "@")
      && n.power.sign in ["", "+", "-"] && |n.power.digits| > 0 && AreDigits(n.power.digits, 10)
    ensures IsRadixOrAuto(radix) && radix != 0 && AllCount(n, radix)
    ensures IsNumeral(n, "", Style(radix, true, flags.underscores), false) && NoPrefix(NumeralText(n) + "", radix, flags)
  {
    hide Pow, Pow2, NoLeadingZeros, NoPrefix, DigitsIn;
    TwentyCount(n.ip + n.fp, radix);
    NoPrefixIn(n, radix, flags);
  }

  lemma TwentyCount(ds: string, radix: nat)
    requires IsRadix(radix) && |ds| <= 20
    ensures Pow(radix, |NoLeadingZeros(DigitsIn(ds))|) <= Pow2(128)
  {
    hide Pow, Pow2, NoLeadingZeros;
    ZerosDropped(DigitsIn(ds), 37);
    PowMonotone(radix, |NoLeadingZeros(DigitsIn(ds))|, 20);
    PowBaseMonotone(radix, 36, 20);
    TwentyFitAll();
  }

  lemma TwentyFitAll()
    ensures Pow(36, 20) <= Pow2(128)
  {
    hide Pow, Pow2;
    AtMost(36, 20, 128);
  }

  lemma NoPrefixIn(n: Numeral, radix: nat, flags: Flags)
    requires IsRadix(radix) && AreDigits(n.ip, radix) && !("Infinity" <= n.ip)
    requires !n.dot ==> n.fp == "" && n.power == NoPower
    ensures NoPrefix(NumeralText(n) + "", radix, flags)
  {
    hide Announces, AreDigits;
    var t := NumeralText(n) + "";
    DigitsThenDot(n, t);
    if |t| >= 2 {
      SecondIs(n, t, radix);
      forall r | 2 <= r <= 16 ensures !Announces(t[..2], radix, flags, r) {
        NotAnnouncedIn(t[..2], radix, flags, r);
      }
    }
    if n.dot && "Infinity" <= t {
      NoInfinity(n.ip, t);
    }
  }

  lemma DigitsThenDot(n: Numeral, t: string)
    requires t == NumeralText(n) + "" && (!n.dot ==> n.fp == "" && n.power == NoPower)
    ensures |t| >= |n.ip| && t[..|n.ip|] == n.ip
    ensures if n.dot then |t| > |n.ip| && t[|n.ip|] == '.' else t == n.ip
  {}

  lemma NoInfinity(ip: string, t: string)
    requires |t| > |ip| && t[..|ip|] == ip && t[|ip|] == '.' && "Infinity" <= t
    ensures "Infinity" <= ip
  {
    assert forall i :: 0 <= i < 8 ==> t[i] == "Infinity"[i] && t[i] != '.';
    assert t[..8] == ip[..8];
  }

  lemma SecondIs(n: Numeral, t: string, radix: nat)
    requires AreDigits(n.ip, radix) && |t| >= 2 && |t| >= |n.ip| && t[..|n.ip|] == n.ip
    requires if n.dot then |t| > |n.ip| && t[|n.ip|] == '.' else t == n.ip
    ensures t[0] == '0' ==> ToDigit(t[1]) < radix || t[1] == '.'
  {
    if |n.ip| > 1 { assert t[1] == t[..|n.ip|][1]; }
    if |n.ip| == 0 { assert t[0] == '.'; }
  }

  lemma NotAnnouncedIn(pre: string, radix: nat, flags: Flags, r: nat)
    requires IsRadix(radix) && |pre| == 2 && (pre[0] == '0' ==> ToDigit(pre[1]) < radix || pre[1] == '.')
    ensures !Announces(pre, radix, flags, r)
  {}

  lemma ScaledValue(n: Numeral, ip: string, fp: string, letter: char, esign: string, ed: string, radix: nat)
    requires radix >= 1 && n == Numeral(ip, true, fp, PowerOf(letter, esign, ed))
    ensures var e := DigitsValue(DigitsIn(ed), 10); var x := if esign == "-" then 0 - e else e;
            var d := DigitsValue(DigitsIn(ip + fp), radix) as real;
            ValueIn(n, radix)
            == if letter in "pP" then Times(Times(d, RPow(radix, 0 - |fp|)), RPow(2, x)) else Times(d, RPow(radix, x - |fp|))
  {
    hide RPow, DigitsValue, Times, DigitsIn;
    RPowZero(2);
    TimesOne(Times(DigitsValue(DigitsIn(ip + fp), radix) as real, RPow(radix, PowerValue(n.power) - |fp|)));
  }

  lemma LetterText(sign: string, ip: string, fp: string, letter: char, esign: string, ed: string)
    ensures sign + NumeralText(Numeral(ip, true, fp, PowerOf(letter, esign, ed))) + ""
            == sign + (ip + "." + fp + ([letter] + esign + ed))
  {
    var t := NumeralText(Numeral(ip, true, fp, PowerOf(letter, esign, ed)));
    assert t == ip + "." + fp + ([letter] + esign + ed);
    assert sign + t + "" == sign + t;
  }
}

/** The grammar js_atod accepts (dtoa.c:1320-1563) and the number a text stands
    for: which characters are digits, where the dot lies, what the exponent
    says, and the one double nearest to it. */
module AtodLex {
  import opened Powers
  import opened Rounding
  import opened Float64
  import opened RadixTables
  import opened RadixLog

  /** JS_ATOD_INT_ONLY, ACCEPT_BIN_OCT, ACCEPT_LEGACY_OCTAL, ACCEPT_UNDERSCORES. */
  datatype Flags = Flags(intOnly: bool, binOct: bool, legacyOctal: bool, underscores: bool)

  /** to_digit: 36 for anything that is not a digit in any radix. */
  function ToDigit(c: char): (d: nat)
    ensures d <= 36
  {
    if '0' <= c <= '9' then (c - '0') as int
    else if 'A' <= c <= 'Z' then (c - 'A') as int + 10
    else if 'a' <= c <= 'z' then (c - 'a') as int + 10
    else 36
  }

  /** p[0] and p[1] of a C string that continues with t. */
  function Head(t: string): char {
    if |t| > 0 then t[0] else '\0'
  }

  function Second(t: string): char {
    if |t| > 1 then t[1] else '\0'
  }

  lemma HeadMeansMore(t: string)
    ensures ToDigit(Head(t)) < 36 || Head(t) == '.' || Head(t) == '_' ==> |t| > 0
  {}

  /** How digits are read: the radix, whether dots count, whether '_' separates. */
  datatype Style = Style(radix: nat, dots: bool, sep: bool)

  /** What is left to read, whether anything was read, how many digits were, and
      before how many of them the dot came (or -1). */
  datatype Cursor = Cursor(rest: string, started: bool, pos: nat, dot: int)

  predicate AtDot(c: Cursor, s: Style) {
    Head(c.rest) == '.' && (c.started || ToDigit(Second(c.rest)) < s.radix) && s.dots
  }

  function PassDot(c: Cursor, s: Style): (r: Cursor)
    ensures |r.rest| <= |c.rest|
  {
    if AtDot(c, s) then Cursor(c.rest[1..], true, c.pos, c.pos) else c
  }

  /** A separator is passed only in front of another digit below limit. */
  function PassSep(c: Cursor, s: Style, limit: nat): (r: Cursor)
    ensures |r.rest| <= |c.rest|
  {
    if s.sep && Head(c.rest) == '_' && c.started && ToDigit(Second(c.rest)) < limit then c.(rest := c.rest[1..]) else c
  }

  /** Leading zeros, with at most one dot among them. */
  function SkipZeros(c: Cursor, s: Style): Cursor
    decreases |c.rest|
  {
    if AtDot(c, s) && c.dot >= 0 then c
    else
      var c1 := PassSep(PassDot(c, s), s, 1);
      if Head(c1.rest) != '0' then c1
      else SkipZeros(Cursor(c1.rest[1..], true, c1.pos + 1, c1.dot), s)
  }

  /** The digits that follow, and the cursor behind them. */
  function ScanDigits(c: Cursor, s: Style): (seq<nat>, Cursor)
    decreases |c.rest|
  {
    if AtDot(c, s) && c.dot >= 0 then ([], c)
    else
      var c1 := PassSep(PassDot(c, s), s, s.radix);
      var d := ToDigit(Head(c1.rest));
      if d >= s.radix || c1.rest == "" then ([], c1)
      else
        var (digits, end) := ScanDigits(Cursor(c1.rest[1..], true, c1.pos + 1, c1.dot), s);
        ([d] + digits, end)
  }

  /** The number a digit string writes. */
  function DigitsValue(s: seq<nat>, radix: nat): nat {
    if |s| == 0 then 0 else DigitsValue(s[..|s| - 1], radix) * radix + s[|s| - 1]
  }

  datatype Exponent =
    | NoExponent
    | BadExponent(rest: string)
    | Written(neg: bool, digits: seq<nat>, binary: bool, rest: string)

  function BitsOf(radix: nat): nat {
    if PowerOfTwo(radix) then RadixBits(radix) else 0
  }

  /** e or E in radix 10; @ in the others, and p or P for powers of two up to 16. */
  predicate AtExponent(c: Cursor, s: Style) {
    var h := Head(c.rest);
    && s.dots && c.started
    && if s.radix == 10 then h == 'e' || h == 'E'
       else h == '@' || (1 <= BitsOf(s.radix) <= 4 && (h == 'p' || h == 'P'))
  }

  function ReadExponent(c: Cursor, s: Style): Exponent {
    if !AtExponent(c, s) then NoExponent
    else
      var binary := c.rest[0] == 'p' || c.rest[0] == 'P';
      var neg := Second(c.rest) == '-';
      var t := if neg || Second(c.rest) == '+' then c.rest[2..] else c.rest[1..];
      if ToDigit(Head(t)) >= 10 then BadExponent(t)
      else
        assert |t| > 0 by { HeadMeansMore(t); }
        var (digits, rest) := ScanExponent(t[1..], s.sep);
        Written(neg, [ToDigit(t[0])] + digits, binary, rest)
  }

  function ScanExponent(t: string, sep: bool): (seq<nat>, string)
    decreases |t|
  {
    var t1 := if sep && Head(t) == '_' && ToDigit(Second(t)) < 10 then t[1..] else t;
    if t1 == "" || ToDigit(t1[0]) >= 10 then ([], t1)
    else
      var (digits, rest) := ScanExponent(t1[1..], sep);
      ([ToDigit(t1[0])] + digits, rest)
  }

  /** The index of the double nearest to n * radix^f * 2^t. */
  function NearestTo(n: nat, radix: nat, f: int, t: int): nat
    requires radix >= 1
  {
    PowPositive(radix, Pos(0 - f));
    RoundScaled(n * Pow(radix, Pos(f)), Pow(radix, Pos(0 - f)), 1074 + t, NearestEven)
  }

  /** Powers of two use every digit; the other radices drop those beyond
      atod_max_digits. */
  function KeptDigits(digits: seq<nat>, radix: nat): seq<nat>
    requires IsRadix(radix)
  {
    if PowerOfTwo(radix) || |digits| <= AtodMaxDigits(radix) then digits else digits[..AtodMaxDigits(radix)]
  }

  /** The double (or infinity) nearest to the numeral with these digits, frac of
      them behind the dot, and exponent x. */
  function NumeralIndex(digits: seq<nat>, radix: nat, frac: int, x: int, binary: bool): (k: nat)
    requires IsRadix(radix)
    ensures k <= INFINITY
  {
    var kept := KeptDigits(digits, radix);
    var f := |digits| - |kept| - frac + if binary then 0 else x;
    var k := NearestTo(DigitsValue(kept, radix), radix, f, if binary then x else 0);
    if k < INFINITY then k else INFINITY
  }

  /** What a text turns out to be. */
  datatype Reading = Invalid(rest: string) | Reading(neg: bool, index: nat, rest: string)

  function SignedExponent(w: Exponent): int
    requires w.Written?
  {
    if w.neg then 0 - DigitsValue(w.digits, 10) else DigitsValue(w.digits, 10)
  }

  function FractionDigits(c: Cursor): int {
    if c.dot < 0 then 0 else c.pos - c.dot
  }

  /** A number from its first digit or dot on. */
  function ReadNumeral(c0: Cursor, s: Style, neg: bool): Reading
    requires IsRadix(s.radix)
  {
    var (digits, c) := ScanDigits(SkipZeros(c0, s), s);
    match ReadExponent(c, s)
    case BadExponent(rest) => Invalid(rest)
    case NoExponent =>
      if !c.started then Invalid(c.rest)
      else Reading(neg, if digits == [] then 0 else NumeralIndex(digits, s.radix, FractionDigits(c), 0, false), c.rest)
    case Written(_, _, binary, rest) =>
      var x := SignedExponent(ReadExponent(c, s));
      Reading(neg, if digits == [] then 0 else NumeralIndex(digits, s.radix, FractionDigits(c), x, binary), rest)
  }

  /** The prefixes 0x, 0o, 0b and the legacy octal 0; otherwise the number itself. */
  datatype Prefix = BadPrefix(rest: string) | Start(cursor: Cursor, style: Style) | Infinite(rest: string)

  /** Whether digits '0' to '7' are all that follows before something that is no
      decimal digit. */
  predicate OctalRun(t: string)
    decreases |t|
  {
    if t == "" then true
    else if '0' <= t[0] <= '7' then OctalRun(t[1..])
    else t[0] != '8' && t[0] != '9'
  }

  function AfterPrefix(t: string, radix: nat, flags: Flags, sep: bool): Prefix {
    if ToDigit(Head(t)) >= radix then BadPrefix(t)
    else Start(Cursor(t, true, 0, -1), Style(radix, !flags.intOnly, sep))
  }

  function Plain(t: string, radix: nat, flags: Flags, sep: bool): Prefix {
    Start(Cursor(t, false, 0, -1), Style(if radix == 0 then 10 else radix, !flags.intOnly, sep))
  }

  function ReadPrefix(t: string, radix: nat, flags: Flags): Prefix {
    if Head(t) != '0' then
      if !flags.intOnly && "Infinity" <= t then Infinite(t[8..]) else Plain(t, radix, flags, flags.underscores)
    else
      var h := Second(t);
      if (h == 'x' || h == 'X') && (radix == 0 || radix == 16) then
        AfterPrefix(t[2..], 16, flags, flags.underscores)
      else if (h == 'o' || h == 'O') && radix == 0 && flags.binOct then
        AfterPrefix(t[2..], 8, flags, flags.underscores)
      else if (h == 'b' || h == 'B') && radix == 0 && flags.binOct then
        AfterPrefix(t[2..], 2, flags, flags.underscores)
      else if '0' <= h <= '9' && radix == 0 && flags.legacyOctal then
        if OctalRun(t[1..]) then AfterPrefix(t[1..], 8, flags, false) else Plain(t, radix, flags, false)
      else Plain(t, radix, flags, flags.underscores)
  }

  predicate Negative(text: string) {
    Head(text) == '-'
  }

  function AfterSign(text: string): string {
    if Head(text) == '-' || Head(text) == '+' then text[1..] else text
  }

  predicate IsRadixOrAuto(radix: nat) {
    radix == 0 || IsRadix(radix)
  }

  /** What js_atod should make of a text: the double nearest to the number
      written, or not a number. */
  function Meaning(text: string, radix: nat, flags: Flags): Reading
    requires IsRadixOrAuto(radix)
  {
    match ReadPrefix(AfterSign(text), radix, flags)
    case BadPrefix(rest) => Invalid(rest)
    case Infinite(rest) => Reading(Negative(text), INFINITY, rest)
    case Start(c, s) => ReadNumeral(c, s, Negative(text))
  }

  // ----- where the 32 bit arithmetic of the source stays in range

  /** (INT32_MAX - 2 - 9) / 10: above it no further exponent digit is added. */
  const EXPONENT_LIMIT: nat := 214748363

  /** The exponent is so large that the source stops counting. */
  predicate Saturates(digits: seq<nat>)
    requires |digits| > 0
  {
    DigitsValue(digits[..|digits| - 1], 10) > EXPONENT_LIMIT
  }

  predicate InInt32(v: int) {
    0 - 0x8000_0000 <= v < 0x8000_0000
  }

  /** The values that the exponent arithmetic of js_atod goes through. */
  predicate WordsFit(x: int, binary: bool, radix: nat, offset: int, digitCount: nat) {
    var bits := BitsOf(radix);
    if bits != 0 then
      var e1 := if binary then x else x * bits;
      var e2 := e1 - offset * bits;
      InInt32(e1) && InInt32(offset * bits) && InInt32(e2) && InInt32(e2 + digitCount * bits)
    else
      InInt32(x - offset) && InInt32(x - offset + digitCount)
  }

  /** How many digits are kept, and the weight of the last of them. */
  function KeptCount(digits: seq<nat>, radix: nat): nat
    requires IsRadix(radix)
  {
    if |digits| <= AtodMaxDigits(radix) then |digits| else AtodMaxDigits(radix)
  }

  predicate ExponentFits(digits: seq<nat>, c: Cursor, w: Exponent, radix: nat)
    requires IsRadix(radix) && (w.Written? ==> |w.digits| > 0)
  {
    || digits == [] || w.BadExponent?
    || (w.Written? && Saturates(w.digits))
    || WordsFit(if w.Written? then SignedExponent(w) else 0, w.Written? && w.binary, radix,
                FractionDigits(c) - (|digits| - KeptCount(digits, radix)), KeptCount(digits, radix))
  }

  lemma WrittenDigits(c: Cursor, s: Style)
    ensures ReadExponent(c, s).Written? ==> |ReadExponent(c, s).digits| > 0
  {}

  predicate NumeralFits(c0: Cursor, s: Style)
    requires IsRadix(s.radix)
  {
    var (digits, c) := ScanDigits(SkipZeros(c0, s), s);
    WrittenDigits(c, s);
    ExponentFits(digits, c, ReadExponent(c, s), s.radix)
  }

  /** Whether js_atod computes within 32 bit integers on this text. */
  predicate TextFits(text: string, radix: nat, flags: Flags)
    requires IsRadixOrAuto(radix)
  {
    match ReadPrefix(AfterSign(text), radix, flags)
    case BadPrefix(_) => true
    case Infinite(_) => true
    case Start(c, s) => NumeralFits(c, s)
  }
}

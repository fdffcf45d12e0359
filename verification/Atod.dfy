/** js_atod (dtoa.c:1354-1620): the parser, on an index into the text and a big
    number for the digits. */
module Atod {
  import opened Powers
  import opened Rounding
  import opened Float64
  import opened Ieee754
  import opened Limbs
  import opened BigNum
  import opened RadixTables
  import opened RadixLog
  import opened DtoaPow
  import opened DtoaScale
  import opened DtoaRoom
  import opened AtodLex
  import opened AtodConvert

  /** The character at p of a C string: the terminator at its end. Nothing
      beyond it is ever read. */
  function At(str: string, p: nat): char
    requires p <= |str|
  {
    if p < |str| then str[p] else '\0'
  }

  function CursorAt(str: string, p: nat, pStart: nat, pos: nat, dot: int): Cursor
    requires p <= |str|
  {
    Cursor(str[p..], p > pStart, pos, dot)
  }

  lemma AtIsHead(str: string, p: nat)
    requires p <= |str|
    ensures Head(str[p..]) == At(str, p)
    ensures p < |str| ==> Second(str[p..]) == At(str, p + 1) && str[p..][1..] == str[p + 1..]
  {}

  /** The dot: *p == '.' where a dot may stand. */
  predicate DotAt(str: string, p: nat, pStart: nat, s: Style)
    requires p <= |str|
  {
    At(str, p) == '.' && (p > pStart || ToDigit(At(str, p + 1)) < s.radix) && s.dots
  }

  predicate SepAt(str: string, p: nat, pStart: nat, s: Style, limit: nat)
    requires p <= |str|
  {
    s.sep && At(str, p) == '_' && p > pStart && ToDigit(At(str, p + 1)) < limit
  }

  lemma CursorTests(str: string, p: nat, pStart: nat, pos: nat, dot: int, s: Style, limit: nat)
    requires pStart <= p <= |str|
    ensures var c := CursorAt(str, p, pStart, pos, dot);
            && (AtDot(c, s) <==> DotAt(str, p, pStart, s))
            && PassDot(c, s) == (if DotAt(str, p, pStart, s) then CursorAt(str, p + 1, pStart, pos, pos) else c)
            && PassSep(c, s, limit) == (if SepAt(str, p, pStart, s, limit) then CursorAt(str, p + 1, pStart, pos, dot) else c)
  {
    AtIsHead(str, p);
  }

  lemma ZeroStep(c: Cursor, s: Style)
    ensures AtDot(c, s) && c.dot >= 0 ==> SkipZeros(c, s) == c
    ensures !(AtDot(c, s) && c.dot >= 0) ==>
              var c1 := PassSep(PassDot(c, s), s, 1);
              SkipZeros(c, s) == if Head(c1.rest) != '0' then c1
                                 else SkipZeros(Cursor(c1.rest[1..], true, c1.pos + 1, c1.dot), s)
  {}

  /** The start of a turn of either digit loop: past a dot and a separator. A
      second dot stops the loop. */
  method PassOver(str: string, p0: nat, pStart: nat, pos: nat, dot0: int, s: Style, limit: nat)
    returns (stop: bool, p: nat, dotPos: int)
    requires pStart <= p0 <= |str| && -1 <= dot0 <= pos
    ensures p0 <= p <= |str| && -1 <= dotPos <= pos
    ensures var c := CursorAt(str, p0, pStart, pos, dot0);
            && (stop <==> AtDot(c, s) && dot0 >= 0)
            && CursorAt(str, p, pStart, pos, dotPos) == if stop then c else PassSep(PassDot(c, s), s, limit)
  {
    hide AtDot, PassDot, PassSep, DotAt, SepAt;
    p, dotPos, stop := p0, dot0, false;
    CursorTests(str, p, pStart, pos, dotPos, s, limit);
    if DotAt(str, p, pStart, s) {
      if dotPos >= 0 {
        stop := true;
        return;
      }
      dotPos := pos;
      DotIsThere(str, p, pStart, s);
      p := p + 1;
    }
    CursorTests(str, p, pStart, pos, dotPos, s, limit);
    if SepAt(str, p, pStart, s, limit) {
      SepIsThere(str, p, pStart, s, limit);
      p := p + 1;
    }
  }

  method SkipLeadingZeros(str: string, p0: nat, pStart: nat, s: Style) returns (p: nat, pos: nat, dotPos: int)
    requires pStart <= p0 <= |str|
    ensures p0 <= p <= |str| && -1 <= dotPos <= pos <= p - p0
    ensures CursorAt(str, p, pStart, pos, dotPos) == SkipZeros(CursorAt(str, p0, pStart, 0, -1), s)
  {
    hide AtDot, PassDot, PassSep, SkipZeros;
    p, pos, dotPos := p0, 0, -1;
    while true
      invariant p0 <= p <= |str| && -1 <= dotPos <= pos <= p - p0
      invariant SkipZeros(CursorAt(str, p, pStart, pos, dotPos), s) == SkipZeros(CursorAt(str, p0, pStart, 0, -1), s)
      decreases |str| - p
    {
      ZeroStep(CursorAt(str, p, pStart, pos, dotPos), s);
      var stop;
      stop, p, dotPos := PassOver(str, p, pStart, pos, dotPos, s, 1);
      AtIsHead(str, p);
      if stop || At(str, p) != '0' {
        break;
      }
      p := p + 1;
      pos := pos + 1;
    }
  }

  lemma DotIsThere(str: string, p: nat, pStart: nat, s: Style)
    requires p <= |str| && DotAt(str, p, pStart, s)
    ensures p < |str|
  {}

  lemma SepIsThere(str: string, p: nat, pStart: nat, s: Style, limit: nat)
    requires p <= |str| && SepAt(str, p, pStart, s, limit)
    ensures p < |str|
  {}

  // ----- collecting digits

  predicate AllDigits(digits: seq<nat>, radix: nat) {
    forall i :: 0 <= i < |digits| ==> digits[i] < radix
  }

  lemma {:induction false} DigitsValueBound(digits: seq<nat>, radix: nat)
    requires radix >= 1 && AllDigits(digits, radix)
    ensures DigitsValue(digits, radix) < Pow(radix, |digits|)
  {
    if |digits| > 0 {
      var n := |digits| - 1;
      DigitsValueBound(digits[..n], radix);
      var v, p := DigitsValue(digits[..n], radix), Pow(radix, n);
      MulMonotone(v + 1, p, radix);
      Distribute(v, 1, radix);
      MulCommute(p, radix);
    }
  }

  lemma DigitsValueOneMore(digits: seq<nat>, d: nat, radix: nat)
    ensures DigitsValue(digits + [d], radix) == DigitsValue(digits, radix) * radix + d
  {
    assert (digits + [d])[..|digits|] == digits;
  }

  /** The big number and the limb under construction hold the digits kept. */
  ghost predicate Collected(v: nat, cur: nat, limbDigits: nat, kept: seq<nat>, radix: nat) {
    limbDigits <= |kept| && cur < Pow(radix, limbDigits)
    && v * Pow(radix, limbDigits) + cur == DigitsValue(kept, radix)
  }

  lemma NothingCollected(radix: nat)
    ensures Collected(0, 0, 0, [], radix)
  {
    PowZeroth(radix);
  }

  lemma CollectOne(v: nat, cur: nat, limbDigits: nat, kept: seq<nat>, radix: nat, d: nat)
    requires Collected(v, cur, limbDigits, kept, radix) && d < radix
    ensures Collected(v, cur * radix + d, limbDigits + 1, kept + [d], radix)
  {
    DigitsValueOneMore(kept, d, radix);
    NextPower1(radix, limbDigits);
    hide Pow, DigitsValue;
    var p := Pow(radix, limbDigits);
    MulMonotone(cur + 1, p, radix);
    Distribute(cur, 1, radix);
    Distribute(v * p, cur, radix);
    MulAssoc(v, p, radix);
  }

  lemma NextPower1(radix: nat, n: nat)
    ensures Pow(radix, n + 1) == Pow(radix, n) * radix
  {
    MulCommute(radix, Pow(radix, n));
  }

  /** A full limb moves into the big number. */
  lemma CollectLimb(v: nat, cur: nat, limbDigits: nat, kept: seq<nat>, radix: nat)
    requires Collected(v, cur, limbDigits, kept, radix)
    ensures Collected(v * Pow(radix, limbDigits) + cur, 0, 0, kept, radix)
  {
    PowZeroth(radix);
    hide Pow, DigitsValue;
  }

  /** The digits kept fit 128 bits, so the big number stays short. */
  lemma CollectedShort(v: nat, cur: nat, limbDigits: nat, kept: seq<nat>, radix: nat, s: seq<limb>)
    requires IsRadix(radix) && Collected(v, cur, limbDigits, kept, radix)
    requires AllDigits(kept, radix) && |kept| <= AtodMaxDigits(radix)
    requires Normal(s) && Val(s) == v
    ensures |s| <= 4
  {
    hide Pow, Pow2, DigitsValue, AtodMaxDigits, Val, Weight;
    DigitsValueBound(kept, radix);
    AtodDigits(radix);
    PowMonotone(radix, |kept|, AtodMaxDigits(radix));
    PowPositive(radix, limbDigits);
    MulMonotone(1, Pow(radix, limbDigits), v);
    WeightIsPow2(4);
    NormalLength(s, 4);
  }

  /** The digits read so far, with those still to come, are those of c0. */
  ghost predicate Continues(c0: Cursor, c: Cursor, digits: seq<nat>, s: Style) {
    ScanDigits(c0, s) == (digits + ScanDigits(c, s).0, ScanDigits(c, s).1)
  }

  lemma StartReading(c: Cursor, s: Style)
    ensures Continues(c, c, [], s)
  {
    assert [] + ScanDigits(c, s).0 == ScanDigits(c, s).0;
  }

  /** One turn of the loop, on cursors. */
  lemma DigitStep(c0: Cursor, c: Cursor, digits: seq<nat>, s: Style)
    requires Continues(c0, c, digits, s) && IsRadix(s.radix)
    ensures AtDot(c, s) && c.dot >= 0 ==> ScanDigits(c0, s) == (digits, c)
    ensures !(AtDot(c, s) && c.dot >= 0) ==>
              var c1 := PassSep(PassDot(c, s), s, s.radix);
              var d := ToDigit(Head(c1.rest));
              if d >= s.radix then ScanDigits(c0, s) == (digits, c1)
              else c1.rest != "" && Continues(c0, Cursor(c1.rest[1..], true, c1.pos + 1, c1.dot), digits + [d], s)
  {
    if !(AtDot(c, s) && c.dot >= 0) {
      var c1 := PassSep(PassDot(c, s), s, s.radix);
      var d := ToDigit(Head(c1.rest));
      if d < s.radix {
        var next := Cursor(c1.rest[1..], true, c1.pos + 1, c1.dot);
        assert digits + ([d] + ScanDigits(next, s).0) == digits + [d] + ScanDigits(next, s).0;
      } else {
        assert digits + [] == digits;
      }
    } else {
      assert digits + [] == digits;
    }
  }

  /** What the OR of the surplus digits tells. */
  predicate AnyNonZero(digits: seq<nat>, from: nat) {
    exists i :: from <= i < |digits| && digits[i] != 0
  }

  lemma NoDigits(radix: nat)
    ensures AllDigits([], radix) && !AnyNonZero([], 0)
  {}

  lemma AppendDigit(digits: seq<nat>, from: nat, c: nat, radix: nat)
    requires AllDigits(digits, radix) && c < radix && from <= |digits|
    ensures AllDigits(digits + [c], radix)
    ensures AnyNonZero(digits + [c], from) <==> AnyNonZero(digits, from) || c != 0
    ensures !AnyNonZero(digits + [c], |digits| + 1) && !AnyNonZero(digits, |digits|)
  {
    if AnyNonZero(digits, from) {
      var i :| from <= i < |digits| && digits[i] != 0;
      assert (digits + [c])[i] != 0;
    }
    if c != 0 {
      assert (digits + [c])[|digits|] != 0;
    }
  }

  lemma KeptBelow(digits: seq<nat>, n: nat, radix: nat)
    requires AllDigits(digits, radix) && n <= |digits|
    ensures AllDigits(digits[..n], radix)
  {}

  /** The part of the digit loop that moves through the text: past a dot and a
      separator to the next digit, if there is one. */
  method NextDigit(str: string, p0: nat, pStart: nat, pos: nat, dot0: int, s: Style, ghost c0: Cursor, ghost digits: seq<nat>)
    returns (done: bool, p: nat, dotPos: int, c: nat)
    requires pStart <= p0 <= |str| && IsRadix(s.radix) && -1 <= dot0 <= pos
    requires Continues(c0, CursorAt(str, p0, pStart, pos, dot0), digits, s)
    ensures p0 <= p <= |str| && -1 <= dotPos <= pos
    ensures done ==> ScanDigits(c0, s) == (digits, CursorAt(str, p, pStart, pos, dotPos))
    ensures !done ==> c < s.radix && p0 < p && Continues(c0, CursorAt(str, p, pStart, pos + 1, dotPos), digits + [c], s)
  {
    hide AtDot, PassDot, PassSep, ScanDigits, Continues, ToDigit;
    DigitStep(c0, CursorAt(str, p0, pStart, pos, dot0), digits, s);
    c := 0;
    done, p, dotPos := PassOver(str, p0, pStart, pos, dot0, s, s.radix);
    if done {
      return;
    }
    AtIsHead(str, p);
    c := ToDigit(At(str, p));
    done := c >= s.radix;
    if !done {
      p := p + 1;
    }
  }

  method CollectDigits(str: string, p0: nat, pStart: nat, pos0: nat, dot0: int, s: Style, tmp0: Mpb)
    returns (p: nat, pos: nat, dotPos: int, digitCount: nat, extra: bool, ghost digits: seq<nat>)
    requires pStart <= p0 <= |str| && IsRadix(s.radix) && -1 <= dot0 <= pos0
    requires tmp0.Valid() && tmp0.Normalized() && tmp0.Value() == 0 && tmp0.tab.Length == LEN_MAX
    modifies tmp0, tmp0.tab
    ensures p0 <= p <= |str| && -1 <= dotPos <= pos == pos0 + |digits| && |digits| <= p - p0
    ensures ScanDigits(CursorAt(str, p0, pStart, pos0, dot0), s) == (digits, CursorAt(str, p, pStart, pos, dotPos))
    ensures AllDigits(digits, s.radix)
    ensures digitCount == Min(|digits|, AtodMaxDigits(s.radix))
    ensures tmp0.Valid() && tmp0.Normalized()
    ensures tmp0.Value() == DigitsValue(digits[..digitCount], s.radix)
    ensures extra <==> AnyNonZero(digits, digitCount)
  {
    hide AtDot, PassDot, PassSep, DotAt, SepAt, ScanDigits, Continues, Collected, Val, Normal, Pow, AtodMaxDigits, DigitsPerLimb,
      RadixBase, DigitsValue, AllDigits, AnyNonZero, ToDigit;
    NoDigits(s.radix);
    var radix := s.radix;
    LimbBase(radix);
    ghost var c0 := CursorAt(str, p0, pStart, pos0, dot0);
    p, pos, dotPos, digitCount, extra, digits := p0, pos0, dot0, 0, false, [];
    var cur: limb, limbDigits := 0, 0;
    StartReading(c0, s);
    NothingCollected(radix);
    while true
      invariant p0 <= p <= |str| && -1 <= dotPos <= pos == pos0 + |digits| && |digits| <= p - p0
      invariant Continues(c0, CursorAt(str, p, pStart, pos, dotPos), digits, s)
      invariant AllDigits(digits, radix) && digitCount == Min(|digits|, AtodMaxDigits(radix))
      invariant tmp0.Valid() && tmp0.Normalized()
      invariant 0 <= limbDigits < DigitsPerLimb(radix)
      invariant Collected(tmp0.Value(), cur, limbDigits, digits[..digitCount], radix)
      invariant extra <==> AnyNonZero(digits, digitCount)
      decreases |str| - p
    {
      var done, c;
      done, p, dotPos, c := NextDigit(str, p, pStart, pos, dotPos, s, c0, digits);
      if done {
        break;
      }
      pos := pos + 1;
      KeptBelow(digits, digitCount, radix);
      ghost var kept := digits[..digitCount];
      AppendDigit(digits, digitCount, c, radix);
      digits := digits + [c];
      if digitCount < AtodMaxDigits(radix) {
        assert digits[..digitCount + 1] == kept + [c];
        cur, limbDigits := AddDigit(tmp0, cur, limbDigits, radix, c, kept);
        digitCount := digitCount + 1;
      } else {
        assert digits[..digitCount] == kept;
        extra := extra || c != 0;
      }
    }
    KeptBelow(digits, digitCount, radix);
    FinishLimb(tmp0, cur, limbDigits, radix, digits[..digitCount]);
  }

  /** One digit kept: into the limb, and the limb into the big number when full. */
  method AddDigit(tmp0: Mpb, cur0: limb, limbDigits0: nat, radix: nat, c: nat, ghost kept: seq<nat>)
    returns (cur: limb, limbDigits: nat)
    requires tmp0.Valid() && tmp0.Normalized() && tmp0.tab.Length == LEN_MAX && IsRadix(radix) && c < radix
    requires limbDigits0 < DigitsPerLimb(radix) && Collected(tmp0.Value(), cur0, limbDigits0, kept, radix)
    requires AllDigits(kept, radix) && |kept| < AtodMaxDigits(radix)
    modifies tmp0, tmp0.tab
    ensures tmp0.Valid() && tmp0.Normalized() && limbDigits < DigitsPerLimb(radix)
    ensures Collected(tmp0.Value(), cur, limbDigits, kept + [c], radix)
  {
    hide Collected, Val, Normal, Pow, AtodMaxDigits, DigitsPerLimb, RadixBase;
    LimbBase(radix);
    CollectOne(tmp0.Value(), cur0, limbDigits0, kept, radix, c);
    LimbHolds(tmp0.Value(), cur0 * radix + c, limbDigits0 + 1, kept + [c], radix);
    cur, limbDigits := cur0 * radix + c, limbDigits0 + 1;
    if limbDigits == DigitsPerLimb(radix) {
      CollectedShort(tmp0.Value(), cur, limbDigits, kept + [c], radix, tmp0.tab[..tmp0.len]);
      CollectLimb(tmp0.Value(), cur, limbDigits, kept + [c], radix);
      tmp0.Mul1Base(RadixBase(radix), cur);
      cur, limbDigits := 0, 0;
    }
  }

  lemma LimbHolds(v: nat, cur: nat, limbDigits: nat, kept: seq<nat>, radix: nat)
    requires IsRadix(radix) && Collected(v, cur, limbDigits, kept, radix) && limbDigits <= DigitsPerLimb(radix)
    ensures cur < BASE
    ensures 0 < Pow(radix, limbDigits) && (limbDigits < DigitsPerLimb(radix) ==> Pow(radix, limbDigits) < BASE)
  {
    hide Pow, DigitsValue, DigitsPerLimb, RadixBase;
    LimbBase(radix);
    PowMonotone(radix, limbDigits, DigitsPerLimb(radix));
    PowPositive(radix, limbDigits);
    if limbDigits < DigitsPerLimb(radix) {
      PowMonotone(radix, limbDigits + 1, DigitsPerLimb(radix));
      NextPower1(radix, limbDigits);
      MulStrict(1, radix, Pow(radix, limbDigits));
    }
  }

  /** The last, partial limb. */
  method FinishLimb(tmp0: Mpb, cur: limb, limbDigits: nat, radix: nat, ghost kept: seq<nat>)
    requires tmp0.Valid() && tmp0.Normalized() && tmp0.tab.Length == LEN_MAX && IsRadix(radix)
    requires limbDigits < DigitsPerLimb(radix) && Collected(tmp0.Value(), cur, limbDigits, kept, radix)
    requires AllDigits(kept, radix) && |kept| <= AtodMaxDigits(radix)
    modifies tmp0, tmp0.tab
    ensures tmp0.Valid() && tmp0.Normalized() && tmp0.Value() == DigitsValue(kept, radix)
  {
    hide Collected, Val, Normal, Pow, AtodMaxDigits, DigitsPerLimb, DigitsValue;
    AllCollected(tmp0.Value(), cur, limbDigits, kept, radix);
    if limbDigits != 0 {
      LimbHolds(tmp0.Value(), cur, limbDigits, kept, radix);
      CollectedShort(tmp0.Value(), cur, limbDigits, kept, radix, tmp0.tab[..tmp0.len]);
      var b := PowUi(radix, limbDigits);
      tmp0.Mul1Base(b, cur);
    }
  }

  lemma AllCollected(v: nat, cur: nat, limbDigits: nat, kept: seq<nat>, radix: nat)
    requires Collected(v, cur, limbDigits, kept, radix)
    ensures v * Pow(radix, limbDigits) + cur == DigitsValue(kept, radix)
    ensures limbDigits == 0 ==> v == DigitsValue(kept, radix)
  {
    PowZeroth(radix);
  }

  // ----- the exponent

  ghost predicate ExponentContinues(t0: string, t: string, got: seq<nat>, sep: bool) {
    ScanExponent(t0, sep) == (got + ScanExponent(t, sep).0, ScanExponent(t, sep).1)
  }

  lemma StartExponent(t: string, sep: bool)
    ensures ExponentContinues(t, t, [], sep)
  {
    assert [] + ScanExponent(t, sep).0 == ScanExponent(t, sep).0;
  }

  lemma ExponentStep(t0: string, t: string, got: seq<nat>, sep: bool)
    requires ExponentContinues(t0, t, got, sep)
    ensures var t1 := if sep && Head(t) == '_' && ToDigit(Second(t)) < 10 then t[1..] else t;
            var d := ToDigit(Head(t1));
            if d >= 10 then ScanExponent(t0, sep) == (got, t1)
            else t1 != "" && ExponentContinues(t0, t1[1..], got + [d], sep)
  {
    var t1 := if sep && Head(t) == '_' && ToDigit(Second(t)) < 10 then t[1..] else t;
    var d := ToDigit(Head(t1));
    if d >= 10 {
      assert got + [] == got;
    } else {
      assert got + ([d] + ScanExponent(t1[1..], sep).0) == got + [d] + ScanExponent(t1[1..], sep).0;
    }
  }

  /** The accumulated exponent: exact until it saturates. */
  ghost predicate Accumulated(got: seq<nat>, expn: int, overflow: bool) {
    && |got| > 0 && 0 <= expn < 0x8000_0000
    && (overflow <==> Saturates(got))
    && if overflow then expn > EXPONENT_LIMIT else expn == DigitsValue(got, 10)
  }

  lemma AccumulateOne(got: seq<nat>, expn: int, overflow: bool, c: nat)
    requires Accumulated(got, expn, overflow) && c < 10
    ensures overflow ==> Accumulated(got + [c], expn, true)
    ensures !overflow && expn > EXPONENT_LIMIT ==> Accumulated(got + [c], expn, true)
    ensures !overflow && expn <= EXPONENT_LIMIT ==> Accumulated(got + [c], expn * 10 + c, false)
  {
    DigitsValueOneMore(got, c, 10);
    var n := |got| - 1;
    assert got == got[..n] + [got[n]];
    DigitsValueOneMore(got[..n], got[n], 10);
    assert (got + [c])[..|got|] == got;
  }

  /** The digits of the exponent, the first of them already seen. */
  method ScanWritten(str: string, p0: nat, sep: bool, first: nat) returns (p: nat, expn: nat, overflow: bool, ghost got: seq<nat>)
    requires p0 <= |str| && first < 10
    ensures p0 <= p <= |str|
    ensures ScanExponent(str[p0..], sep) == (got, str[p..]) && Accumulated([first] + got, expn, overflow)
  {
    hide ScanExponent, ExponentContinues, Accumulated, ToDigit;
    p, expn, overflow, got := p0, first, false, [];
    StartExponent(str[p0..], sep);
    FirstAccumulated(first);
    assert [first] + [] == [first];
    while true
      invariant p0 <= p <= |str| && ExponentContinues(str[p0..], str[p..], got, sep)
      invariant Accumulated([first] + got, expn, overflow)
      decreases |str| - p
    {
      ExponentStep(str[p0..], str[p..], got, sep);
      AtIsHead(str, p);
      if sep && At(str, p) == '_' && ToDigit(At(str, p + 1)) < 10 {
        p := p + 1;
      }
      AtIsHead(str, p);
      var c := ToDigit(At(str, p));
      if c >= 10 {
        break;
      }
      AccumulateOne([first] + got, expn, overflow, c);
      assert [first] + got + [c] == [first] + (got + [c]);
      if !overflow {
        if expn > EXPONENT_LIMIT {
          overflow := true;
        } else {
          expn := expn * 10 + c;
        }
      }
      got := got + [c];
      p := p + 1;
    }
  }

  lemma FirstAccumulated(first: nat)
    requires first < 10
    ensures Accumulated([first], first, false)
  {
    assert [first][..0] == [];
    assert DigitsValue([], 10) == 0;
  }

  /** What the exponent part of a numeral tells the conversion. */
  datatype ExponentPart = ExponentPart(expn: int, overflow: bool, neg: bool, binary: bool)

  /** The part read stands for the exponent written. */
  ghost predicate Stands(part: ExponentPart, w: Exponent) {
    match w
    case NoExponent => part == ExponentPart(0, false, false, false)
    case BadExponent(_) => true
    case Written(neg, digits, binary, _) =>
      && part.neg == neg && part.binary == binary
      && Accumulated(digits, if neg then 0 - part.expn else part.expn, part.overflow)
  }

  lemma StandsFor(part: ExponentPart, w: Exponent)
    requires Stands(part, w) && !w.BadExponent?
    ensures part.overflow ==> w.Written? && |w.digits| > 0 && Saturates(w.digits)
    ensures !part.overflow ==> part.expn == if w.Written? then SignedExponent(w) else 0
    ensures w.Written? ==> part.neg == w.neg && part.binary == w.binary && |w.digits| > 0
    ensures w.Written? && !part.overflow ==> !Saturates(w.digits)
    ensures w.NoExponent? ==> !part.overflow && !part.binary
    ensures InInt32(part.expn)
  {}

  predicate ExponentAt(str: string, p: nat, pStart: nat, s: Style)
    requires p <= |str|
  {
    && s.dots && p > pStart
    && if s.radix == 10 then At(str, p) == 'e' || At(str, p) == 'E'
       else At(str, p) == '@' || (1 <= BitsOf(s.radix) <= 4 && (At(str, p) == 'p' || At(str, p) == 'P'))
  }

  /** ReadExponent, read off the text. */
  lemma ExponentTests(str: string, p: nat, pStart: nat, pos: nat, dot: int, s: Style)
    requires pStart <= p <= |str|
    ensures var c := CursorAt(str, p, pStart, pos, dot);
            && (AtExponent(c, s) <==> ExponentAt(str, p, pStart, s))
            && (!ExponentAt(str, p, pStart, s) ==> ReadExponent(c, s) == NoExponent)
            && (ExponentAt(str, p, pStart, s) ==>
                  && p < |str|
                  && var q := if At(str, p + 1) == '-' || At(str, p + 1) == '+' then p + 2 else p + 1;
                     && q <= |str|
                     && if ToDigit(At(str, q)) >= 10 then ReadExponent(c, s) == BadExponent(str[q..])
                        else && q < |str|
                             && var (digits, rest) := ScanExponent(str[q + 1..], s.sep);
                                ReadExponent(c, s) == Written(At(str, p + 1) == '-', [ToDigit(At(str, q))] + digits,
                                                              At(str, p) == 'p' || At(str, p) == 'P', rest))
  {
    hide ScanExponent;
    AtIsHead(str, p);
    if ExponentAt(str, p, pStart, s) {
      var q := if At(str, p + 1) == '-' || At(str, p + 1) == '+' then p + 2 else p + 1;
      AtIsHead(str, q);
      var t := str[p..];
      assert t[1..] == str[p + 1..];
      if q == p + 2 { assert t[2..] == str[p + 2..]; }
    }
  }

  method ReadExponentPart(str: string, p0: nat, pStart: nat, s: Style, ghost pos: nat, ghost dot: int)
    returns (bad: bool, part: ExponentPart, p: nat)
    requires pStart <= p0 <= |str|
    ensures p0 <= p <= |str| && (p > p0 ==> p0 > pStart) && (part.binary ==> PowerOfTwo(s.radix))
    ensures var w := ReadExponent(CursorAt(str, p0, pStart, pos, dot), s);
            && (bad <==> w.BadExponent?) && (p == p0 <==> w.NoExponent?)
            && Stands(part, w)
            && str[p..] == if w.NoExponent? then str[p0..] else w.rest
  {
    hide ScanExponent, ReadExponent, Accumulated, ToDigit, PowerOfTwo, RadixBits;
    p, bad, part := p0, false, ExponentPart(0, false, false, false);
    ExponentTests(str, p0, pStart, pos, dot, s);
    if ExponentAt(str, p, pStart, s) {
      var binary := At(str, p) == 'p' || At(str, p) == 'P';
      p := p + 1;
      var neg := false;
      if At(str, p) == '+' {
        p := p + 1;
      } else if At(str, p) == '-' {
        neg := true;
        p := p + 1;
      }
      var c := ToDigit(At(str, p));
      if c >= 10 {
        bad := true;
        return;
      }
      var expn: int, overflow: bool;
      ghost var got;
      p, expn, overflow, got := ScanWritten(str, p + 1, s.sep, c);
      part := ExponentPart(if neg then 0 - expn else expn, overflow, neg, binary);
    }
  }

  // ----- from digits and exponent to the double

  /** After the leading zeros the first digit is not zero. */
  lemma {:induction false} LeadingDigit(c: Cursor, s: Style)
    requires IsRadix(s.radix)
    ensures var digits := ScanDigits(SkipZeros(c, s), s).0; digits == [] || digits[0] != 0
    decreases |c.rest|
  {
    if AtDot(c, s) && c.dot >= 0 {
    } else {
      var c1 := PassSep(PassDot(c, s), s, 1);
      if Head(c1.rest) != '0' {
        NoZeroHere(PassDot(c, s), s);
      } else {
        LeadingDigit(Cursor(c1.rest[1..], true, c1.pos + 1, c1.dot), s);
      }
    }
  }

  lemma NoZeroHere(c: Cursor, s: Style)
    requires IsRadix(s.radix) && Head(PassSep(c, s, 1).rest) != '0' && (AtDot(c, s) ==> c.dot >= 0)
    ensures PassSep(c, s, 1) == c
    ensures var digits := ScanDigits(c, s).0; digits == [] || digits[0] != 0
  {}

  lemma {:induction false} DigitsValueSplit(a: seq<nat>, b: seq<nat>, radix: nat)
    ensures DigitsValue(a + b, radix) == DigitsValue(a, radix) * Pow(radix, |b|) + DigitsValue(b, radix)
  {
    if |b| == 0 {
      assert a + b == a;
    } else {
      var n := |b| - 1;
      assert a + b == a + b[..n] + [b[n]] && b == b[..n] + [b[n]];
      DigitsValueSplit(a, b[..n], radix);
      DigitsValueOneMore(a + b[..n], b[n], radix);
      DigitsValueOneMore(b[..n], b[n], radix);
      NextPower1(radix, n);
      hide *;
      var v, p, r := DigitsValue(a, radix), Pow(radix, n), DigitsValue(b[..n], radix);
      Distribute(v * p, r, radix);
      MulAssoc(v, p, radix);
    }
  }

  lemma {:induction false} NonZeroValue(digits: seq<nat>, radix: nat)
    requires radix >= 1
    ensures DigitsValue(digits, radix) != 0 <==> AnyNonZero(digits, 0)
  {
    if |digits| > 0 {
      var n := |digits| - 1;
      NonZeroValue(digits[..n], radix);
      var v := DigitsValue(digits[..n], radix);
      if v > 0 { MulMonotone(1, v, radix); }
      if AnyNonZero(digits[..n], 0) {
        var i :| 0 <= i < n && digits[..n][i] != 0;
        assert digits[i] != 0;
      }
      if AnyNonZero(digits, 0) {
        var i :| 0 <= i < |digits| && digits[i] != 0;
        assert i == n || digits[..n][i] != 0;
      }
    }
  }

  lemma AnyNonZeroRest(digits: seq<nat>, from: nat)
    requires from <= |digits|
    ensures AnyNonZero(digits, from) <==> AnyNonZero(digits[from..], 0)
  {
    if AnyNonZero(digits, from) {
      var i :| from <= i < |digits| && digits[i] != 0;
      assert digits[from..][i - from] != 0;
    }
    if AnyNonZero(digits[from..], 0) {
      var i :| 0 <= i < |digits| - from && digits[from..][i] != 0;
      assert digits[from + i] != 0;
    }
  }

  /** Digits with a first one that is not zero. */
  lemma LeadingValue(digits: seq<nat>, radix: nat)
    requires radix >= 1 && AllDigits(digits, radix) && |digits| > 0 && digits[0] != 0
    ensures Digits(DigitsValue(digits, radix), radix, |digits|)
  {
    DigitsValueBound(digits, radix);
    assert digits == [digits[0]] + digits[1..];
    DigitsValueSplit([digits[0]], digits[1..], radix);
    assert DigitsValue([digits[0]], radix) == digits[0] by {
      assert [] + [digits[0]] == [digits[0]];
      DigitsValueOneMore([], digits[0], radix);
    }
    MulMonotone(1, digits[0], Pow(radix, |digits| - 1));
  }

  /** The kept digits with the surplus as one sticky bit. */
  lemma StickyKept(digits: seq<nat>, n: nat, radix: nat)
    requires radix >= 1 && AllDigits(digits, radix) && n <= |digits|
    ensures Pow(radix, |digits| - n) > 0
    ensures var v := DigitsValue(digits[..n], radix);
            Sticky(DigitsValue(digits, radix), Pow(radix, |digits| - n)) == if AnyNonZero(digits, n) then SetBit0(v) else v
  {
    hide Pow, DigitsValue, Sticky, AnyNonZero, SetBit0;
    PowPositive(radix, |digits| - n);
    var rest := digits[n..];
    assert digits == digits[..n] + rest;
    DigitsValueSplit(digits[..n], rest, radix);
    DigitsValueBound(rest, radix);
    NonZeroValue(rest, radix);
    AnyNonZeroRest(digits, n);
    StickyChar(DigitsValue(digits, radix), Pow(radix, |digits| - n), DigitsValue(digits[..n], radix), DigitsValue(rest, radix));
  }

  /** For a power of two, digits behind the dot and exponents are shifts. */
  lemma BinaryNumeral(d: nat, radix: nat, f: int, t: int)
    requires PowerOfTwo(radix)
    ensures NearestTo(d, radix, f, t) == RoundScaled(d, 1, 1074 + t + f * RadixBits(radix), NearestEven)
  {
    hide Pow, Pow2, RoundScaled, RadixBits;
    PowZeroth(radix);
    var bits := RadixBits(radix);
    if f >= 0 {
      BitsPower(radix, f);
      RoundScaledShift(d, 1, f * bits, 1074 + t + f * bits, NearestEven);
    } else {
      var g := 0 - f;
      BitsPower(radix, g);
      TimesOneIs(d, Pow(radix, Pos(f)));
      Distribute(0, f, bits);
      RoundScaledDen(d, 1, g * bits, 1074 + t, NearestEven);
    }
  }

  lemma TableNumeral(n: nat, radix: nat, f: int)
    requires radix >= 1
    ensures NearestTo(n, radix, f, 0) == DoubleOf(n, radix, f, NearestEven)
  {}

  lemma SaturatedLarge(digits: seq<nat>)
    requires |digits| > 0 && Saturates(digits)
    ensures DigitsValue(digits, 10) >= 2147483640
  {
    var n := |digits| - 1;
    assert digits == digits[..n] + [digits[n]];
    DigitsValueOneMore(digits[..n], digits[n], 10);
  }

  /** The exit for huge exponents agrees with rounding. */
  lemma SaturatedIndex(digits: seq<nat>, radix: nat, frac: int, x: int, binary: bool)
    requires IsRadix(radix) && AllDigits(digits, radix) && digits != [] && digits[0] != 0
    requires |digits| <= 0x1000_0000 && 0 <= frac <= 0x1000_0000 && (binary ==> PowerOfTwo(radix))
    requires x >= 2147483640 || x <= 0 - 2147483640
    ensures NumeralIndex(digits, radix, frac, x, binary) == if x > 0 then INFINITY else 0
  {
    hide DigitsValue, NearestTo, AllDigits, PowerOfTwo, AtodMaxDigits;
    FloatConstants();
    var kept := KeptDigits(digits, radix);
    KeptLeading(digits, radix);
    var f := |digits| - |kept| - frac + if binary then 0 else x;
    var n := DigitsValue(kept, radix);
    if PowerOfTwo(radix) {
      SaturatedBinary(n, radix, |kept|, f, if binary then x else 0, frac);
    } else {
      SaturatedTable(n, radix, |kept|, f);
    }
  }

  lemma KeptLeading(digits: seq<nat>, radix: nat)
    requires IsRadix(radix) && AllDigits(digits, radix) && digits != [] && digits[0] != 0
    ensures var kept := KeptDigits(digits, radix);
            |kept| > 0 && |kept| <= |digits| && Digits(DigitsValue(kept, radix), radix, |kept|)
    ensures PowerOfTwo(radix) ==> KeptDigits(digits, radix) == digits
  {
    hide DigitsValue, Digits, PowerOfTwo;
    AtodAtLeastOne(radix);
    hide AtodMaxDigits;
    LeadingValue(KeptDigits(digits, radix), radix);
  }

  lemma AtodAtLeastOne(radix: nat)
    requires IsRadix(radix)
    ensures AtodMaxDigits(radix) >= 12
  {}

  lemma SaturatedTable(n: nat, radix: nat, digits: nat, f: int)
    requires IsRadix(radix) && Digits(n, radix, digits)
    ensures f + digits >= 2000 ==> NearestTo(n, radix, f, 0) >= INFINITY
    ensures f + digits <= 0 - 2000 ==> NearestTo(n, radix, f, 0) == 0
  {
    hide Digits, NearestTo, DoubleOf;
    ExponentsSmall(radix);
    hide MaxExponent, MinExponent;
    TableNumeral(n, radix, f);
    if f + digits >= 2000 { TableOverflow(n, radix, digits, f); }
    if f + digits <= 0 - 2000 { TableUnderflow(n, radix, digits, f); }
  }

  lemma ExponentsSmall(radix: nat)
    requires IsRadix(radix)
    ensures MaxExponent(radix) <= 1024 && MinExponent(radix) >= 0 - 1075
  {}

  lemma SaturatedBinary(d: nat, radix: nat, n: nat, f: int, t: int, frac: int)
    requires PowerOfTwo(radix) && Digits(d, radix, n) && n <= 0x1000_0000 && 0 <= frac <= 0x1000_0000
    requires t == 0 || f == 0 - frac
    ensures t >= 2147483640 || (t == 0 && f + frac >= 2147483640) ==> NearestTo(d, radix, f, t) >= INFINITY
    ensures t <= 0 - 2147483640 || (t == 0 && f + frac <= 0 - 2147483640) ==> NearestTo(d, radix, f, t) == 0
  {
    hide Digits, NearestTo, RadixBits, RoundScaled;
    BinaryNumeral(d, radix, f, t);
    RadixBitsCorrect(radix);
    var b := RadixBits(radix);
    var u := t + f * b;
    BinaryExits(d, radix, n, u);
    FiveTimes(n, f, frac, b);
  }

  lemma FiveTimes(n: nat, f: int, frac: int, b: nat)
    requires 1 <= b <= 5
    ensures b <= 5 && 0 <= n * b <= 5 * n
    ensures f == 0 - frac && frac >= 0 ==> 0 - 5 * frac <= f * b <= 0
    ensures f >= 0 ==> f * b >= f
    ensures f <= 0 ==> f * b <= f
  {
    if b == 1 {} else if b == 2 {} else if b == 3 {} else if b == 4 {} else {}
  }

  /** A number whose digits have been collected: its exponent arithmetic in 32 bit
      words, and the conversion when those do not overflow. */
  method ConvertNumber(tmp0: Mpb, radix: nat, part: ExponentPart, offset: int, digitCount: nat, extra: bool,
                       ghost digits: seq<nat>, ghost frac: int)
    returns (fits: bool, a: u64)
    requires tmp0.Valid() && tmp0.Normalized() && tmp0.tab.Length == LEN_MAX && IsRadix(radix)
    requires AllDigits(digits, radix) && digits != [] && digits[0] != 0 && digitCount == KeptCount(digits, radix)
    requires tmp0.Value() == DigitsValue(digits[..digitCount], radix) && (extra <==> AnyNonZero(digits, digitCount))
    requires offset == frac - (|digits| - digitCount) && (part.binary ==> PowerOfTwo(radix)) && InInt32(part.expn)
    modifies tmp0, tmp0.tab
    ensures fits <==> WordsFit(part.expn, part.binary, radix, offset, digitCount)
    ensures fits ==> a == NumeralIndex(digits, radix, frac, part.expn, part.binary)
  {
    hide Val, Normal, DigitsValue, AllDigits, AnyNonZero, NearestTo, AtodMaxDigits, PowerOfTwo, RadixBits, Digits, RoundScaled,
      DoubleOf, Sticky, Pow, SetBit0;
    AtodAtLeastOne(radix);
    a, fits := 0, false;
    var expn := part.expn;
    if PowerOfTwo(radix) {
      RadixBitsCorrect(radix);
      var bits := RadixBits(radix);
      if !part.binary {
        expn := expn * bits;
        if !InInt32(expn) {
          return;
        }
      }
      var scaled := offset * bits;
      if !InInt32(scaled) {
        return;
      }
      expn := expn - scaled;
      if !InInt32(expn) || !InInt32(expn + digitCount * bits) {
        return;
      }
      if extra {
        tmp0.SetSticky();
      }
      LeadingValue(digits, radix);
      StickyKept(digits, digitCount, radix);
      a := ConvertBinary(tmp0, radix, expn, digitCount, DigitsValue(digits, radix), |digits|);
      BinaryIndex(digits, radix, frac, part.expn, part.binary, expn, digitCount);
    } else {
      expn := expn - offset;
      if !InInt32(expn) || !InInt32(expn + digitCount) {
        return;
      }
      KeptLeading(digits, radix);
      assert KeptDigits(digits, radix) == digits[..digitCount];
      a := ConvertTable(tmp0, radix, expn, digitCount);
      TableNumeral(DigitsValue(digits[..digitCount], radix), radix, expn);
    }
    fits := true;
  }

  lemma BinaryIndex(digits: seq<nat>, radix: nat, frac: int, x: int, binary: bool, expn: int, kept: nat)
    requires PowerOfTwo(radix) && kept <= |digits|
    requires expn == (if binary then x else x * RadixBits(radix)) - (frac - (|digits| - kept)) * RadixBits(radix)
    ensures NumeralIndex(digits, radix, frac, x, binary)
            == Clamp(RoundScaled(DigitsValue(digits, radix), 1, 1074 + expn - (|digits| - kept) * RadixBits(radix), NearestEven))
  {
    hide DigitsValue, NearestTo, RadixBits, RoundScaled, AtodMaxDigits;
    var b := RadixBits(radix);
    var f := 0 - frac + if binary then 0 else x;
    BinaryNumeral(DigitsValue(digits, radix), radix, f, if binary then x else 0);
    Distribute(frac, |digits| - kept, b);
    Distribute(0, frac, b);
    Distribute(0 - frac, x, b);
  }

  /** What js_atod returns: not a number, or the bits of a double; Overflowed
      where its exponent arithmetic leaves the range of int, which C does not
      define. In each case the text that is left. */
  datatype Result = NotANumber(rest: string) | Number(bits: u64, rest: string) | Overflowed

  function SignedBits(neg: bool, index: nat): u64
    requires index <= INFINITY
  {
    (if neg then TWO_63 else 0) + index
  }

  /** The result that a reading of the text calls for. */
  predicate Delivers(r: Result, m: Reading, fits: bool) {
    match m
    case Invalid(rest) => r == NotANumber(rest)
    case Reading(neg, index, rest) =>
      index <= INFINITY && if fits then r == Number(SignedBits(neg, index), rest) else r == Overflowed
  }

  /** A number from its first digit or dot on, after sign and prefix. */
  method ParseNumeral(str: string, p0: nat, pStart: nat, s: Style, neg: bool, tmp0: Mpb) returns (r: Result)
    requires pStart <= p0 <= |str| <= 0x1000_0000 && IsRadix(s.radix) && tmp0.tab.Length == LEN_MAX
    modifies tmp0, tmp0.tab
    ensures var c := CursorAt(str, p0, pStart, 0, -1); Delivers(r, ReadNumeral(c, s, neg), NumeralFits(c, s))
  {
    hide ScanDigits, SkipZeros, ReadExponent, DigitsValue, AllDigits, AnyNonZero, Val, Normal, AtodMaxDigits, NumeralIndex,
      WordsFit, Stands, AtDot, Saturates;
    ghost var c0 := CursorAt(str, p0, pStart, 0, -1);
    tmp0.SetU64(0);
    var p, sigPos, dotPos := SkipLeadingZeros(str, p0, pStart, s);
    LeadingDigit(c0, s);
    var pos, digitCount, extra;
    ghost var digits;
    p, pos, dotPos, digitCount, extra, digits := CollectDigits(str, p, pStart, sigPos, dotPos, s, tmp0);
    ghost var c := CursorAt(str, p, pStart, pos, dotPos);
    assert ScanDigits(SkipZeros(c0, s), s) == (digits, c);
    var bad, part, q := ReadExponentPart(str, p, pStart, s, pos, dotPos);
    ghost var w := ReadExponent(c, s);
    WrittenDigits(c, s);
    if bad {
      return NotANumber(str[q..]);
    }
    StandsFor(part, w);
    AtodAtLeastOne(s.radix);
    if q == pStart {
      return NotANumber(str[q..]);
    }
    if digitCount == 0 {
      return Number(SignedBits(neg, 0), str[q..]);
    }
    if part.overflow {
      SaturatedLarge(w.digits);
      SaturatedIndex(digits, s.radix, FractionDigits(c), SignedExponent(w), part.binary);
      return Number(SignedBits(neg, if part.neg then 0 else INFINITY), str[q..]);
    }
    var offset := if dotPos < 0 then sigPos + digitCount - pos else sigPos + digitCount - dotPos;
    var fits, a := ConvertNumber(tmp0, s.radix, part, offset, digitCount, extra, digits, FractionDigits(c));
    r := if fits then Number(SignedBits(neg, a), str[q..]) else Overflowed;
  }

  lemma TwoOn(str: string, p: nat)
    requires p <= |str|
    ensures p + 1 <= |str| ==> str[p..][1..] == str[p + 1..]
    ensures p + 2 <= |str| ==> str[p..][2..] == str[p + 2..]
    ensures p + 8 <= |str| ==> str[p..][8..] == str[p + 8..]
    ensures "Infinity" <= str[p..] <==> p + 8 <= |str| && str[p..p + 8] == "Infinity"
  {
    if p + 8 <= |str| {
      assert str[p..][..8] == str[p..p + 8];
    }
  }

  /** Whether the legacy octal prefix is properly formed. */
  method ScanOctal(str: string, p: nat) returns (octal: bool)
    requires p <= |str|
    ensures octal <==> OctalRun(str[p..])
  {
    var i := p;
    while i < |str| && '0' <= At(str, i) <= '7'
      invariant p <= i <= |str| && OctalRun(str[i..]) == OctalRun(str[p..])
    {
      assert str[i..][1..] == str[i + 1..];
      i := i + 1;
    }
    octal := !(At(str, i) == '8' || At(str, i) == '9');
  }

  /** js_atod: the double nearest to what the text says. */
  method JsAtod(str: string, radix: nat, flags: Flags, tmp0: Mpb) returns (r: Result)
    requires IsRadixOrAuto(radix) && |str| <= 0x1000_0000 && tmp0.tab.Length == LEN_MAX
    modifies tmp0, tmp0.tab
    ensures Delivers(r, Meaning(str, radix, flags), TextFits(str, radix, flags))
  {
    hide ReadNumeral, NumeralFits, ToDigit, ReadPrefix;
    var pStart := 0;
    var neg := false;
    AtIsHead(str, 0);
    assert str[0..] == str;
    if At(str, 0) == '+' {
      pStart := 1;
    } else if At(str, 0) == '-' {
      neg := true;
      pStart := 1;
    }
    assert AfterSign(str) == str[pStart..] && neg == Negative(str);
    InfinityTest(str, pStart, radix, flags);
    if At(str, pStart) != '0' && !flags.intOnly && pStart + 8 <= |str| && str[pStart..pStart + 8] == "Infinity" {
      return Number(SignedBits(neg, INFINITY), str[pStart + 8..]);
    }
    var bad, p, base, sep := SkipPrefix(str, pStart, radix, flags);
    if bad {
      return NotANumber(str[p..]);
    }
    r := ParseNumeral(str, p, pStart, Style(base, !flags.intOnly, sep), neg, tmp0);
  }

  lemma InfinityTest(str: string, p: nat, radix: nat, flags: Flags)
    requires p <= |str|
    ensures At(str, p) != '0' && !flags.intOnly && p + 8 <= |str| && str[p..p + 8] == "Infinity" ==>
              ReadPrefix(str[p..], radix, flags) == Infinite(str[p + 8..])
    ensures ReadPrefix(str[p..], radix, flags).Infinite? ==>
              At(str, p) != '0' && !flags.intOnly && p + 8 <= |str| && str[p..p + 8] == "Infinity"
  {
    AtIsHead(str, p);
    TwoOn(str, p);
    hide OctalRun, ToDigit;
  }

  /** The prefix of a number: the radix it settles, and where the digits begin. */
  method SkipPrefix(str: string, p0: nat, radix: nat, flags: Flags) returns (bad: bool, p: nat, base: nat, sep: bool)
    requires p0 <= |str| && IsRadixOrAuto(radix) && !ReadPrefix(str[p0..], radix, flags).Infinite?
    ensures p0 <= p <= |str|
    ensures bad ==> ReadPrefix(str[p0..], radix, flags) == BadPrefix(str[p..])
    ensures !bad ==> IsRadix(base) && ReadPrefix(str[p0..], radix, flags)
                                      == Start(CursorAt(str, p, p0, 0, -1), Style(base, !flags.intOnly, sep))
  {
    hide ToDigit, OctalRun, IsRadix;
    RadixRange();
    AtIsHead(str, p0);
    TwoOn(str, p0);
    p, base, sep, bad := p0, radix, flags.underscores, false;
    var prefixed := false;
    if At(str, p) == '0' {
      var h := At(str, p + 1);
      prefixed := true;
      if (h == 'x' || h == 'X') && (radix == 0 || radix == 16) {
        p, base := p + 2, 16;
      } else if (h == 'o' || h == 'O') && radix == 0 && flags.binOct {
        p, base := p + 2, 8;
      } else if (h == 'b' || h == 'B') && radix == 0 && flags.binOct {
        p, base := p + 2, 2;
      } else if '0' <= h <= '9' && radix == 0 && flags.legacyOctal {
        sep := false;
        prefixed := ScanOctal(str, p + 1);
        if prefixed {
          p, base := p + 1, 8;
        }
      } else {
        prefixed := false;
      }
    }
    AtIsHead(str, p);
    bad := prefixed && ToDigit(At(str, p)) >= base;
    if base == 0 {
      base := 10;
    }
  }

  lemma RadixRange()
    ensures IsRadix(2) && IsRadix(8) && IsRadix(10) && IsRadix(16)
  {}
}

/** The candidates of the free-format digit search (dtoa.c:1184-1236): where
    they lie, and why the first one needs no check. */
module DtoaSearch {
  import opened Powers
  import opened Rounding
  import opened Float64
  import opened RadixTables
  import opened RadixLog
  import opened RealPow
  import opened DtoaScale
  import opened DtoaNearest

  // ----- the integer computations, seen as reals

  lemma RPowSplit(b: nat, x: int)
    requires b >= 1
    ensures Times(RPow(b, x), Pow(b, Pos(0 - x)) as real) == Pow(b, Pos(x)) as real
  {
    PowZeroth(b);
    hide Pow, Times, RPow;
    if x >= 0 {
      RPowNat(b, x);
      TimesOne(RPow(b, x));
    } else {
      RPowNat(b, 0 - x);
    }
  }

  lemma TwoSplit(x: int)
    ensures Times(Two(x), Pow2(Pos(0 - x)) as real) == Pow2(Pos(x)) as real
  {
    hide Pow, Pow2, Times, RPow;
    RPowSplit(2, x);
    PowTwo(Pos(x));
    PowTwo(Pos(0 - x));
  }

  lemma Rearrange(a: real, b: real, c: real, d: real, e: real)
    ensures Times(Times(Times(a, b), c), Times(d, e)) == Times(Times(a, Times(c, d)), Times(b, e))
  {}

  /** The value that RoundPow rounds. */
  ghost function ScaledValue(v: real, radix: nat, f: int): real
    requires radix >= 1
  {
    Times(v, RPow(radix, f))
  }

  lemma RoundPowIs(m: nat, e: int, radix: nat, f: int, dir: Direction) returns (n: nat, d: nat)
    requires radix >= 1
    ensures d > 0 && RoundPow(m, e, radix, f, dir) == RoundDiv(n, d, dir)
    ensures n as real == Times(ScaledValue(Times(m as real, Two(e)), radix, f), d as real)
  {
    var p, q := Pow(radix, Pos(f)), Pow(radix, Pos(0 - f));
    PowPositive(radix, Pos(0 - f));
    PowZeroth(2);
    n, d := m * p * Pow2(Pos(e)), q * Pow2(Pos(0 - e));
    MulStrict(0, q, Pow2(Pos(0 - e)));
    RoundPowQuotient(m, e, radix, f, dir);
    hide *;
    RPowSplit(radix, f);
    TwoSplit(e);
    Rearrange(m as real, Two(e), RPow(radix, f), q as real, Pow2(Pos(0 - e)) as real);
    TimesCast(q, Pow2(Pos(0 - e)));
    TimesCast(m, p);
    TimesCast(m * p, Pow2(Pos(e)));
    ScaledValueIs(Times(m as real, Two(e)), radix, f);
  }

  lemma ScaledValueIs(v: real, radix: nat, f: int)
    requires radix >= 1
    ensures ScaledValue(v, radix, f) == Times(v, RPow(radix, f))
  {}

  lemma RoundPowQuotient(m: nat, e: int, radix: nat, f: int, dir: Direction)
    requires radix >= 1
    ensures Pow(radix, Pos(0 - f)) > 0 && Pow(radix, Pos(0 - f)) * Pow2(Pos(0 - e)) > 0
    ensures RoundPow(m, e, radix, f, dir)
            == RoundDiv(m * Pow(radix, Pos(f)) * Pow2(Pos(e)), Pow(radix, Pos(0 - f)) * Pow2(Pos(0 - e)), dir)
  {
    PowPositive(radix, Pos(0 - f));
    MulStrict(0, Pow(radix, Pos(0 - f)), Pow2(Pos(0 - e)));
    PowZeroth(2);
    hide Pow, Pow2, RoundDiv;
    var n, d := m * Pow(radix, Pos(f)), Pow(radix, Pos(0 - f));
    if e <= 0 {
      ShiftRoundDown(n, d, 0 - e, dir);
    } else {
      ShiftRoundUp(n, d, e, dir);
    }
  }

  /** q is a nearest integer to x. */
  ghost predicate Near(q: nat, x: real) {
    x + x - 1.0 <= (2 * q) as real <= x + x + 1.0
  }

  predicate Nearest(dir: Direction) {
    dir == NearestEven || dir == NearestAway
  }

  lemma RoundDivNear(n: nat, d: nat, dir: Direction)
    requires d > 0 && Nearest(dir)
    ensures 2 * n - d <= 2 * RoundDiv(n, d, dir) * d <= 2 * n + d
  {
    hide RoundDiv;
    var q, r := Divide(n, d);
    RoundDivChar(n, d, dir, q, r);
    Distribute(q, 1, d);
    MulAssoc(2, q, d);
    MulAssoc(2, q + 1, d);
  }

  lemma QuotientNear(n: nat, d: nat, q: nat, x: real)
    requires d > 0 && 2 * n - d <= 2 * q * d <= 2 * n + d && n as real == Times(x, d as real)
    ensures Near(q, x)
  {
    hide Times;
    var dr := d as real;
    TimesCast(2 * q, d);
    TimesDistribute(x, x, dr);
    TimesDistribute(x + x, 1.0, dr);
    TimesOne(dr);
    TimesOrder(x + x - 1.0, (2 * q) as real, dr);
    TimesOrder((2 * q) as real, x + x + 1.0, dr);
  }

  /** mul_pow_round gives a nearest integer to the exact scaled value. */
  lemma RoundPowNear(m: nat, e: int, radix: nat, f: int, dir: Direction)
    requires radix >= 1 && Nearest(dir)
    ensures Near(RoundPow(m, e, radix, f, dir), ScaledValue(Times(m as real, Two(e)), radix, f))
  {
    hide *;
    var n, d := RoundPowIs(m, e, radix, f, dir);
    RoundDivNear(n, d, dir) by { NearestIs(dir); }
    QuotientNear(n, d, RoundPow(m, e, radix, f, dir), ScaledValue(Times(m as real, Two(e)), radix, f));
  }

  lemma NearestIs(dir: Direction)
    ensures Nearest(dir) <==> dir == NearestEven || dir == NearestAway
  {}

  lemma DoubleOfIs(n: nat, radix: nat, f: int, dir: Direction) returns (b: nat, c: nat)
    requires radix >= 1
    ensures c > 0 && DoubleOf(n, radix, f, dir) == RoundMag(b, c, dir)
    ensures InUnits(ScaledValue(n as real, radix, f), b, c)
  {
    PowPositive(radix, Pos(0 - f));
    var p, u := Pow(radix, Pos(f)), Pow2(1074);
    c := Pow(radix, Pos(0 - f));
    b := n * p * u;
    hide Pow, Pow2, RoundMag, Times, RPow;
    RPowSplit(radix, f);
    TwoNat(1074);
    TimesCast(n, p);
    TimesCast(n * p, u);
    Rearrange(n as real, 1.0, RPow(radix, f), c as real, u as real);
    var y := ScaledValue(n as real, radix, f);
    TimesOne(n as real);
    TimesOne(u as real);
    TimesAssoc(y, c as real, u as real);
    TimesAssoc(y, u as real, c as real);
    TimesCommute(u as real, c as real);
  }

  /** Moving a factor of the radix between mantissa and exponent. */
  lemma StripZero(n: nat, radix: nat, f: int, dir: Direction)
    requires radix >= 1
    ensures DoubleOf(radix * n, radix, f - 1, dir) == DoubleOf(n, radix, f, dir)
  {
    if f >= 1 {
      DoubleOfRaised(n, radix, f, dir);
      DoubleOfRaised(radix * n, radix, f - 1, dir);
      NextPowerOf(radix, f - 1);
      hide *;
      MulAssoc(n, radix, Pow(radix, f - 1));
      MulCommute(n, radix);
    } else {
      var g := 0 - f;
      DoubleOfLowered(n, radix, g, dir);
      DoubleOfLowered(radix * n, radix, g + 1, dir);
      NextPowerOf(radix, g);
      PowPositive(radix, g);
      hide *;
      var u, d := Pow2(1074), Pow(radix, g);
      RoundMagScale(n * u, d, radix, dir);
      MulSwap(n, u, radix);
      MulCommute(n, radix);
      MulCommute(d, radix);
    }
  }

  lemma NextPowerOf(b: nat, n: nat)
    ensures Pow(b, n + 1) == b * Pow(b, n)
  {}

  lemma DoubleOfRaised(n: nat, radix: nat, f: nat, dir: Direction)
    requires radix >= 1
    ensures DoubleOf(n, radix, f, dir) == RoundMag(n * Pow(radix, f) * Pow2(1074), 1, dir)
  {
    PowZeroth(radix);
    hide Pow, Pow2, RoundMag;
  }

  lemma DoubleOfLowered(n: nat, radix: nat, g: nat, dir: Direction)
    requires radix >= 1
    ensures Pow(radix, g) > 0 && DoubleOf(n, radix, 0 - g, dir) == RoundMag(n * Pow2(1074), Pow(radix, g), dir)
  {
    PowZeroth(radix);
    PowPositive(radix, g);
    hide Pow, Pow2, RoundMag;
    assert Pos(0 - g) == 0 && Pos(0 - (0 - g)) == g;
  }

  // ----- the candidates

  /** radix^(e0 - 1) <= 2^(e - 1) < radix^e0: what mul_log2_radix chooses. */
  ghost predicate Bracket(radix: nat, e0: int, e: int)
    requires radix >= 1
  {
    RPow(radix, e0 - 1) <= Two(e - 1) < RPow(radix, e0)
  }

  predicate FullMantissa(m: nat) {
    TWO_52 <= m < TWO_53
  }

  lemma ValueRange(m: nat, e: int)
    requires FullMantissa(m)
    ensures Two(e - 1) <= ValueOf(m, e) < Two(e)
    ensures m == TWO_52 <==> ValueOf(m, e) == Two(e - 1)
  {
    FloatConstants();
    Pow2Constants();
    hide Two, Times, Pow2;
    var t := Two(e - 53);
    TwoAdd(52, e - 53);
    TwoAdd(53, e - 53);
    TwoNat(52);
    TwoNat(53);
    TimesOrder(TWO_52 as real, m as real, t);
    TimesOrder(m as real, TWO_53 as real, t);
  }

  /** The first trial: radix^(p - 1) <= d * radix^(p - e0) < 2 * radix^p. */
  lemma FirstRange(radix: nat, e0: int, m: nat, e: int, p: int)
    requires radix >= 1 && FullMantissa(m) && Bracket(radix, e0, e)
    ensures var x := ScaledValue(ValueOf(m, e), radix, p - e0);
            RPow(radix, p - 1) <= x < RPow(radix, p) + RPow(radix, p)
  {
    ValueRange(m, e);
    TwoNext(e - 1);
    hide Two, Times, RPow, ValueOf;
    var v, r := ValueOf(m, e), RPow(radix, p - e0);
    RPowAdd(radix, e0 - 1, p - e0);
    RPowAdd(radix, e0, p - e0);
    TimesOrder(RPow(radix, e0 - 1), v, r);
    var top := RPow(radix, e0);
    TimesOrder(v, top + top, r);
    TimesDistribute(top, top, r);
  }

  /** A lower bound survives rounding to nearest, even with half a unit to spare. */
  lemma NearAtLeast(q: nat, x: real, lo: nat)
    requires Near(q, x) && lo as real < x + 0.5
    ensures lo <= q
  {}

  lemma NearAtMost(q: nat, x: real, hi: nat)
    requires Near(q, x) && x < hi as real + 0.5
    ensures q <= hi
  {}

  lemma FirstMantissa(radix: nat, e0: int, m: nat, e: int, p: nat, q: nat)
    requires radix >= 1 && FullMantissa(m) && Bracket(radix, e0, e) && p >= 1
    requires Near(q, ScaledValue(ValueOf(m, e), radix, p - e0))
    ensures Pow(radix, p - 1) <= q <= 2 * Pow(radix, p)
  {
    hide *;
    FirstRange(radix, e0, m, e, p);
    RPowNat(radix, p - 1);
    RPowNat(radix, p);
    var x := ScaledValue(ValueOf(m, e), radix, p - e0);
    NearAtLeast(q, x, Pow(radix, p - 1));
    NearAtMost(q, x, 2 * Pow(radix, p));
  }

  /** One radix lower. */
  lemma LowerByOne(v: real, radix: nat, f: int)
    requires radix >= 1
    ensures ScaledValue(v, radix, f) == Times(ScaledValue(v, radix, f - 1), radix as real)
  {
    hide Times, RPow;
    RPowStep(radix, f - 1);
    TimesAssoc(v, RPow(radix, f - 1), radix as real);
  }

  /** After a first trial that came out too large, the second lies in range. */
  lemma SecondMantissa(radix: nat, e0: int, m: nat, e: int, p: nat, q: nat, q': nat)
    requires radix >= 2 && FullMantissa(m) && Bracket(radix, e0, e) && p >= 1
    requires Near(q, ScaledValue(ValueOf(m, e), radix, p - e0)) && q >= Pow(radix, p)
    requires Near(q', ScaledValue(ValueOf(m, e), radix, p - e0 - 1))
    ensures Pow(radix, p - 1) <= q' < Pow(radix, p)
  {
    hide *;
    var v := ValueOf(m, e);
    var x, x' := ScaledValue(v, radix, p - e0), ScaledValue(v, radix, p - e0 - 1);
    LowerByOne(v, radix, p - e0);
    FirstRange(radix, e0, m, e, p);
    RPowNat(radix, p);
    NextPowerOf(radix, p - 1);
    PowPositive(radix, p - 1);
    SecondLow(radix, Pow(radix, p - 1), Pow(radix, p), x, x', q) by { NearIs(q, x); }
    NearAtLeast(q', x', Pow(radix, p - 1));
    if radix == 2 {
      BinaryBelow(e0, m, e, p);
      SecondHigh(radix, Pow(radix, p - 1), Pow(radix, p), x, x', 1);
      NearAtMost(q', x', Pow(radix, p - 1));
    } else {
      SecondHigh(radix, Pow(radix, p - 1), Pow(radix, p), x, x', 2);
      NearAtMost(q', x', 2 * Pow(radix, p - 1));
      MulStrict(2, radix, Pow(radix, p - 1));
    }
    MulStrict(1, radix, Pow(radix, p - 1));
  }

  lemma NearIs(q: nat, x: real)
    ensures Near(q, x) <==> x + x - 1.0 <= (2 * q) as real <= x + x + 1.0
  {}

  lemma SecondLow(radix: nat, lo: nat, hi: nat, x: real, x': real, q: nat)
    requires radix >= 2 && hi == radix * lo && x == Times(x', radix as real)
    requires q >= hi && (2 * q) as real <= x + x + 1.0
    ensures lo as real < x' + 0.5
  {
    hide Times;
    var b := radix as real;
    TimesCast(lo, radix);
    MulCommute(lo, radix);
    TimesDistribute(x', 0.5, b);
    TimesOne(b);
    TimesOrder(lo as real, x' + 0.5, b);
  }

  lemma SecondHigh(radix: nat, lo: nat, hi: nat, x: real, x': real, c: nat)
    requires radix >= 2 && hi == radix * lo && x == Times(x', radix as real)
    requires x < (c * hi) as real
    ensures x' < (c * lo) as real
  {
    hide Times;
    TimesCast(c * lo, radix);
    assert c * hi == (c * lo) * radix;
    TimesOrder(x', (c * lo) as real, radix as real);
  }

  /** In radix 2 the first trial never exceeds 2^p. */
  lemma BinaryBelow(e0: int, m: nat, e: int, p: int)
    requires FullMantissa(m) && Bracket(2, e0, e)
    ensures ScaledValue(ValueOf(m, e), 2, p - e0) < RPow(2, p)
  {
    ValueRange(m, e);
    assert Two(e - 1) < Two(e0);
    hide RPow, Times, ValueOf;
    if e0 <= e - 1 {
      TwoMonotone(e0, e - 1);
    }
    TwoMonotone(e, e0);
    RPowAdd(2, e0, p - e0);
    TimesOrder(ValueOf(m, e), RPow(2, e0), RPow(2, p - e0));
  }

  // ----- the first candidate rounds back

  /** Scaling back and forth. */
  lemma ScaledBack(v: real, radix: nat, f: int)
    requires radix >= 1
    ensures ScaledValue(ScaledValue(v, radix, f), radix, 0 - f) == v
  {
    hide Times, RPow;
    RPowAdd(radix, f, 0 - f);
    RPowZero(radix);
    TimesAssoc(v, RPow(radix, f), RPow(radix, 0 - f));
    TimesOne(v);
  }

  lemma BackError(q: nat, v: real, radix: nat, f: int)
    requires radix >= 1 && Near(q, ScaledValue(v, radix, f))
    ensures Within(ScaledValue(q as real, radix, 0 - f), v, RPow(radix, 0 - f))
  {
    ScaledBack(v, radix, f);
    hide Times, RPow;
    var r := RPow(radix, 0 - f);
    TimesOne(r);
    assert Within(q as real, ScaledValue(v, radix, f), 1.0);
    ScaledError(q as real, ScaledValue(v, radix, f), 1.0, r, r);
  }

  /** radix^(p - 1) >= 2^53 makes the last digit small enough. */
  lemma SmallDigit(radix: nat, e0: int, e: int, p: nat)
    requires radix >= 1 && Bracket(radix, e0, e) && p >= 1 && Pow2(53) <= Pow(radix, p - 1)
    ensures RPow(radix, e0 - p) <= Two(e - 54)
  {
    hide Two, Times, RPow, Pow, Pow2;
    var top := RPow(radix, p - 1);
    RPowNat(radix, p - 1);
    TwoNat(53);
    RPowAdd(radix, e0 - p, p - 1);
    TwoAdd(e - 54, 53);
    TimesOrder(Two(53), top, Two(e - 54));
    TimesCommute(Two(53), Two(e - 54));
    TimesCommute(top, Two(e - 54));
    TimesOrder(RPow(radix, e0 - p), Two(e - 54), top);
  }

  lemma FirstIsClose(radix: nat, e0: int, m: nat, e: int, p: nat, q: nat)
    requires radix >= 1 && FullMantissa(m) && Bracket(radix, e0, e) && p >= 1 && Pow2(53) <= Pow(radix, p - 1)
    requires Near(q, ScaledValue(ValueOf(m, e), radix, p - e0))
    ensures Close(ScaledValue(q as real, radix, e0 - p), m, e)
  {
    hide Two, RPow, Near, Pow, Pow2, ValueOf, ScaledValue;
    BackError(q, ValueOf(m, e), radix, p - e0);
    SmallDigit(radix, e0, e, p);
  }

  /** The second trial, when d is below radix^e0: it is radix^e0 itself. */
  lemma RoundedToPower(radix: nat, e0: int, m: nat, e: int, p: nat, q: nat, q': nat)
    requires radix >= 2 && FullMantissa(m) && Bracket(radix, e0, e) && p >= 1 && Pow2(53) <= Pow(radix, p - 1)
    requires Near(q, ScaledValue(ValueOf(m, e), radix, p - e0)) && q >= Pow(radix, p)
    requires Near(q', ScaledValue(ValueOf(m, e), radix, p - e0 - 1)) && q' >= Pow(radix, p - 1)
    requires ValueOf(m, e) < RPow(radix, e0)
    ensures Close(ScaledValue(q' as real, radix, e0 + 1 - p), m, e)
  {
    hide Two, RPow, Near, Pow, Pow2, Times, ScaledValue, ValueOf;
    var v := ValueOf(m, e);
    BelowPower(v, radix, e0, p);
    NearAtMost(q', ScaledValue(v, radix, p - e0 - 1), Pow(radix, p - 1));
    PowerBack(radix, e0, p);
    BackError(q, v, radix, p - e0);
    SmallDigit(radix, e0, e, p);
    PowerBelow(v, radix, e0, p, q);
  }

  lemma BelowPower(v: real, radix: nat, e0: int, p: nat)
    requires radix >= 2 && p >= 1 && v < RPow(radix, e0)
    ensures ScaledValue(v, radix, p - e0 - 1) < Pow(radix, p - 1) as real
  {
    hide RPow, Times;
    RPowNat(radix, p - 1);
    RPowAdd(radix, e0, p - e0 - 1);
    TimesOrder(v, RPow(radix, e0), RPow(radix, p - e0 - 1));
  }

  lemma PowerBack(radix: nat, e0: int, p: nat)
    requires radix >= 2 && p >= 1
    ensures ScaledValue(Pow(radix, p - 1) as real, radix, e0 + 1 - p) == RPow(radix, e0)
    ensures ScaledValue(Pow(radix, p) as real, radix, e0 - p) == RPow(radix, e0)
  {
    hide RPow, Times;
    RPowNat(radix, p - 1);
    RPowNat(radix, p);
    RPowAdd(radix, p - 1, e0 + 1 - p);
    RPowAdd(radix, p, e0 - p);
  }

  /** radix^e0 lies between d and the first trial, so it is no farther from d. */
  lemma PowerBelow(v: real, radix: nat, e0: int, p: nat, q: nat)
    requires radix >= 2 && p >= 1 && q >= Pow(radix, p) && v < RPow(radix, e0)
    requires Within(ScaledValue(q as real, radix, 0 - (p - e0)), v, RPow(radix, e0 - p))
    ensures Within(RPow(radix, e0), v, RPow(radix, e0 - p))
  {
    hide RPow, Times;
    PowerBack(radix, e0, p);
    var r := RPow(radix, e0 - p);
    TimesOrder(Pow(radix, p) as real, q as real, r);
  }

  /** The second trial, when d is at least radix^e0: d is no power of two, and
      the digit is small compared with its binade. */
  lemma AbovePower(radix: nat, e0: int, m: nat, e: int, p: nat, q': nat)
    requires radix >= 2 && FullMantissa(m) && Bracket(radix, e0, e) && p >= 1 && Pow2(53) <= Pow(radix, p - 1)
    requires Near(q', ScaledValue(ValueOf(m, e), radix, p - e0 - 1))
    requires RPow(radix, e0) <= ValueOf(m, e)
    ensures Close(ScaledValue(q' as real, radix, e0 + 1 - p), m, e)
  {
    ValueRange(m, e);
    hide Two, RPow, Near, Pow, Pow2, Times, ScaledValue, ValueOf;
    BackError(q', ValueOf(m, e), radix, p - e0 - 1);
    var top := RPow(radix, p - 1);
    RPowNat(radix, p - 1);
    TwoNat(53);
    RPowAdd(radix, e0 + 1 - p, p - 1);
    TwoAdd(e - 53, 53);
    TimesOrder(Two(53), top, Two(e - 53));
    TimesCommute(Two(53), Two(e - 53));
    TimesCommute(top, Two(e - 53));
    TimesOrder(RPow(radix, e0 + 1 - p), Two(e - 53), top);
  }

  lemma SecondIsClose(radix: nat, e0: int, m: nat, e: int, p: nat, q: nat, q': nat)
    requires radix >= 2 && FullMantissa(m) && Bracket(radix, e0, e) && p >= 1 && Pow2(53) <= Pow(radix, p - 1)
    requires Near(q, ScaledValue(ValueOf(m, e), radix, p - e0)) && q >= Pow(radix, p)
    requires Near(q', ScaledValue(ValueOf(m, e), radix, p - e0 - 1))
    ensures Close(ScaledValue(q' as real, radix, e0 + 1 - p), m, e)
  {
    hide *;
    if ValueOf(m, e) < RPow(radix, e0) {
      SecondMantissa(radix, e0, m, e, p, q, q');
      RoundedToPower(radix, e0, m, e, p, q, q');
    } else {
      AbovePower(radix, e0, m, e, p, q');
    }
  }

  // ----- what mul_log2_radix and the tables say, as reals

  lemma PowAtMostReal(radix: nat, k: int, a: int)
    requires radix >= 1
    ensures PowAtMost(radix, k, a) <==> RPow(radix, k) <= Two(a)
  {
    hide Pow, Pow2, Times, RPow, Two;
    var q, t := Pow(radix, Pos(0 - k)), Pow2(Pos(0 - a));
    PowPositive(radix, Pos(0 - k));
    RPowSplit(radix, k);
    TwoSplit(a);
    TimesCast(Pow(radix, Pos(k)), t);
    TimesCast(Pow2(Pos(a)), q);
    TimesCast(q, t);
    TimesCast(t, q);
    TimesPositive(q as real, t as real);
    TimesAssoc(RPow(radix, k), q as real, t as real);
    TimesAssoc(Two(a), t as real, q as real);
    TimesCommute(q as real, t as real);
    TimesOrder(RPow(radix, k), Two(a), Times(q as real, t as real));
  }

  lemma LogBracket(radix: nat, e: int)
    requires IsRadix(radix) && 0 - 1073 <= e <= 1024
    ensures Bracket(radix, 1 + MulLog2Radix(e - 1, radix), e)
  {
    hide MulLog2Radix, PowAtMost, RPow, Two;
    MulLog2RadixCorrect(e - 1, radix);
    var l := MulLog2Radix(e - 1, radix);
    PowAtMostReal(radix, l, e - 1);
    PowAtMostReal(radix, l + 1, e - 1);
  }

  lemma RPowLess(b: nat, x: int, y: int)
    requires b >= 1 && RPow(b, x) < RPow(b, y)
    ensures x < y
  {
    hide RPow;
    if y <= x { RPowMonotone(b, y, x); }
  }

  /** The printed exponent lies between the exponents of certain underflow and
      overflow. */
  lemma ExponentRange(radix: nat, e0: int, e: int)
    requires IsRadix(radix) && Bracket(radix, e0, e) && 0 - 1073 <= e <= 1024
    ensures MinExponent(radix) < e0 <= MaxExponent(radix)
  {
    hide Pow, Pow2, MaxExponent, MinExponent;
    ExponentLimits(radix);
    BelowMax(radix, e0, e, MaxExponent(radix));
    AboveMin(radix, e0, e, 0 - MinExponent(radix));
  }

  lemma BelowMax(radix: nat, e0: int, e: int, hi: nat)
    requires radix >= 1 && Bracket(radix, e0, e) && e <= 1024 && Pow2(1024) <= Pow(radix, hi)
    ensures e0 <= hi
  {
    hide Pow, Pow2, RPow, Two;
    RPowNat(radix, hi);
    TwoNat(1024);
    TwoMonotone(e - 1, 1023);
    TwoNext(1023);
    RPowLess(radix, e0 - 1, hi);
  }

  lemma AboveMin(radix: nat, e0: int, e: int, n: nat)
    requires radix >= 1 && Bracket(radix, e0, e) && 0 - 1073 <= e && Pow2(1075) <= Pow(radix, n)
    ensures 0 - n < e0
  {
    hide Pow, Pow2, RPow, Two;
    SmallPower(radix, n);
    TwoMonotone(0 - 1074, e - 1);
    TwoNext(0 - 1075);
    RPowLess(radix, 0 - n, e0);
  }

  lemma SmallPower(radix: nat, n: nat)
    requires radix >= 1 && Pow2(1075) <= Pow(radix, n)
    ensures RPow(radix, 0 - n) <= Two(0 - 1075)
  {
    hide *;
    RPowNat(radix, n);
    TwoNat(1075);
    TwoAdd(0 - 1075, 1075);
    TwoNat(0);
    PowZeroth(2);
    TimesOrder(Two(1075), RPow(radix, n), Two(0 - 1075));
    TimesCommute(Two(1075), Two(0 - 1075));
    TimesCommute(RPow(radix, n), Two(0 - 1075));
    TimesOrder(RPow(radix, 0 - n), Two(0 - 1075), RPow(radix, n));
  }

  lemma RadixBelow64(radix: nat)
    requires IsRadix(radix)
    ensures radix as real < Two(6)
  {
    TwoNat(6);
    assert Pow2(6) == 64;
  }

  lemma UpperStep(a: real, radix: nat, b: real, x: int)
    requires 0.0 < a <= Two(x) && radix as real < Two(6) && b == Times(a, radix as real)
    ensures b <= Two(x + 6)
  {
    hide RPow, Two, Times;
    TwoAdd(x, 6);
    TimesCommute(a, radix as real);
    TimesCommute(a, Two(6));
    TimesOrder(radix as real, Two(6), a);
    TimesOrder(a, Two(x), Two(6));
  }
}

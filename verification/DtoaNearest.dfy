/** When a decimal (or any radix) value lies close enough to a double to round
    back to it: the arithmetic behind the digit search of js_dtoa. */
module DtoaNearest {
  import opened Powers
  import opened Rounding
  import opened Float64
  import opened RadixLog
  import opened RealPow
  import opened DtoaScale

  // ----- the spacing of doubles around m * 2^(e - 53)

  /** Neighbours of a normal double. */
  lemma NormalGaps(m: nat, e: int, k: nat)
    requires IsDouble(m, e, k) && k > 0 && e >= 0 - 1021
    ensures Grid(k) == m * Pow2(e + 1021)
    ensures Grid(k + 1) == Grid(k) + Pow2(e + 1021)
    ensures m > TWO_52 || e == 0 - 1021 ==> Grid(k - 1) + Pow2(e + 1021) == Grid(k)
    ensures m == TWO_52 && e > 0 - 1021 ==> k % 2 == 0 && 2 * Grid(k - 1) + Pow2(e + 1021) == 2 * Grid(k)
  {
    assert k == (e + 1022) * TWO_52 + (m - TWO_52) && TWO_52 <= m < TWO_53;
    hide *;
    FloatConstants();
    GapsOf(e + 1022, m - TWO_52, k);
  }

  /** Exponent field x and mantissa field mf, and the fields on either side. */
  lemma GapsOf(x: nat, mf: nat, k: nat)
    requires x >= 1 && mf < TWO_52 && k == x * TWO_52 + mf
    ensures Grid(k) == (TWO_52 + mf) * Pow2(x - 1)
    ensures Grid(k + 1) == Grid(k) + Pow2(x - 1)
    ensures mf > 0 || x == 1 ==> Grid(k - 1) + Pow2(x - 1) == Grid(k)
    ensures mf == 0 && x > 1 ==> k % 2 == 0 && 2 * Grid(k - 1) + Pow2(x - 1) == 2 * Grid(k)
  {
    hide *;
    FloatConstants();
    GridFields(x, mf);
    Distribute(TWO_52 + mf, 1, Pow2(x - 1));
    if mf + 1 < TWO_52 {
      GridFields(x, mf + 1);
    } else {
      GridFields(x + 1, 0);
      Pow2Next(x - 1);
    }
    if mf > 0 {
      GridFields(x, mf - 1);
    } else if x > 1 {
      GridFields(x - 1, TWO_52 - 1);
      Pow2Next(x - 2);
    } else {
      PowZeroth(2);
      GridFields(0, TWO_52 - 1);
    }
  }

  /** A double and what it is in units, and bounds on the gaps around it. */
  lemma GridReal(m: nat, e: int, k: nat)
    requires IsDouble(m, e, k) && k > 0
    ensures Grid(k) as real == Times(m as real, Two(e + 1021))
    ensures (Grid(k + 1) - Grid(k)) as real >= Two(e + 1021)
    ensures (Grid(k) - Grid(k - 1)) as real >= Two(e + 1020)
    ensures m > TWO_52 || k % 2 == 1 ==> (Grid(k) - Grid(k - 1)) as real >= Two(e + 1021)
  {
    if e >= 0 - 1021 {
      NormalGaps(m, e, k);
      hide Grid, Pow2, Times, RPow, Two;
      TwoNat(e + 1021);
      TimesCast(m, Pow2(e + 1021));
      TwoNext(e + 1020);
    } else {
      SubnormalIndex(m, e, k);
      assert Grid(k) == k && Grid(k + 1) == k + 1 && Grid(k - 1) == k - 1;
      hide Grid, Pow2, Times, RPow, Two, IsDouble;
      var s := 0 - 1021 - e;
      TwoNat(s);
      TwoNat(0);
      PowZeroth(2);
      TwoAdd(s, 0 - s);
      TimesCast(k, Pow2(s));
      TimesAssoc(k as real, Two(s), Two(0 - s));
      TimesOne(k as real);
      TwoMonotone(e + 1021, 0);
      TwoMonotone(e + 1020, 0);
    }
  }

  /** B/C is the value y in units. */
  ghost predicate InUnits(y: real, b: nat, c: nat) {
    c > 0 && b as real == Times(Times(y, Two(1074)), c as real)
  }

  ghost function ValueOf(m: nat, e: int): real {
    Times(m as real, Two(e - 53))
  }

  /** Twice the distance from y to v is at most gap. */
  ghost predicate Within(y: real, v: real, gap: real) {
    y - v + (y - v) <= gap && v - y + (v - y) <= gap
  }

  /** The distance that is safe on both sides of (m, e): half the smaller gap,
      where a tie goes to the double because its index is even; or strictly less
      than half the gap of its binade, away from the power of two. */
  ghost predicate Close(y: real, m: nat, e: int) {
    Within(y, ValueOf(m, e), Two(e - 54))
    || (m > TWO_52 && exists gap: real :: gap < Two(e - 53) && Within(y, ValueOf(m, e), gap))
  }

  lemma ScaledError(y: real, v: real, gap: real, u: real, t: real)
    requires Within(y, v, gap) && u > 0.0 && Times(gap, u) <= t
    ensures Within(Times(y, u), Times(v, u), t)
  {
    hide Times;
    var d := y - v;
    TimesDistribute(y, v, u);
    TimesDistribute(d, d, u);
    TimesOrder(d + d, gap, u);
    TimesOrder(0.0 - gap, d + d, u);
    TimesDistribute(0.0, gap, u);
    TimesOne(u);
  }

  /** A value within reach of the double k rounds to it. */
  lemma CloseInUnits(g: real, yu: real, m: nat, e: int, k: nat, b: nat, c: nat, gap: real)
    requires IsDouble(m, e, k) && k > 0 && c > 0 && b as real == Times(yu, c as real)
    requires g == Grid(k) as real && Within(yu, g, gap)
    requires gap <= Two(e + 1020) || (m > TWO_52 && gap < Two(e + 1021))
    ensures RoundMag(b, c, NearestEven) == k
  {
    GridReal(m, e, k);
    TwoNext(e + 1020);
    hide IsDouble, Two;
    var lo, hi := Grid(k - 1), Grid(k + 1);
    hide Grid, Times, RoundMag;
    var x := yu + yu;
    TwiceB(yu, b, c);
    Compare(lo + Grid(k), x, 2 * b, c);
    Compare(Grid(k) + hi, x, 2 * b, c);
    Distribute(lo, Grid(k), c);
    Distribute(hi, Grid(k), c);
    assert LocallyRounded(b, c, NearestEven, k);
    LocalIsGlobal(b, c, NearestEven, k);
    RoundMagCorrect(b, c, NearestEven);
    CorrectlyRoundedUnique(b, c, NearestEven, k, RoundMag(b, c, NearestEven));
  }

  lemma TwiceB(y: real, b: nat, c: nat)
    requires b as real == Times(y, c as real)
    ensures (2 * b) as real == Times(y + y, c as real)
  {
    hide Times;
    TimesDistribute(y, y, c as real);
  }

  lemma Compare(n: nat, x: real, b: nat, c: nat)
    requires c > 0 && b as real == Times(x, c as real)
    ensures n as real <= x ==> n * c <= b
    ensures n as real < x ==> n * c < b
    ensures x <= n as real ==> b <= n * c
    ensures x < n as real ==> b < n * c
  {
    hide Times;
    TimesCast(n, c);
    TimesOrder(n as real, x, c as real);
    TimesOrder(x, n as real, c as real);
  }

  lemma CloseRounds(y: real, m: nat, e: int, k: nat, b: nat, c: nat)
    requires IsDouble(m, e, k) && k > 0 && InUnits(y, b, c) && Close(y, m, e)
    ensures RoundMag(b, c, NearestEven) == k
  {
    GridReal(m, e, k);
    hide IsDouble, Grid, RoundMag, Times, Two;
    var u, v := Two(1074), ValueOf(m, e);
    TwoAdd(e - 53, 1074);
    TimesAssoc(m as real, Two(e - 53), u);
    TwoAdd(e - 54, 1074);
    if Within(y, v, Two(e - 54)) {
      ScaledError(y, v, Two(e - 54), u, Two(e + 1020));
      CloseInUnits(Grid(k) as real, Times(y, u), m, e, k, b, c, Two(e + 1020));
    } else {
      var gap: real :| gap < Two(e - 53) && Within(y, v, gap);
      TimesOrder(gap, Two(e - 53), u);
      ScaledError(y, v, gap, u, Times(gap, u));
      CloseInUnits(Grid(k) as real, Times(y, u), m, e, k, b, c, Times(gap, u));
    }
  }
}

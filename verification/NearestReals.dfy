/** The double nearest to a real number: what printing and parsing promise about the
    numbers that texts stand for. */
module NearestReals {
  import opened Powers
  import opened Rounding
  import opened Float64
  import opened RoundingModes
  import opened RadixLog
  import opened RealPow
  import opened DtoaScale
  import opened DtoaNearest
  import opened DtoaSearch
  import opened DtoaRoom
  import opened AtodLex

  /** The value of the double k, and 2^1024 for the index after the largest of them. */
  ghost function DoubleReal(k: nat): real {
    Grid(k) as real * RPow(2, 0 - 1074)
  }

  ghost function Gap(x: real, y: real): real {
    if x >= y then x - y else y - x
  }

  /** k is the double nearest to y, ties to the even one; infinity from 2^1024 - 2^970
      on. */
  ghost predicate NearestReal(y: real, k: nat) {
    && k <= INFINITY && (k < INFINITY <==> y < RPow(2, 1024) - RPow(2, 970))
    && forall j: nat :: k < INFINITY ==>
         && Gap(DoubleReal(k), y) <= Gap(DoubleReal(j), y)
         && (j != k && Gap(DoubleReal(k), y) == Gap(DoubleReal(j), y) ==> k % 2 == 0)
  }

  /** On bits: no finite double a is nearer than the one with the bits k. */
  lemma NearestMeans(y: real, k: nat, a: u64)
    requires NearestReal(y, k) && IsFinite(a)
    ensures k == INFINITY <==> y >= RPow(2, 1024) - RPow(2, 970)
    ensures k < INFINITY ==>
      && IsFinite(k) && Gap(Units(k) as real * RPow(2, 0 - 1074), y) <= Gap(Units(a) as real * RPow(2, 0 - 1074), y)
      && (Units(k) != Units(a) && Gap(Units(k) as real * RPow(2, 0 - 1074), y) == Gap(Units(a) as real * RPow(2, 0 - 1074), y) ==>
            k % 2 == 0)
  {
    hide Grid, RPow, Gap, Units, DoubleReal;
    ValueOfBits(a);
    if k < INFINITY {
      ValueOfBits(k);
      assert Gap(DoubleReal(k), y) <= Gap(DoubleReal(Index(a)), y);
    }
  }

  lemma ValueOfBits(a: u64)
    requires IsFinite(a)
    ensures DoubleReal(Index(a)) == Units(a) as real * RPow(2, 0 - 1074) && Index(a) < INFINITY
    ensures a < INFINITY ==> Index(a) == a
    ensures 0 <= Units(a)
  {
    hide Grid, RPow;
  }

  /** From fractions of units to reals. */
  lemma FromUnits(y: real, b: nat, c: nat, k: nat)
    requires InUnits(y, b, c) && NearestDouble(b, c, k)
    ensures NearestReal(y, k)
  {
    hide Grid, RPow, Gap, DoubleReal, Threshold, Dist, InUnits;
    ThresholdInUnits(y, b, c);
    forall j: nat | k < INFINITY
      ensures Gap(DoubleReal(k), y) <= Gap(DoubleReal(j), y)
      ensures j != k && Gap(DoubleReal(k), y) == Gap(DoubleReal(j), y) ==> k % 2 == 0
    {
      GapInUnits(y, b, c, Grid(k), Grid(j));
      DoubleRealIs(k);
      DoubleRealIs(j);
    }
  }

  lemma DoubleRealIs(k: nat)
    ensures DoubleReal(k) == Times(Grid(k) as real, RPow(2, 0 - 1074))
  {}

  /** Comparing distances in units and in reals. */
  lemma GapInUnits(y: real, b: nat, c: nat, g: nat, h: nat)
    requires InUnits(y, b, c)
    ensures var u := RPow(2, 0 - 1074);
            && (Dist(g * c, b) <= Dist(h * c, b) <==> Gap(Times(g as real, u), y) <= Gap(Times(h as real, u), y))
            && (Dist(g * c, b) == Dist(h * c, b) <==> Gap(Times(g as real, u), y) == Gap(Times(h as real, u), y))
  {
    hide RPow, Times, Gap, Dist;
    var u := RPow(2, 0 - 1074);
    var w := Times(RPow(2, 1074), c as real);
    TimesPositive(RPow(2, 1074), c as real);
    UnitGap(y, b, c, g, w);
    UnitGap(y, b, c, h, w);
    TimesOrder(Gap(Times(g as real, u), y), Gap(Times(h as real, u), y), w);
  }

  /** One distance. */
  lemma UnitGap(y: real, b: nat, c: nat, g: nat, w: real)
    requires InUnits(y, b, c) && w == Times(RPow(2, 1074), c as real)
    ensures Dist(g * c, b) as real == Times(Gap(Times(g as real, RPow(2, 0 - 1074)), y), w)
  {
    var u := RPow(2, 0 - 1074);
    hide RPow, Times;
    UnitBack(g as real);
    TimesAssoc(Times(g as real, u), RPow(2, 1074), c as real);
    TimesAssoc(y, RPow(2, 1074), c as real);
    TimesCast(g, c);
    TimesDistribute(Times(g as real, u), y, w);
    TimesDistribute(y, Times(g as real, u), w);
    TwoIs(1074);
  }

  lemma TwoIs(n: int)
    ensures Two(n) == RPow(2, n)
  {}

  /** Units there and back. */
  lemma UnitBack(x: real)
    ensures Times(Times(x, RPow(2, 0 - 1074)), RPow(2, 1074)) == x
  {
    hide RPow, Times;
    RPowNat(2, 1074);
    TimesAssoc(x, RPow(2, 0 - 1074), RPow(2, 1074));
    TimesOne(x);
  }

  lemma ThresholdInUnits(y: real, b: nat, c: nat)
    requires InUnits(y, b, c)
    ensures b < Threshold() * c <==> y < RPow(2, 1024) - RPow(2, 970)
  {
    var t := Threshold();
    var limit := RPow(2, 1024) - RPow(2, 970);
    ThresholdReal();
    hide RPow, Times, Threshold;
    var w := Times(RPow(2, 1074), c as real);
    TimesPositive(RPow(2, 1074), c as real);
    TimesAssoc(y, RPow(2, 1074), c as real);
    TimesAssoc(limit, RPow(2, 1074), c as real);
    TwoIs(1074);
    TimesCast(t, c);
    TimesOrder(y, limit, w);
  }

  lemma ThresholdReal()
    ensures Threshold() as real == Times(RPow(2, 1024) - RPow(2, 970), RPow(2, 1074))
  {
    hide RPow, Times, Pow2;
    TwoIs(2098);
    TwoIs(2044);
    TwoNat(2098);
    TwoNat(2044);
    RPowAdd(2, 1024, 1074);
    RPowAdd(2, 970, 1074);
    TimesDistribute(RPow(2, 1024), RPow(2, 970), RPow(2, 1074));
  }

  /** The double that (m, e) stands for. */
  lemma DoubleRealOf(m: nat, e: int, k: nat)
    requires IsDouble(m, e, k) && k > 0
    ensures ValueOf(m, e) == DoubleReal(k)
  {
    hide Grid, IsDouble, RPow, Times;
    GridReal(m, e, k);
    RealShift(m as real, Grid(k) as real, e);
    DoubleRealIs(k);
  }

  lemma RealShift(m: real, g: real, e: int)
    requires g == Times(m, Two(e + 1021))
    ensures Times(m, Two(e - 53)) == Times(g, RPow(2, 0 - 1074))
  {
    hide RPow, Times;
    TwoAdd(e + 1021, 0 - 1074);
    TimesAssoc(m, Two(e + 1021), Two(0 - 1074));
  }

  /** What DoubleOf and NearestTo compute: the double nearest to n * radix^f * 2^t. */
  lemma NearestToReal(n: nat, radix: nat, f: int, t: int)
    requires radix >= 1
    ensures var k := NearestTo(n, radix, f, t);
            NearestReal(Times(Times(n as real, RPow(radix, f)), RPow(2, t)), if k < INFINITY then k else INFINITY)
    ensures t == 0 ==> NearestTo(n, radix, f, t) == DoubleOf(n, radix, f, NearestEven)
  {
    hide Times, RPow, NearestReal, NearestDouble, RoundMag;
    var b, c := NearestToIs(n, radix, f, t);
    RoundMagNearest(b, c);
    var k := NearestTo(n, radix, f, t);
    FromUnits(Times(Times(n as real, RPow(radix, f)), RPow(2, t)), b, c, if k < INFINITY then k else INFINITY);
  }

  lemma NearestToIs(n: nat, radix: nat, f: int, t: int) returns (b: nat, c: nat)
    requires radix >= 1
    ensures c > 0 && NearestTo(n, radix, f, t) == RoundMag(b, c, NearestEven)
    ensures InUnits(Times(Times(n as real, RPow(radix, f)), RPow(2, t)), b, c)
  {
    PowPositive(radix, Pos(0 - f));
    var p, q, u := Pow(radix, Pos(f)), Pow(radix, Pos(0 - f)), 1074 + t;
    MulStrict(0, q, Pow2(Pos(0 - u)));
    b, c := n * p * Pow2(Pos(u)), q * Pow2(Pos(0 - u));
    assert Pow2(0) == 1;
    hide Pow, Pow2, RoundMag, Times, RPow;
    if u >= 0 { TimesOneIs(q, Pow2(0)); } else { TimesOneIs(n * p, Pow2(0)); }
    assert NearestTo(n, radix, f, t) == RoundMag(b, c, NearestEven);
    FractionReal(n, radix, f, u, b, c);
    var y := Times(n as real, RPow(radix, f));
    TwoAdd(t, 1074);
    TwoIs(t);
    TimesAssoc(y, Two(t), Two(1074));
  }

  lemma FractionReal(n: nat, radix: nat, f: int, u: int, b: nat, c: nat)
    requires radix >= 1 && b == n * Pow(radix, Pos(f)) * Pow2(Pos(u)) && c == Pow(radix, Pos(0 - f)) * Pow2(Pos(0 - u))
    ensures b as real == Times(Times(Times(n as real, RPow(radix, f)), Two(u)), c as real)
  {
    hide *;
    RPowSplit(radix, f);
    TwoSplit(u);
    var p, q := Pow(radix, Pos(f)), Pow(radix, Pos(0 - f));
    var s, d := Pow2(Pos(u)), Pow2(Pos(0 - u));
    TimesCast(n, p);
    TimesCast(n * p, s);
    TimesCast(q, d);
    RegroupProduct(n as real, RPow(radix, f), Two(u), q as real, d as real);
  }

  lemma RegroupProduct(n: real, r: real, w: real, q: real, d: real)
    ensures Times(Times(Times(n, r), w), Times(q, d)) == Times(Times(n, Times(r, q)), Times(w, d))
  {
    hide Times;
    TimesAssoc(Times(Times(n, r), w), q, d);
    TimesAssoc(Times(n, r), w, q);
    TimesCommute(w, q);
    TimesAssoc(Times(n, r), q, w);
    TimesAssoc(n, r, q);
    TimesAssoc(Times(n, Times(r, q)), w, d);
  }

  /** There is only one. */
  lemma NearestUnique(y: real, k: nat, k': nat)
    requires NearestReal(y, k) && NearestReal(y, k')
    ensures k == k'
  {
    hide DoubleReal, RPow;
    if k < k' {
      BetweenCloser(y, k, k');
    } else if k' < k {
      BetweenCloser(y, k', k);
    }
  }

  /** Two different doubles are not both nearest: one between them would be nearer, and
      neighbours are not both even. */
  lemma BetweenCloser(y: real, k: nat, k': nat)
    requires k < k' && NearestReal(y, k)
    ensures !NearestReal(y, k')
  {
    hide DoubleReal, RPow;
    DoubleRealGrows(k, k');
    if k + 1 < k' {
      DoubleRealGrows(k, k + 1);
      DoubleRealGrows(k + 1, k');
    }
  }

  lemma DoubleRealGrows(k: nat, j: nat)
    requires k < j
    ensures DoubleReal(k) < DoubleReal(j)
  {
    hide Grid, RPow, DoubleReal, Times;
    GridMonotone(k, j);
    DoubleRealIs(k);
    DoubleRealIs(j);
    TimesOrder(Grid(k) as real, Grid(j) as real, RPow(2, 0 - 1074));
  }
}

/** What the five rounding modes of IEEE 754 (sections 4.3 and 7.4) ask of a result,
    each said by its name, on signed values and over all finite doubles: an exact
    result of s/d units of 2^-1074 and the double returned for it. */
module RoundingModes {
  import opened Powers
  import opened Rounding
  import opened Float64

  const NEGATIVE_INFINITY: u64 := 0xFFF0_0000_0000_0000

  /** 2^1024 - 2^970 in units: from there on nearest rounding overflows. */
  function Threshold(): nat {
    Pow2Monotone(2044, 2098);
    Pow2(2098) - Pow2(2044)
  }

  /** The double res is s/d units rounded in mode rm. */
  ghost predicate Meets(s: int, d: nat, rm: RoundingMode, res: u64) {
    && !IsNaN(res) && (s != 0 ==> Sign(res) == (s < 0))
    && match rm
       case RDN =>
         && (if IsFinite(res) then SignedUnits(res) * d <= s else res == NEGATIVE_INFINITY)
         && forall y: u64 :: IsFinite(y) && SignedUnits(y) * d <= s ==> IsFinite(res) && SignedUnits(y) <= SignedUnits(res)
       case RUP =>
         && (if IsFinite(res) then s <= SignedUnits(res) * d else res == INFINITY)
         && forall y: u64 :: IsFinite(y) && s <= SignedUnits(y) * d ==> IsFinite(res) && SignedUnits(res) <= SignedUnits(y)
       case RTZ =>
         && IsFinite(res) && Units(res) * d <= Abs(s)
         && forall y: u64 :: IsFinite(y) && Units(y) * d <= Abs(s) ==> Units(y) <= Units(res)
       case RNE =>
         && (IsFinite(res) <==> Abs(s) < Threshold() * d)
         && forall y: u64 :: IsFinite(res) && IsFinite(y) && SignedUnits(y) != SignedUnits(res) ==>
              && Dist(SignedUnits(res) * d, s) <= Dist(SignedUnits(y) * d, s)
              && (Dist(SignedUnits(res) * d, s) == Dist(SignedUnits(y) * d, s) ==> res % 2 == 0)
       case RMM =>
         && (IsFinite(res) <==> Abs(s) < Threshold() * d)
         && forall y: u64 :: IsFinite(res) && IsFinite(y) && SignedUnits(y) != SignedUnits(res) ==>
              && Dist(SignedUnits(res) * d, s) <= Dist(SignedUnits(y) * d, s)
              && (Dist(SignedUnits(res) * d, s) == Dist(SignedUnits(y) * d, s) ==> Units(y) < Units(res))
  }

  /** Round down: the greatest double that is not above, or -infinity. */
  lemma RoundDown(s: int, d: nat, res: u64)
    requires Meets(s, d, RDN, res)
    ensures if IsFinite(res) then SignedUnits(res) * d <= s else res == NEGATIVE_INFINITY
    ensures forall y: u64 :: IsFinite(y) && SignedUnits(y) * d <= s ==> IsFinite(res) && SignedUnits(y) <= SignedUnits(res)
  {}

  /** Round up: the least double that is not below, or infinity. */
  lemma RoundUp(s: int, d: nat, res: u64)
    requires Meets(s, d, RUP, res)
    ensures if IsFinite(res) then s <= SignedUnits(res) * d else res == INFINITY
    ensures forall y: u64 :: IsFinite(y) && s <= SignedUnits(y) * d ==> IsFinite(res) && SignedUnits(res) <= SignedUnits(y)
  {}

  /** Round towards zero: the largest magnitude that is not above, never infinite. */
  lemma RoundTowardZero(s: int, d: nat, res: u64)
    requires Meets(s, d, RTZ, res)
    ensures IsFinite(res) && Units(res) * d <= Abs(s)
    ensures forall y: u64 :: IsFinite(y) && Units(y) * d <= Abs(s) ==> Units(y) <= Units(res)
  {}

  /** Nearest, ties to even: no double is closer, and none as close unless the last
      bit of the result is 0; infinite from 2^1024 - 2^970 on. */
  lemma RoundNearestEven(s: int, d: nat, res: u64, y: u64)
    requires Meets(s, d, RNE, res)
    ensures IsFinite(res) <==> Abs(s) < (Pow2(2098) - Pow2(2044)) * d
    ensures IsFinite(res) && IsFinite(y) ==> Dist(SignedUnits(res) * d, s) <= Dist(SignedUnits(y) * d, s)
    ensures (IsFinite(res) && IsFinite(y) && SignedUnits(y) != SignedUnits(res)
             && Dist(SignedUnits(res) * d, s) == Dist(SignedUnits(y) * d, s)) ==> res % 2 == 0
  {
    hide Units, Pow2;
  }

  /** Nearest, ties to the larger magnitude; infinite from the same point on. */
  lemma RoundNearestAway(s: int, d: nat, res: u64, y: u64)
    requires Meets(s, d, RMM, res)
    ensures IsFinite(res) <==> Abs(s) < (Pow2(2098) - Pow2(2044)) * d
    ensures IsFinite(res) && IsFinite(y) ==> Dist(SignedUnits(res) * d, s) <= Dist(SignedUnits(y) * d, s)
    ensures (IsFinite(res) && IsFinite(y) && SignedUnits(y) != SignedUnits(res)
             && Dist(SignedUnits(res) * d, s) == Dist(SignedUnits(y) * d, s)) ==> Units(y) < Units(res)
  {
    hide Units, Pow2;
  }

  /** The value of a double, from the fields of its bits. */
  lemma DoubleValue(a: u64)
    ensures var e, m := a / 0x10_0000_0000_0000 % 2048, a % 0x10_0000_0000_0000;
            && (IsFinite(a) <==> e < 2047) && (IsNaN(a) <==> e == 2047 && m > 0)
            && (Sign(a) <==> a >= 0x8000_0000_0000_0000)
            && (IsFinite(a) ==> Units(a) == if e == 0 then m else (0x10_0000_0000_0000 + m) * Pow2(e - 1))
            && SignedUnits(a) == if a >= 0x8000_0000_0000_0000 then 0 - Units(a) else Units(a)
  {
    hide Grid, Pow2;
    Classify(a);
    Fields(a);
    GridFields(ExpField(a), MantField(a));
  }

  // ----- from the computed rounding

  /** The bits of a result. */
  lemma Encoded(sign: bool, k: nat, dir: Direction)
    ensures var res := Encode(sign, k, dir);
            && 0 <= res < TWO_64 && Sign(res) == sign && !IsNaN(res)
            && Index(res) == (if k < INFINITY then k else if dir == TowardZero then INFINITY - 1 else INFINITY)
  {}

  /** Magnitudes towards zero. */
  lemma TowardZeroLargest(n: nat, d: nat, k: nat, j: nat)
    requires d > 0 && CorrectlyRounded(n, d, TowardZero, k)
    ensures Grid(Max(0, Min(k, INFINITY - 1))) * d <= n
    ensures j < INFINITY && Grid(j) * d <= n ==> Grid(j) <= Grid(Min(k, INFINITY - 1))
  {
    hide Grid;
    var c := Min(k, INFINITY - 1);
    GridScaled(c, k, d);
    if j < INFINITY && Grid(j) * d <= n {
      if j > k { GridScaled(k + 1, j, d); }
      if j < c { GridMonotone(j, c); }
    }
  }

  /** Magnitudes away from zero. */
  lemma AwayLeast(n: nat, d: nat, k: nat, j: nat)
    requires d > 0 && CorrectlyRounded(n, d, AwayFromZero, k)
    ensures n <= Grid(k) * d
    ensures n <= Grid(j) * d ==> k <= j && Grid(k) <= Grid(j)
  {
    hide Grid;
    if n <= Grid(j) * d {
      if j < k { GridScaled(j, k - 1, d); } else if k < j { GridMonotone(k, j); }
    }
  }

  /** Where nearest rounding reaches the grid point after the largest finite double. */
  lemma NearestOverflow(n: nat, d: nat, k: nat, dir: Direction)
    requires d > 0 && CorrectlyRounded(n, d, dir, k) && (dir == NearestEven || dir == NearestAway)
    ensures k < INFINITY <==> n < Threshold() * d
  {
    hide Grid, CorrectlyRounded, Threshold;
    Halfway();
    var lo, hi, t := Grid(INFINITY - 1), Grid(INFINITY), Threshold();
    Distribute(lo, hi, d);
    MulAssoc(2, t, d);
    GridScaled(INFINITY - 1, INFINITY, d);
    OverflowSides(n, d, k, dir);
    if k < INFINITY { GridScaled(k, INFINITY - 1, d); } else { GridScaled(INFINITY, k, d); }
    Sides(lo * d, hi * d, t * d, Grid(k) * d, n, k < INFINITY);
  }

  lemma Sides(lo: nat, hi: nat, t: nat, g: nat, n: nat, below: bool)
    requires lo < hi && lo + hi == 2 * t
    requires if below then g <= lo && (Dist(g, n) < Dist(hi, n)) else g >= hi && Dist(g, n) <= Dist(lo, n)
    ensures below <==> n < t
  {}

  /** The two doubles around the threshold, compared with k. */
  lemma OverflowSides(n: nat, d: nat, k: nat, dir: Direction)
    requires d > 0 && CorrectlyRounded(n, d, dir, k) && (dir == NearestEven || dir == NearestAway)
    ensures k < INFINITY ==> Dist(Grid(k) * d, n) < Dist(Grid(INFINITY) * d, n)
    ensures k >= INFINITY ==> Dist(Grid(k) * d, n) <= Dist(Grid(INFINITY - 1) * d, n)
  {
    hide Grid;
    if k < INFINITY - 1 {
      GridScaled(k, INFINITY - 1, d);
      GridScaled(INFINITY - 1, INFINITY, d);
    }
  }

  lemma Halfway()
    ensures Grid(INFINITY) + Grid(INFINITY - 1) == 2 * Threshold()
    ensures Grid(INFINITY) == Pow2(2098)
  {
    hide Grid, Pow2;
    GridFields(2047, 0);
    GridFields(2046, TWO_52 - 1);
    Pow2Constants();
    Pow2Add(52, 2046);
    Pow2Add(53, 2045);
    Pow2Next(2044);
  }

  lemma UnitsOf(res: u64, k: nat)
    requires Index(res) == k
    ensures Units(res) == Grid(k) && (Sign(res) ==> SignedUnits(res) == 0 - Grid(k)) && (!Sign(res) ==> SignedUnits(res) == Grid(k))
  {}

  /** A directed mode that makes magnitudes smaller. */
  lemma ShrinkMeets(sign: bool, n: nat, d: nat, k: nat, rm: RoundingMode)
    requires d > 0 && CorrectlyRounded(n, d, TowardZero, k)
    requires rm == RTZ || rm == (if sign then RUP else RDN)
    ensures Meets(if sign then 0 - n else n, d, rm, Encode(sign, k, TowardZero))
  {
    hide Grid, Encode, CorrectlyRounded, Index, Sign;
    Encoded(sign, k, TowardZero);
    var res, c := Encode(sign, k, TowardZero), Min(k, INFINITY - 1);
    UnitsOf(res, c);
    TowardZeroLargest(n, d, k, 0);
    Negated(Grid(c), d);
    forall y: u64 | IsFinite(y)
      ensures Units(y) * d <= n ==> Units(y) <= Units(res)
      ensures if Sign(y) then SignedUnits(y) * d == 0 - Units(y) * d else SignedUnits(y) * d == Units(y) * d
    {
      TowardZeroLargest(n, d, k, Index(y));
      Negated(Units(y), d);
    }
  }

  lemma Negated(v: nat, d: nat)
    ensures (0 - v) * d == 0 - v * d && v * d >= 0
  {}

  /** One that makes them larger. */
  lemma GrowMeets(sign: bool, n: nat, d: nat, k: nat, rm: RoundingMode)
    requires d > 0 && CorrectlyRounded(n, d, AwayFromZero, k) && rm == (if sign then RDN else RUP)
    ensures Meets(if sign then 0 - n else n, d, rm, Encode(sign, k, AwayFromZero))
  {
    hide Grid, Encode, CorrectlyRounded, Index, Sign;
    Encoded(sign, k, AwayFromZero);
    var res := Encode(sign, k, AwayFromZero);
    UnitsOf(res, Min(k, INFINITY));
    AwayLeast(n, d, k, k);
    Negated(Grid(k), d);
    InfinityBits(res);
    forall y: u64 | IsFinite(y)
      ensures n <= Units(y) * d ==> k < INFINITY && Grid(k) <= Units(y)
      ensures if Sign(y) then SignedUnits(y) * d == 0 - Units(y) * d else SignedUnits(y) * d == Units(y) * d
      ensures Units(y) >= 0 && (n > 0 ==> (0 - Units(y)) * d < n)
    {
      AwayLeast(n, d, k, Index(y));
      Negated(Units(y), d);
    }
    if n == 0 { AwayLeast(n, d, k, 0); GridZero(); }
  }

  lemma GridZero()
    ensures Grid(0) == 0
  {}

  lemma InfinityBits(res: u64)
    ensures Index(res) == INFINITY ==> res == if Sign(res) then NEGATIVE_INFINITY else INFINITY
  {}

  /** One grid point against another, on signed values. */
  lemma NearestPair(sign: bool, n: nat, d: nat, k: nat, dir: Direction, y: u64)
    requires d > 0 && CorrectlyRounded(n, d, dir, k) && (dir == NearestEven || dir == NearestAway) && IsFinite(y)
    ensures var s, r := if sign then 0 - n else n, if sign then 0 - Grid(k) else Grid(k);
            && Dist(r * d, s) <= Dist(SignedUnits(y) * d, s)
            && (SignedUnits(y) != r && Dist(r * d, s) == Dist(SignedUnits(y) * d, s) ==>
                  if dir == NearestEven then k % 2 == 0 else Units(y) < Grid(k))
  {
    hide Grid, CorrectlyRounded, Index, Sign;
    var j := if Sign(y) == sign then Index(y) else 0;
    GridZero();
    UnitsOf(y, Index(y));
    PairByRule(n, d, k, dir, j);
    Negated(Grid(k), d);
    Negated(Units(y), d);
    if Sign(y) != sign { MulMonotone(0, Units(y), d); GridScaled(0, Index(y), d); }
  }

  lemma PairByRule(n: nat, d: nat, k: nat, dir: Direction, j: nat)
    requires d > 0 && CorrectlyRounded(n, d, dir, k) && (dir == NearestEven || dir == NearestAway)
    ensures Dist(Grid(k) * d, n) <= Dist(Grid(j) * d, n)
    ensures j != k && Dist(Grid(k) * d, n) == Dist(Grid(j) * d, n) ==>
      if dir == NearestEven then k % 2 == 0 else Grid(j) < Grid(k)
  {
    hide Grid;
    if j < k { GridMonotone(j, k); }
  }

  lemma NearestMeets(sign: bool, n: nat, d: nat, k: nat, dir: Direction, rm: RoundingMode)
    requires d > 0 && CorrectlyRounded(n, d, dir, k)
    requires (rm == RNE && dir == NearestEven) || (rm == RMM && dir == NearestAway)
    ensures Meets(if sign then 0 - n else n, d, rm, Encode(sign, k, dir))
  {
    hide Grid, Encode, CorrectlyRounded, Index, Sign, Threshold, SignedUnits, Units;
    Encoded(sign, k, dir);
    var res := Encode(sign, k, dir);
    UnitsOf(res, Min(k, INFINITY));
    NearestOverflow(n, d, k, dir);
    EvenBits(res);
    forall y: u64 | IsFinite(y) && k < INFINITY
      ensures var s := if sign then 0 - n else n;
              && Dist(SignedUnits(res) * d, s) <= Dist(SignedUnits(y) * d, s)
              && (SignedUnits(y) != SignedUnits(res) && Dist(SignedUnits(res) * d, s) == Dist(SignedUnits(y) * d, s) ==>
                    if dir == NearestEven then res % 2 == 0 else Units(y) < Units(res))
    {
      NearestPair(sign, n, d, k, dir, y);
    }
  }

  lemma EvenBits(res: u64)
    ensures res % 2 == Index(res) % 2
  {}

  /** The result that the specifications compute meets the mode it is named for. */
  lemma RoundToDoubleMeets(sign: bool, n: nat, d: nat, t: int, rm: RoundingMode)
    requires d > 0
    ensures var m, c := n * Pow2(if t >= 0 then t else 0), d * Pow2(if t >= 0 then 0 else 0 - t);
            Meets(if sign then 0 - m else m, c, rm, RoundToDouble(sign, n, d, t, rm))
  {
    hide Meets, Encode, RoundMag, Pow2;
    var p, q := Pow2(if t >= 0 then t else 0), Pow2(if t >= 0 then 0 else 0 - t);
    assert Pow2(0) == 1 by { OneUnit(); }
    MulStrict(0, d, q);
    var dir := DirectionOf(rm, sign);
    RoundMagCorrect(n * p, d * q, dir);
    var k := RoundMag(n * p, d * q, dir);
    hide CorrectlyRounded;
    match rm
    case RNE => NearestMeets(sign, n * p, d * q, k, dir, rm);
    case RMM => NearestMeets(sign, n * p, d * q, k, dir, rm);
    case RTZ => ShrinkMeets(sign, n * p, d * q, k, rm);
    case RDN => if sign { GrowMeets(sign, n * p, d * q, k, rm); } else { ShrinkMeets(sign, n * p, d * q, k, rm); }
    case RUP => if sign { ShrinkMeets(sign, n * p, d * q, k, rm); } else { GrowMeets(sign, n * p, d * q, k, rm); }
  }

  lemma OneUnit()
    ensures Pow2(0) == 1
  {}

  // ----- the nearest double to a magnitude

  /** k is the index of the double nearest to b/c units, ties to even, or INFINITY. */
  ghost predicate NearestDouble(b: nat, c: nat, k: nat) {
    && k <= INFINITY && (k < INFINITY <==> b < Threshold() * c)
    && forall j: nat :: k < INFINITY ==>
         && Dist(Grid(k) * c, b) <= Dist(Grid(j) * c, b)
         && (j != k && Dist(Grid(k) * c, b) == Dist(Grid(j) * c, b) ==> k % 2 == 0)
  }

  /** No double is closer, and none as close unless the last bit of k is 0. */
  lemma NearestDoubleMeans(b: nat, c: nat, k: nat, y: u64)
    requires NearestDouble(b, c, k) && IsFinite(y)
    ensures k <= INFINITY && (k < INFINITY <==> b < (Pow2(2098) - Pow2(2044)) * c)
    ensures k < INFINITY ==> Dist(Units(k) * c, b) <= Dist(Units(y) * c, b)
    ensures k < INFINITY && Units(k) != Units(y) && Dist(Units(k) * c, b) == Dist(Units(y) * c, b) ==> k % 2 == 0
  {
    hide Grid, Pow2;
    if k < INFINITY { UnitsOf(k, k); }
    UnitsOf(y, Index(y));
  }

  /** Rounding a magnitude to nearest, and cutting off at infinity. */
  lemma RoundMagNearest(b: nat, c: nat)
    requires c > 0
    ensures var k := RoundMag(b, c, NearestEven); NearestDouble(b, c, if k < INFINITY then k else INFINITY)
  {
    hide Grid, RoundMag, CorrectlyRounded, Threshold;
    var k := RoundMag(b, c, NearestEven);
    RoundMagCorrect(b, c, NearestEven);
    NearestOverflow(b, c, k, NearestEven);
    forall j: nat
      ensures Dist(Grid(k) * c, b) <= Dist(Grid(j) * c, b)
      ensures j != k && Dist(Grid(k) * c, b) == Dist(Grid(j) * c, b) ==> k % 2 == 0
    {
      PairByRule(b, c, k, NearestEven, j);
    }
  }
}

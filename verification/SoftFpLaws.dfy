/** The operations of softfp_template.h against IEEE 754, one theorem each, in terms of
    the values of the operands: what finite operands give in every mode, the sign of a
    zero, and what infinities and NaN give. */
module SoftFpLaws {
  import opened Powers
  import opened Rounding
  import opened Float64
  import opened RoundingModes
  import opened SoftFpAdd
  import opened SoftFpMul
  import opened SoftFpConvert
  import Ieee754

  const NAN: u64 := 0x7FF8_0000_0000_0000
  const NEGATIVE_ZERO: u64 := 0x8000_0000_0000_0000

  /** The bits of the special values. */
  lemma SpecialBits(sign: bool)
    ensures Ieee754.Zero(sign) == if sign then NEGATIVE_ZERO else 0
    ensures Ieee754.Infinity(sign) == if sign then NEGATIVE_INFINITY else INFINITY
    ensures QNAN == NAN
  {}

  /** A sum and its sign, rounded. */
  lemma SumMeets(s: int, rm: RoundingMode)
    ensures Meets(s, 1, rm, RoundToDouble(s < 0, Abs(s), 1, 0, rm))
  {
    hide Meets, RoundToDouble;
    OneUnit();
    RoundToDoubleMeets(s < 0, Abs(s), 1, 0, rm);
  }

  /** Both zeros are the rounding of an exact zero. */
  lemma ZeroMeets(d: nat, rm: RoundingMode, sign: bool)
    requires d > 0
    ensures Meets(0, d, rm, if sign then NEGATIVE_ZERO else 0)
  {
    hide Meets, Encode;
    SpecialBits(sign);
    RoundToDoubleMeets(sign, 0, d, 0, rm);
    RoundScaledZero(d, 0, DirectionOf(rm, sign));
    OneUnit();
    assert Encode(sign, 0, DirectionOf(rm, sign)) == Encode(sign, 0, AwayFromZero) by { EncodeZero(sign, DirectionOf(rm, sign)); }
  }

  lemma EncodeZero(sign: bool, dir: Direction)
    ensures Encode(sign, 0, dir) == if sign then NEGATIVE_ZERO else 0
  {}

  /** add_sf. */
  lemma AddMeans(a: u64, b: u64, rm: RoundingMode, clz0: nat)
    requires 1 <= clz0 <= 64
    ensures var r := AddSf(a, b, rm, clz0);
            && (IsFinite(a) && IsFinite(b) ==> Meets(SignedUnits(a) + SignedUnits(b), 1, rm, r))
            && (IsFinite(a) && IsFinite(b) && SignedUnits(a) + SignedUnits(b) == 0 ==>
                  r == if Sign(a) && Sign(b) then NEGATIVE_ZERO else if Sign(a) != Sign(b) && rm == RDN then NEGATIVE_ZERO else 0)
            && (IsNaN(a) || IsNaN(b) ==> r == NAN)
            && (a == INFINITY && b == NEGATIVE_INFINITY ==> r == NAN)
            && (a == NEGATIVE_INFINITY && b == INFINITY ==> r == NAN)
            && ((a == INFINITY || a == NEGATIVE_INFINITY) && (b == a || IsFinite(b)) ==> r == a)
            && ((b == INFINITY || b == NEGATIVE_INFINITY) && (a == b || IsFinite(a)) ==> r == b)
  {
    hide AddSf, Meets, RoundToDouble, Grid;
    AddCorrect(a, b, rm, clz0);
    var s := SignedUnits(a) + SignedUnits(b);
    SumMeets(s, rm);
    SpecialBits(true);
    SpecialBits(false);
    ZeroMeets(1, rm, true);
    ZeroMeets(1, rm, false);
    hide Ieee754.Zero, Units;
  }

  /** sub_sf. */
  lemma SubMeans(a: u64, b: u64, rm: RoundingMode, clz0: nat)
    requires 1 <= clz0 <= 64
    ensures var r := SubSf(a, b, rm, clz0);
            && (IsFinite(a) && IsFinite(b) ==> Meets(SignedUnits(a) - SignedUnits(b), 1, rm, r))
            && (IsFinite(a) && IsFinite(b) && SignedUnits(a) - SignedUnits(b) == 0 ==>
                  r == if Sign(a) && !Sign(b) then NEGATIVE_ZERO else if Sign(a) == Sign(b) && rm == RDN then NEGATIVE_ZERO else 0)
            && (IsNaN(a) || IsNaN(b) ==> r == NAN)
            && ((a == INFINITY || a == NEGATIVE_INFINITY) && b == a ==> r == NAN)
            && ((a == INFINITY || a == NEGATIVE_INFINITY) && b != a && !IsNaN(b) ==> r == a)
            && (IsFinite(a) && b == INFINITY ==> r == NEGATIVE_INFINITY)
            && (IsFinite(a) && b == NEGATIVE_INFINITY ==> r == INFINITY)
  {
    hide SubSf, Meets, RoundToDouble, Grid;
    SubCorrect(a, b, rm, clz0);
    SumMeets(SignedUnits(a) - SignedUnits(b), rm);
    SpecialBits(true);
    SpecialBits(false);
    ZeroMeets(1, rm, true);
    ZeroMeets(1, rm, false);
    hide Ieee754.Zero, Ieee754.Infinity, Units;
  }

  /** mul_sf: products are counted in units of 2^-2148. */
  lemma MulMeans(a: u64, b: u64, rm: RoundingMode, clz0: nat)
    requires 1 <= clz0 <= 64
    ensures var r := MulSf(a, b, rm, clz0);
            && (IsFinite(a) && IsFinite(b) ==> Meets(SignedUnits(a) * SignedUnits(b), Pow2(1074), rm, r))
            && (IsFinite(a) && IsFinite(b) ==> Sign(r) == (Sign(a) != Sign(b)))
            && (IsNaN(a) || IsNaN(b) ==> r == NAN)
            && (a % NEGATIVE_ZERO == INFINITY && b % NEGATIVE_ZERO == 0 ==> r == NAN)
            && (a % NEGATIVE_ZERO == 0 && b % NEGATIVE_ZERO == INFINITY ==> r == NAN)
            && (a % NEGATIVE_ZERO == INFINITY && 0 < b % NEGATIVE_ZERO <= INFINITY ==> r == if Sign(a) == Sign(b) then INFINITY else NEGATIVE_INFINITY)
            && (0 < a % NEGATIVE_ZERO <= INFINITY && b % NEGATIVE_ZERO == INFINITY ==> r == if Sign(a) == Sign(b) then INFINITY else NEGATIVE_INFINITY)
  {
    hide MulSf, Meets, RoundToDouble, Grid, Pow2;
    MulCorrect(a, b, rm, clz0);
    SpecialBits(Sign(a) != Sign(b));
    if IsFinite(a) && IsFinite(b) { ProductMeets(a, b, rm); }
    hide Units, Ieee754.Infinity;
  }

  lemma ProductMeets(a: u64, b: u64, rm: RoundingMode)
    requires IsFinite(a) && IsFinite(b)
    ensures var r := Ieee754.Product(a, b, rm);
            Meets(SignedUnits(a) * SignedUnits(b), Pow2(1074), rm, r) && Sign(r) == (Sign(a) != Sign(b))
  {
    hide Meets, RoundMag, Units, Pow2, Encode;
    var sign := Sign(a) != Sign(b);
    var u, v := Units(a), Units(b);
    OneUnit();
    RoundToDoubleMeets(sign, u * v, 1, 0 - 1074, rm);
    Encoded(sign, RoundScaled(u * v, 1, 0 - 1074, DirectionOf(rm, sign)), DirectionOf(rm, sign));
    SignedProduct(a, b, u, v);
  }

  lemma SignedProduct(a: u64, b: u64, u: nat, v: nat)
    requires u == Units(a) && v == Units(b)
    ensures SignedUnits(a) * SignedUnits(b) == if Sign(a) != Sign(b) then 0 - u * v else u * v
  {
    hide Units, Sign;
  }

  /** div_sf, in terms of its result: quotients are counted in units of 2^-1074. */
  lemma DivMeans(a: u64, b: u64, rm: RoundingMode, r: u64)
    requires r == Ieee754.Quotient(a, b, rm)
    ensures IsFinite(a) && IsFinite(b) && b % NEGATIVE_ZERO != 0 ==>
      && Meets((if Sign(a) != Sign(b) then 0 - Units(a) else Units(a)) * Pow2(1074), Units(b), rm, r)
      && Sign(r) == (Sign(a) != Sign(b))
    ensures IsNaN(a) || IsNaN(b) ==> r == NAN
    ensures a % NEGATIVE_ZERO == 0 && b % NEGATIVE_ZERO == 0 ==> r == NAN
    ensures a % NEGATIVE_ZERO == INFINITY && b % NEGATIVE_ZERO == INFINITY ==> r == NAN
    ensures a % NEGATIVE_ZERO == INFINITY && IsFinite(b) ==> r == if Sign(a) == Sign(b) then INFINITY else NEGATIVE_INFINITY
    ensures IsFinite(a) && b % NEGATIVE_ZERO == INFINITY ==> r == if Sign(a) == Sign(b) then 0 else NEGATIVE_ZERO
    ensures IsFinite(a) && a % NEGATIVE_ZERO != 0 && b % NEGATIVE_ZERO == 0 ==>
      r == if Sign(a) == Sign(b) then INFINITY else NEGATIVE_INFINITY
  {
    hide Meets, RoundToDouble, Grid, Pow2;
    SpecialBits(Sign(a) != Sign(b));
    if IsFinite(b) { UnitsZero(b); }
    if IsFinite(a) { UnitsZero(a); }
    if IsFinite(a) && IsFinite(b) && b % NEGATIVE_ZERO != 0 {
      QuotientMeets(a, b, rm);
    }
    hide Units, Ieee754.Infinity, Ieee754.Zero;
  }

  lemma UnitsZero(a: u64)
    ensures Units(a) == 0 <==> a % NEGATIVE_ZERO == 0
  {
    GridZero();
    hide Grid;
    if Index(a) > 0 { GridMonotone(0, Index(a)); }
  }

  lemma QuotientMeets(a: u64, b: u64, rm: RoundingMode)
    requires IsFinite(a) && IsFinite(b) && Units(b) > 0
    ensures var r := Ieee754.Quotient(a, b, rm);
            && Meets((if Sign(a) != Sign(b) then 0 - Units(a) else Units(a)) * Pow2(1074), Units(b), rm, r)
            && Sign(r) == (Sign(a) != Sign(b))
  {
    hide Meets, RoundMag, Units, Pow2, Encode;
    var sign := Sign(a) != Sign(b);
    var u, v := Units(a), Units(b);
    OneUnit();
    RoundToDoubleMeets(sign, u, v, 1074, rm);
    Encoded(sign, RoundScaled(u, v, 1074, DirectionOf(rm, sign)), DirectionOf(rm, sign));
    Negated(u, Pow2(1074));
  }

  /** sqrt_sf, in terms of its result: x is the square of the exact root in units, and
      for nearest rounding four times x is compared with the square of a sum of doubles,
      twice their mean. */
  lemma SqrtMeans(a: u64, rm: RoundingMode, r: u64, y: u64)
    requires Ieee754.IsSquareRoot(a, rm, r) && IsFinite(y)
    ensures IsNaN(a) ==> r == NAN
    ensures a == 0 || a == NEGATIVE_ZERO || a == INFINITY ==> r == a
    ensures NEGATIVE_ZERO < a && !IsNaN(a) ==> r == NAN
    ensures 0 < a < INFINITY ==> r < INFINITY
    ensures 0 < a < INFINITY && (rm == RDN || rm == RTZ) ==>
      var x := Units(a) * Pow2(1074);
      Units(r) * Units(r) <= x && (Units(y) * Units(y) <= x ==> Units(y) <= Units(r))
    ensures 0 < a < INFINITY && rm == RUP ==>
      var x := Units(a) * Pow2(1074);
      x <= Units(r) * Units(r) && (x <= Units(y) * Units(y) ==> Units(r) <= Units(y))
    ensures 0 < a < INFINITY && (rm == RNE || rm == RMM) ==>
      var x, s := Units(a) * Pow2(1074), Units(r) + Units(y);
      && (Units(y) < Units(r) ==> s * s <= 4 * x && (s * s == 4 * x && rm == RNE ==> r % 2 == 0))
      && (Units(y) > Units(r) ==> 4 * x <= s * s && (s * s == 4 * x ==> rm == RNE && r % 2 == 0))
  {
    hide Grid, Pow2;
    SignIs(a);
    if 0 < a < INFINITY {
      UnitsIndex(r);
      UnitsIndex(y);
      var x := Units(a) * Pow2(1074);
      RootAgainst(x, rm, r, Index(y));
    }
  }

  lemma SignIs(a: u64)
    ensures Sign(a) <==> a >= NEGATIVE_ZERO
    ensures a < INFINITY ==> Index(a) == a && IsFinite(a) && !IsNaN(a)
    ensures Index(a) == 0 <==> a == 0 || a == NEGATIVE_ZERO
    ensures a == INFINITY ==> !IsFinite(a) && !IsNaN(a) && Index(a) != 0
  {}

  lemma UnitsIndex(a: u64)
    ensures Units(a) == Grid(Index(a)) && (a < INFINITY ==> Index(a) == a)
  {}

  lemma RootAgainst(x: nat, rm: RoundingMode, k: nat, j: nat)
    requires Ieee754.RootRounded(x, DirectionOf(rm, false), k)
    ensures rm == RDN || rm == RTZ ==> Grid(k) * Grid(k) <= x && (Grid(j) * Grid(j) <= x ==> Grid(j) <= Grid(k))
    ensures rm == RUP ==> x <= Grid(k) * Grid(k) && (x <= Grid(j) * Grid(j) ==> Grid(k) <= Grid(j))
    ensures rm == RNE || rm == RMM ==>
      var s := Grid(k) + Grid(j);
      && (Grid(j) < Grid(k) ==> s * s <= 4 * x && (s * s == 4 * x && rm == RNE ==> k % 2 == 0))
      && (Grid(j) > Grid(k) ==> 4 * x <= s * s && (s * s == 4 * x ==> rm == RNE && k % 2 == 0))
  {
    hide Grid, Square;
    SquareIs(Grid(k));
    SquareIs(Grid(j));
    SquareIs(Grid(k) + Grid(j));
    if j < k {
      RootAbove(x, rm, k, j);
    } else if j > k {
      RootBelow(x, rm, k, j);
    }
  }

  lemma SquareIs(v: int)
    ensures Square(v) == v * v
  {}

  lemma RootAbove(x: nat, rm: RoundingMode, k: nat, j: nat)
    requires Ieee754.RootRounded(x, DirectionOf(rm, false), k) && j < k
    ensures Grid(j) < Grid(k)
    ensures rm == RUP ==> Square(Grid(j)) < x
    ensures rm == RNE || rm == RMM ==>
      Square(Grid(k) + Grid(j)) <= 4 * x && (Square(Grid(k) + Grid(j)) == 4 * x && rm == RNE ==> k % 2 == 0)
  {
    hide Grid, Square;
    GridMonotone(j, k);
    if j < k - 1 { GridMonotone(j, k - 1); }
    SquareGrows(Grid(j), Grid(k - 1));
    SquareGrows(Grid(j) + Grid(k), Grid(k - 1) + Grid(k));
  }

  lemma RootBelow(x: nat, rm: RoundingMode, k: nat, j: nat)
    requires Ieee754.RootRounded(x, DirectionOf(rm, false), k) && j > k
    ensures Grid(j) > Grid(k)
    ensures rm == RDN || rm == RTZ ==> x < Square(Grid(j))
    ensures rm == RNE || rm == RMM ==>
      4 * x <= Square(Grid(k) + Grid(j)) && (Square(Grid(k) + Grid(j)) == 4 * x ==> rm == RNE && k % 2 == 0)
  {
    hide Grid, Square;
    GridMonotone(k, j);
    if j > k + 1 { GridMonotone(k + 1, j); }
    SquareGrows(Grid(k + 1), Grid(j));
    SquareGrows(Grid(k) + Grid(k + 1), Grid(k) + Grid(j));
  }

  lemma SquareGrows(v: nat, w: nat)
    requires v <= w
    ensures Square(v) <= Square(w)
    ensures v < w ==> Square(v) < Square(w)
  {
    MulMonotone(v, w, v);
    MulMonotone(v, w, w);
    if v < w { MulStrict(v, w, w); }
  }

  /** fmod_sf, in terms of its result. */
  lemma FmodMeans(a: u64, b: u64, r: u64) returns (q: nat)
    requires Ieee754.IsRemainder(a, b, r)
    ensures IsFinite(a) && IsFinite(b) && b % NEGATIVE_ZERO != 0 ==>
      IsFinite(r) && Sign(r) == Sign(a) && Units(a) == q * Units(b) + Units(r) && Units(r) < Units(b)
    ensures IsNaN(a) || IsNaN(b) || a % NEGATIVE_ZERO == INFINITY || b % NEGATIVE_ZERO == 0 ==> r == NAN
    ensures IsFinite(a) && b % NEGATIVE_ZERO == INFINITY ==> r == a
  {
    hide Units;
    q := 0;
    if IsFinite(a) && IsFinite(b) && b % NEGATIVE_ZERO != 0 {
      var rest;
      q, rest := Divide(Units(a), Units(b));
      DivUnique(Units(a), Units(b), q, rest);
    }
  }

  // ----- conversions

  /** The integer z is s/d rounded in mode rm. */
  predicate IntMeets(s: int, d: nat, rm: RoundingMode, z: int) {
    match rm
    case RDN => z * d <= s < z * d + d
    case RUP => z * d - d < s <= z * d
    case RTZ => (s >= 0 ==> 0 <= z * d <= s < z * d + d) && (s < 0 ==> z * d - d < s <= z * d <= 0)
    case RNE => 2 * Dist(z * d, s) <= d && (2 * Dist(z * d, s) == d ==> z % 2 == 0)
    case RMM => 2 * Dist(z * d, s) <= d && (2 * Dist(z * d, s) == d ==> (if s < 0 then z * d < s else z * d > s))
  }

  /** What that says, mode by mode. */
  lemma IntModes(s: int, d: nat, rm: RoundingMode, z: int)
    requires IntMeets(s, d, rm, z)
    ensures rm == RDN ==> z * d <= s < z * d + d
    ensures rm == RUP ==> z * d - d < s <= z * d
    ensures rm == RTZ ==> if s >= 0 then 0 <= z * d <= s < z * d + d else z * d - d < s <= z * d <= 0
    ensures rm == RNE || rm == RMM ==> z * d - s + (z * d - s) <= d && s - z * d + (s - z * d) <= d
    ensures rm == RNE && (2 * (z * d - s) == d || 2 * (s - z * d) == d) ==> z % 2 == 0
    ensures rm == RMM && 2 * (z * d - s) == d ==> s >= 0
    ensures rm == RMM && 2 * (s - z * d) == d ==> s < 0
  {}

  /** The range of an integer type. */
  lemma IntRange(t: IntType)
    ensures t == IntType(false, false) ==> t.MinValue() == 0 - 0x8000_0000 && t.MaxValue() == 0x7fff_ffff
    ensures t == IntType(false, true) ==> t.MinValue() == 0 && t.MaxValue() == 0xffff_ffff
    ensures t == IntType(true, false) ==> t.MinValue() == 0 - 0x8000_0000_0000_0000 && t.MaxValue() == 0x7fff_ffff_ffff_ffff
    ensures t == IntType(true, true) ==> t.MinValue() == 0 && t.MaxValue() == 0xffff_ffff_ffff_ffff
  {}

  /** Float to integer: z is the value rounded. */
  lemma FloatToIntMeans(a: u64, rm: RoundingMode, t: IntType) returns (z: int)
    ensures IsFinite(a) ==> IntMeets(SignedUnits(a), Pow2(1074), rm, z)
    ensures var v := FloatToInt(a, rm, t);
            && t.MinValue() <= v <= t.MaxValue()
            && (IsFinite(a) && t.MinValue() <= z <= t.MaxValue() ==> v == z)
            && (IsFinite(a) && z > t.MaxValue() ==> v == t.MaxValue())
            && (IsFinite(a) && z < t.MinValue() ==> v == t.MinValue())
            && (IsNaN(a) || a == INFINITY ==> v == t.MaxValue())
            && (a == NEGATIVE_INFINITY ==> v == t.MinValue())
  {
    hide FloatToInt, IntMeets, Pow2, Units, RoundDiv;
    FloatToIntCorrect(a, rm, t);
    SpecialBits(true);
    z := 0;
    TypeRange(t);
    if IsFinite(a) {
      var m: int := RoundDiv(Units(a), Pow2(1074), DirectionOf(rm, Sign(a)));
      z := m;
      if Sign(a) { z := 0 - m; }
      RoundDivMeets(Units(a), Pow2(1074), Sign(a), rm);
    }
  }

  lemma TypeRange(t: IntType)
    ensures t.MinValue() <= 0 < t.MaxValue()
  {}

  lemma RoundDivMeets(n: nat, d: nat, sign: bool, rm: RoundingMode)
    requires d > 0
    ensures var m := RoundDiv(n, d, DirectionOf(rm, sign));
            IntMeets(if sign then 0 - n else n, d, rm, if sign then 0 - m else m)
  {
    hide RoundDiv;
    var q, r := Divide(n, d);
    RoundDivChar(n, d, DirectionOf(rm, sign), q, r);
    var m := RoundDiv(n, d, DirectionOf(rm, sign));
    Distribute(q, 1, d);
    Negated(m, d);
    Negated(q, d);
  }

  /** Integer to float. */
  lemma IntToFloatMeans(v: int, t: IntType, rm: RoundingMode, clz0: nat)
    requires t.Contains(v) && 1 <= clz0 <= 64
    ensures Meets(v * Pow2(1074), 1, rm, IntToFloat(v, t, rm, clz0))
  {
    hide IntToFloat, Meets, RoundToDouble, Pow2;
    IntToFloatCorrect(v, t, rm, clz0);
    OneUnit();
    RoundToDoubleMeets(v < 0, Abs(v), 1, 1074, rm);
    Negated(Abs(v), Pow2(1074));
  }
}

/** What IEEE 754 asks of each operation, on bit patterns. Finite operands are
    counted in units of 2^-1074, so a sum is a sum of integers, a product is
    scaled by 2^-1074 and a quotient by 2^1074. */
module Ieee754 {
  import opened Powers
  import opened Rounding
  import opened Float64

  function Infinity(sign: bool): u64 {
    Encode(sign, INFINITY, AwayFromZero)
  }

  function Zero(sign: bool): u64 {
    Encode(sign, 0, AwayFromZero)
  }

  /** Sections 5.4.1 and 6.3: the sign of an exact zero sum is that of the
      operands when they agree and otherwise positive, except in RDN. */
  function Sum(a: u64, b: u64, rm: RoundingMode): u64 {
    if IsNaN(a) || IsNaN(b) then QNAN
    else if !IsFinite(a) then (if !IsFinite(b) && Sign(a) != Sign(b) then QNAN else a)
    else if !IsFinite(b) then b
    else
      var s := SignedUnits(a) + SignedUnits(b);
      if s == 0 then Zero(if Sign(a) == Sign(b) then Sign(a) else rm == RDN)
      else RoundToDouble(s < 0, Abs(s), 1, 0, rm)
  }

  /** Subtraction (section 5.4.1): an exact zero difference of operands with unlike
      signs has the sign of the first, any other is positive, except in RDN. */
  function Difference(a: u64, b: u64, rm: RoundingMode): u64 {
    if IsNaN(a) || IsNaN(b) then QNAN
    else if !IsFinite(a) then (if !IsFinite(b) && Sign(a) == Sign(b) then QNAN else a)
    else if !IsFinite(b) then Infinity(!Sign(b))
    else
      var s := SignedUnits(a) - SignedUnits(b);
      if s == 0 then Zero(if Sign(a) != Sign(b) then Sign(a) else rm == RDN)
      else RoundToDouble(s < 0, Abs(s), 1, 0, rm)
  }

  function Product(a: u64, b: u64, rm: RoundingMode): u64 {
    var sign := Sign(a) != Sign(b);
    if IsNaN(a) || IsNaN(b) then QNAN
    else if !IsFinite(a) || !IsFinite(b) then
      if Index(a) == 0 || Index(b) == 0 then QNAN else Infinity(sign)
    else
      MagnitudeProduct(sign, Units(a), Units(b), rm)
  }

  function MagnitudeProduct(sign: bool, u: nat, v: nat, rm: RoundingMode): u64 {
    RoundToDouble(sign, u * v, 1, 0 - 1074, rm)
  }

  function Quotient(a: u64, b: u64, rm: RoundingMode): u64 {
    var sign := Sign(a) != Sign(b);
    if IsNaN(a) || IsNaN(b) then QNAN
    else if !IsFinite(a) then (if IsFinite(b) then Infinity(sign) else QNAN)
    else if !IsFinite(b) then Zero(sign)
    else if Units(b) == 0 then (if Units(a) == 0 then QNAN else Infinity(sign))
    else RoundToDouble(sign, Units(a), Units(b), 1074, rm)
  }

  /** k is sqrt(x) rounded onto the grid, said with squares: x is compared with
      the grid points around k and with the midpoints between them. */
  ghost predicate RootRounded(x: nat, dir: Direction, k: nat) {
    match dir
    case TowardZero => Square(Grid(k)) <= x < Square(Grid(k + 1))
    case AwayFromZero => x <= Square(Grid(k)) && (k > 0 ==> Square(Grid(k - 1)) < x)
    case NearestEven =>
      && (k > 0 ==> if k % 2 == 0 then Square(Grid(k - 1) + Grid(k)) <= 4 * x else Square(Grid(k - 1) + Grid(k)) < 4 * x)
      && if k % 2 == 0 then 4 * x <= Square(Grid(k) + Grid(k + 1)) else 4 * x < Square(Grid(k) + Grid(k + 1))
    case NearestAway =>
      && (k > 0 ==> Square(Grid(k - 1) + Grid(k)) <= 4 * x)
      && 4 * x < Square(Grid(k) + Grid(k + 1))
  }

  /** The square root of u units is sqrt(u * 2^1074) units. */
  ghost predicate IsSquareRoot(a: u64, rm: RoundingMode, res: u64) {
    if IsNaN(a) then res == QNAN
    else if Index(a) == 0 then res == a
    else if Sign(a) then res == QNAN
    else if !IsFinite(a) then res == a
    else res < INFINITY && RootRounded(Units(a) * Pow2(1074), DirectionOf(rm, false), res)
  }

  /** fmod: the exact remainder of the magnitudes, with the sign of a. */
  ghost predicate IsRemainder(a: u64, b: u64, res: u64) {
    if !IsFinite(a) || IsNaN(b) || Index(b) == 0 then res == QNAN
    else if !IsFinite(b) then res == a
    else IsFinite(res) && Sign(res) == Sign(a) && Units(b) > 0 && Units(res) == Units(a) % Units(b)
  }
}

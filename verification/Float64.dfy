/** The binary64 format of IEEE 754, with every finite magnitude counted as a
    whole number of units of 2^-1074, and correct rounding onto that grid. */
module Float64 {
  import opened Powers
  import opened Rounding

  const TWO_52: nat := 0x10_0000_0000_0000
  const TWO_53: nat := 0x20_0000_0000_0000
  const TWO_63: nat := 0x8000_0000_0000_0000
  const TWO_64: nat := 0x1_0000_0000_0000_0000
  /** The bits of +infinity: exponent field 2047, mantissa 0. */
  const INFINITY: nat := 0x7FF0_0000_0000_0000

  /** The quiet NaN that every operation returns. */
  const QNAN: u64 := 0x7FF8_0000_0000_0000

  /** The constants above, for proofs that hide definitions. */
  lemma FloatConstants()
    ensures TWO_52 == 0x10_0000_0000_0000 && TWO_53 == 0x20_0000_0000_0000
    ensures TWO_63 == 0x8000_0000_0000_0000 && TWO_64 == 0x1_0000_0000_0000_0000
    ensures INFINITY == 0x7FF0_0000_0000_0000
  {}

  type u64 = x: int | 0 <= x < 0x1_0000_0000_0000_0000

  /** The magnitude of grid point k in units of 2^-1074. Below INFINITY, k is the
      bit pattern of a finite non-negative double; the grid continues above
      as if the exponent field were unbounded. */
  function Grid(k: nat): nat {
    if k < TWO_53 then k else 2 * Grid(k - TWO_52)
  }

  /** The index of n/d (in units) rounded onto the grid: below 2^53 the grid is
      the integers, and above it repeats itself at twice the scale. */
  function RoundMag(n: nat, d: nat, dir: Direction): nat
    requires d > 0
    decreases if n > d then n - d else 0
  {
    if n < TWO_53 * d then RoundDiv(n, d, dir) else TWO_52 + RoundMag(n, 2 * d, dir)
  }

  function Dist(a: int, b: int): nat {
    if a <= b then b - a else a - b
  }

  /** What IEEE 754 (section 4.3) asks of grid point k as the result for n/d,
      said without computing it. */
  ghost predicate CorrectlyRounded(n: nat, d: nat, dir: Direction, k: nat) {
    match dir
    case TowardZero => Grid(k) * d <= n < Grid(k + 1) * d
    case AwayFromZero => n <= Grid(k) * d && (k > 0 ==> Grid(k - 1) * d < n)
    case NearestEven =>
      forall j: nat :: j != k ==>
        Dist(Grid(k) * d, n) < Dist(Grid(j) * d, n)
        || (Dist(Grid(k) * d, n) == Dist(Grid(j) * d, n) && k % 2 == 0)
    case NearestAway =>
      forall j: nat :: j != k ==>
        Dist(Grid(k) * d, n) < Dist(Grid(j) * d, n)
        || (Dist(Grid(k) * d, n) == Dist(Grid(j) * d, n) && j < k)
  }

  lemma {:induction false} GridStep(k: nat)
    ensures Grid(k) < Grid(k + 1)
  {
    if k >= TWO_53 {
      GridStep(k - TWO_52);
    }
  }

  lemma {:induction false} GridMonotone(j: nat, k: nat)
    requires j < k
    ensures Grid(j) < Grid(k)
    decreases k
  {
    GridStep(k - 1);
    if j < k - 1 {
      GridMonotone(j, k - 1);
    }
  }

  /** The conditions on the two neighbours of k that decide nearest rounding. */
  ghost predicate NearestByNeighbours(n: nat, d: nat, k: nat, tieLow: bool, tieHigh: bool) {
    && (k > 0 ==>
          if tieLow then Grid(k - 1) * d + Grid(k) * d <= 2 * n else Grid(k - 1) * d + Grid(k) * d < 2 * n)
    && if tieHigh then 2 * n <= Grid(k) * d + Grid(k + 1) * d else 2 * n < Grid(k) * d + Grid(k + 1) * d
  }

  lemma DistLess(x: int, y: int, z: int, n: int)
    requires x <= y < z
    ensures y + z < 2 * n ==> Dist(z, n) < Dist(x, n)
    ensures y + z <= 2 * n ==> Dist(z, n) <= Dist(x, n)
  {}

  lemma DistLessAbove(x: int, y: int, z: int, n: int)
    requires x < y <= z
    ensures 2 * n < x + y ==> Dist(x, n) < Dist(z, n)
    ensures 2 * n <= x + y ==> Dist(x, n) <= Dist(z, n)
  {}

  lemma GridScaled(j: nat, k: nat, d: nat)
    requires j <= k && d > 0
    ensures Grid(j) * d <= Grid(k) * d
    ensures j < k ==> Grid(j) * d < Grid(k) * d
  {
    if j < k {
      GridMonotone(j, k);
      MulStrict(Grid(j), Grid(k), d);
    }
  }

  lemma NeighboursDecideOne(n: nat, d: nat, k: nat, tieLow: bool, tieHigh: bool, j: nat)
    requires d > 0 && j != k
    requires NearestByNeighbours(n, d, k, tieLow, tieHigh)
    ensures Dist(Grid(k) * d, n) < Dist(Grid(j) * d, n)
            || (Dist(Grid(k) * d, n) == Dist(Grid(j) * d, n) && (if j < k then tieLow else tieHigh))
  {
    hide Grid;
    if j < k {
      GridScaled(j, k - 1, d);
      GridScaled(k - 1, k, d);
      DistLess(Grid(j) * d, Grid(k - 1) * d, Grid(k) * d, n);
    } else {
      GridScaled(k, k + 1, d);
      GridScaled(k + 1, j, d);
      DistLessAbove(Grid(k) * d, Grid(k + 1) * d, Grid(j) * d, n);
    }
  }



  /** CorrectlyRounded, seen from k and its two neighbours only. */
  ghost predicate LocallyRounded(n: nat, d: nat, dir: Direction, k: nat) {
    match dir
    case TowardZero => Grid(k) * d <= n < Grid(k + 1) * d
    case AwayFromZero => n <= Grid(k) * d && (k > 0 ==> Grid(k - 1) * d < n)
    case NearestEven => NearestByNeighbours(n, d, k, k % 2 == 0, k % 2 == 0)
    case NearestAway => NearestByNeighbours(n, d, k, true, false)
  }

  lemma LocalIsGlobal(n: nat, d: nat, dir: Direction, k: nat)
    requires d > 0 && LocallyRounded(n, d, dir, k)
    ensures CorrectlyRounded(n, d, dir, k)
  {
    match dir
    case TowardZero =>
    case AwayFromZero =>
    case NearestEven =>
      forall j: nat | j != k
        ensures Dist(Grid(k) * d, n) < Dist(Grid(j) * d, n)
                || (Dist(Grid(k) * d, n) == Dist(Grid(j) * d, n) && k % 2 == 0)
      {
        NeighboursDecideOne(n, d, k, k % 2 == 0, k % 2 == 0, j);
      }
    case NearestAway =>
      forall j: nat | j != k
        ensures Dist(Grid(k) * d, n) < Dist(Grid(j) * d, n)
                || (Dist(Grid(k) * d, n) == Dist(Grid(j) * d, n) && j < k)
      {
        NeighboursDecideOne(n, d, k, true, false, j);
      }
  }

  /** Two distinct even grid points cannot both be nearest: one lies between. */
  lemma NoEvenTie(n: nat, d: nat, j: nat, k: nat)
    requires d > 0 && j < k && j % 2 == 0 && k % 2 == 0
    ensures Dist(Grid(j + 1) * d, n) < Dist(Grid(j) * d, n) || Dist(Grid(j + 1) * d, n) < Dist(Grid(k) * d, n)
  {
    hide Grid;
    GridScaled(j, j + 1, d);
    GridScaled(j + 1, k, d);
  }

  lemma NearestEvenUnique(n: nat, d: nat, j: nat, k: nat)
    requires d > 0 && CorrectlyRounded(n, d, NearestEven, j) && CorrectlyRounded(n, d, NearestEven, k)
    ensures j >= k
  {
    if j < k {
      hide Grid;
      assert Dist(Grid(j) * d, n) == Dist(Grid(k) * d, n);
      assert j % 2 == 0 && k % 2 == 0;
      NoEvenTie(n, d, j, k);
      assert false;
    }
  }

  lemma NearestAwayUnique(n: nat, d: nat, j: nat, k: nat)
    requires d > 0 && CorrectlyRounded(n, d, NearestAway, j) && CorrectlyRounded(n, d, NearestAway, k)
    ensures j >= k
  {
    hide Grid;
    var x, z := Dist(Grid(j) * d, n), Dist(Grid(k) * d, n);
    assert x < z || z < x || x == z;
  }

  /** At most one grid point is the correctly rounded one. */
  lemma CorrectlyRoundedUnique(n: nat, d: nat, dir: Direction, j: nat, k: nat)
    requires d > 0 && CorrectlyRounded(n, d, dir, j) && CorrectlyRounded(n, d, dir, k)
    ensures j == k
  {
    if j < k {
      hide Grid;
      match dir
      case TowardZero => GridScaled(j + 1, k, d);
      case AwayFromZero => GridScaled(j, k - 1, d);
      case NearestEven => NearestEvenUnique(n, d, j, k);
      case NearestAway =>
        NearestAwayUnique(n, d, j, k);
    } else if k < j {
      CorrectlyRoundedUnique(n, d, dir, k, j);
    }
  }

  lemma {:induction false} RoundMagAtLeast(n: nat, d: nat, dir: Direction)
    requires d > 0 && n >= TWO_52 * d
    ensures RoundMag(n, d, dir) >= TWO_52
    decreases if n > d then n - d else 0
  {
    if n < TWO_53 * d {
      RoundDivMonotone(TWO_52 * d, n, d, dir);
      RoundDivExact(TWO_52, d, dir);
    }
  }

  /** The grid around an integer below 2^53, scaled by d. */
  lemma GridAround(q: nat, d: nat, x: nat)
    requires q < TWO_53 && x == q * d
    ensures Grid(q) * d == x
    ensures Grid(q + 1) * d == x + d
    ensures Grid(q + 2) * d >= x + 2 * d
    ensures q > 0 ==> Grid(q - 1) * d == x - d
  {
    assert Grid(q) == q && Grid(q + 1) == q + 1 && Grid(q + 2) >= q + 2;
    assert q > 0 ==> Grid(q - 1) == q - 1;
    MulMonotone(q + 2, Grid(q + 2), d);
  }

  lemma LocallyRoundedBase(n: nat, d: nat, dir: Direction)
    requires d > 0 && n < TWO_53 * d
    ensures LocallyRounded(n, d, dir, RoundDiv(n, d, dir))
  {
    var q, r := n / d, n % d;
    var x := q * d;
    assert n == x + r;
    assert q < TWO_53 by { MulCancel(q, TWO_53, d); }
    GridAround(q, d, x);
    hide Grid;
    BaseCases(n, d, dir, q, r, x);
  }

  lemma BaseCases(n: nat, d: nat, dir: Direction, q: nat, r: nat, x: nat)
    requires r < d && n == x + r
    requires Grid(q) * d == x && Grid(q + 1) * d == x + d && Grid(q + 2) * d >= x + 2 * d
    requires q > 0 ==> Grid(q - 1) * d == x - d
    ensures LocallyRounded(n, d, dir, q + if RoundsUp(q, r, d, dir) then 1 else 0)
  {
    hide Grid;
    if RoundsUp(q, r, d, dir) {
      var k := q + 1;
      assert Grid(k - 1) * d == x && Grid(k) * d == x + d && Grid(k + 1) * d >= x + 2 * d;
    }
  }

  lemma GridUp(k: nat)
    requires k >= TWO_53
    ensures Grid(k) == 2 * Grid(k - TWO_52)
  {}

  lemma GridUpScaled(k: nat, d: nat)
    requires k >= TWO_52
    ensures Grid(TWO_52 + k) * d == Grid(k) * (2 * d)
  {
    var g := Grid(k);
    GridUp(TWO_52 + k);
    assert (2 * g) * d == g * (2 * d);
  }

  /** The grid around 2^52 + k is twice the grid around k. */
  lemma GridAroundUp(k: nat, d: nat)
    requires k >= TWO_52
    ensures Grid(TWO_52 + k) * d == Grid(k) * (2 * d)
    ensures Grid(TWO_52 + k + 1) * d == Grid(k + 1) * (2 * d)
    ensures k > TWO_52 ==> Grid(TWO_52 + k - 1) * d == Grid(k - 1) * (2 * d)
    ensures k == TWO_52 ==> Grid(TWO_52 + k) * d == TWO_53 * d && Grid(TWO_52 + k - 1) * d == TWO_53 * d - d
  {
    if k == TWO_52 {
      assert Grid(TWO_53) == TWO_53 && Grid(TWO_53 - 1) == TWO_53 - 1;
    }
    hide Grid;
    GridUpScaled(k, d);
    GridUpScaled(k + 1, d);
    if k > TWO_52 { GridUpScaled(k - 1, d); }
  }

  lemma LocallyRoundedStep(n: nat, d: nat, dir: Direction, k: nat)
    requires d > 0 && n >= TWO_53 * d && k >= TWO_52
    requires LocallyRounded(n, 2 * d, dir, k)
    ensures LocallyRounded(n, d, dir, TWO_52 + k)
  {
    GridAroundUp(k, d);
    hide Grid;
    assert (TWO_52 + k) % 2 == k % 2;
  }


  lemma {:induction false} RoundMagIsLocal(n: nat, d: nat, dir: Direction)
    requires d > 0
    ensures LocallyRounded(n, d, dir, RoundMag(n, d, dir))
    decreases if n > d then n - d else 0
  {
    if n < TWO_53 * d {
      LocallyRoundedBase(n, d, dir);
    } else {
      RoundMagIsLocal(n, 2 * d, dir);
      RoundMagAtLeast(n, 2 * d, dir);
      LocallyRoundedStep(n, d, dir, RoundMag(n, 2 * d, dir));
    }
  }

  /** RoundMag is correct rounding onto the whole grid, in every direction. */
  lemma RoundMagCorrect(n: nat, d: nat, dir: Direction)
    requires d > 0
    ensures CorrectlyRounded(n, d, dir, RoundMag(n, d, dir))
  {
    RoundMagIsLocal(n, d, dir);
    LocalIsGlobal(n, d, dir, RoundMag(n, d, dir));
  }

  // ----- RoundMag in terms of the binade of its argument

  lemma {:induction false} RoundMagAt(n: nat, d: nat, dir: Direction, e: nat)
    requires d > 0 && d * Pow2(e) > 0
    requires e > 0 ==> n >= TWO_52 * (d * Pow2(e))
    requires n < TWO_53 * (d * Pow2(e))
    ensures RoundMag(n, d, dir) == RoundDiv(n, d * Pow2(e), dir) + e * TWO_52
    decreases e
  {
    if e == 0 {
      assert d * Pow2(0) == d;
    } else {
      var de := d * Pow2(e);
      assert de == (2 * d) * Pow2(e - 1);
      MulMonotone(2 * d, de, TWO_52) by {
        MulMonotone(1, Pow2(e - 1), 2 * d);
      }
      assert n >= TWO_53 * d;
      RoundMagAt(n, 2 * d, dir, e - 1);
    }
  }

  lemma {:induction false} RoundMagScale(n: nat, d: nat, c: nat, dir: Direction)
    requires d > 0 && c > 0
    ensures d * c > 0 && RoundMag(n * c, d * c, dir) == RoundMag(n, d, dir)
    decreases if n > d then n - d else 0
  {
    MulStrict(0, d, c);
    MulAssoc(TWO_53, d, c);
    MulCancel(n, TWO_53 * d, c);
    if n < TWO_53 * d {
      RoundDivScale(n, d, c, dir);
    } else {
      RoundMagScale(n, 2 * d, c, dir);
      MulAssoc(2, d, c);
    }
  }

  function Min(a: int, b: int): int {
    if a < b then a else b
  }

  function Max(a: int, b: int): int {
    if a >= b then a else b
  }

  /** (n/d) * 2^t units, rounded onto the grid. */
  function RoundScaled(n: nat, d: nat, t: int, dir: Direction): nat
    requires d > 0
  {
    if t >= 0 then
      RoundMag(n * Pow2(t), d, dir)
    else
      MulStrict(0, d, Pow2(-t));
      RoundMag(n, d * Pow2(-t), dir)
  }

  /** (n/d) / 2^s rounded to an integer, for s of either sign. */
  function ShiftRound(n: nat, d: nat, s: int, dir: Direction): nat
    requires d > 0
  {
    if s >= 0 then
      MulStrict(0, d, Pow2(s));
      RoundDiv(n, d * Pow2(s), dir)
    else
      RoundDiv(n * Pow2(-s), d, dir)
  }

  /** How far the binade of a value with bits [2^(len-1), 2^len) scaled by 2^t
      lies above the subnormal one. */
  function Binade(len: nat, t: int): nat {
    Max(0, len + t - 53)
  }

  lemma BinadeRange(n: nat, d: nat, len: nat, t: nat, e: nat)
    requires d > 0 && len > 0 && Pow2(len - 1) * d <= n < Pow2(len) * d
    requires e == Binade(len, t)
    ensures d * Pow2(e) > 0
    ensures e > 0 ==> n * Pow2(t) >= TWO_52 * (d * Pow2(e))
    ensures n * Pow2(t) < TWO_53 * (d * Pow2(e))
  {
    ScaleRange(Pow2(len - 1), Pow2(len), d, n, Pow2(t));
    Pow2Add(len, t);
    Pow2Add(len - 1, t);
    InBinade(n * Pow2(t), d, len + t, e);
  }

  lemma InBinade(n: nat, d: nat, top: nat, e: nat)
    requires d > 0 && n < Pow2(top) * d
    requires top > 0 ==> Pow2(top - 1) * d <= n
    requires e == Max(0, top - 53)
    ensures d * Pow2(e) > 0
    ensures e > 0 ==> n >= TWO_52 * (d * Pow2(e))
    ensures n < TWO_53 * (d * Pow2(e))
  {
    Pow2Constants();
    Pow2Add(53, e);
    Pow2Add(52, e);
    Pow2Monotone(top, 53 + e);
    assert e > 0 ==> 52 + e == top - 1;
    var p, q := Pow2(e), Pow2(top);
    assert q <= TWO_53 * p;
    assert e > 0 ==> TWO_52 * p * d <= n;
    hide *;
    MulStrict(0, p, d);
    MulMonotone(q, TWO_53 * p, d);
    MulSwap(TWO_53, p, d);
    MulSwap(TWO_52, p, d);
    MulAssoc(TWO_53, d, p);
    MulAssoc(TWO_52, d, p);
  }

  lemma BinadeRangeDown(n: nat, d: nat, len: nat, t: nat, e: nat)
    requires d > 0 && len > 0 && Pow2(len - 1) * d <= n < Pow2(len) * d
    requires e == Binade(len, 0 - t)
    ensures d * Pow2(t) * Pow2(e) == d * Pow2(t + e) > 0
    ensures e > 0 ==> n >= TWO_52 * (d * Pow2(t + e))
    ensures n < TWO_53 * (d * Pow2(t + e))
  {
    Pow2Add(t, e);
    MulAssoc(d, Pow2(t), Pow2(e));
    var u := t + e;
    MulStrict(0, d, Pow2(u));
    if e > 0 {
      InBinade(n, d, len, u);
    } else {
      Pow2Monotone(len, 53 + u);
      Pow2Constants();
      Pow2Add(53, u);
      MulMonotone(Pow2(len), TWO_53 * Pow2(u), d);
      MulSwap(TWO_53, Pow2(u), d);
      MulAssoc(TWO_53, d, Pow2(u));
    }
  }

  /** Where a value of known length rounds to: one integer rounding at the scale
      of its binade. */
  lemma RoundScaledAt(n: nat, d: nat, len: nat, t: int, dir: Direction)
    requires d > 0 && len > 0 && Pow2(len - 1) * d <= n < Pow2(len) * d
    ensures RoundScaled(n, d, t, dir)
            == ShiftRound(n, d, Binade(len, t) - t, dir) + Binade(len, t) * TWO_52
  {
    var e := Binade(len, t);
    if t >= 0 {
      BinadeRange(n, d, len, t, e);
      RoundMagAt(n * Pow2(t), d, dir, e);
      ShiftRoundSplit(n, d, t, e, dir);
    } else {
      BinadeRangeDown(n, d, len, -t, e);
      var u := -t;
      MulStrict(0, d, Pow2(u));
      RoundMagAt(n, d * Pow2(u), dir, e);
    }
  }

  lemma CancelPow2Below(n: nat, d: nat, s: nat, t: nat, dir: Direction)
    requires d > 0
    ensures d * Pow2(s) > 0 && d * Pow2(s + t) > 0
    ensures RoundDiv(n * Pow2(t), d * Pow2(s + t), dir) == RoundDiv(n, d * Pow2(s), dir)
  {
    Pow2Add(s, t);
    hide *;
    MulStrict(0, d, Pow2(s));
    MulAssoc(d, Pow2(s), Pow2(t));
    RoundDivScale(n, d * Pow2(s), Pow2(t), dir);
  }

  lemma CancelPow2Above(n: nat, d: nat, s: nat, e: nat, dir: Direction)
    requires d > 0
    ensures d * Pow2(e) > 0
    ensures RoundDiv(n * Pow2(s + e), d * Pow2(e), dir) == RoundDiv(n * Pow2(s), d, dir)
  {
    Pow2Add(s, e);
    hide *;
    MulAssoc(n, Pow2(s), Pow2(e));
    RoundDivScale(n * Pow2(s), d, Pow2(e), dir);
  }

  lemma ShiftRoundDown(n: nat, d: nat, s: nat, dir: Direction)
    requires d > 0
    ensures d * Pow2(s) > 0 && ShiftRound(n, d, s, dir) == RoundDiv(n, d * Pow2(s), dir)
  {
    MulStrict(0, d, Pow2(s));
  }

  lemma ShiftRoundUp(n: nat, d: nat, s: nat, dir: Direction)
    requires d > 0
    ensures ShiftRound(n, d, 0 - s, dir) == RoundDiv(n * Pow2(s), d, dir)
  {
    assert d * Pow2(0) == d;
  }

  lemma ShiftRoundSplit(n: nat, d: nat, t: nat, e: nat, dir: Direction)
    requires d > 0 && d * Pow2(e) > 0
    ensures RoundDiv(n * Pow2(t), d * Pow2(e), dir) == ShiftRound(n, d, e - t, dir)
  {
    hide *;
    if e >= t {
      var s := e - t;
      CancelPow2Below(n, d, s, t, dir);
      ShiftRoundDown(n, d, s, dir);
    } else {
      var s := t - e;
      CancelPow2Above(n, d, s, e, dir);
      ShiftRoundUp(n, d, s, dir);
    }
  }

  lemma RoundScaledStickyLong(n: nat, d: nat, t: int, dir: Direction)
    requires d > 0 && Pow2(54) * d <= n
    ensures RoundScaled(Sticky(n, d), 1, t, dir) == RoundScaled(n, d, t, dir)
  {
    var len := StickyLength(n, d);
    hide Pow2, Sticky, RoundScaled, ShiftRound;
    RoundScaledAt(n, d, len, t, dir);
    RoundScaledAt(Sticky(n, d), 1, len, t, dir);
    StickyShiftRound(n, d, Binade(len, t) - t, dir);
  }

  /** A sticky integer stands for its rational wherever the rounding position
      leaves two spare bits; an exact one stands for it everywhere. */
  lemma RoundScaledSticky(n: nat, d: nat, t: int, dir: Direction)
    requires d > 0
    requires n % d == 0 || Pow2(54) * d <= n
    ensures RoundScaled(Sticky(n, d), 1, t, dir) == RoundScaled(n, d, t, dir)
  {
    if n % d == 0 {
      var q := n / d;
      assert n == q * d;
      assert Sticky(n, d) == q;
      RoundScaledExact(q, d, t, dir);
    } else {
      RoundScaledStickyLong(n, d, t, dir);
    }
  }

  lemma StickyShiftRound(n: nat, d: nat, s: nat, dir: Direction)
    requires d > 0 && s >= 2
    ensures ShiftRound(Sticky(n, d), 1, s, dir) == ShiftRound(n, d, s, dir)
  {
    Pow2Even(s);
    hide RoundDiv, Pow2, Sticky;
    StickyRound(n, d, Pow2(s), dir);
    assert Pow2(s) * d == d * Pow2(s) && 1 * Pow2(s) == Pow2(s);
  }

  lemma RoundScaledExact(q: nat, d: nat, t: int, dir: Direction)
    requires d > 0
    ensures RoundScaled(q * d, d, t, dir) == RoundScaled(q, 1, t, dir)
  {
    if t >= 0 {
      RoundMagScale(q * Pow2(t), 1, d, dir);
      MulSwap(q, Pow2(t), d);
    } else {
      RoundMagScale(q, 1 * Pow2(-t), d, dir);
      assert 1 * Pow2(-t) * d == d * Pow2(-t);
    }
  }

  lemma StickyLength(n: nat, d: nat) returns (len: nat)
    requires d > 0 && Pow2(54) * d <= n
    ensures len >= 55
    ensures Pow2(len - 1) * d <= n < Pow2(len) * d
    ensures Pow2(len - 1) <= Sticky(n, d) < Pow2(len)
  {
    hide *;
    var q, r := Divide(n, d);
    StickyChar(n, d, q, r);
    Distribute(q, 1, d);
    MulCancel(Pow2(54), q + 1, d);
    len := BitLen(q);
    BitLenAtLeast(q, 54);
    Pow2Even(len);
    MulMonotone(Pow2(len - 1), q, d);
    MulMonotone(q + 1, Pow2(len), d);
    SetBit0Below(q, Pow2(len));
  }

  lemma SetBit0Below(q: nat, p: nat)
    requires q < p && p % 2 == 0
    ensures q <= SetBit0(q) < p
  {}

  /** Shifting the numerator against the scale changes nothing. */
  lemma RoundScaledShift(n: nat, d: nat, s: nat, t: int, dir: Direction)
    requires d > 0
    ensures RoundScaled(n * Pow2(s), d, t - s, dir) == RoundScaled(n, d, t, dir)
  {
    hide RoundMag, Pow2;
    if t - s >= 0 {
      Pow2Add(s, t - s);
      MulAssoc(n, Pow2(s), Pow2(t - s));
    } else if t >= 0 {
      Pow2Add(t, s - t);
      MulAssoc(n, Pow2(t), Pow2(s - t));
      RoundMagScale(n * Pow2(t), d, Pow2(s - t), dir);
    } else {
      Pow2Add(-t, s);
      MulAssoc(d, Pow2(-t), Pow2(s));
      MulStrict(0, d, Pow2(-t));
      RoundMagScale(n, d * Pow2(-t), Pow2(s), dir);
    }
  }

  /** So does shifting the denominator with it. */
  lemma RoundScaledDen(n: nat, d: nat, s: nat, t: int, dir: Direction)
    requires d > 0
    ensures d * Pow2(s) > 0
    ensures RoundScaled(n, d * Pow2(s), t, dir) == RoundScaled(n, d, t - s, dir)
  {
    MulStrict(0, d, Pow2(s));
    RoundScaledShift(n, d * Pow2(s), s, t, dir);
    RoundScaledExactPow(n, d, s, t - s, dir);
  }

  lemma RoundScaledExactPow(n: nat, d: nat, s: nat, t: int, dir: Direction)
    requires d > 0 && d * Pow2(s) > 0
    ensures RoundScaled(n * Pow2(s), d * Pow2(s), t, dir) == RoundScaled(n, d, t, dir)
  {
    hide RoundMag, Pow2;
    if t >= 0 {
      MulSwap(n, Pow2(s), Pow2(t));
      RoundMagScale(n * Pow2(t), d, Pow2(s), dir);
    } else {
      MulSwap(d, Pow2(s), Pow2(-t));
      MulStrict(0, d, Pow2(-t));
      RoundMagScale(n, d * Pow2(-t), Pow2(s), dir);
    }
  }

  // ----- bit patterns

  predicate Sign(a: u64) {
    a >= TWO_63
  }

  /** The bits below the sign. */
  function Index(a: u64): nat {
    a % TWO_63
  }

  function ExpField(a: u64): nat {
    a / TWO_52 % 2048
  }

  function MantField(a: u64): nat {
    a % TWO_52
  }

  predicate IsFinite(a: u64) {
    Index(a) < INFINITY
  }

  predicate IsNaN(a: u64) {
    Index(a) > INFINITY
  }

  /** The magnitude of a finite a in units of 2^-1074. */
  function Units(a: u64): nat {
    Grid(Index(a))
  }

  /** The value of a finite a in units of 2^-1074. */
  function SignedUnits(a: u64): int {
    if Sign(a) then 0 - Units(a) else Units(a)
  }

  lemma Fields(a: u64)
    ensures Index(a) == ExpField(a) * TWO_52 + MantField(a)
    ensures a == (if Sign(a) then TWO_63 else 0) + Index(a)
    ensures ExpField(a) <= 2047 && MantField(a) < TWO_52
    ensures IsFinite(a) <==> ExpField(a) < 2047
  {}

  /** The classes of doubles in terms of the two fields. */
  lemma Classify(a: u64)
    ensures ExpField(a) <= 2047 && MantField(a) < TWO_52
    ensures IsFinite(a) <==> ExpField(a) != 2047
    ensures IsNaN(a) <==> ExpField(a) == 2047 && MantField(a) != 0
    ensures Index(a) == 0 <==> ExpField(a) == 0 && MantField(a) == 0
    ensures IsNaN(a) ==> !IsFinite(a)
  {
    Fields(a);
  }

  /** Unpacking a finite double: mantissa times a power of two. */
  lemma {:induction false} GridFields(e: nat, m: nat)
    requires m < TWO_52
    ensures Grid(e * TWO_52 + m) == if e == 0 then m else (TWO_52 + m) * Pow2(e - 1)
  {
    if e > 1 {
      GridFields(e - 1, m);
      GridUp(e * TWO_52 + m);
      assert e * TWO_52 + m - TWO_52 == (e - 1) * TWO_52 + m;
      assert Pow2(e - 1) == 2 * Pow2(e - 2);
      MulAssoc(TWO_52 + m, 2, Pow2(e - 2));
    }
  }

  datatype RoundingMode = RNE | RTZ | RDN | RUP | RMM

  /** What a mode does to the magnitude of a number of the given sign. */
  function DirectionOf(rm: RoundingMode, sign: bool): Direction {
    match rm
    case RNE => NearestEven
    case RTZ => TowardZero
    case RDN => if sign then AwayFromZero else TowardZero
    case RUP => if sign then TowardZero else AwayFromZero
    case RMM => NearestAway
  }

  /** The double for grid point k: past the largest finite one, section 7.4 of
      IEEE 754 chooses between infinity and that largest one. */
  function Encode(sign: bool, k: nat, dir: Direction): u64 {
    (if sign then TWO_63 else 0)
    + (if k < INFINITY then k else if dir == TowardZero then INFINITY - 1 else INFINITY)
  }

  /** The double nearest to (-1)^sign * (n/d) * 2^t units in mode rm. */
  function RoundToDouble(sign: bool, n: nat, d: nat, t: int, rm: RoundingMode): u64
    requires d > 0
  {
    Encode(sign, RoundScaled(n, d, t, DirectionOf(rm, sign)), DirectionOf(rm, sign))
  }

  lemma RoundScaledZero(d: nat, t: int, dir: Direction)
    requires d > 0
    ensures RoundScaled(0, d, t, dir) == 0
  {
    if t < 0 { MulStrict(0, d, Pow2(-t)); }
  }

  /** Every double is its own rounding. */
  lemma GridIsFixed(k: nat, dir: Direction)
    ensures RoundMag(Grid(k), 1, dir) == k
  {
    GridStep(k);
    if k > 0 { GridStep(k - 1); }
    assert LocallyRounded(Grid(k), 1, dir, k);
    LocalIsGlobal(Grid(k), 1, dir, k);
    RoundMagCorrect(Grid(k), 1, dir);
    CorrectlyRoundedUnique(Grid(k), 1, dir, k, RoundMag(Grid(k), 1, dir));
  }

  /** How far a subnormal mantissa moves up to fill 53 bits. */
  lemma SubnormalShift(mant: nat)
    requires 0 < mant < TWO_52
    ensures 1 <= 53 - BitLen(mant) <= 52
    ensures TWO_52 <= mant * Pow2(53 - BitLen(mant)) < TWO_53
  {
    Pow2Constants();
    BitLenAtMost(mant, 52);
    hide Pow2, BitLen;
    ShiftedRange(mant, BitLen(mant), 53 - BitLen(mant));
  }
}

/** Square root (softfp_template.h, sqrtrem_u and sqrt_sf). */
module SoftFpSqrt {
  import opened Powers
  import opened Rounding
  import opened Float64
  import opened SoftFpCore
  import opened SoftFpMul
  import opened SoftFpDiv
  import Ieee754

  /** s is at least the integer square root of a. */
  ghost predicate AtLeastRoot(s: nat, a: nat) {
    a < (s + 1) * (s + 1)
  }

  ghost predicate IsRoot(s: nat, a: nat) {
    s * s <= a < (s + 1) * (s + 1)
  }

  lemma SquareSplit(s: nat)
    ensures (s + 1) * (s + 1) == s * s + 2 * s + 1
  {}

  /** Newton's step from above never passes the root. */
  lemma NewtonStep(a: nat, s: nat, q: nat, r: nat, u: nat)
    requires a == q * s + r && r < s && u == (q + s) / 2
    ensures AtLeastRoot(u, a)
  {
    var v := u + 1;
    assert 2 * v >= q + 1 + s;
    hide *;
    var w := q + 1;
    assert a < w * s by { Distribute(q, 1, s); }
    MulMonotone(w + s, 2 * v, w + s);
    MulMonotone(w + s, 2 * v, 2 * v);
    assert (w + s) * (w + s) <= (2 * v) * (2 * v);
    FourProducts(w, s);
    assert (2 * v) * (2 * v) == 4 * (v * v);
  }

  /** (w + s)^2 >= 4ws. */
  lemma FourProducts(w: nat, s: nat)
    ensures (w + s) * (w + s) >= 4 * (w * s)
  {
    assert (w + s) * (w + s) - 4 * (w * s) == (w - s) * (w - s);
    SquareNonNegative(w - s);
  }

  lemma SquareNonNegative(x: int)
    ensures x * x >= 0
  {}

  /** Stopping means the root is reached. */
  lemma NewtonStop(a: nat, s: nat, q: nat, r: nat, u: nat)
    requires a == q * s + r && u == (q + s) / 2 && u >= s && AtLeastRoot(s, a)
    ensures IsRoot(s, a)
  {
    MulMonotone(s, q, s);
  }

  /** On the way down the divisor stays above the high word. */
  lemma NewtonDivisor(a: nat, high: nat, s: nat)
    requires high < 0x4000_0000_0000_0000 && 0 < a && high * TWO_64 <= a
    requires AtLeastRoot(s, a)
    ensures high < s
  {
    var sq := (s + 1) * (s + 1);
    assert sq > a;
    FloatConstants();
    hide *;
    SquareOfDouble(high);
    MulMonotone(high, 0x4000_0000_0000_0000, high);
    if s <= high && high > 0 {
      var h := 2 * high;
      MulMonotone(s + 1, h, s + 1);
      MulMonotone(s + 1, h, h);
    }
  }

  /** And q + s stays inside 64 bits, except for 2^126 - 1. */
  lemma NewtonSum(a: nat, s: nat, q: nat, r: nat)
    requires 1 <= s <= TWO_63 && a < LARGEST && AtLeastRoot(s, a)
    requires a == q * s + r
    ensures q + s < TWO_64
  {
    SquareSplit(s);
    FloatConstants();
    var sq := s * s;
    assert a < sq + 2 * s + 1 && a < 0x3fff_ffff_ffff_ffff_ffff_ffff_ffff_ffff;
    hide *;
    if s + 2 <= TWO_63 {
      if q >= s + 3 {
        MulMonotone(s + 3, q, s);
        Distribute(s, 3, s);
        assert false;
      }
    } else if q + s >= TWO_64 {
      MulMonotone(TWO_64 - s, q, s);
      assert false;
    }
  }

  const LARGEST: nat := 0x3fff_ffff_ffff_ffff_ffff_ffff_ffff_ffff

  /** The start value for a number with a high word: the root of a power of four at
      least as large as the high word. For a high word of 1 it depends on clz(0). */
  function Start(high: u64, clz0: nat): (u: nat)
    requires high >= 1 && 1 <= clz0 <= 64
  {
    BitLen64(high - 1);
    Pow2((129 - Clz(high - 1, clz0)) / 2)
  }

  /** The start is computed from the high word alone. It falls short of the root when
      its square is the high word and the low word is too large. */
  predicate StartsShort(high: u64, low: nat, clz0: nat)
    requires 1 <= clz0 <= 64
  {
    high >= 1 && high * TWO_64 == Start(high, clz0) * Start(high, clz0) && low > 2 * Start(high, clz0)
  }

  lemma StartAboveRoot(high: u64, low: u64, clz0: nat)
    requires 1 <= high < 0x4000_0000_0000_0000 && 1 <= clz0 <= 64 && (high == 1 ==> clz0 >= 2)
    ensures 1 <= Start(high, clz0) <= TWO_63 && high < Start(high, clz0)
    ensures AtLeastRoot(Start(high, clz0), high * TWO_64 + low) <==> !StartsShort(high, low, clz0)
  {
    hide Pow2, BitLen;
    Pow2Constants();
    Pow2Of62();
    BitLen64(high - 1);
    var n := 64 - Clz(high - 1, clz0);
    if high > 1 { BitLenAtMost(high - 1, 62); }
    var h := (65 + n) / 2;
    Pow2Monotone(h, 63);
    Pow2Monotone(0, h);
    var u, x := Pow2(h), Pow2(2 * h - 64);
    Pow2Add(h, h);
    Pow2Add(64, 2 * h - 64);
    Pow2Monotone(n, 2 * h - 64);
    StartCompare(high, low, u, x);
  }

  /** Comparing with a square that is a multiple of 2^64. */
  lemma StartCompare(high: nat, low: u64, u: nat, x: nat)
    requires u * u == TWO_64 * x && x >= high && 1 <= u <= TWO_63 && high < 0x4000_0000_0000_0000
    ensures high < u
    ensures AtLeastRoot(u, high * TWO_64 + low) <==> !(high * TWO_64 == u * u && low > 2 * u)
  {
    SquareSplit(u);
    WordAboveSquare(high, u * u, x, u);
    WordCompare(high, low, u * u, x, u);
  }

  lemma WordAboveSquare(high: nat, sq: nat, x: nat, u: nat)
    requires sq == u * u && sq == TWO_64 * x && x >= high && 1 <= u <= TWO_63
    ensures high < u
  {
    FloatConstants();
    hide *;
    if u <= high { MulMonotone(u, TWO_63, u); }
  }

  lemma WordCompare(high: nat, low: u64, sq: nat, x: nat, u: nat)
    requires sq == TWO_64 * x && x >= high
    ensures high * TWO_64 + low < sq + 2 * u + 1 <==> !(high * TWO_64 == sq && low > 2 * u)
  {
    FloatConstants();
    hide *;
    if x > high { assert sq >= TWO_64 * (high + 1); }
  }

  /** The start value when the high word is 0; the undefined clz(0) does no harm. */
  lemma StartLow(low: u64, clz0: nat)
    requires low > 0 && 1 <= clz0 <= 64
    ensures Clz(low - 1, clz0) <= 64
    ensures var u := Pow2((65 - Clz(low - 1, clz0)) / 2); 1 <= u <= TWO_63 && AtLeastRoot(u, low)
  {
    hide Pow2, BitLen, AtLeastRoot;
    BitLen64(low - 1);
    var l := 64 - Clz(low - 1, clz0);
    var h := (l + 1) / 2;
    Pow2Constants();
    Pow2Monotone(0, h);
    Pow2Monotone(h, 63);
    Pow2Add(h, h);
    Pow2Monotone(l, h + h);
    if low > 1 { assert low <= Pow2(l); } else { Pow2Monotone(0, l); }
    SquareAbove(Pow2(h), low);
  }

  /** From a start below the root the first step stops. */
  lemma ShortStop(high: nat, low: u64, s: nat, q: nat, r: nat)
    requires 1 <= high && s <= 0x4000_0000_0000_0000
    requires high * TWO_64 == s * s && low > 2 * s && r < s
    requires high * TWO_64 + low == q * s + r
    ensures q + s < TWO_64 && (q + s) / 2 >= s && !IsRoot(s, high * TWO_64 + low)
  {
    SquareSplit(s);
    FloatConstants();
    ShortRange(s * s, low, s, q, q * s, r);
  }

  lemma ShortRange(sq: nat, low: u64, s: nat, q: nat, p: nat, r: nat)
    requires sq == s * s && p == q * s && r < s && sq + low == p + r && sq >= TWO_64
    ensures s <= q < s + 0x1_0000_0000
  {
    FloatConstants();
    hide *;
    if q < s {
      MulMonotone(q + 1, s, s);
      Distribute(q, 1, s);
    } else if q >= s + 0x1_0000_0000 {
      if s < 0x1_0000_0000 {
        MulMonotone(s, 0x1_0000_0000, s);
      } else {
        MulMonotone(s + 0x1_0000_0000, q, s);
        Distribute(s, 0x1_0000_0000, s);
      }
    }
  }

  /** A start whose square is below 2^126 is at most 2^62. */
  lemma StartSmall(high: u64, clz0: nat)
    requires 1 <= high < 0x4000_0000_0000_0000 && 1 <= clz0 <= 64
    requires high * TWO_64 == Start(high, clz0) * Start(high, clz0)
    ensures Start(high, clz0) <= 0x4000_0000_0000_0000
  {
    hide Pow2, BitLen;
    Pow2Constants();
    Pow2Of62();
    FloatConstants();
    BitLen64(high - 1);
    var h := (129 - Clz(high - 1, clz0)) / 2;
    var u := Pow2(h);
    if h >= 63 {
      Pow2Monotone(63, h);
      MulMonotone(TWO_63, u, TWO_63);
      MulMonotone(TWO_63, u, u);
    } else {
      Pow2Monotone(h, 62);
    }
  }

  lemma Pow2Of62()
    ensures Pow2(62) == 0x4000_0000_0000_0000
  {
    Pow2Constants();
  }

  lemma SquareAbove(p: nat, a: nat)
    requires a <= p * p
    ensures AtLeastRoot(p, a)
  {
    SquareSplit(p);
  }

  lemma SameWords(h: nat, l: u64, h': nat, l': u64)
    ensures h * TWO_64 + l == h' * TWO_64 + l' <==> h == h' && l == l'
  {}

  /** The integer square root by Newton's method, for every number below 2^126. ok says
      that the assertion of divrem_u holds at every division. It fails for 2^126 - 1
      alone, where q + s wraps to 0 and becomes the divisor. Otherwise the result is the
      root exactly when the start value is not too small. (A high word of 1 with clz(0)
      taken as 1 would shift by a whole word.) */
  method SqrtremU(high: u64, low: u64, clz0: nat) returns (ok: bool, root: u64, inexact: bool)
    requires 1 <= clz0 <= 64 && (high == 1 ==> clz0 >= 2)
    requires high < 0x4000_0000_0000_0000
    ensures ok <==> high * TWO_64 + low != LARGEST
    ensures ok ==> (IsRoot(root, high * TWO_64 + low) <==> !StartsShort(high, low, clz0))
    ensures ok ==> (inexact <==> root * root != high * TWO_64 + low)
  {
    hide Pow2, BitLen, AtLeastRoot, IsRoot, MulU, StartsShort;
    FloatConstants();
    ghost var a := high * TWO_64 + low;
    ghost var short := StartsShort(high, low, clz0);
    var l;
    if high != 0 {
      BitLen64(high - 1);
      l := 128 - Clz(high - 1, clz0);
      StartAboveRoot(high, low, clz0);
      StartLargest(high, low, clz0);
    } else {
      HighZero(low, clz0);
      if low == 0 {
        return true, 0, false;
      }
      StartLow(low, clz0);
      l := 64 - Clz(low - 1, clz0);
    }
    var u: u64 := Pow2((l + 1) / 2);
    var s: u64 := u;
    while true
      invariant u <= TWO_63
      invariant a == LARGEST ==> !short && (u == TWO_63 || u == TWO_63 - 1 || u == 0)
      invariant short ==> high >= 1 && u == Start(high, clz0) && high < u
      invariant !short && a != LARGEST ==> AtLeastRoot(u, a)
      decreases u
    {
      s := u;
      if !short && a != LARGEST { NewtonDivisor(a, high, s); }
      if high >= s {
        return false, 0, false;
      }
      var q, r := DivremU(high, low, s);
      if short {
        StopsShort(high, low, s, q, r, clz0);
      } else if a == LARGEST {
        LargestStep(s, q, r);
      } else {
        NewtonSum(a, s, q, r);
        SmallWord(q + s);
      }
      u := (q + s) % TWO_64 / 2;
      if u >= s {
        if !short { NewtonStop(a, s, q, r, u); }
        break;
      }
      if !short && a != LARGEST { NewtonStep(a, s, q, r, u); }
    }
    MulUExact(s, s);
    var sq := MulU(s, s);
    SameWords(sq.high, sq.low, high, low);
    inexact := sq.low != low || sq.high != high;
    root := s;
    ok := true;
  }

  /** The two steps of the loop for 2^126 - 1: from 2^63 to 2^63 - 1, and from there to 0. */
  lemma LargestStep(s: u64, q: u64, r: u64)
    requires LARGEST == q * s + r && r < s && (s == TWO_63 || s == TWO_63 - 1)
    ensures (q + s) % TWO_64 / 2 == if s == TWO_63 then TWO_63 - 1 else 0
  {
    var x: nat := if s == TWO_63 then TWO_63 - 1 else TWO_63 + 1;
    if q < x {
      MulMonotone(q + 1, x, s);
    } else if q > x {
      MulMonotone(x + 1, q, s);
    }
  }

  lemma StartLargest(high: u64, low: u64, clz0: nat)
    requires 1 <= high < 0x4000_0000_0000_0000 && 1 <= clz0 <= 64
    ensures high * TWO_64 + low == LARGEST ==> Start(high, clz0) == TWO_63 && !StartsShort(high, low, clz0)
  {
    hide Pow2, BitLen;
    FloatConstants();
    Pow2Constants();
    Pow2Of62();
    Pow2Next(61);
    if high * TWO_64 + low == LARGEST {
      assert high == 0x3fff_ffff_ffff_ffff;
      BitLenUnique(high - 1, 62);
    }
  }

  /** The dividends of sqrt_sf, whose low word is 0, have a good start. */
  lemma NeverShort(high: u64, clz0: nat)
    requires 1 <= clz0 <= 64
    ensures !StartsShort(high, 0, clz0) && high * TWO_64 != LARGEST
  {}

  lemma HighZero(low: nat, clz0: nat)
    requires 1 <= clz0 <= 64
    ensures !StartsShort(0, low, clz0) && IsRoot(0, 0)
  {}

  lemma StopsShort(high: u64, low: u64, s: nat, q: nat, r: nat, clz0: nat)
    requires 1 <= clz0 <= 64 && StartsShort(high, low, clz0) && s == Start(high, clz0) && high < 0x4000_0000_0000_0000
    requires r < s && high * TWO_64 + low == q * s + r
    ensures q + s < TWO_64 && (q + s) % TWO_64 / 2 >= s && !IsRoot(s, high * TWO_64 + low)
  {
    hide Start;
    StartSmall(high, clz0);
    ShortStop(high, low, s, q, r);
    SmallWord(q + s);
  }

  /** A number whose start is too small: the root of 2^124 + 2^64 - 1 is 2^62 + 1. */
  lemma ShortExample(clz0: nat)
    requires 1 <= clz0 <= 64
    ensures StartsShort(0x1000_0000_0000_0000, 0xffff_ffff_ffff_ffff, clz0)
    ensures IsRoot(0x4000_0000_0000_0001, 0x1000_0000_0000_0000 * TWO_64 + 0xffff_ffff_ffff_ffff)
  {
    hide Pow2, BitLen;
    Pow2Constants();
    Pow2Of62();
    Pow2Next(61);
    Pow2Next(60);
    Pow2Next(59);
    BitLenUnique(0xfff_ffff_ffff_ffff, 60);
  }

  // ----- rounding of the sticky root

  /** The root with bit 0 set when it is inexact. */
  function StickyRoot(s: nat, a: nat): nat {
    if s * s != a then SetBit0(s) else s
  }

  lemma SquareOrder(v: nat, w: nat)
    ensures v < w ==> v * v < w * w
    ensures v <= w ==> v * v <= w * w
  {
    if v < w {
      MulMonotone(v, w, v);
      MulStrict(v, w, w);
    }
  }

  /** An even number compares with the sticky root as with the true root. */
  lemma RootCompare(v: nat, s: nat, a: nat)
    requires v % 2 == 0 && IsRoot(s, a)
    ensures v <= StickyRoot(s, a) <==> v * v <= a
    ensures v < StickyRoot(s, a) <==> v * v < a
  {
    SquareOrder(v, s);
    SquareOrder(s, v);
    SquareOrder(s + 1, v);
  }

  /** The same comparison scaled: point = v * p against root * p. */
  lemma ScaledRootCompare(v: nat, s: nat, a: nat, p: nat, point: nat, n: nat, x: nat)
    requires v % 2 == 0 && IsRoot(s, a) && p > 0
    requires point == v * p && n == StickyRoot(s, a) * p && x == a * (p * p)
    ensures point <= n <==> Square(point) <= x
    ensures point < n <==> Square(point) < x
  {
    RootCompare(v, s, a);
    var y := StickyRoot(s, a);
    assert Square(point) == point * point;
    hide *;
    MulCancel(v, y, p);
    MulCancel(y, v, p);
    MulStrict(0, p, p);
    assert point * point == (v * v) * (p * p) by { SquareOfProduct(v, p); }
    MulCancel(v * v, a, p * p);
    MulCancel(a, v * v, p * p);
  }

  lemma SquareOfProduct(v: nat, p: nat)
    ensures (v * p) * (v * p) == (v * v) * (p * p)
  {}

  /** High grid points are multiples of high powers of two. */
  lemma {:induction false} GridDivisible(j: nat, i: nat) returns (c: nat)
    requires j >= (i + 1) * TWO_52
    ensures Grid(j) == c * Pow2(i)
  {
    if i == 0 {
      c := Grid(j);
    } else {
      c := GridDivisible(j - TWO_52, i - 1);
      GridUp(j);
    }
  }

  /** Grid points near the root are multiples of 512 in the scale of the root. */
  lemma GridPoint(j: nat, t: nat) returns (g: nat)
    requires j >= (t + 10) * TWO_52
    ensures Grid(j) == g * Pow2(t) && g % 4 == 0
  {
    var c := GridDivisible(j, t + 9);
    Pow2Add(9, t);
    assert Pow2(9) == 512;
    g := c * 512;
    MulAssoc(c, 512, Pow2(t));
    FourDivides(c);
  }

  lemma FourDivides(c: nat)
    ensures c * 512 % 4 == 0
  {}

  lemma RootNeighbour(j: nat, t: nat, s: nat, a: nat, n: nat, x: nat)
    requires j >= (t + 10) * TWO_52 && IsRoot(s, a)
    requires n == StickyRoot(s, a) * Pow2(t) && x == a * (Pow2(t) * Pow2(t))
    ensures Grid(j) <= n <==> Square(Grid(j)) <= x
    ensures Grid(j) < n <==> Square(Grid(j)) < x
    ensures Grid(j) + Grid(j + 1) <= 2 * n <==> Square(Grid(j) + Grid(j + 1)) <= 4 * x
    ensures Grid(j) + Grid(j + 1) < 2 * n <==> Square(Grid(j) + Grid(j + 1)) < 4 * x
  {
    hide Grid, Pow2, IsRoot, StickyRoot, Square;
    var g := GridPoint(j, t);
    var h := GridPoint(j + 1, t);
    ScaledRootCompare(g, s, a, Pow2(t), Grid(j), n, x);
    var mid, half := MidPoint(g, h, Pow2(t), Grid(j), Grid(j + 1));
    ScaledRootCompare(mid, s, a, Pow2(t), half, n, x);
    SquareOfDouble(half);
  }

  lemma MidPoint(g: nat, h: nat, p: nat, x: nat, y: nat) returns (mid: nat, half: nat)
    requires g % 4 == 0 && h % 4 == 0 && x == g * p && y == h * p
    ensures mid % 2 == 0 && half == mid * p && x + y == 2 * half
  {
    mid := HalfSum(g, h);
    half := mid * p;
    Distribute(g, h, p);
    MulAssoc(2, mid, p);
  }

  lemma HalfSum(g: nat, h: nat) returns (mid: nat)
    requires g % 4 == 0 && h % 4 == 0
    ensures mid % 2 == 0 && g + h == 2 * mid
  {
    mid := (g + h) / 2;
  }

  lemma SquareOfDouble(v: nat)
    ensures Square(2 * v) == 4 * Square(v)
  {}

  /** Rounding the sticky root is rounding the root. */
  lemma RootRounds(s: nat, a: nat, t: nat, dir: Direction, k: nat)
    requires IsRoot(s, a) && k > (t + 10) * TWO_52
    requires k == RoundMag(StickyRoot(s, a) * Pow2(t), 1, dir)
    ensures Ieee754.RootRounded(a * (Pow2(t) * Pow2(t)), dir, k)
  {
    hide Grid, Pow2, IsRoot, StickyRoot, RoundMag, Square;
    var n: nat, x: nat := StickyRoot(s, a) * Pow2(t), a * (Pow2(t) * Pow2(t));
    RoundMagIsLocal(n, 1, dir);
    RootNeighbour(k - 1, t, s, a, n, x);
    RootNeighbour(k, t, s, a, n, x);
    RootNeighbour(k + 1, t, s, a, n, x);
  }

  lemma EvenExponent(x: Unpacked, u: nat, odd: bool, m: nat, t: nat)
    requires Represents(x, u) && -51 <= x.exp
    requires odd <==> (x.exp - 1023) % 2 == 1
    requires 2 * t == x.exp + 1001 - (if odd then 1 else 0) && m == if odd then x.mant * 2 else x.mant
    ensures m * 256 * TWO_64 * (Pow2(t) * Pow2(t)) == u * Pow2(1074)
  {
    hide *;
    MantissaPower(x, u);
    var w' := Pow2(2 * t + 72);
    Pow2Next(2 * t + 72);
    SeventyTwo(t);
    var tt := Pow2(t) * Pow2(t);
    ScaleEven(m, x.mant, odd, tt, Pow2(72), if odd then 2 * w' else w', w');
  }

  lemma SeventyTwo(t: nat)
    ensures Pow2(72) == 256 * TWO_64
    ensures Pow2(2 * t + 72) == Pow2(72) * (Pow2(t) * Pow2(t))
  {
    Pow2Constants();
    Pow2Add(8, 64);
    assert Pow2(8) == 256;
    hide Pow2;
    Pow2Add(t, t);
    Pow2Add(72, 2 * t);
  }

  lemma ScaleEven(m: nat, n: nat, odd: bool, tt: nat, p72: nat, w: nat, w': nat)
    requires m == (if odd then n * 2 else n) && w == if odd then 2 * w' else w'
    requires p72 == 256 * TWO_64 && w' == p72 * tt
    ensures m * 256 * TWO_64 * tt == n * w
  {
    assert m * 256 * TWO_64 == m * p72;
    MulAssoc(m, p72, tt);
    if odd {
      MulAssoc(n, 2, w');
    }
  }

  lemma RootRange(root: nat, high: nat)
    requires IsRoot(root, high * TWO_64)
    requires 0x1000_0000_0000_0000 <= high < 0x4000_0000_0000_0000
    ensures Normal62(root) && Normal62(SetBit0(root))
  {
    SquareSplit(root);
    var top: nat := 0x4000_0000_0000_0000;
    SquareOrder(root + 1, top);
    SquareOrder(TWO_63, root);
  }

  /** A normal result is its grid index. */
  lemma NormalResult(e: int, y: nat, t: nat, rm: RoundingMode, clz0: nat, k: nat)
    requires Normal62(y) && 11 <= e <= 2000 && t == e - 11 && 1 <= clz0 <= 64
    requires k == RoundMag(y * Pow2(t), 1, DirectionOf(rm, false))
    ensures NormalizeSf(false, e, y, rm, clz0) == k && (t + 10) * TWO_52 < k < INFINITY
  {
    hide RoundMag, NormalizeSf, Pow2, RoundOff, RShiftRnd;
    NormalizeCorrect(false, e, y, rm, clz0);
    RoundPackIndex(false, e, y, rm);
    assert RoundScaled(y, 1, t, DirectionOf(rm, false)) == k;
  }

  /** Normalising and rounding the sticky root y. */
  lemma SqrtRounds(root: nat, a: nat, high: nat, y: nat, x: nat, e: int, t: nat, rm: RoundingMode, clz0: nat)
    requires a == high * TWO_64 && IsRoot(root, a) && 1 <= clz0 <= 64
    requires 0x1000_0000_0000_0000 <= high < 0x4000_0000_0000_0000
    requires 11 <= e <= 2000 && t == e - 11 && y == StickyRoot(root, a)
    requires x == a * (Pow2(t) * Pow2(t))
    ensures y < TWO_63
    ensures NormalizeSf(false, e, y, rm, clz0) < INFINITY
    ensures Ieee754.RootRounded(x, DirectionOf(rm, false), NormalizeSf(false, e, y, rm, clz0))
  {
    RootRange(root, high);
    FloatConstants();
    assert Normal62(y) && y < TWO_63;
    hide *;
    var k := RoundMag(y * Pow2(t), 1, DirectionOf(rm, false));
    NormalResult(e, y, t, rm, clz0, k);
    RootRounds(root, a, t, DirectionOf(rm, false), k);
  }

  lemma RootOfUnits(a: u64, rm: RoundingMode, res: u64, x: nat)
    requires IsFinite(a) && Index(a) != 0 && !Sign(a) && res < INFINITY
    requires x == Units(a) * Pow2(1074) && Ieee754.RootRounded(x, DirectionOf(rm, false), res)
    ensures Ieee754.IsSquareRoot(a, rm, res)
  {
    hide Grid, Pow2, Ieee754.RootRounded;
    Classify(a);
  }

  /** sqrt_sf is the correctly rounded square root, special values included. */
  method SqrtSf(a: u64, rm: RoundingMode, clz0: nat) returns (res: u64)
    requires 1 <= clz0 <= 64
    ensures Ieee754.IsSquareRoot(a, rm, res)
  {
    hide Grid, Pow2, Represents, UnpackNormal, NormalizeSf, SetBit0, IsRoot, Ieee754.RootRounded, Index, ExpField, MantField, Sign, StartsShort;
    Classify(a);
    if ExpField(a) == EXP_MASK {
      if MantField(a) != 0 {
        return QNAN;
      } else if Sign(a) {
        return QNAN;
      } else {
        return a;
      }
    }
    if Sign(a) {
      if ExpField(a) == 0 && MantField(a) == 0 {
        return a;
      }
      return QNAN;
    }
    if ExpField(a) == 0 && MantField(a) == 0 {
      Fields(a);
      return PackSf(false, 0, 0);
    }
    var x := UnpackNormal(a);
    UnpackValue(a);
    ghost var u := Units(a);
    var exp, mant := x.exp - 1023, x.mant;
    var odd := exp % 2 == 1;
    if odd {
      exp := exp - 1;
      mant := mant * 2;
    }
    ghost var m := mant;
    exp := exp / 2 + 1023;
    mant := mant * 256;
    ghost var t := exp - 11;
    NeverShort(mant, clz0);
    var ok, root, inexact := SqrtremU(mant, 0, clz0);
    assert ok;
    EvenExponent(x, u, odd, m, t);
    SqrtRounds(root, mant * TWO_64, mant, StickyRoot(root, mant * TWO_64), u * Pow2(1074), exp, t, rm, clz0);
    res := NormalizeSf(false, exp, if inexact then SetBit0(root) else root, rm, clz0);
    RootOfUnits(a, rm, res, u * Pow2(1074));
  }
}

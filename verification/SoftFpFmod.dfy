/** The exact floating-point remainder (softfp_template.h, fmod_sf). */
module SoftFpFmod {
  import opened Powers
  import opened Rounding
  import opened Float64
  import opened SoftFpCore
  import Ieee754

  /** A larger magnitude does not have a smaller exponent. */
  lemma ExponentOrder(x: Unpacked, y: Unpacked, u: nat, v: nat)
    requires TWO_52 <= x.mant < TWO_53 && TWO_52 <= y.mant < TWO_53
    requires Represents(x, u) && Represents(y, v) && -51 <= x.exp && -51 <= y.exp && v < u
    ensures y.exp <= x.exp
  {
    hide Represents;
    MantissaPower(x, u);
    MantissaPower(y, v);
    if x.exp < y.exp {
      Pow2Monotone(x.exp + 1074, y.exp + 1073);
      assert Pow2(x.exp + 1074) == 2 * Pow2(x.exp + 1073);
      MulStrict(v, u, Pow2(1074));
      hide Pow2;
      var p, q := Pow2(x.exp + 1073), Pow2(y.exp + 1073);
      MulMonotone(x.mant, TWO_53, p);
      MulMonotone(TWO_52, y.mant, q);
      assert false;
    }
  }

  /** The mantissa remainder am is the remainder of the magnitudes. */
  lemma RemainderOfUnits(x: Unpacked, y: Unpacked, u: nat, v: nat, n: nat, c: nat, am: nat) returns (r: nat)
    requires Represents(x, u) && Represents(y, v) && -51 <= x.exp && -51 <= y.exp && n == x.exp - y.exp
    requires x.mant * Pow2(n) == c * y.mant + am && am < y.mant
    ensures u == c * v + r && r < v
    ensures am * Pow2(y.exp + 1073) == r * Pow2(1074)
  {
    hide *;
    MantissaPower(x, u);
    MantissaPower(y, v);
    var p, w := Pow2(y.exp + 1073), Pow2(1074);
    Pow2Add(n, y.exp + 1073);
    MulAssoc(x.mant, Pow2(n), p);
    Distribute(c * y.mant, am, p);
    MulAssoc(c, y.mant, p);
    MulAssoc(c, v, w);
    MulStrict(am, y.mant, p);
    assert u * w == (c * v) * w + am * p;
    MulMonotone(0, am, p);
    MulCancel(c * v, u, w);
    r := u - c * v;
    Distribute(u, c * v, w);
    MulCancel(r, v, w);
  }

  /** Numbers with a 53-bit mantissa lie on the grid. */
  lemma {:induction false} GridHas(m: nat, s: nat) returns (k: nat)
    requires m < TWO_53
    ensures Grid(k) == m * Pow2(s)
  {
    if s == 0 {
      k := m;
    } else {
      var j := GridHas(m, s - 1);
      assert m * Pow2(s) == 2 * Grid(j);
      if j < TWO_52 {
        k := 2 * j;
      } else {
        k := TWO_52 + j;
        GridUp(k);
      }
    }
  }

  lemma RemainderOnGrid(y: Unpacked, v: nat, r: nat, am: nat) returns (k: nat)
    requires Represents(y, v) && -51 <= y.exp && r < v && am < y.mant < TWO_53
    requires am * Pow2(y.exp + 1073) == r * Pow2(1074)
    ensures Grid(k) == r
  {
    if y.exp >= 1 {
      k := GridHas(am, y.exp - 1);
      Pow2Add(y.exp - 1, 1074);
      hide Pow2, Grid;
      MulAssoc(am, Pow2(y.exp - 1), Pow2(1074));
      MulCancel(am * Pow2(y.exp - 1), r, Pow2(1074));
    } else {
      assert v <= y.mant by { MulMonotone(1, Pow2(1 - y.exp), v); }
      k := r;
    }
  }

  /** Normalising the remainder does not round it. */
  lemma RemainderExact(sign: bool, e: int, am: nat, r: nat, k: nat, clz0: nat)
    requires 1 <= clz0 <= 64 && -1073 <= e && am < TWO_53 && Grid(k) == r
    requires am * Pow2(e + 1073) == r * Pow2(1074)
    ensures NormalizeSf(sign, e, am * RND_UNIT, RNE, clz0) == Encode(sign, k, NearestEven)
  {
    hide NormalizeSf, Grid, RoundScaled, Pow2, Encode;
    NormalizeCorrect(sign, e, am * RND_UNIT, RNE, clz0);
    Pow2Constants();
    RoundScaledShift(am, 1, 10, e - 1, NearestEven);
    RoundScaledShift(am, 1, e + 1073, e - 1, NearestEven);
    RoundScaledShift(r, 1, 1074, 0, NearestEven);
    assert RoundScaled(r, 1, 0, NearestEven) == k by {
      AtScaleZero(r);
      GridIsFixed(k, NearestEven);
    }
  }

  lemma AtScaleZero(r: nat)
    ensures RoundScaled(r, 1, 0, NearestEven) == RoundMag(r, 1, NearestEven)
  {
    assert Pow2(0) == 1;
    hide RoundMag;
  }

  lemma FmodResult(a: u64, b: u64, n: nat, c: nat, am: nat, clz0: nat)
    requires IsFinite(a) && IsFinite(b) && Index(b) != 0 && Index(b) < Index(a) && 1 <= clz0 <= 64
    requires var x, y := UnpackNormal(a), UnpackNormal(b);
             n == x.exp - y.exp && x.mant * Pow2(n) == c * y.mant + am && am < y.mant
    ensures am * RND_UNIT < TWO_63
    ensures Ieee754.IsRemainder(a, b, NormalizeSf(Sign(a), UnpackNormal(b).exp, am * RND_UNIT, RNE, clz0))
  {
    hide UnpackNormal, Represents, Grid, Pow2, NormalizeSf, Encode, Sign, Index;
    var x, y := UnpackNormal(a), UnpackNormal(b);
    UnpackValue(a);
    UnpackValue(b);
    var r := RemainderOfUnits(x, y, Units(a), Units(b), n, c, am);
    var k := RemainderOnGrid(y, Units(b), r, am);
    RemainderExact(Sign(a), y.exp, am, r, k, clz0);
    RemainderEncoded(a, b, c, r, k);
  }

  lemma RemainderEncoded(a: u64, b: u64, c: nat, r: nat, k: nat)
    requires IsFinite(a) && IsFinite(b) && Index(b) != 0
    requires Units(a) == c * Units(b) + r && r < Units(b) && Grid(k) == r
    ensures Ieee754.IsRemainder(a, b, Encode(Sign(a), k, NearestEven))
  {
    hide Grid, Encode, Sign, Index;
    DivUnique(Units(a), Units(b), c, r);
    if k >= Index(b) { GridScaled(Index(b), k, 1); }
    FloatConstants();
    EncodeFinite(Sign(a), k, NearestEven);
    Classify(b);
  }

  lemma EncodeFinite(sign: bool, k: nat, dir: Direction)
    requires k < INFINITY
    ensures Sign(Encode(sign, k, dir)) == sign && Index(Encode(sign, k, dir)) == k
  {}

  lemma FmodShort(a: u64, b: u64)
    requires IsFinite(a) && !IsNaN(b) && Index(b) != 0 && Index(a) <= Index(b)
    ensures Index(a) < Index(b) ==> Ieee754.IsRemainder(a, b, a)
    ensures Index(a) == Index(b) ==> Ieee754.IsRemainder(a, b, if Sign(a) then TWO_63 else 0)
  {
    hide Grid;
    GridMonotone(0, Index(b));
    if Index(a) < Index(b) {
      GridMonotone(Index(a), Index(b));
      if IsFinite(b) {
        DivUnique(Units(a), Units(b), 0, Units(a));
      }
    } else {
      DivUnique(Units(a), Units(b), 1, 0);
      EncodeFinite(Sign(a), 0, NearestEven);
      GridOfZero();
    }
  }

  lemma GridOfZero()
    ensures Grid(0) == 0
  {}

  lemma DoubleRemainder(m: nat, k: nat, c: nat, b: nat, am: nat)
    requires m * Pow2(k) == c * b + am
    ensures m * Pow2(k + 1) == (2 * c) * b + 2 * am
    ensures m * Pow2(k + 1) == (2 * c + 1) * b + (2 * am - b)
  {
    var p := Pow2(k);
    assert Pow2(k + 1) == 2 * p;
    hide *;
    MulAssoc(m, 2, p);
    assert m * (2 * p) == 2 * (m * p);
    MulAssoc(2, c, b);
    Distribute(2 * c, 1, b);
  }

  /** fmod_sf is exact. */
  method FmodSf(a: u64, b: u64, clz0: nat) returns (res: u64)
    requires 1 <= clz0 <= 64
    ensures Ieee754.IsRemainder(a, b, res)
  {
    hide Grid, Pow2, UnpackNormal, NormalizeSf, Represents, Sign, Index;
    FloatConstants();
    var aAbs, bAbs := Index(a), Index(b);
    if bAbs == 0 || aAbs >= INFINITY || bAbs > INFINITY {
      return QNAN;
    }
    if aAbs <= bAbs {
      FmodShort(a, b);
    }
    if aAbs < bAbs {
      return a;
    } else if aAbs == bAbs {
      return if Sign(a) then TWO_63 else 0;
    }
    var x, y := UnpackNormal(a), UnpackNormal(b);
    UnpackValue(a);
    UnpackValue(b);
    GridMonotone(bAbs, aAbs);
    ExponentOrder(x, y, Units(a), Units(b));
    var n: nat := x.exp - y.exp;
    var aMant: u64, bMant: u64 := x.mant, y.mant;
    ghost var c: nat := 0;
    if aMant >= bMant {
      aMant := aMant - bMant;
      c := 1;
    }
    aMant, c := ShiftSubtract(x.mant, aMant, bMant, n, c);
    FmodResult(a, b, n, c, aMant, clz0);
    res := NormalizeSf(Sign(a), y.exp, aMant * RND_UNIT % TWO_64, RNE, clz0);
  }

  /** The loop of fmod_sf: n doublings of the remainder, each followed by a subtraction
      if there is something to subtract. */
  method ShiftSubtract(ghost m: nat, a0: u64, b: u64, n0: nat, ghost c0: nat) returns (a: u64, ghost c: nat)
    requires m == c0 * b + a0 && a0 < b < TWO_53
    ensures a < b && m * Pow2(n0) == c * b + a
  {
    hide Pow2;
    FloatConstants();
    Pow2Zero();
    a, c := a0, c0;
    var n: nat := n0;
    ghost var k: nat := 0;
    while n != 0
      invariant a < b && n + k == n0
      invariant m * Pow2(k) == c * b + a
    {
      DoubleRemainder(m, k, c, b, a);
      a := a * 2 % TWO_64;
      c := 2 * c;
      if a >= b {
        a := a - b;
        c := c + 1;
      }
      n := n - 1;
      k := k + 1;
    }
  }

  lemma Pow2Zero()
    ensures Pow2(0) == 1
  {}
}

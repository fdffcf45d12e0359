/** Multiplication (softfp_template.h, mul_u and mul_sf). */
module SoftFpMul {
  import opened Powers
  import opened Rounding
  import opened Float64
  import opened SoftFpCore
  import Ieee754

  const HALF: nat := 0x1_0000_0000

  /** The two words of a double-width result. */
  datatype Wide = Wide(high: u64, low: u64)

  lemma HalfProduct(x: nat, y: nat)
    requires x < HALF && y < HALF
    ensures 0 <= x * y <= 0xFFFF_FFFE_0000_0001
  {
    MulMonotone(x, HALF - 1, y);
    MulMonotone(y, HALF - 1, HALF - 1);
  }

  /** The 128-bit product of two words from four half-word products, with every
      intermediate sum kept in 64 bits as the source keeps it. */
  function MulU(a: u64, b: u64): Wide {
    var a0, a1, b0, b1 := a % HALF, a / HALF, b % HALF, b / HALF;
    HalfProduct(a0, b0);
    HalfProduct(a0, b1);
    HalfProduct(a1, b0);
    HalfProduct(a1, b1);
    CombineHalves(a0 * b0, a0 * b1, a1 * b0, a1 * b1)
  }

  function CombineHalves(r00: u64, r01: u64, r10: u64, r11: u64): Wide {
    var r0 := r00 % HALF;
    var c1 := (r00 / HALF + r01 % HALF + r10 % HALF) % TWO_64;
    var r1 := c1 % HALF;
    var c2 := (c1 / HALF + r01 / HALF + r10 / HALF + r11 % HALF) % TWO_64;
    var r2 := c2 % HALF;
    var r3 := (c2 / HALF + r11 / HALF) % HALF;
    Wide(r3 * HALF + r2, r1 * HALF + r0)
  }

  /** The carry chain as equations between half words. */
  lemma CarryChain(l00: nat, h00: nat, l01: nat, h01: nat, l10: nat, h10: nat, l11: nat, h11: nat,
                   c1: nat, r1: nat, k1: nat, c2: nat, r2: nat, k2: nat)
    requires l00 < HALF && l01 < HALF && l10 < HALF && l11 < HALF && r1 < HALF && r2 < HALF
    requires h00 < HALF && h01 < HALF && h10 < HALF
    requires l00 + HALF * (h00 + l01 + l10) + TWO_64 * (h01 + h10 + l11) + TWO_64 * HALF * h11 < TWO_64 * TWO_64
    requires c1 == h00 + l01 + l10 && c1 == k1 * HALF + r1
    requires c2 == k1 + h01 + h10 + l11 && c2 == k2 * HALF + r2
    ensures k2 + h11 < HALF
    ensures ((k2 + h11) * HALF + r2) * TWO_64 + (r1 * HALF + l00)
            == (h00 * HALF + l00) + HALF * ((h01 * HALF + l01) + (h10 * HALF + l10)) + TWO_64 * (h11 * HALF + l11)
  {
    assert HALF * HALF == TWO_64;
  }

  lemma SplitWord(v: u64)
    ensures v == v / HALF * HALF + v % HALF
    ensures 0 <= v % HALF < HALF && 0 <= v / HALF < HALF
  {}

  lemma CombineHalvesExact(r00: u64, r01: u64, r10: u64, r11: u64)
    requires r00 + HALF * (r01 + r10) + TWO_64 * r11 < TWO_64 * TWO_64
    ensures var w := CombineHalves(r00, r01, r10, r11);
            w.high * TWO_64 + w.low == r00 + HALF * (r01 + r10) + TWO_64 * r11
  {
    SplitWord(r00);
    SplitWord(r01);
    SplitWord(r10);
    SplitWord(r11);
    var c1 := r00 / HALF + r01 % HALF + r10 % HALF;
    SmallWord(c1);
    SplitWord(c1);
    var c2 := c1 / HALF + r01 / HALF + r10 / HALF + r11 % HALF;
    SmallWord(c2);
    SplitWord(c2);
    CarryChain(r00 % HALF, r00 / HALF, r01 % HALF, r01 / HALF, r10 % HALF, r10 / HALF, r11 % HALF, r11 / HALF,
               c1, c1 % HALF, c1 / HALF, c2, c2 % HALF, c2 / HALF);
    SmallHalf(c2 / HALF + r11 / HALF);
    assert CombineHalves(r00, r01, r10, r11)
        == Wide((c2 / HALF + r11 / HALF) * HALF + c2 % HALF, c1 % HALF * HALF + r00 % HALF);
    hide CombineHalves;
  }


  lemma SmallHalf(v: nat)
    requires v < HALF
    ensures v % HALF == v
  {}

  /** mul_u is the full product. */
  lemma MulUExact(a: u64, b: u64)
    ensures MulU(a, b).high * TWO_64 + MulU(a, b).low == a * b
  {
    var a0, a1, b0, b1 := a % HALF, a / HALF, b % HALF, b / HALF;
    HalfProduct(a0, b0);
    HalfProduct(a0, b1);
    HalfProduct(a1, b0);
    HalfProduct(a1, b1);
    CombineHalvesExact(a0 * b0, a0 * b1, a1 * b0, a1 * b1);
    assert a == a1 * HALF + a0 && b == b1 * HALF + b0;
    hide *;
    SplitProduct(a0, a1, b0, b1);
  }

  lemma SplitProduct(a0: nat, a1: nat, b0: nat, b1: nat)
    ensures (a1 * HALF + a0) * (b1 * HALF + b0)
            == a0 * b0 + HALF * (a0 * b1 + a1 * b0) + TWO_64 * (a1 * b1)
  {
    Distribute(a1 * HALF, a0, b1 * HALF + b0);
    Distribute(b1 * HALF, b0, a0);
    Distribute(b1 * HALF, b0, a1 * HALF);
    assert (a1 * HALF) * (b1 * HALF) == TWO_64 * (a1 * b1);
    assert (a1 * HALF) * b0 == HALF * (a1 * b0);
    assert a0 * (b1 * HALF) == HALF * (a0 * b1);
  }

  /** The high word with the low word collected in bit 0. */
  function StickyHigh(w: Wide): u64
    requires SetBit0(w.high) < TWO_63
  {
    if w.low != 0 then SetBit0(w.high) else w.high
  }

  /** The rounded product of two unpacked magnitudes. */
  function MulUnpacked(sign: bool, x: Unpacked, y: Unpacked, rm: RoundingMode, clz0: nat): u64
    requires TWO_52 <= x.mant < TWO_53 && TWO_52 <= y.mant < TWO_53 && 1 <= clz0 <= 64
  {
    ProductHigh(x.mant, y.mant, x.mant * y.mant);
    NormalizeSf(sign, x.exp + y.exp - 1024 + 2, StickyHigh(MulU(x.mant * 0x400, y.mant * 0x800)), rm, clz0)
  }

  lemma ProductHigh(m: u64, n: u64, p: nat)
    requires TWO_52 <= m < TWO_53 && TWO_52 <= n < TWO_53 && p == m * n
    ensures var w := MulU(m * 0x400, n * 0x800);
            && SetBit0(w.high) < TWO_63
            && w.high * TWO_64 + w.low == p * 0x20_0000
            && p * 0x20_0000 >= Pow2(54) * TWO_64
  {
    var x, y := m * 0x400, n * 0x800;
    MulUExact(x, y);
    var w := MulU(x, y);
    Pow2Constants();
    assert Pow2(54) == 2 * TWO_53;
    FloatConstants();
    hide *;
    assert x * y == p * 0x20_0000 by { ScaledProduct(m, n); }
    assert TWO_52 * TWO_52 <= p < TWO_53 * TWO_53 by {
      MulMonotone(TWO_52, m, n);
      MulMonotone(TWO_52, n, TWO_52);
      MulStrict(m, TWO_53, n);
      MulMonotone(n, TWO_53, TWO_53);
    }
    HighBound(w.high, w.low, p);
  }

  lemma ScaledProduct(m: nat, n: nat)
    ensures (m * 0x400) * (n * 0x800) == m * n * 0x20_0000
  {}

  lemma HighBound(h: nat, l: nat, p: nat)
    requires h * TWO_64 + l == p * 0x20_0000 && l < TWO_64 && p < TWO_53 * TWO_53
    ensures SetBit0(h) < TWO_63
  {}

  function MulSf(a: u64, b: u64, rm: RoundingMode, clz0: nat): u64
    requires 1 <= clz0 <= 64
  {
    var sign := Sign(a) != Sign(b);
    if ExpField(a) == EXP_MASK || ExpField(b) == EXP_MASK then
      if IsNaN(a) || IsNaN(b) then QNAN
      else if (ExpField(a) == EXP_MASK && ExpField(b) == 0 && MantField(b) == 0)
           || (ExpField(b) == EXP_MASK && ExpField(a) == 0 && MantField(a) == 0) then QNAN
      else PackSf(sign, EXP_MASK, 0)
    else if ExpField(a) == 0 && MantField(a) == 0 then PackSf(sign, 0, 0)
    else if ExpField(b) == 0 && MantField(b) == 0 then PackSf(sign, 0, 0)
    else
      Fields(a);
      Fields(b);
      MulUnpacked(sign, UnpackNormal(a), UnpackNormal(b), rm, clz0)
  }

  lemma MulUnpackedRounds(sign: bool, x: Unpacked, y: Unpacked, rm: RoundingMode, clz0: nat, p: nat)
    requires TWO_52 <= x.mant < TWO_53 && TWO_52 <= y.mant < TWO_53 && 1 <= clz0 <= 64
    requires p == x.mant * y.mant
    ensures MulUnpacked(sign, x, y, rm, clz0) == RoundToDouble(sign, p * 0x20_0000, TWO_64, x.exp + y.exp - 1033, rm)
  {
    hide MulU, SetBit0, NormalizeSf, RoundToDouble, StickyHigh, Pow2;
    ProductHigh(x.mant, y.mant, p);
    StickyProduct(sign, p * 0x20_0000, MulU(x.mant * 0x400, y.mant * 0x800), x.exp + y.exp - 1022, rm, clz0);
  }

  lemma StickyProduct(sign: bool, n: nat, w: Wide, e: int, rm: RoundingMode, clz0: nat)
    requires n == w.high * TWO_64 + w.low && n >= Pow2(54) * TWO_64
    requires SetBit0(w.high) < TWO_63 && 1 <= clz0 <= 64
    ensures NormalizeSf(sign, e, StickyHigh(w), rm, clz0) == RoundToDouble(sign, n, TWO_64, e - 11, rm)
  {
    SetBit0Bound(w.high);
    NormalizeCorrect(sign, e, StickyHigh(w), rm, clz0);
    StickyChar(n, TWO_64, w.high, w.low);
    FloatConstants();
    hide NormalizeSf, RoundScaled, SetBit0, Sticky, Pow2;
    RoundScaledStickyLong(n, TWO_64, e - 11, DirectionOf(rm, sign));
  }

  lemma MulUnpackedCorrect(sign: bool, x: Unpacked, y: Unpacked, u: nat, v: nat, rm: RoundingMode, clz0: nat)
    requires TWO_52 <= x.mant < TWO_53 && TWO_52 <= y.mant < TWO_53 && 1 <= clz0 <= 64
    requires Represents(x, u) && Represents(y, v)
    ensures MulUnpacked(sign, x, y, rm, clz0) == Ieee754.MagnitudeProduct(sign, u, v, rm)
  {
    hide MulUnpacked, Represents, RoundToDouble, Ieee754.MagnitudeProduct;
    var p: nat := x.mant * y.mant;
    MulUnpackedRounds(sign, x, y, rm, clz0, p);
    ProductScale(x, y, u, v, p, DirectionOf(rm, sign));
    ProductRescaled(sign, u, v, p, x.exp + y.exp - 1022, rm);
  }

  lemma ProductRescaled(sign: bool, u: nat, v: nat, p: nat, e: int, rm: RoundingMode)
    requires RoundScaled(u * v, 1, 0 - 1074, DirectionOf(rm, sign)) == RoundScaled(p, 1, e - 54, DirectionOf(rm, sign))
    ensures RoundToDouble(sign, p * 0x20_0000, TWO_64, e - 11, rm) == Ieee754.MagnitudeProduct(sign, u, v, rm)
  {
    ProductRescale(p, e, DirectionOf(rm, sign));
    hide RoundScaled;
  }

  lemma ProductScale(x: Unpacked, y: Unpacked, u: nat, v: nat, p: nat, dir: Direction)
    requires Represents(x, u) && Represents(y, v) && p == x.mant * y.mant
    ensures RoundScaled(u * v, 1, 0 - 1074, dir) == RoundScaled(p, 1, x.exp + y.exp - 1076, dir)
  {
    hide *;
    var m: nat := x.mant;
    ReplaceByMantissa(x, u, v, 1, -1074, dir);
    ReplaceByMantissa(y, v, m, 1, -1074 + x.exp - 1, dir);
    MulCommute(m, v);
    MulCommute(m, y.mant);
  }

  lemma ProductRescale(p: nat, e: int, dir: Direction)
    ensures RoundScaled(p * 0x20_0000, TWO_64, e - 11, dir) == RoundScaled(p, 1, e - 54, dir)
  {
    Pow2Constants();
    assert Pow2(21) == 0x20_0000;
    hide RoundScaled, Pow2;
    RoundScaledDen(p * 0x20_0000, 1, 64, e - 11, dir);
    assert e - 11 - 64 == e - 54 - 21;
    RoundScaledShift(p, 1, 21, e - 54, dir);
  }

  /** mul_sf is the correctly rounded product, special values included. */
  lemma MulCorrect(a: u64, b: u64, rm: RoundingMode, clz0: nat)
    requires 1 <= clz0 <= 64
    ensures MulSf(a, b, rm, clz0) == Ieee754.Product(a, b, rm)
  {
    Fields(a);
    Fields(b);
    var sign := Sign(a) != Sign(b);
    if IsFinite(a) && IsFinite(b) {
      var u, v := Units(a), Units(b);
      if Index(a) == 0 || Index(b) == 0 {
        assert u == 0 || v == 0;
        assert u * v == 0;
        RoundScaledZero(1, -1074, DirectionOf(rm, sign));
        hide Grid, RoundScaled, MulUnpacked;
      } else {
        UnpackValue(a);
        UnpackValue(b);
        hide Grid, RoundScaled, MulUnpacked, UnpackNormal, Represents;
        MulUnpackedCorrect(sign, UnpackNormal(a), UnpackNormal(b), u, v, rm, clz0);
      }
    }
  }
}

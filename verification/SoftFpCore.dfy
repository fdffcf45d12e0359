/** The shared back end of the software floating point: sticky right shift,
    normalisation, rounding and packing (softfp_template.h, F_SIZE 64). */
module SoftFpCore {
  import opened Powers
  import opened Rounding
  import opened Float64

  const EXP_MASK: nat := 2047
  const MANT_MASK: nat := 0xF_FFFF_FFFF_FFFF
  /** Bits dropped by the final rounding. */
  const RND_SIZE: nat := 10
  const RND_UNIT: nat := 1024

  /** Number of leading zero bits. The source leaves it undefined at 0; there any
      value `zero` in 1..64 is taken, and no result may depend on it. */
  function Clz(a: u64, zero: nat): nat
  {
    if a == 0 then zero else BitLen64(a); 64 - BitLen(a)
  }

  lemma BitLen64(a: u64)
    ensures BitLen(a) <= 64
  {
    Pow2Constants();
    BitLenAtMost(a, 64);
  }

  function PackSf(sign: bool, exp: nat, mant: u64): u64
    requires exp <= EXP_MASK
  {
    (if sign then TWO_63 else 0) + exp * TWO_52 + mant % TWO_52
  }

  /** a >> d with every lost bit collected in bit 0. */
  function RShiftRnd(a: u64, d: nat): u64 {
    if d == 0 then a
    else if d >= 64 then (if a != 0 then 1 else 0)
    else if ShiftedOut(a, d) != 0 then SetBit0(ShiftRight(a, d)) else ShiftRight(a, d)
  }



  lemma SetBit0Bound(q: nat)
    ensures q <= SetBit0(q) <= q + 1
  {}

  lemma RShiftRndIsSticky(a: u64, d: nat)
    ensures RShiftRnd(a, d) == Sticky(a, Pow2(d))
  {
    if d >= 64 {
      Pow2Constants();
      Pow2Monotone(64, d);
      StickyChar(a, Pow2(d), 0, a);
    } else {
      StickyChar(a, Pow2(d), ShiftRight(a, d), ShiftedOut(a, d));
    }
  }

  function Addend(sign: bool, rm: RoundingMode): nat {
    match rm
    case RNE => RND_UNIT / 2
    case RMM => RND_UNIT / 2
    case RTZ => 0
    case RDN => if sign then RND_UNIT - 1 else 0
    case RUP => if sign then 0 else RND_UNIT - 1
  }

  /** The addend and the clearing of bit 0 at a tie. */
  function RoundOff(mant: u64, sign: bool, rm: RoundingMode): u64
  {
    var sum := (mant + Addend(sign, rm)) % TWO_64 / RND_UNIT;
    if rm == RNE && mant % RND_UNIT == RND_UNIT / 2 then sum - sum % 2 else sum
  }

  /** The second half of rounding: m is the rounded mantissa, exp >= 1. */
  function PackRounded(sign: bool, exp: nat, m: u64, rm: RoundingMode): u64 {
    var exp2 := exp + m / TWO_53;
    if m <= MANT_MASK then
      PackSf(sign, 0, m)
    else if exp2 >= EXP_MASK then
      if Addend(sign, rm) == 0 then PackSf(sign, EXP_MASK - 1, MANT_MASK) else PackSf(sign, EXP_MASK, 0)
    else
      PackSf(sign, exp2, m)
  }

  /** mant has its top bit at position 62 (or is zero). */
  function RoundPackSf(sign: bool, exp: int, mant: u64, rm: RoundingMode): u64 {
    var mant1 := if exp <= 0 then RShiftRnd(mant, 1 - exp) else mant;
    PackRounded(sign, if exp <= 0 then 1 else exp, RoundOff(mant1, sign, rm), rm)
  }

  lemma PackRoundedIsEncode(sign: bool, exp: nat, m: u64, rm: RoundingMode)
    requires exp >= 1 && m <= TWO_53 && (m < TWO_52 ==> exp == 1 || m == 0)
    ensures PackRounded(sign, exp, m, rm)
            == Encode(sign, if m == 0 then 0 else m + (exp - 1) * TWO_52, DirectionOf(rm, sign))
  {}

  lemma RoundOffIsRoundDiv(mant: u64, sign: bool, rm: RoundingMode)
    requires mant < TWO_63
    ensures RoundOff(mant, sign, rm) == RoundDiv(mant, RND_UNIT, DirectionOf(rm, sign))
  {
    var q, r := mant / RND_UNIT, mant % RND_UNIT;
    assert mant == q * RND_UNIT + r;
    RoundDivChar(mant, RND_UNIT, DirectionOf(rm, sign), q, r);
    RoundOffChar(mant, sign, rm, q, r);
  }

  lemma RoundOffChar(mant: u64, sign: bool, rm: RoundingMode, q: nat, r: nat)
    requires mant < TWO_63 && r < RND_UNIT && mant == q * RND_UNIT + r
    ensures RoundOff(mant, sign, rm) == q + if RoundsUp(q, r, RND_UNIT, DirectionOf(rm, sign)) then 1 else 0
  {
    var a := Addend(sign, rm);
    SmallWord(mant + a);
    var sum := q + if r + a >= RND_UNIT then 1 else 0;
    assert (mant + a) / RND_UNIT == sum && mant % RND_UNIT == r by {
      hide *;
      DivideBy1024(q, r, a);
    }
    assert RoundOff(mant, sign, rm) == if rm == RNE && r == RND_UNIT / 2 then sum - sum % 2 else sum;
    hide RoundOff;
  }

  lemma DivideBy1024(q: nat, r: nat, a: nat)
    requires r < RND_UNIT && a < RND_UNIT
    ensures (q * RND_UNIT + r) % RND_UNIT == r
    ensures (q * RND_UNIT + r + a) / RND_UNIT == q + if r + a >= RND_UNIT then 1 else 0
  {}

  predicate Normal62(mant: nat) {
    0x4000_0000_0000_0000 <= mant < TWO_63
  }

  lemma RoundPackIndex(sign: bool, exp: int, mant: u64, rm: RoundingMode)
    requires Normal62(mant)
    ensures var m := RoundOff(if exp <= 0 then RShiftRnd(mant, 1 - exp) else mant, sign, rm);
            && RoundScaled(mant, 1, exp - 11, DirectionOf(rm, sign)) == m + Max(0, exp - 1) * TWO_52
            && m <= TWO_53 && (exp >= 1 ==> m >= TWO_52)
  {
    Pow2Constants();
    assert Pow2(62) * 1 <= mant < Pow2(63) * 1;
    var dir := DirectionOf(rm, sign);
    RoundScaledAt(mant, 1, 63, exp - 11, dir);
    if exp >= 1 {
      RoundOffIsRoundDiv(mant, sign, rm);
      ShiftRoundDown(mant, 1, 10, dir);
      RoundDivBetween(mant, RND_UNIT, dir, TWO_52, TWO_53);
    } else {
      RoundSubnormal(mant, 1 - exp, dir);
      RoundOffIsRoundDiv(RShiftRnd(mant, 1 - exp), sign, rm);
    }
  }

  lemma RoundSubnormal(mant: u64, d: nat, dir: Direction)
    requires mant < TWO_63 && d >= 1
    ensures RShiftRnd(mant, d) < TWO_63
    ensures RoundDiv(RShiftRnd(mant, d), RND_UNIT, dir) == ShiftRound(mant, 1, 10 + d, dir)
    ensures RoundDiv(RShiftRnd(mant, d), RND_UNIT, dir) <= TWO_53
  {
    RShiftRndIsSticky(mant, d);
    StickyHalves(mant, d);
    Pow2Constants();
    Pow2Add(10, d);
    hide Pow2, Sticky, RShiftRnd, RoundDiv;
    StickyRound(mant, Pow2(d), RND_UNIT, dir);
    ShiftRoundDown(mant, 1, 10 + d, dir);
    RoundDivBetween(RShiftRnd(mant, d), RND_UNIT, dir, 0, TWO_53);
  }

  lemma StickyHalves(mant: u64, d: nat)
    requires d >= 1
    ensures Sticky(mant, Pow2(d)) <= mant
  {
    var p := Pow2(d);
    assert p == 2 * Pow2(d - 1) >= 2;
    hide *;
    var q, r := Divide(mant, p);
    StickyChar(mant, p, q, r);
    MulMonotone(2, p, q);
    SetBit0Bound(q);
    if q == 0 { assert q * p == 0; SetBit0Zero(); }
  }

  lemma SetBit0Zero()
    ensures SetBit0(0) == 1
  {}

  /** Rounding and packing is correct rounding of mant * 2^(exp - 11) units,
      through subnormals and overflow, in all five modes. */
  lemma RoundPackCorrect(sign: bool, exp: int, mant: u64, rm: RoundingMode)
    requires mant == 0 || Normal62(mant)
    ensures RoundPackSf(sign, exp, mant, rm) == RoundToDouble(sign, mant, 1, exp - 11, rm)
  {
    var m := RoundOff(if exp <= 0 then RShiftRnd(mant, 1 - exp) else mant, sign, rm);
    if mant == 0 {
      RoundScaledZero(1, exp - 11, DirectionOf(rm, sign));
      assert RShiftRnd(0, Max(0, 1 - exp)) == 0;
    } else {
      RoundPackIndex(sign, exp, mant, rm);
    }
    hide RoundOff, RShiftRnd, RoundScaled, PackRounded;
    PackRoundedIsEncode(sign, Max(1, exp), m, rm);
  }

  /** mant has at most 63 bits. clz0 is what Clz gives at 0. */
  function NormalizeSf(sign: bool, exp: int, mant: u64, rm: RoundingMode, clz0: nat): u64
    requires mant < TWO_63 && 1 <= clz0 <= 64
  {
    LeadingZero(mant);
    var shift := Clz(mant, clz0) - 1;
    RoundPackSf(sign, exp - shift, mant * Pow2(shift) % TWO_64, rm)
  }

  lemma LeadingZero(mant: u64)
    requires mant < TWO_63
    ensures BitLen(mant) <= 63
  {
    Pow2Constants();
    BitLenAtMost(mant, 63);
  }

  lemma NormalizeShift(mant: u64)
    requires 0 < mant < TWO_63
    ensures BitLen(mant) <= 63 && Normal62(mant * Pow2(63 - BitLen(mant)))
  {
    LeadingZero(mant);
    Pow2Constants();
    assert Pow2(62) == 0x4000_0000_0000_0000;
    hide Pow2, BitLen;
    ShiftedRange(mant, BitLen(mant), 63 - BitLen(mant));
  }

  /** Normalising, rounding and packing is correct rounding for any mantissa; in
      particular a zero does not depend on the undefined Clz(0). */
  lemma NormalizeCorrect(sign: bool, exp: int, mant: u64, rm: RoundingMode, clz0: nat)
    requires mant < TWO_63 && 1 <= clz0 <= 64
    ensures NormalizeSf(sign, exp, mant, rm, clz0) == RoundToDouble(sign, mant, 1, exp - 11, rm)
  {
    var shift := NormalizingShift(mant, clz0);
    hide *;
    if mant == 0 {
      NormalizeIs(sign, exp, mant, rm, clz0, shift, 0);
      NormalizeZero(sign, exp - shift, exp, rm);
    } else {
      NormalizeIs(sign, exp, mant, rm, clz0, shift, mant * Pow2(shift));
      NormalizeNonZero(sign, exp, mant, rm, shift);
    }
  }

  lemma NormalizingShift(mant: u64, clz0: nat) returns (shift: nat)
    requires mant < TWO_63 && 1 <= clz0 <= 64
    ensures shift == Clz(mant, clz0) - 1 && (mant == 0 ==> 0 == mant * Pow2(shift))
    ensures mant != 0 ==> Normal62(mant * Pow2(shift)) && mant * Pow2(shift) < TWO_64
    ensures 0 <= mant && 0 < TWO_64
  {
    hide Pow2, BitLen;
    LeadingZero(mant);
    shift := Clz(mant, clz0) - 1;
    if mant != 0 {
      NormalizeShift(mant);
    }
  }

  lemma NormalizeIs(sign: bool, exp: int, mant: u64, rm: RoundingMode, clz0: nat, shift: nat, shifted: nat)
    requires mant < TWO_63 && 1 <= clz0 <= 64 && shift == Clz(mant, clz0) - 1
    requires shifted == mant * Pow2(shift) && shifted < TWO_64
    ensures NormalizeSf(sign, exp, mant, rm, clz0) == RoundPackSf(sign, exp - shift, shifted, rm)
  {
    hide Pow2, BitLen, RoundPackSf;
    SmallWord(shifted);
  }

  lemma NormalizeZero(sign: bool, exp: int, exp': int, rm: RoundingMode)
    ensures RoundPackSf(sign, exp, 0, rm) == RoundToDouble(sign, 0, 1, exp' - 11, rm)
  {
    RoundPackCorrect(sign, exp, 0, rm);
    RoundScaledZero(1, exp - 11, DirectionOf(rm, sign));
    RoundScaledZero(1, exp' - 11, DirectionOf(rm, sign));
    hide RoundPackSf, RoundScaled;
  }

  lemma NormalizeNonZero(sign: bool, exp: int, mant: u64, rm: RoundingMode, shift: nat)
    requires Normal62(mant * Pow2(shift))
    ensures RoundPackSf(sign, exp - shift, mant * Pow2(shift), rm) == RoundToDouble(sign, mant, 1, exp - 11, rm)
  {
    RoundPackCorrect(sign, exp - shift, mant * Pow2(shift), rm);
    hide RoundPackSf, RoundScaled, Pow2;
    assert exp - shift - 11 == exp - 11 - shift;
    RoundScaledShift(mant, 1, shift, exp - 11, DirectionOf(rm, sign));
  }

  /** A finite non-zero magnitude mant * 2^(exp - 1) units with a 53-bit mantissa. */
  datatype Unpacked = Unpacked(exp: int, mant: u64)

  /** Exponent and mantissa of a finite non-zero double, subnormals normalised. */
  function UnpackNormal(a: u64): (r: Unpacked)
    requires IsFinite(a) && Index(a) != 0
    ensures TWO_52 <= r.mant < TWO_53
    ensures -51 <= r.exp <= 2046
  {
    if ExpField(a) == 0 then NormalizeSubnormalSf(MantField(a)) else Unpacked(ExpField(a), MantField(a) + TWO_52)
  }

  function NormalizeSubnormalSf(mant: u64): (r: Unpacked)
    requires 0 < mant < TWO_52
    ensures TWO_52 <= r.mant < TWO_53
    ensures -51 <= r.exp <= 0 && r.mant == mant * Pow2(1 - r.exp)
  {
    SubnormalShift(mant);
    var shift := 52 - (63 - Clz(mant, 64));
    var shifted: nat := mant * Pow2(shift);
    hide *;
    SmallWord(shifted);
    Unpacked(1 - shift, shifted % TWO_64)
  }

  lemma SmallWord(v: nat)
    requires v < TWO_64
    ensures v % TWO_64 == v
  {}

  /** The unpacked x is a magnitude of u units. */
  ghost predicate Represents(x: Unpacked, u: nat) {
    if x.exp >= 1 then u == x.mant * Pow2(x.exp - 1) else x.mant == u * Pow2(1 - x.exp)
  }

  lemma UnpackValue(a: u64)
    requires IsFinite(a) && Index(a) != 0
    ensures Represents(UnpackNormal(a), Units(a))
  {
    Fields(a);
    GridFields(ExpField(a), MantField(a));
  }

  /** In a scaled numerator the units u may be replaced by the mantissa. */
  lemma ReplaceByMantissa(x: Unpacked, u: nat, c: nat, d: nat, t: int, dir: Direction)
    requires d > 0 && Represents(x, u)
    ensures RoundScaled(u * c, d, t, dir) == RoundScaled(x.mant * c, d, t + x.exp - 1, dir)
  {
    var e, m := x.exp, x.mant;
    assert if e >= 1 then u == m * Pow2(e - 1) else m == u * Pow2(1 - e);
    hide *;
    if e >= 1 {
      MulSwap(m, Pow2(e - 1), c);
      assert t + e - 1 - (e - 1) == t;
      RoundScaledShift(m * c, d, e - 1, t + e - 1, dir);
    } else {
      MulSwap(u, Pow2(1 - e), c);
      RoundScaledShift(u * c, d, 1 - e, t, dir);
      assert t - (1 - e) == t + e - 1;
    }
  }

  /** So may the units in a denominator. */
  lemma ReplaceDivisor(x: Unpacked, u: nat, n: nat, t: int, dir: Direction)
    requires u > 0 && x.mant > 0 && Represents(x, u)
    ensures RoundScaled(n, u, t, dir) == RoundScaled(n, x.mant, t - (x.exp - 1), dir)
  {
    var e, m := x.exp, x.mant;
    assert if e >= 1 then u == m * Pow2(e - 1) else m == u * Pow2(1 - e);
    hide *;
    if e >= 1 {
      RoundScaledDen(n, m, e - 1, t, dir);
    } else {
      RoundScaledDen(n, u, 1 - e, t + (1 - e), dir);
    }
  }

  /** The same representation with one positive power on each side. */
  lemma MantissaPower(x: Unpacked, u: nat)
    requires Represents(x, u) && -51 <= x.exp
    ensures x.mant * Pow2(x.exp + 1073) == u * Pow2(1074)
  {
    if x.exp >= 1 {
      Pow2Add(x.exp - 1, 1074);
      MulAssoc(x.mant, Pow2(x.exp - 1), Pow2(1074));
    } else {
      Pow2Add(1 - x.exp, x.exp + 1073);
      MulAssoc(u, Pow2(1 - x.exp), Pow2(x.exp + 1073));
    }
  }
}

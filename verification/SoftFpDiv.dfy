/** Division (softfp_template.h, divrem_u and div_sf). */
module SoftFpDiv {
  import opened Powers
  import opened Rounding
  import opened Float64
  import opened SoftFpCore
  import Ieee754

  /** One step of the shift-subtract division: the next dividend bit t enters
      the remainder, which may need 65 bits, and one quotient bit leaves. */
  lemma DivStep(total: nat, b: nat, q: nat, r: nat, rest: nat, t: nat, rest': nat, half: nat)
    requires r < b && t <= 1 && half > 0
    requires rest == t * half + rest' && rest' < half
    requires total == (q * b + r) * (2 * half) + rest
    ensures var full := 2 * r + t;
            && full < 2 * b
            && (full < b ==> total == ((2 * q) * b + full) * half + rest')
            && (full >= b ==> total == ((2 * q + 1) * b + (full - b)) * half + rest')
  {
    var full := 2 * r + t;
    var qb := q * b;
    assert (qb + r) * (2 * half) == (2 * qb + 2 * r) * half;
    Distribute(2 * qb + 2 * r, t, half);
    assert (2 * q) * b == 2 * qb && (2 * q + 1) * b == 2 * qb + b;
  }

  lemma QuotientWordCore(a0: u64, rest: nat, q: nat, h: nat, p: nat, t: nat, rest': nat)
    requires h * p == TWO_63 && p > 0
    requires a0 == rest * p + q && q < p && rest == t * h + rest' && rest' < h
    ensures a0 / TWO_63 == t && a0 % TWO_63 == rest' * p + q
    ensures a0 % TWO_63 * 2 == rest' * (2 * p) + 2 * q
  {
    hide *;
    Distribute(t * h, rest', p);
    MulAssoc(t, h, p);
    WordBelow(rest', h, p, q);
    DivUnique(a0, TWO_63, t, rest' * p + q);
  }

  /** The quotient word: remaining dividend bits above, quotient bits below. */
  lemma QuotientWord(a0: u64, rest: nat, q: nat, i: nat)
    requires i < 64 && a0 == rest * Pow2(i) + q && q < Pow2(i) && rest < Pow2(64 - i)
    ensures var t, rest' := a0 / TWO_63, rest - a0 / TWO_63 * Pow2(63 - i);
            && t <= 1 && 0 <= rest' < Pow2(63 - i)
            && 2 * q + 1 < Pow2(i + 1)
            && a0 % TWO_63 * 2 == rest' * Pow2(i + 1) + 2 * q
  {
    Pow2Constants();
    Pow2Add(63 - i, i);
    assert Pow2(64 - i) == 2 * Pow2(63 - i) && Pow2(i + 1) == 2 * Pow2(i);
    var h, p := Pow2(63 - i), Pow2(i);
    var t := if rest < h then 0 else 1;
    var rest' := rest - t * h;
    QuotientWordCore(a0, rest, q, h, p, t, rest');
    hide *;
  }

  lemma WordBelow(rest: nat, h: nat, p: nat, q: nat)
    requires rest < h && q < p
    ensures rest * p + q < h * p
  {
    MulMonotone(rest + 1, h, p);
    Distribute(rest, 1, p);
  }

  /** The 65-bit comparison of the source, in one word and a carry. */
  lemma DivWordStep(a1: u64, a0: u64, b: u64)
    requires a1 < b
    ensures var full := 2 * a1 + a0 / TWO_63;
            var word := a1 * 2 % TWO_64 + a0 / TWO_63;
            && word < TWO_64
            && ((a1 / TWO_63 != 0 || word >= b) <==> full >= b)
            && (full >= b ==> (word - b) % TWO_64 == full - b)
            && (full < b ==> word == full)
            && a0 * 2 % TWO_64 == a0 % TWO_63 * 2
  {}

  /** After i steps: quot is the quotient of the bits consumed, a1 its remainder,
      and a0 holds the remaining bits above quot. */
  ghost predicate DivState(total: nat, b: nat, a1: nat, a0: nat, quot: nat, rest: nat, i: nat) {
    && i <= 64 && a1 < b
    && a0 == rest * Pow2(i) + quot && quot < Pow2(i) && rest < Pow2(64 - i)
    && total == (quot * b + a1) * Pow2(64 - i) + rest
  }

  lemma DivIteration(total: nat, b: u64, a1: u64, a0: u64, quot: nat, rest: nat, i: nat) returns (rest': nat)
    requires i < 64 && DivState(total, b, a1, a0, quot, rest, i)
    ensures var word := a1 * 2 % TWO_64 + a0 / TWO_63;
            && word < TWO_64
            && if a1 / TWO_63 != 0 || word >= b then
                 DivState(total, b, (word - b) % TWO_64, a0 * 2 % TWO_64 + 1, 2 * quot + 1, rest', i + 1)
               else
                 DivState(total, b, word, a0 * 2 % TWO_64, 2 * quot, rest', i + 1)
  {
    QuotientWord(a0, rest, quot, i);
    var t, half := a0 / TWO_63, Pow2(63 - i);
    rest' := rest - t * half;
    assert Pow2(64 - i) == 2 * half;
    hide Pow2;
    DivStep(total, b, quot, a1, rest, t, rest', half);
    DivWordStep(a1, a0, b);
  }

  lemma DivInit(b: nat, high: nat, low: u64)
    requires high < b
    ensures DivState(high * TWO_64 + low, b, high, low, 0, low, 0)
  {
    Pow2Constants();
    assert Pow2(0) == 1;
    hide Pow2;
  }

  lemma DivDone(total: nat, b: nat, a1: nat, a0: nat, quot: nat, rest: nat)
    requires DivState(total, b, a1, a0, quot, rest, 64)
    ensures total == a0 * b + a1 && a1 < b
  {
    assert Pow2(0) == 1;
    hide Pow2;
  }

  lemma DoubledWord(a0: u64)
    ensures 0 <= a0 * 2 % TWO_64 && a0 * 2 % TWO_64 + 1 < TWO_64
  {
    assert a0 * 2 % TWO_64 == a0 % TWO_63 * 2;
  }

  /** The 128 by 64 bit division loop. */
  method DivremU(high: u64, low: u64, b: u64) returns (q: u64, r: u64)
    requires high < b
    ensures high * TWO_64 + low == q * b + r && r < b
  {
    hide DivState, Pow2;
    var a1: u64, a0: u64 := high, low;
    var i := 0;
    ghost var quot: nat, rest: nat := 0, low;
    ghost var total := high * TWO_64 + low;
    DivInit(b, high, low);
    while i < 64
      invariant 0 <= i <= 64
      invariant DivState(total, b, a1, a0, quot, rest, i)
    {
      rest := DivIteration(total, b, a1, a0, quot, rest, i);
      DoubledWord(a0);
      var ab := a1 / TWO_63;
      a1 := a1 * 2 % TWO_64 + a0 / TWO_63;
      var qb := 0;
      if ab != 0 || a1 >= b {
        a1 := (a1 - b) % TWO_64;
        qb := 1;
      }
      a0 := a0 * 2 % TWO_64 + qb;
      quot := 2 * quot + qb;
      i := i + 1;
    }
    DivDone(total, b, a1, a0, quot, rest);
    q, r := a0, a1;
  }

  lemma QuotientRange(m: nat, n: nat, q: nat, r: nat)
    requires TWO_52 <= m < TWO_53 && TWO_52 <= n < TWO_53
    requires m * TWO_64 == q * (n * 4) + r && r < n * 4
    ensures SetBit0(q) < TWO_63
    ensures Pow2(54) * (n * 4) <= m * TWO_64
  {
    Pow2Constants();
    assert Pow2(54) == 2 * TWO_53;
    FloatConstants();
    hide *;
    var top: nat := TWO_63 - 1;
    if q >= top {
      MulMonotone(top, q, n * 4);
      assert false;
    }
    SetBit0Bound(q);
  }

  /** Division of mantissas, its sticky bit and normalisation round the ratio. */
  lemma DivUnpackedRounds(sign: bool, x: Unpacked, y: Unpacked, q: u64, r: u64, rm: RoundingMode, clz0: nat)
    requires TWO_52 <= x.mant < TWO_53 && TWO_52 <= y.mant < TWO_53 && 1 <= clz0 <= 64
    requires x.mant * TWO_64 == q * (y.mant * 4) + r && r < y.mant * 4
    ensures q <= SetBit0(q) < TWO_63
    ensures NormalizeSf(sign, x.exp - y.exp + 1023, if r != 0 then SetBit0(q) else q, rm, clz0)
            == RoundToDouble(sign, x.mant, y.mant, x.exp - y.exp + 1074, rm)
  {
    hide NormalizeSf, RoundScaled, SetBit0, Pow2;
    QuotientRange(x.mant, y.mant, q, r);
    SetBit0Bound(q);
    var e := x.exp - y.exp + 1023;
    var mant: nat := if r != 0 then SetBit0(q) else q;
    NormalizeCorrect(sign, e, mant, rm, clz0);
    RatioRounds(x.mant, y.mant, q, r, mant, e, DirectionOf(rm, sign));
  }

  lemma RatioRounds(m: nat, n: nat, q: nat, r: nat, mant: nat, e: int, dir: Direction)
    requires n > 0 && m * TWO_64 == q * (n * 4) + r && r < n * 4
    requires Pow2(54) * (n * 4) <= m * TWO_64
    requires mant == if r != 0 then SetBit0(q) else q
    ensures RoundScaled(mant, 1, e - 11, dir) == RoundScaled(m, n, e + 51, dir)
  {
    Pow2Constants();
    assert Pow2(2) == 4;
    hide RoundScaled, SetBit0, Pow2, Sticky;
    StickyChar(m * TWO_64, n * 4, q, r);
    RoundScaledStickyLong(m * TWO_64, n * 4, e - 11, dir);
    RoundScaledDen(m * TWO_64, n, 2, e - 11, dir);
    assert e + 51 - 64 == e - 11 - 2;
    RoundScaledShift(m, n, 64, e + 51, dir);
  }

  lemma RatioScale(x: Unpacked, y: Unpacked, u: nat, v: nat, dir: Direction)
    requires Represents(x, u) && Represents(y, v) && v > 0 && y.mant > 0
    ensures RoundScaled(u, v, 1074, dir) == RoundScaled(x.mant, y.mant, x.exp - y.exp + 1074, dir)
  {
    hide RoundScaled, Represents;
    assert u * 1 == u && x.mant * 1 == x.mant;
    ReplaceByMantissa(x, u, 1, v, 1074, dir);
    ReplaceDivisor(y, v, x.mant, 1074 + x.exp - 1, dir);
  }

  lemma NonZeroUnits(a: u64)
    requires IsFinite(a)
    ensures Units(a) == 0 <==> Index(a) == 0
  {
    if Index(a) > 0 { GridMonotone(0, Index(a)); }
  }

  lemma QuotientFinite(a: u64, b: u64, rm: RoundingMode)
    requires IsFinite(a) && IsFinite(b) && Index(a) != 0 && Index(b) != 0
    ensures var x, y := UnpackNormal(a), UnpackNormal(b);
            Ieee754.Quotient(a, b, rm)
            == RoundToDouble(Sign(a) != Sign(b), x.mant, y.mant, x.exp - y.exp + 1074, rm)
  {
    hide Grid, RoundScaled, UnpackNormal, Represents, Sign, Index;
    NonZeroUnits(a);
    NonZeroUnits(b);
    UnpackValue(a);
    UnpackValue(b);
    RatioScale(UnpackNormal(a), UnpackNormal(b), Units(a), Units(b), DirectionOf(rm, Sign(a) != Sign(b)));
  }

  lemma QuotientSpecial(a: u64, b: u64, rm: RoundingMode)
    ensures var sign := Sign(a) != Sign(b);
            var inf, zero := PackSf(sign, EXP_MASK, 0), PackSf(sign, 0, 0);
            Ieee754.Quotient(a, b, rm)
            == if IsNaN(a) || IsNaN(b) then QNAN
               else if !IsFinite(a) then (if IsFinite(b) then inf else QNAN)
               else if !IsFinite(b) then zero
               else if Index(b) == 0 then (if Index(a) == 0 then QNAN else inf)
               else if Index(a) == 0 then zero
               else Ieee754.Quotient(a, b, rm)
  {
    if IsFinite(a) && IsFinite(b) {
      NonZeroUnits(a);
      NonZeroUnits(b);
      if Index(a) == 0 && Index(b) != 0 {
        RoundScaledZero(Units(b), 1074, DirectionOf(rm, Sign(a) != Sign(b)));
      }
    }
    hide Grid, RoundScaled;
  }

  /** div_sf is the correctly rounded quotient, special values included. */
  method DivSf(a: u64, b: u64, rm: RoundingMode, clz0: nat) returns (res: u64)
    requires 1 <= clz0 <= 64
    ensures res == Ieee754.Quotient(a, b, rm)
  {
    assert EXP_MASK == 2047;
    hide *;
    Classify(a);
    Classify(b);
    QuotientSpecial(a, b, rm);
    var sign := Sign(a) != Sign(b);
    if ExpField(a) == EXP_MASK {
      if MantField(a) != 0 || IsNaN(b) {
        return QNAN;
      } else if ExpField(b) == EXP_MASK {
        return QNAN;
      } else {
        return PackSf(sign, EXP_MASK, 0);
      }
    } else if ExpField(b) == EXP_MASK {
      if MantField(b) != 0 {
        return QNAN;
      } else {
        return PackSf(sign, 0, 0);
      }
    }
    if ExpField(b) == 0 && MantField(b) == 0 {
      if ExpField(a) == 0 && MantField(a) == 0 {
        return QNAN;
      } else {
        return PackSf(sign, EXP_MASK, 0);
      }
    }
    if ExpField(a) == 0 && MantField(a) == 0 {
      return PackSf(sign, 0, 0);
    }
    res := DivFinite(a, b, rm, clz0);
  }

  /** div_sf of finite operands other than zero. */
  method DivFinite(a: u64, b: u64, rm: RoundingMode, clz0: nat) returns (res: u64)
    requires 1 <= clz0 <= 64 && IsFinite(a) && IsFinite(b) && Index(a) != 0 && Index(b) != 0
    ensures res == Ieee754.Quotient(a, b, rm)
  {
    hide *;
    FloatConstants();
    var sign := Sign(a) != Sign(b);
    var x, y := UnpackNormal(a), UnpackNormal(b);
    QuotientFinite(a, b, rm);
    var q, r := DivremU(x.mant, 0, y.mant * 4);
    DivUnpackedRounds(sign, x, y, q, r, rm, clz0);
    res := NormalizeSf(sign, x.exp - y.exp + 1024 - 1, if r != 0 then SetBit0(q) else q, rm, clz0);
  }
}

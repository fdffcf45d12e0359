/** The last step of js_atod (dtoa.c:1570-1607): from the digits collected and
    the exponent to the bits of the nearest double. */
module AtodConvert {
  import opened Powers
  import opened Rounding
  import opened Float64
  import opened Limbs
  import opened BigNum
  import opened RadixTables
  import opened RadixLog
  import opened RealPow
  import opened DtoaScale
  import opened DtoaNearest
  import opened DtoaSearch
  import opened DtoaRoom
  import opened AtodLex

  function Clamp(k: nat): nat {
    if k < INFINITY then k else INFINITY
  }

  /** The bits js_atod makes of a full mantissa and its exponent. */
  method PackDouble(m: u64, e: int, ghost k: nat) returns (a: u64)
    requires IsDouble(m, e, k)
    ensures a == Clamp(k)
  {
    hide Pow2;
    FloatConstants();
    a := 0;
    if m == 0 {
      return;
    }
    if e > 1024 {
      a := INFINITY;
    } else if e < 0 - 1073 {
      SubnormalIndex(m, e, k);
      assert false;
    } else if e < 0 - 1021 {
      SubnormalIndex(m, e, k);
      ShiftUnique(m, 0 - e - 1021, k, 0);
      a := ShiftRight(m, 0 - e - 1021);
    } else {
      a := (e + 1022) * TWO_52 + m % TWO_52;
    }
  }

  // ----- overflow and underflow

  /** Rounding to nearest never goes below a grid point that lies below. */
  lemma RoundMagLower(b: nat, c: nat, k: nat)
    requires c > 0 && Grid(k) * c <= b
    ensures RoundMag(b, c, NearestEven) >= k
  {
    hide Grid, RoundMag;
    var r := RoundMag(b, c, NearestEven);
    RoundMagIsLocal(b, c, NearestEven);
    if r < k {
      GridScaled(r + 1, k, c);
      GridScaled(r, r + 1, c);
      assert false;
    }
  }

  lemma RoundMagTiny(b: nat, c: nat)
    requires c > 0 && 2 * b < c
    ensures RoundMag(b, c, NearestEven) == 0
  {
    FloatConstants();
    MulMonotone(1, TWO_53, c);
    hide Grid;
    BelowHalf(b, c, NearestEven);
  }

  lemma GridInfinity()
    ensures Grid(INFINITY) == Pow2(2098)
  {
    FloatConstants();
    hide Grid, Pow2;
    assert INFINITY == 2047 * TWO_52 + 0;
    GridFields(2047, 0);
    Pow2Constants();
    Pow2Add(52, 2046);
  }

  lemma AtLeastInfinity(y: real, b: nat, c: nat)
    requires InUnits(y, b, c) && Two(1024) <= y
    ensures RoundMag(b, c, NearestEven) >= INFINITY
  {
    hide Two, Times, RoundMag, Grid, Pow2;
    GridInfinity();
    TwoAdd(1024, 1074);
    TwoNat(2098);
    TimesOrder(Two(1024), y, Two(1074));
    Compare(Pow2(2098), Times(y, Two(1074)), b, c);
    RoundMagLower(b, c, INFINITY);
  }

  lemma BelowSmallest(y: real, b: nat, c: nat)
    requires InUnits(y, b, c) && y < Two(0 - 1075)
    ensures RoundMag(b, c, NearestEven) == 0
  {
    hide Two, Times, RoundMag;
    TwoAdd(0 - 1075, 1074);
    TwoNext(0 - 1);
    TwoNat(0);
    PowZeroth(2);
    TimesOrder(y, Two(0 - 1075), Two(1074));
    TwiceB(Times(y, Two(1074)), b, c);
    Compare(1, Times(y, Two(1074)) + Times(y, Two(1074)), 2 * b, c);
    RoundMagTiny(b, c);
  }

  /** n has digits digits in the radix, the first not zero. */
  predicate Digits(n: nat, radix: nat, digits: nat) {
    digits >= 1 && Pow(radix, digits - 1) <= n < Pow(radix, digits)
  }

  lemma DigitsScaled(n: nat, radix: nat, digits: nat, f: int)
    requires radix >= 1 && Digits(n, radix, digits)
    ensures RPow(radix, f + digits - 1) <= ScaledValue(n as real, radix, f) < RPow(radix, f + digits)
  {
    hide Pow, RPow, Times;
    var r := RPow(radix, f);
    RPowNat(radix, digits - 1);
    RPowNat(radix, digits);
    RPowAdd(radix, digits - 1, f);
    RPowAdd(radix, digits, f);
    TimesOrder(Pow(radix, digits - 1) as real, n as real, r);
    TimesOrder(n as real, Pow(radix, digits) as real, r);
  }

  /** From max_exponent on everything overflows. */
  lemma TableOverflow(n: nat, radix: nat, digits: nat, f: int)
    requires IsRadix(radix) && Digits(n, radix, digits) && f + digits >= MaxExponent(radix) + 1
    ensures DoubleOf(n, radix, f, NearestEven) >= INFINITY
  {
    hide Digits, MaxExponent, Pow, Pow2, Two, RPow, ScaledValue, DoubleOf, RoundMag, InUnits;
    DigitsScaled(n, radix, digits, f);
    ExponentLimits(radix);
    var hi := MaxExponent(radix);
    RPowNat(radix, hi);
    TwoNat(1024);
    RPowMonotone(radix, hi, f + digits - 1);
    var b, c := DoubleOfIs(n, radix, f, NearestEven);
    AtLeastInfinity(ScaledValue(n as real, radix, f), b, c);
  }

  /** Up to min_exponent everything underflows. */
  lemma TableUnderflow(n: nat, radix: nat, digits: nat, f: int)
    requires IsRadix(radix) && Digits(n, radix, digits) && f + digits <= MinExponent(radix)
    ensures DoubleOf(n, radix, f, NearestEven) == 0
  {
    hide Digits, MinExponent, MaxExponent, Pow, Pow2, Two, RPow, ScaledValue, DoubleOf, RoundMag, InUnits;
    DigitsScaled(n, radix, digits, f);
    ExponentLimits(radix);
    var lo := MinExponent(radix);
    SmallPower(radix, 0 - lo);
    RPowMonotone(radix, f + digits, lo);
    var b, c := DoubleOfIs(n, radix, f, NearestEven);
    BelowSmallest(ScaledValue(n as real, radix, f), b, c);
  }

  /** In between, mul_pow_round_to_d stays within its means. */
  lemma TableModerate(n: nat, radix: nat, digits: nat, f: int)
    requires IsRadix(radix) && Digits(n, radix, digits)
    requires MinExponent(radix) < f + digits <= MaxExponent(radix)
    ensures Moderate(n, radix, f)
  {
    hide Digits, MinExponent, MaxExponent, Pow, Pow2, Two, RPow, ScaledValue;
    DigitsScaled(n, radix, digits, f);
    ExponentSlack(radix);
    var hi, lo := MaxExponent(radix), MinExponent(radix);
    RPowMonotone(radix, f + digits, hi);
    RPowMonotone(radix, lo, f + digits - 1);
    HighEnd(radix, hi);
    LowEnd(radix, 0 - lo);
  }

  lemma HighEnd(radix: nat, hi: nat)
    requires IsRadix(radix) && hi >= 1 && Pow(radix, hi - 1) < Pow2(1024)
    ensures RPow(radix, hi) < Two(1060)
  {
    hide Pow, Pow2, Two, RPow, Times;
    RPowNat(radix, hi - 1);
    TwoNat(1024);
    RPowStep(radix, hi - 1);
    RadixBelow64(radix);
    UpperStep(RPow(radix, hi - 1), radix, RPow(radix, hi), 1024);
    TwoMonotone(1030, 1059);
    TwoNext(1059);
  }

  lemma LowEnd(radix: nat, n: nat)
    requires radix >= 1 && Pow(radix, n) <= Pow2(1085)
    ensures Two(0 - 1085) <= RPow(radix, 0 - n)
  {
    hide *;
    RPowNat(radix, n);
    TwoNat(1085);
    TwoAdd(0 - 1085, 1085);
    TwoNat(0);
    PowZeroth(2);
    TimesOrder(RPow(radix, n), Two(1085), Two(0 - 1085));
    TimesCommute(Two(1085), Two(0 - 1085));
    TimesCommute(RPow(radix, n), Two(0 - 1085));
    TimesOrder(Two(0 - 1085), RPow(radix, 0 - n), RPow(radix, n));
  }

  // ----- radices that are no powers of two

  lemma ShortDigits(n: nat, radix: nat, digits: nat, s: seq<limb>)
    requires IsRadix(radix) && Digits(n, radix, digits) && digits <= AtodMaxDigits(radix)
    requires Normal(s) && Val(s) == n
    ensures |s| <= 4 && n > 0
  {
    hide Pow, Pow2, Val, AtodMaxDigits, Weight;
    AtodDigits(radix);
    PowMonotone(radix, digits, AtodMaxDigits(radix));
    PowPositive(radix, digits - 1);
    WeightIsPow2(4);
    NormalLength(s, 4);
  }

  method ConvertTable(tmp0: Mpb, radix: nat, expn: int, digitCount: nat) returns (a: u64)
    requires tmp0.Valid() && tmp0.Normalized() && tmp0.tab.Length == LEN_MAX && TableRadix(radix)
    requires Digits(tmp0.Value(), radix, digitCount) && digitCount <= AtodMaxDigits(radix)
    modifies tmp0, tmp0.tab
    ensures a == Clamp(DoubleOf(old(tmp0.Value()), radix, expn, NearestEven))
  {
    hide Digits, AtodMaxDigits, MaxExponent, MinExponent, DoubleOf, OddPart, Twos, Pow2, Val, Normal, HasRoom, NotTiny,
      Moderate, IsDouble, PowerOfTwo;
    FloatConstants();
    ghost var n := tmp0.Value();
    var expn1 := expn + digitCount;
    if expn1 >= MaxExponent(radix) + 1 {
      TableOverflow(n, radix, digitCount, expn);
      a := INFINITY;
    } else if expn1 <= MinExponent(radix) {
      TableUnderflow(n, radix, digitCount, expn);
      a := 0;
    } else {
      ShortDigits(n, radix, digitCount, tmp0.tab[..tmp0.len]);
      TableModerate(n, radix, digitCount, expn);
      ConvertRoom(n, tmp0.len, radix, expn, AtodMaxDigits(radix));
      var m, e := MulPowRoundToD(tmp0, OddPart(radix), Twos(radix), expn, RNDN);
      a := PackDouble(m, e, DoubleOf(n, radix, expn, NearestEven));
    }
  }

  // ----- powers of two

  /** A binary exponent is an exponent of radix 2. */
  lemma BinaryDouble(d: nat, u: int, dir: Direction)
    ensures DoubleOf(d, 2, u, dir) == RoundScaled(d, 1, 1074 + u, dir)
  {
    PowOfOne(Pos(u));
    PowOfOne(Pos(0 - u));
    assert 1 * Pow2(1) == 2;
    hide Pow, Pow2, RoundScaled, DoubleOf;
    DoubleOfSplit(d, 1, 1, u, dir);
  }

  lemma BinaryDigits(d: nat, radix: nat, digits: nat)
    requires PowerOfTwo(radix) && Digits(d, radix, digits)
    ensures d > 0 && Digits(d, 2, BitLen(d))
    ensures (digits - 1) * RadixBits(radix) < BitLen(d) <= digits * RadixBits(radix)
  {
    hide Pow, Pow2, BitLen, RadixBits;
    BitsPower(radix, digits - 1);
    BitsPower(radix, digits);
    BitLenAtLeast(d, (digits - 1) * RadixBits(radix));
    BitLenAtMost(d, digits * RadixBits(radix));
    PowTwo(BitLen(d) - 1);
    PowTwo(BitLen(d));
  }

  lemma BinaryLimits()
    ensures MaxExponent(2) == 1024 && MinExponent(2) == 0 - 1075
  {}

  /** The two early exits for powers of two. */
  lemma BinaryExits(d: nat, radix: nat, digits: nat, u: int)
    requires PowerOfTwo(radix) && Digits(d, radix, digits)
    ensures u + digits * RadixBits(radix) >= 1024 + RadixBits(radix) ==> RoundScaled(d, 1, 1074 + u, NearestEven) >= INFINITY
    ensures u + digits * RadixBits(radix) <= 0 - 1075 ==> RoundScaled(d, 1, 1074 + u, NearestEven) == 0
  {
    hide Digits, RadixBits, RoundScaled, DoubleOf, BitLen, MaxExponent, MinExponent;
    BinaryDigits(d, radix, digits);
    BinaryDouble(d, u, NearestEven);
    BinaryLimits();
    Distribute(digits, 1, RadixBits(radix));
    var l := BitLen(d);
    if u + l >= 1025 { TableOverflow(d, 2, l, u); }
    if u + l <= 0 - 1075 { TableUnderflow(d, 2, l, u); }
  }

  /** The digits beyond the maximum, folded into one sticky bit. */
  lemma StickyDigits(d: nat, radix: nat, n: nat, kept: nat)
    requires PowerOfTwo(radix) && Digits(d, radix, n) && 1 <= kept <= n
    ensures Pow(radix, n - kept) > 0 && Digits(Sticky(d, Pow(radix, n - kept)), radix, kept)
  {
    PowPositive(radix, n - kept);
    PowAdd(radix, n - kept, kept - 1);
    PowAdd(radix, n - kept, kept);
    PowEven(radix, kept);
    hide Pow, Sticky;
    var p := Pow(radix, n - kept);
    MulCommute(p, Pow(radix, kept - 1));
    MulCommute(p, Pow(radix, kept));
    StickyAtLeast(d, p, Pow(radix, kept - 1));
    StickyBelow(d, p, Pow(radix, kept));
  }

  lemma PowEven(radix: nat, n: nat)
    requires PowerOfTwo(radix) && n >= 1
    ensures Pow(radix, n) % 2 == 0
  {
    hide RadixBits, Pow, Pow2;
    BitsPower(radix, n);
    RadixBitsCorrect(radix);
    MulMonotone(1, n, RadixBits(radix));
    Pow2Even(n * RadixBits(radix));
  }

  lemma StickyBelow(n: nat, d: nat, p: nat)
    requires d > 0 && n < p * d && p % 2 == 0
    ensures Sticky(n, d) < p
  {
    hide *;
    var q, r := Divide(n, d);
    StickyChar(n, d, q, r);
    MulCancel(q, p, d);
    SetBit0Below(q, p);
  }

  /** The sticky digits round like all of them. */
  lemma StickyDigitsRound(d: nat, radix: nat, n: nat, kept: nat, x: int)
    requires PowerOfTwo(radix) && Digits(d, radix, n) && 1 <= kept <= n
    requires kept < n ==> kept == AtodMaxDigits(radix)
    ensures Pow(radix, n - kept) > 0
    ensures RoundScaled(Sticky(d, Pow(radix, n - kept)), 1, 1074 + x, NearestEven)
            == RoundScaled(d, 1, 1074 + x - (n - kept) * RadixBits(radix), NearestEven)
  {
    hide Pow, Pow2, RoundScaled, Sticky, RadixBits, AtodMaxDigits;
    BitsPower(radix, n - kept);
    PowZeroth(radix);
    if kept < n {
      EnoughKept(d, radix, n, kept);
    }
    StickyShift(d, Pow(radix, n - kept), (n - kept) * RadixBits(radix), 1074 + x);
  }

  lemma StickyShift(d: nat, p: nat, s: nat, t: int)
    requires p == Pow2(s) && (p == 1 || Pow2(54) * p <= d)
    ensures RoundScaled(Sticky(d, p), 1, t, NearestEven) == RoundScaled(d, 1, t - s, NearestEven)
  {
    hide Pow2, RoundScaled, Sticky;
    DivisibleByOne(d, p);
    RoundScaledSticky(d, p, t, NearestEven);
    TimesOneIs(p, 1);
    RoundScaledDen(d, 1, s, t, NearestEven);
  }

  lemma DivisibleByOne(d: nat, p: nat)
    ensures p == 1 ==> d % p == 0
  {}

  lemma EnoughKept(d: nat, radix: nat, n: nat, kept: nat)
    requires PowerOfTwo(radix) && Digits(d, radix, n) && 1 <= kept < n && kept == AtodMaxDigits(radix)
    ensures Pow2(54) * Pow(radix, n - kept) <= d
  {
    hide Pow, Pow2, RadixBits, AtodMaxDigits;
    AtodBits(radix);
    BitsPower(radix, kept - 1);
    Pow2Monotone(54, (kept - 1) * RadixBits(radix));
    PowAdd(radix, kept - 1, n - kept);
    MulMonotone(Pow2(54), Pow(radix, kept - 1), Pow(radix, n - kept));
  }

  lemma BinaryLong(v: nat, radix: nat, kept: nat, x: int)
    requires PowerOfTwo(radix) && Digits(v, radix, kept) && x + kept * RadixBits(radix) > 0 - 1075
    ensures BitLen(v) + x >= 0 - 1084
  {
    hide BitLen, RadixBits, Digits;
    BinaryDigits(v, radix, kept);
    RadixBitsCorrect(radix);
    Distribute(kept, 1, RadixBits(radix));
  }

  method ConvertBinary(tmp0: Mpb, radix: nat, expn: int, digitCount: nat, ghost d: nat, ghost n: nat) returns (a: u64)
    requires tmp0.Valid() && tmp0.Normalized() && tmp0.tab.Length == LEN_MAX && PowerOfTwo(radix)
    requires Digits(d, radix, n) && 1 <= digitCount <= n
    requires digitCount < n ==> digitCount == AtodMaxDigits(radix)
    requires Pow(radix, n - digitCount) > 0 && tmp0.Value() == Sticky(d, Pow(radix, n - digitCount))
    modifies tmp0, tmp0.tab
    ensures a == Clamp(RoundScaled(d, 1, 1074 + expn - (n - digitCount) * RadixBits(radix), NearestEven))
  {
    hide Digits, AtodMaxDigits, RoundScaled, Sticky, Pow, Pow2, Val, Normal, IsDouble, RadixBits, BitLen;
    FloatConstants();
    var bits := RadixBits(radix);
    ghost var u := expn - (n - digitCount) * bits;
    var expn1 := expn + digitCount * bits;
    Distribute(n, digitCount, bits);
    assert u + n * bits == expn1;
    BinaryExits(d, radix, n, u);
    if expn1 >= 1024 + bits {
      a := INFINITY;
    } else if expn1 <= 0 - 1075 {
      a := 0;
    } else {
      StickyDigits(d, radix, n, digitCount);
      StickyDigitsRound(d, radix, n, digitCount, expn);
      BinaryLong(tmp0.Value(), radix, digitCount, expn);
      var m, e := RoundToD(tmp0, 0 - expn, RNDN);
      a := PackDouble(m, e, RoundScaled(d, 1, 1074 + u, NearestEven));
    }
  }

  /** NearestTo is the correctly rounded double of exactly n * radix^f * 2^t. */
  lemma NearestToCorrect(n: nat, radix: nat, f: int, t: int) returns (b: nat, c: nat)
    requires radix >= 1
    ensures c > 0 && CorrectlyRounded(b, c, NearestEven, NearestTo(n, radix, f, t))
    ensures b as real == Times(Times(ScaledValue(n as real, radix, f), Two(1074 + t)), c as real)
  {
    PowPositive(radix, Pos(0 - f));
    var p, q, u := Pow(radix, Pos(f)), Pow(radix, Pos(0 - f)), 1074 + t;
    MulStrict(0, q, Pow2(Pos(0 - u)));
    PowZeroth(2);
    b, c := n * p * Pow2(Pos(u)), q * Pow2(Pos(0 - u));
    assert NearestTo(n, radix, f, t) == RoundMag(b, c, NearestEven);
    hide *;
    RoundMagCorrect(b, c, NearestEven);
    RPowSplit(radix, f);
    TwoSplit(u);
    TimesCast(n, p);
    TimesCast(n * p, Pow2(Pos(u)));
    TimesCast(q, Pow2(Pos(0 - u)));
    ScaledValueIs(n as real, radix, f);
    Together(n as real, RPow(radix, f), Two(u), q as real, Pow2(Pos(0 - u)) as real);
  }

  lemma Together(a: real, b: real, c: real, d: real, e: real)
    ensures Times(Times(Times(a, b), c), Times(d, e)) == Times(Times(a, Times(b, d)), Times(c, e))
  {}
}

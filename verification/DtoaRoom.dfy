/** Why the 52 limbs of DBIGNUM_LEN_MAX (dtoa.c:64) are enough: bounds on every
    big number that printing and parsing build. */
module DtoaRoom {
  import opened Powers
  import opened Float64
  import opened Limbs
  import opened BigNum
  import opened RadixTables
  import opened RadixLog
  import opened RealPow
  import opened DtoaScale
  import opened DtoaNearest
  import opened DtoaSearch

  const LEN_MAX: nat := 52

  /** ctz32. */
  function Twos(n: nat): nat
    requires n > 0
  {
    if n % 2 == 1 then 0 else 1 + Twos(n / 2)
  }

  /** radix1 = radix >> radix_shift. */
  function OddPart(radix: nat): nat
    requires radix > 0
  {
    ShiftRight(radix, Twos(radix))
  }

  lemma {:induction false} TwosDivide(n: nat)
    requires n > 0
    ensures OddPart(n) % 2 == 1 && n == OddPart(n) * Pow2(Twos(n))
  {
    hide ShiftRight;
    if n % 2 == 1 {
      PowZeroth(2);
      ShiftUnique(n, 0, n, 0);
    } else {
      var h := n / 2;
      TwosDivide(h);
      assert Twos(n) == Twos(h) + 1;
      hide Twos, Pow2;
      Pow2Next(Twos(h));
      MulAssoc(OddPart(h), 2, Pow2(Twos(h)));
      MulSwap(OddPart(h), 2, Pow2(Twos(h)));
      ShiftUnique(n, Twos(n), OddPart(h), 0);
    }
  }

  lemma RadixParts(radix: nat)
    requires IsRadix(radix)
    ensures IsOddPart(OddPart(radix)) && radix == OddPart(radix) * Pow2(Twos(radix))
    ensures OddPart(radix) == 1 <==> PowerOfTwo(radix)
    ensures PowerOfTwo(radix) ==> Twos(radix) == RadixBits(radix)
  {
    hide OddPart, Twos, Pow2, RadixBits, PowerOfTwo;
    TwosDivide(radix);
    OddTable(radix);
    var o, p := OddPart(radix), Pow2(Twos(radix));
    MulMonotone(1, p, o);
  }

  lemma TwosBelow(n: nat, k: nat)
    requires 0 < n < Pow2(k)
    ensures Twos(n) < k
  {
    TwosDivide(n);
    hide Pow2, Twos, OddPart;
    MulMonotone(1, OddPart(n), Pow2(Twos(n)));
    if Twos(n) >= k { Pow2Monotone(k, Twos(n)); }
  }

  lemma SmallPowers()
    ensures Pow2(0) == 1 && Pow2(1) == 2 && Pow2(2) == 4 && Pow2(3) == 8 && Pow2(4) == 16 && Pow2(5) == 32 && Pow2(6) == 64
    ensures Twos(2) == 1 && Twos(4) == 2 && Twos(8) == 3 && Twos(16) == 4 && Twos(32) == 5
  {}

  lemma OddTable(radix: nat)
    requires IsRadix(radix)
    ensures OddPart(radix) == 1 <==> PowerOfTwo(radix)
    ensures PowerOfTwo(radix) ==> Twos(radix) == RadixBits(radix)
  {
    BitsTable();
    SmallPowers();
    hide Pow2, Twos, OddPart, RadixBits;
    TwosDivide(radix);
    TwosBelow(radix, 6);
    var o, p := OddPart(radix), Pow2(Twos(radix));
    if PowerOfTwo(radix) {
      MulCancel(o, 1, p);
    }
  }

  lemma DigitsDecrease(a: nat, b: nat)
    requires 2 <= a <= b <= 36
    ensures DigitsPerLimb(a) >= DigitsPerLimb(b) >= 6
  {
    if b <= 16 {
      assert DigitsPerLimb(b) >= 8;
    } else {
      assert DigitsPerLimb(b) <= 7;
    }
  }

  /** ceil(g / d) by multiplication. */
  lemma LimbsForAtMost(radix1: nat, g: nat, top: nat)
    requires IsOddPart(radix1) && radix1 != 1 && g <= LimbDigits(radix1) * top
    ensures LimbsFor(radix1, g) <= top
  {
    hide LimbDigits;
    var d := LimbDigits(radix1);
    var q := (g + d - 1) / d;
    Split(g + d - 1, d);
    if q > top {
      MulMonotone(top + 1, q, d);
      Distribute(top, 1, d);
      MulCommute(top, d);
      assert false;
    }
  }

  lemma LimbsForRadix(radix: nat, g: nat, top: nat)
    requires IsRadix(radix) && !PowerOfTwo(radix) && g <= DigitsPerLimb(radix) * top
    ensures IsOddPart(OddPart(radix)) && OddPart(radix) != 1
    ensures LimbsFor(OddPart(radix), g) <= top
  {
    var d := DigitsPerLimb(radix);
    hide OddPart, PowerOfTwo, DigitsPerLimb, LimbsFor, Twos, Pow2;
    RadixParts(radix);
    var o := OddPart(radix);
    MulMonotone(1, Pow2(Twos(radix)), o);
    MoreDigits(o, radix, d);
    MulMonotone(d, LimbDigits(o), top);
    LimbsForAtMost(o, g, top);
  }

  lemma MoreDigits(o: nat, radix: nat, d: nat)
    requires IsRadix(radix) && IsOddPart(o) && o != 1 && o <= radix && d == DigitsPerLimb(radix)
    ensures LimbDigits(o) >= d
  {
    DigitsDecrease(o, radix);
  }

  /** Dividing by any power of the radix a double can need takes few limbs. */
  lemma LimbTable(radix: nat)
    requires TableRadix(radix)
    ensures MaxExponent(radix) + 2 <= DigitsPerLimb(radix) * 38
    ensures DtoaMaxDigits(radix) - MinExponent(radix) <= DigitsPerLimb(radix) * 44
    ensures AtodMaxDigits(radix) - MinExponent(radix) <= DigitsPerLimb(radix) * 44
  {
    hide DtoaMaxDigits, AtodMaxDigits, MaxExponent, MinExponent, DigitsPerLimb;
    LimbTableMax(radix);
    LimbTableDtoa(radix);
    LimbTableAtod(radix);
  }

  lemma LimbTableMax(radix: nat)
    requires TableRadix(radix)
    ensures MaxExponent(radix) + 2 <= DigitsPerLimb(radix) * 38
  {}

  lemma LimbTableDtoa(radix: nat)
    requires TableRadix(radix)
    ensures DtoaMaxDigits(radix) - MinExponent(radix) <= DigitsPerLimb(radix) * 44
  {}

  lemma LimbTableAtod(radix: nat)
    requires TableRadix(radix)
    ensures AtodMaxDigits(radix) - MinExponent(radix) <= DigitsPerLimb(radix) * 44
  {}

  /** A power of the radix is a power of its odd part and a shift. */
  lemma RPowParts(o: nat, s: nat, f: int)
    requires o >= 1
    ensures o * Pow2(s) >= 1 && RPow(o * Pow2(s), f) == Times(RPow(o, f), Two(f * s))
  {
    hide *;
    MulMonotone(1, o, Pow2(s));
    var n := if f >= 0 then f else 0 - f;
    var r := o * Pow2(s);
    SplitPower(o, s, n);
    RPowNat(r, n);
    RPowNat(o, n);
    TwoNat(n * s);
    TimesCast(Pow(o, n), Pow2(n * s));
    if f < 0 {
      Distribute(0, n, s);
      TwoAdd(0 - n * s, n * s);
      TwoNat(0);
      PowZeroth(2);
      Exchange(RPow(o, f), Two(f * s), RPow(o, n), Two(n * s));
      TimesOne(1.0);
      TimesOrder(RPow(r, f), Times(RPow(o, f), Two(f * s)), RPow(r, n));
    }
  }

  lemma Exchange(a: real, b: real, c: real, d: real)
    ensures Times(Times(a, b), Times(c, d)) == Times(Times(a, c), Times(b, d))
  {}

  /** Multiplying up: the number and its later shift fit 51 limbs. */
  lemma RaisedRoom(m: nat, e: int, radix: nat, o: nat, s: nat, f: nat)
    requires IsOddPart(o) && radix >= 1 && radix == o * Pow2(s)
    requires Times(ScaledValue(ValueOf(m, e), radix, f), Two(Pos(53 - e))) < Two(1632)
    ensures RoundRoom(m, e - 53, o, s, f, LEN_MAX)
  {
    hide *;
    var w, t := m * Pow(o, f), f * s;
    RaisedScaled(m, e, radix, o, s, f, w, t);
    RaisedShift(e, f, s, t);
    NestedBound(w, Pos(e - 53 + t), e - 53 + t, Pos(53 - e), 1632);
    RoundRoomUp(m, e - 53, o, s, f, w, t);
  }

  lemma RaisedShift(e: int, f: nat, s: nat, t: int)
    requires t == f * s
    ensures Pos(e - 53 + t) <= e - 53 + t + Pos(53 - e)
  {
    MulMonotone(0, f, s);
  }

  lemma RaisedScaled(m: nat, e: int, radix: nat, o: nat, s: nat, f: nat, w: nat, t: int)
    requires o >= 1 && radix >= 1 && radix == o * Pow2(s) && w == m * Pow(o, f) && t == f * s
    ensures ScaledValue(ValueOf(m, e), radix, f) == Times(w as real, Two(e - 53 + t))
  {
    hide Times, RPow, Two, Pow, Pow2;
    RPowParts(o, s, f);
    RPowNat(o, f);
    TimesCast(m, Pow(o, f));
    Exchange(m as real, Two(e - 53), RPow(o, f), Two(t));
    TwoAdd(e - 53, t);
  }

  lemma BoundedProduct(w: nat, a: nat, b: int, top: nat)
    requires a <= b && Times(w as real, Two(b)) < Two(top)
    ensures w * Pow2(a) < Pow2(top)
  {
    hide *;
    TwoMonotone(a, b);
    TwoNat(a);
    TwoNat(top);
    TimesCast(w, Pow2(a));
    TimesCommute(w as real, Two(a));
    TimesCommute(w as real, Two(b));
    if w > 0 {
      TimesOrder(Two(a), Two(b), w as real);
    } else {
      TimesOne(Two(a));
      TimesOne(Two(b));
    }
  }

  /** Dividing down: two limbs of mantissa, the reserved limbs, the extra bits. */
  lemma LoweredRoom(m: nat, e: int, o: nat, s: nat, g: nat)
    requires IsOddPart(o) && o != 1 && g > 0 && e <= 1024 && LimbsFor(o, g) <= 44
    ensures RoundRoom(m, e - 53, o, s, 0 - g, LEN_MAX)
  {
    hide LimbsFor, Pow, Pow2, Weight;
    var f: int := 0 - g;
    MulMonotone(0, g, s);
    Distribute(0, g, s);
    assert f * s <= 0;
  }

  /** Every call of mul_pow_round in js_dtoa has room. */
  lemma PrintRoom(m: nat, e: int, radix: nat, f: int)
    requires IsRadix(radix) && m < TWO_53 && e <= 1024
    requires Times(ScaledValue(ValueOf(m, e), radix, f), Two(Pos(53 - e))) < Two(1632)
    requires f < 0 && !PowerOfTwo(radix) ==> 0 - f <= MaxExponent(radix) + 2
    ensures IsOddPart(OddPart(radix))
    ensures RoundRoom(m, e - 53, OddPart(radix), Twos(radix), f, LEN_MAX)
  {
    hide OddPart, Twos, Pow2, Two, Times, ScaledValue, ValueOf, RoundRoom, PowerOfTwo, MaxExponent;
    RadixParts(radix);
    if f >= 0 {
      RaisedRoom(m, e, radix, OddPart(radix), Twos(radix), f);
    } else if OddPart(radix) == 1 {
      BinaryRoom(m, e, radix, Twos(radix), f);
    } else {
      LoweredPrint(m, e, radix, 0 - f);
    }
  }

  lemma LoweredPrint(m: nat, e: int, radix: nat, g: nat)
    requires IsRadix(radix) && !PowerOfTwo(radix) && g > 0 && e <= 1024 && g <= MaxExponent(radix) + 2
    ensures IsOddPart(OddPart(radix))
    ensures RoundRoom(m, e - 53, OddPart(radix), Twos(radix), 0 - g, LEN_MAX)
  {
    hide OddPart, Twos, RoundRoom, PowerOfTwo, LimbsFor;
    LimbTable(radix);
    LimbsForRadix(radix, g, 38);
    LoweredRoom(m, e, OddPart(radix), Twos(radix), g);
  }

  lemma RoundRoomUp(m: nat, e: int, o: nat, s: nat, f: nat, w: nat, t: int)
    requires IsOddPart(o) && w == m * Pow(o, f) && t == f * s
    requires w * Pow2(Pos(e + t)) < Pow2(1632)
    ensures RoundRoom(m, e, o, s, f, LEN_MAX)
  {
    hide Pow, Pow2, Weight;
    WeightIsPow2(51);
  }

  /** For powers of two only a shift remains. */
  lemma BinaryRoom(m: nat, e: int, radix: nat, s: nat, f: int)
    requires radix == 1 * Pow2(s) && radix >= 1 && f < 0 && m < TWO_53
    requires Times(ScaledValue(ValueOf(m, e), radix, f), Two(Pos(53 - e))) < Two(1632)
    ensures RoundRoom(m, e - 53, 1, s, f, LEN_MAX)
  {
    hide *;
    var t := f * s;
    BinaryScaled(m, e, radix, s, f, t);
    PosOf(53 - e);
    if e - 53 + t >= 0 {
      NestedBound(m, e - 53 + t, e - 53 + t, Pos(53 - e), 1632);
    }
    Pow2Constants();
    FloatConstants();
    Pow2Monotone(53, 1632);
    BinaryRoomIs(m, e - 53, s, f, t);
  }

  lemma NestedBound(w: nat, a: nat, y: int, z: int, top: nat)
    requires a <= y + z && Times(Times(w as real, Two(y)), Two(z)) < Two(top)
    ensures w * Pow2(a) < Pow2(top)
  {
    hide *;
    TwoAdd(y, z);
    TimesAssoc(w as real, Two(y), Two(z));
    BoundedProduct(w, a, y + z, top);
  }

  lemma PosOf(v: int)
    ensures Pos(v) >= 0 && Pos(v) >= v
  {}

  lemma BinaryScaled(m: nat, e: int, radix: nat, s: nat, f: int, t: int)
    requires radix == 1 * Pow2(s) && radix >= 1 && t == f * s
    ensures ScaledValue(ValueOf(m, e), radix, f) == Times(m as real, Two(e - 53 + t))
  {
    hide Pow, Pow2, Times, Two, RPow;
    RPowParts(1, s, f);
    OnePower(f);
    TimesOne(Two(t));
    TimesAssoc(m as real, Two(e - 53), Two(t));
    TwoAdd(e - 53, t);
  }

  lemma BinaryRoomIs(m: nat, e: int, s: nat, f: int, t: int)
    requires f < 0 && m < Pow2(1632) && t == f * s
    requires e + t >= 0 ==> m * Pow2(e + t) < Pow2(1632)
    ensures RoundRoom(m, e, 1, s, f, LEN_MAX)
  {
    hide Pow, Pow2, Weight;
    PowZeroth(1);
    PowZeroth(2);
    WeightIsPow2(51);
    TimesOneIs(m, Pow(1, Pos(f)));
  }

  lemma TimesOneIs(m: nat, p: nat)
    requires p == 1
    ensures m * p == m
  {}

  lemma OnePower(f: int)
    ensures RPow(1, f) == 1.0
  {
    PowOfOne(if f >= 0 then f else 0 - f);
  }

  /** The value of n * radix^f is within 2^-1085 and 2^1060. */
  ghost predicate Moderate(n: nat, radix: nat, f: int)
    requires radix >= 1
  {
    Two(0 - 1085) <= ScaledValue(n as real, radix, f) < Two(1060)
  }

  lemma ModerateNotTiny(n: nat, radix: nat, f: int)
    requires radix >= 1 && Moderate(n, radix, f)
    ensures NotTiny(n, radix, f)
  {
    var p, q, r := Pow(radix, Pos(f)), Pow(radix, Pos(0 - f)), RPow(radix, f);
    PowPositive(radix, Pos(0 - f));
    hide Pow, Pow2, Two, Times, RPow;
    RPowSplit(radix, f);
    TwoAdd(0 - 1085, 1085);
    TwoNat(1085);
    TwoNat(0);
    PowZeroth(2);
    var x := ScaledValue(n as real, radix, f);
    TimesOrder(Two(0 - 1085), x, Two(1085));
    TimesOrder(1.0, Times(x, Two(1085)), q as real);
    TimesOne(q as real);
    Regroup(n as real, r, Two(1085), q as real);
    TimesCast(n, p);
    TimesCast(n * p, Pow2(1085));
  }

  lemma Regroup(a: real, b: real, c: real, d: real)
    ensures Times(Times(Times(a, b), c), d) == Times(Times(a, Times(b, d)), c)
  {}

  lemma ModerateProduct(n: nat, radix: nat, o: nat, f: nat)
    requires radix >= o >= 1 && Moderate(n, radix, f)
    ensures n * Pow(o, f) < Weight(52)
  {
    hide Pow, Pow2, Two, Times, RPow, Weight;
    RPowNat(radix, f);
    TimesCast(n, Pow(radix, f));
    TwoNat(1060);
    Pow2Monotone(1060, 1664);
    WeightIsPow2(52);
    PowBaseMonotone(o, radix, f);
    MulMonotone(Pow(o, f), Pow(radix, f), n);
  }

  lemma {:induction false} PowBaseMonotone(a: nat, b: nat, n: nat)
    requires a <= b
    ensures Pow(a, n) <= Pow(b, n)
  {
    if n > 0 {
      PowBaseMonotone(a, b, n - 1);
      ProductFits(a, b, Pow(a, n - 1), Pow(b, n - 1));
    }
  }

  lemma ConvertRoomDown(n: nat, len: nat, o: nat, s: nat, g: nat)
    requires IsOddPart(o) && o != 1 && g > 0 && n > 0 && len <= 5 && LimbsFor(o, g) <= 44
    ensures HasRoom(n, len, LEN_MAX, o, s, 0 - g, false, 55)
  {
    hide LimbsFor, BitLen;
    assert BitLen(n) >= 1;
  }

  /** Every call of mul_pow_round_to_d has room and stays clear of shifting out. */
  lemma ConvertRoom(n: nat, len: nat, radix: nat, f: int, digits: nat)
    requires IsRadix(radix) && n > 0 && len <= 5 && Moderate(n, radix, f)
    requires digits == DtoaMaxDigits(radix) || digits == AtodMaxDigits(radix)
    requires 0 - f <= digits - MinExponent(radix)
    ensures IsOddPart(OddPart(radix)) && radix == OddPart(radix) * Pow2(Twos(radix))
    ensures HasRoom(n, len, LEN_MAX, OddPart(radix), Twos(radix), f, false, 55)
    ensures NotTiny(n, radix, f)
  {
    hide OddPart, Twos, Pow2, Two, Times, ScaledValue, PowerOfTwo, MinExponent, DtoaMaxDigits, AtodMaxDigits,
      DigitsPerLimb, LimbsFor, Moderate, NotTiny, Pow, Weight, ExtraBits;
    RadixParts(radix);
    ModerateNotTiny(n, radix, f);
    var o := OddPart(radix);
    if o != 1 {
      if f >= 0 {
        MulMonotone(1, Pow2(Twos(radix)), o);
        ModerateProduct(n, radix, o, f);
      } else {
        LimbTable(radix);
        LimbsForRadix(radix, 0 - f, 44);
        ConvertRoomDown(n, len, o, Twos(radix), 0 - f);
      }
    }
  }
}

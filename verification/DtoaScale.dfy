/** mul_pow and the roundings built on it (dtoa.c:893-1013): scaling a big
    number by a power of the radix without losing what rounding needs. */
module DtoaScale {
  import opened Powers
  import opened Rounding
  import opened Float64
  import opened Limbs
  import opened BigNum
  import opened RadixTables
  import opened RadixLog
  import opened DtoaPow

  /** The odd part of a radix; 1 for powers of two. */
  predicate IsOddPart(radix1: int) {
    1 <= radix1 <= 35 && radix1 % 2 == 1
  }

  /** How many digits of an odd radix a limb holds. */
  function LimbDigits(radix1: nat): (d: nat)
    requires IsOddPart(radix1) && radix1 != 1
    ensures d >= 1
  {
    LimbBase(radix1);
    DigitsPerLimb(radix1)
  }

  lemma ChunkFits(radix1: nat, n: nat)
    requires IsOddPart(radix1) && radix1 != 1 && n <= LimbDigits(radix1)
    ensures 0 < Pow(radix1, n) < BASE
  {
    LimbBase(radix1);
    PowMonotone(radix1, n, LimbDigits(radix1));
    PowPositive(radix1, n);
  }

  lemma NextPower(radix1: nat, done: nat, n: nat, v: nat)
    ensures (v * Pow(radix1, done)) * Pow(radix1, n) == v * Pow(radix1, done + n)
  {
    PowAdd(radix1, done, n);
    MulAssoc(v, Pow(radix1, done), Pow(radix1, n));
  }

  lemma RoomToGrow(v: nat, radix1: nat, done: nat, n: nat, f: nat, cap: nat, len: nat, w: nat, b: nat)
    requires radix1 >= 1 && done + n <= f && v * Pow(radix1, f) < Weight(cap)
    requires w == v * Pow(radix1, done) && b == Pow(radix1, n)
    ensures w * b == v * Pow(radix1, done + n)
    ensures w * b >= Weight(len) ==> len < cap
  {
    hide *;
    NextPower(radix1, done, n, v);
    PowMonotone(radix1, done + n, f);
    var p, q := Pow(radix1, done + n), Pow(radix1, f);
    MulMonotone(p, q, v);
    MulCommute(p, v);
    MulCommute(q, v);
    if len >= cap { WeightMonotone(cap, len); }
  }

  /** The multiplying half of mul_pow: a := a * radix1^f. */
  method MulByPow(a: Mpb, radix1: nat, f: nat)
    requires a.Valid() && a.Normalized() && IsOddPart(radix1) && radix1 != 1
    requires a.Value() * Pow(radix1, f) < Weight(a.tab.Length)
    modifies a, a.tab
    ensures a.Valid() && a.Normalized()
    ensures a.Value() == old(a.Value()) * Pow(radix1, f)
  {
    hide Pow, Weight, Val, Normal;
    PowLow(radix1);
    ghost var v := a.Value();
    var d := LimbDigits(radix1);
    var b: limb := 0;
    var left, n0 := f, 0;
    while left != 0
      invariant 0 <= left <= f && a.Valid() && a.Normalized()
      invariant a.Value() == v * Pow(radix1, f - left)
      invariant 0 <= n0 <= d && (n0 != 0 ==> b == Pow(radix1, n0))
    {
      var n := Min(left, d);
      ChunkFits(radix1, n);
      if n != n0 {
        b := PowUi(radix1, n);
        n0 := n;
      }
      RoomToGrow(v, radix1, f - left, n, f, a.tab.Length, a.len, a.Value(), b);
      a.Mul1(b, 0);
      left := left - n;
    }
  }

  /** q is v / p, and inexact tells whether the division lost anything. */
  ghost predicate DividedBy(v: nat, p: nat, q: nat, inexact: bool) {
    p > 0 && q == v / p && (inexact <==> v % p != 0)
  }

  lemma NotDividedYet(v: nat, radix1: nat)
    ensures DividedBy(v, Pow(radix1, 0), v, false)
  {}

  lemma DividedFurther(v: nat, radix1: nat, done: nat, n: nat, q: nat, inexact: bool, q': nat, r: nat)
    requires DividedBy(v, Pow(radix1, done), q, inexact)
    requires q == q' * Pow(radix1, n) + r && r < Pow(radix1, n)
    ensures DividedBy(v, Pow(radix1, done + n), q', inexact || r != 0)
  {
    PowAdd(radix1, done, n);
    hide Pow;
    var a, b := Pow(radix1, done), Pow(radix1, n);
    DivUnique(q, b, q', r);
    NestedDivision(v, a, b);
  }

  /** The dividing half of mul_pow: a := a / radix1^g, chunk by chunk, noting
      whether any remainder was left. */
  method DivByPow(a: Mpb, radix1: nat, g: nat) returns (inexact: bool)
    requires a.Valid() && IsOddPart(radix1) && radix1 != 1
    modifies a, a.tab
    ensures a.Valid() && (g > 0 || old(a.Normalized()) ==> a.Normalized())
    ensures DividedBy(old(a.Value()), Pow(radix1, g), a.Value(), inexact)
  {
    hide Pow, Pow2, Weight, Val, Normal, Divided, DividedBy, IsReciprocal;
    NotDividedYet(a.Value(), radix1);
    ghost var v := a.Value();
    var d := LimbDigits(radix1);
    var b: limb, bInv: limb, shift := 0, 0, 0;
    var left, n0 := g, 0;
    inexact := false;
    while left != 0
      invariant 0 <= left <= g && a.Valid()
      invariant left < g || old(a.Normalized()) ==> a.Normalized()
      invariant DividedBy(v, Pow(radix1, g - left), a.Value(), inexact)
      invariant 0 <= n0 <= d && 0 <= shift < 32
      invariant n0 != 0 ==> b >= 0x8000_0000 && b == Pow(radix1, n0) * Pow2(shift) && IsReciprocal(bInv, b)
    {
      var n := Min(left, d);
      ChunkFits(radix1, n);
      if n != n0 {
        b, bInv, shift := PowUiInv(radix1, n);
        n0 := n;
      }
      ghost var s := a.tab[..a.len];
      var r := MpDiv1Norm(a.tab, a.len, b, 0, bInv, shift, Pow(radix1, n));
      DividedPlain(a.tab[..a.len], s, Pow(radix1, n), r);
      DividedFurther(v, radix1, g - left, n, Val(s), inexact, a.Value(), r);
      inexact := inexact || r != 0;
      a.Renorm();
      left := left - n;
    }
  }

  /** The limbs reserved for dividing by radix1^g: a high bound on its size. */
  function LimbsFor(radix1: nat, g: nat): (l: nat)
    requires IsOddPart(radix1) && radix1 != 1
    ensures g <= LimbDigits(radix1) * l
  {
    var d := LimbDigits(radix1);
    Split(g + d - 1, d);
    (g + d - 1) / d
  }

  lemma {:induction false} ChunksFit(radix1: nat, d: nat, l: nat, m: nat)
    requires Pow(radix1, d) < BASE && m == d * l
    ensures Pow(radix1, m) <= Pow2(32 * l)
  {
    PowZeroth(radix1);
    hide *;
    if l > 0 {
      assert d * l == d + d * (l - 1);
      ChunksFit(radix1, d, l - 1, m - d);
      PowAdd(radix1, d, m - d);
      assert 32 * l == 32 + 32 * (l - 1);
      Pow2Add(32, 32 * (l - 1));
      Pow2Constants();
      LimbConstants();
      ProductFits(Pow(radix1, d), Pow2(32), Pow(radix1, m - d), Pow2(32 * (l - 1)));
    }
  }

  lemma ProductFits(p: nat, p': nat, q: nat, q': nat)
    requires p <= p' && q <= q'
    ensures p * q <= p' * q'
  {
    MulMonotone(p, p', q);
    MulMonotone(q, q', p');
    MulCommute(q, p');
    MulCommute(q', p');
  }

  /** The reserved limbs outweigh the divisor. */
  lemma DivisorFits(radix1: nat, g: nat)
    requires IsOddPart(radix1) && radix1 != 1
    ensures 0 < Pow(radix1, g) <= Pow2(32 * LimbsFor(radix1, g))
  {
    hide Pow, LimbsFor;
    var d, l := LimbDigits(radix1), LimbsFor(radix1, g);
    ChunkFits(radix1, d);
    ChunksFit(radix1, d, l, d * l);
    PowMonotone(radix1, g, d * l);
    PowPositive(radix1, g);
  }

  /** extra_bits of mul_pow: two beyond the rounding position for an integer
      result, else enough for e bits of quotient. */
  function ExtraBits(isInt: bool, e: int, eOffset: int, v: nat): nat {
    Pos(if isInt then 2 + e - eOffset else e - (BitLen(v) - 1))
  }

  /** What mul_pow leaves: v0 * radix1^f * 2^k, sticky where f is negative. */
  ghost predicate Scaled(v: nat, v0: nat, radix1: nat, f: int, k: nat) {
    Pow(radix1, Pos(0 - f)) > 0
    && v == Sticky(v0 * Pow(radix1, Pos(f)) * Pow2(k), Pow(radix1, Pos(0 - f)))
  }

  lemma ScaledUp(v0: nat, radix1: nat, f: nat)
    ensures Scaled(v0 * Pow(radix1, f), v0, radix1, f, 0)
  {
    var v := v0 * Pow(radix1, f);
    assert Pow2(0) == 1 && Pow(radix1, 0) == 1;
    hide Pow2, Pow;
    StickyChar(v * Pow2(0), 1, v, 0);
  }

  lemma {:induction false} PowOfOne(n: nat)
    ensures Pow(1, n) == 1
  {
    if n > 0 { PowOfOne(n - 1); }
  }

  lemma ScaledByOne(v0: nat, f: int)
    ensures Scaled(v0, v0, 1, f, 0)
  {
    PowOfOne(Pos(f));
    PowOfOne(Pos(0 - f));
    assert Pow2(0) == 1;
    hide Pow2, Pow;
    StickyChar(v0, 1, v0, 0);
  }

  lemma ScaledDown(v: nat, v0: nat, radix1: nat, g: nat, k: nat, q: nat, inexact: bool)
    requires g > 0 && DividedBy(v0 * Pow2(k), Pow(radix1, g), q, inexact)
    requires v == if inexact then SetBit0(q) else q
    ensures Scaled(v, v0, radix1, 0 - g, k)
  {
    assert Pow(radix1, 0) == 1;
    assert v0 * Pow(radix1, Pos(0 - g)) == v0;
  }

  /** Whether the buffer of a can take the widest intermediate of mul_pow. */
  ghost predicate HasRoom(v: nat, len: nat, cap: nat, radix1: nat, radixShift: nat, f: int, isInt: bool, e: int)
    requires IsOddPart(radix1)
  {
    if radix1 == 1 then true
    else if f >= 0 then v * Pow(radix1, f) < Weight(cap)
    else
      var l := LimbsFor(radix1, 0 - f);
      var extra := ExtraBits(isInt, e, 0 - f * radixShift + 32 * l, v);
      len + l + (extra + 31) / 32 <= cap
  }

  /** Enough bits for the rounding that follows a division. */
  ghost predicate Precise(v0: nat, radix1: nat, f: int, k: nat, isInt: bool, e: int, eOffset: int) {
    radix1 != 1 && f < 0 ==>
      if isInt then eOffset >= e + 2
      else v0 > 0 && e >= 0 ==> Pow2(e) * Pow(radix1, 0 - f) <= v0 * Pow2(k)
  }

  lemma PreciseAfter(v0: nat, radix1: nat, g: nat, l: nat, extra: nat, isInt: bool, e: int, eOffset: int)
    requires IsOddPart(radix1) && radix1 != 1 && g > 0 && l == LimbsFor(radix1, g)
    requires extra == ExtraBits(isInt, e, eOffset, v0)
    ensures Precise(v0, radix1, 0 - g, 32 * l + extra, isInt, e, eOffset + extra)
  {
    hide Pow, Pow2, LimbsFor, BitLen;
    if !isInt && v0 > 0 && e >= 0 {
      DivisorFits(radix1, g);
      EnoughBits(v0, l, extra, e, Pow(radix1, g));
    }
  }

  lemma EnoughBits(v0: nat, l: nat, extra: nat, e: nat, d: nat)
    requires v0 > 0 && e <= BitLen(v0) - 1 + extra && d <= Pow2(32 * l)
    ensures Pow2(e) * d <= v0 * Pow2(32 * l + extra)
  {
    hide *;
    var b := BitLen(v0) - 1;
    Pow2Add(extra, 32 * l);
    Pow2Add(b, extra);
    Pow2Monotone(e, b + extra);
    ScaledAtLeast(v0, Pow2(b), Pow2(extra), Pow2(32 * l), Pow2(e), d);
  }

  lemma ScaledAtLeast(v: nat, lo: nat, x: nat, p: nat, bits: nat, d: nat)
    requires lo <= v && bits <= lo * x && d <= p
    ensures bits * d <= v * (x * p)
  {
    MulMonotone(lo, v, x);
    ProductFits(bits, v * x, d, p);
    MulAssoc(v, x, p);
  }

  /** mul_pow: a and the returned offset stand for
      a * (radix1 * 2^radixShift)^f * 2^-eOffset. */
  method MulPow(a: Mpb, radix1: nat, radixShift: nat, f: int, isInt: bool, e: int)
    returns (eOffset: int, ghost k: nat)
    requires a.Valid() && a.Normalized() && IsOddPart(radix1)
    requires HasRoom(a.Value(), a.len, a.tab.Length, radix1, radixShift, f, isInt, e)
    modifies a, a.tab
    ensures a.Valid() && (old(a.Value()) != 0 ==> a.Normalized())
    ensures Scaled(a.Value(), old(a.Value()), radix1, f, k)
    ensures eOffset == k - f * radixShift
    ensures f >= 0 || radix1 == 1 ==> k == 0
    ensures Precise(old(a.Value()), radix1, f, k, isInt, e, eOffset)
  {
    hide Val, Normal, Scaled, Pow, Pow2, Weight, LimbsFor, Precise, Sticky, ExtraBits;
    ghost var v0 := a.Value();
    eOffset := 0 - f * radixShift;
    k := 0;
    if radix1 == 1 {
      ScaledByOne(v0, f);
      NothingLost(v0, radix1, f, isInt, e, eOffset);
    } else if f >= 0 {
      MulByPow(a, radix1, f);
      ScaledUp(v0, radix1, f);
      NothingLost(v0, radix1, f, isInt, e, eOffset);
    } else {
      var l := LimbsFor(radix1, 0 - f);
      eOffset := eOffset + 32 * l;
      var extra := ChooseExtra(a, isInt, e, eOffset);
      PreciseAfter(v0, radix1, 0 - f, l, extra, isInt, e, eOffset);
      eOffset := eOffset + extra;
      k := 32 * l + extra;
      DivideScaled(a, radix1, 0 - f, 32 * l + extra);
    }
  }

  method ChooseExtra(a: Mpb, isInt: bool, e: int, eOffset: int) returns (extra: nat)
    requires a.Valid() && a.Normalized()
    ensures extra == ExtraBits(isInt, e, eOffset, a.Value())
  {
    if isInt {
      extra := Pos(2 + e - eOffset);
    } else {
      var top := a.FloorLog2();
      extra := Pos(e - top);
    }
  }

  /** The dividing branch of mul_pow once the working precision is chosen. */
  method DivideScaled(a: Mpb, radix1: nat, g: nat, k: nat)
    requires a.Valid() && a.Normalized() && IsOddPart(radix1) && radix1 != 1 && g > 0
    requires a.len + (k + 31) / 32 <= a.tab.Length
    modifies a, a.tab
    ensures a.Valid() && a.Normalized()
    ensures Scaled(a.Value(), old(a.Value()), radix1, 0 - g, k)
  {
    hide Val, Normal, Scaled, Pow, Pow2, DividedBy;
    ghost var v0 := a.Value();
    ShiftAll(a, k);
    var inexact := DivByPow(a, radix1, g);
    ghost var q := a.Value();
    if inexact {
      a.SetSticky();
    }
    ScaledDown(a.Value(), v0, radix1, g, k, q, inexact);
  }

  lemma NothingLost(v0: nat, radix1: nat, f: int, isInt: bool, e: int, eOffset: int)
    requires radix1 == 1 || f >= 0
    ensures Precise(v0, radix1, f, 0, isInt, e, eOffset)
  {}

  /** mpb_shr_round with a negative shift: a := a * 2^n. */
  method ShiftAll(a: Mpb, n: nat)
    requires a.Valid() && a.len + (n + 31) / 32 <= a.tab.Length
    modifies a, a.tab
    ensures a.Valid() && a.Value() == old(a.Value()) * Pow2(n)
    ensures old(a.Normalized()) && old(a.Value()) != 0 ==> a.Normalized()
  {
    hide Val, Normal, Pow2, RoundDiv;
    ghost var v := a.Value();
    ShiftRoundUp(v, 1, n, TowardZero);
    RoundDivByOne(v * Pow2(n), TowardZero);
    a.ShrRound(0 - n, RNDZ);
  }

  // ----- rounding to an integer

  /** m * 2^e * radix^f rounded to an integer. */
  function RoundPow(m: nat, e: int, radix: nat, f: int, dir: Direction): nat
    requires radix >= 1
  {
    PowPositive(radix, Pos(0 - f));
    ShiftRound(m * Pow(radix, Pos(f)), Pow(radix, Pos(0 - f)), 0 - e, dir)
  }

  lemma ShiftRoundNum(n: nat, d: nat, t: nat, u: int, dir: Direction)
    requires d > 0
    ensures ShiftRound(n * Pow2(t), d, u, dir) == ShiftRound(n, d, u - t, dir)
  {
    hide Pow2, RoundDiv;
    if u >= 0 {
      ShiftRoundDown(n * Pow2(t), d, u, dir);
      ShiftRoundSplit(n, d, t, u, dir);
    } else {
      Pow2Add(t, 0 - u);
      MulAssoc(n, Pow2(t), Pow2(0 - u));
      ShiftRoundUp(n * Pow2(t), d, 0 - u, dir);
      ShiftRoundUp(n, d, t - u, dir);
    }
  }

  lemma ShiftRoundDen(n: nat, d: nat, t: nat, u: int, dir: Direction)
    requires d > 0
    ensures d * Pow2(t) > 0
    ensures ShiftRound(n, d * Pow2(t), u, dir) == ShiftRound(n, d, u + t, dir)
  {
    hide Pow2, RoundDiv;
    MulStrict(0, d, Pow2(t));
    if u >= 0 {
      Pow2Add(t, u);
      MulAssoc(d, Pow2(t), Pow2(u));
      ShiftRoundDown(n, d * Pow2(t), u, dir);
      ShiftRoundDown(n, d, t + u, dir);
    } else {
      ShiftRoundUp(n, d * Pow2(t), 0 - u, dir);
      ShiftRoundSplit(n, d, 0 - u, t, dir);
    }
  }

  /** A power of the radix, split into its odd part and a shift. */
  lemma SplitPower(radix1: nat, s: nat, f: nat)
    ensures Pow(radix1 * Pow2(s), f) == Pow(radix1, f) * Pow2(f * s)
  {
    PowOfProduct(radix1, Pow2(s), f);
    PowOfPow2(s, f);
    MulCommute(s, f);
  }

  lemma RoundPowSplit(m: nat, e: int, radix1: nat, s: nat, f: int, dir: Direction)
    requires radix1 >= 1
    ensures Pow(radix1, Pos(0 - f)) > 0 && radix1 * Pow2(s) >= 1
    ensures RoundPow(m, e, radix1 * Pow2(s), f, dir)
            == ShiftRound(m * Pow(radix1, Pos(f)), Pow(radix1, Pos(0 - f)), 0 - e - f * s, dir)
  {
    hide Pow, Pow2, ShiftRound, RoundPow;
    PowPositive(radix1, Pos(0 - f));
    MulMonotone(1, radix1, Pow2(s));
    if f >= 0 {
      RoundPowUp(m, e, radix1, s, f, dir);
    } else {
      var g := 0 - f;
      RoundPowDown(m, e, radix1, s, g, dir);
      Distribute(0, f, s);
    }
  }

  lemma RoundPowUp(m: nat, e: int, radix1: nat, s: nat, f: nat, dir: Direction)
    requires radix1 >= 1 && radix1 * Pow2(s) >= 1 && Pow(radix1, Pos(0 - f)) > 0
    ensures RoundPow(m, e, radix1 * Pow2(s), f, dir)
            == ShiftRound(m * Pow(radix1, Pos(f)), Pow(radix1, Pos(0 - f)), 0 - e - f * s, dir)
  {
    hide Pow, Pow2, ShiftRound;
    PowZeroth(radix1);
    PowZeroth(radix1 * Pow2(s));
    SplitPower(radix1, s, f);
    MulAssoc(m, Pow(radix1, f), Pow2(f * s));
    ShiftRoundNum(m * Pow(radix1, f), 1, f * s, 0 - e, dir);
  }

  lemma RoundPowDown(m: nat, e: int, radix1: nat, s: nat, g: nat, dir: Direction)
    requires radix1 >= 1 && radix1 * Pow2(s) >= 1 && g > 0 && Pow(radix1, g) > 0
    ensures RoundPow(m, e, radix1 * Pow2(s), 0 - g, dir)
            == ShiftRound(m * Pow(radix1, Pos(0 - g)), Pow(radix1, g), 0 - e + g * s, dir)
  {
    hide Pow, Pow2, ShiftRound;
    PowZeroth(radix1);
    PowZeroth(radix1 * Pow2(s));
    SplitPower(radix1, s, g);
    ShiftRoundDen(m, Pow(radix1, g), g * s, 0 - e, dir);
  }

  /** The sticky, shifted number rounds like the exact scaled one. */
  lemma ScaledRound(v: nat, v0: nat, radix1: nat, f: int, k: nat, u: int, dir: Direction)
    requires radix1 >= 1 && Scaled(v, v0, radix1, f, k)
    requires f >= 0 || radix1 == 1 || u >= 2
    ensures Pow(radix1, Pos(0 - f)) > 0
    ensures ShiftRound(v, 1, u, dir) == ShiftRound(v0 * Pow(radix1, Pos(f)), Pow(radix1, Pos(0 - f)), u - k, dir)
  {
    var n, d := v0 * Pow(radix1, Pos(f)), Pow(radix1, Pos(0 - f));
    assert v == Sticky(n * Pow2(k), d);
    if u < 2 {
      PowOfOne(Pos(0 - f));
      assert d == 1 by { PowZeroth(radix1); }
      hide Pow, Pow2, ShiftRound, Sticky;
      StickyChar(n * Pow2(k), 1, n * Pow2(k), 0);
    } else {
      hide Pow, Pow2, ShiftRound, Sticky;
      StickyShiftRound(n * Pow2(k), d, u, dir);
    }
    ShiftRoundNum(n, d, k, u, dir);
  }

  /** Whether a buffer can take m * 2^e * radix^f and what leads to it. */
  ghost predicate RoundRoom(m: nat, e: int, radix1: nat, s: nat, f: int, cap: nat)
    requires IsOddPart(radix1)
  {
    && cap >= 2
    && if f >= 0 || radix1 == 1 then
         m * Pow(radix1, Pos(f)) * Pow2(Pos(e + f * s)) < Weight(cap - 1)
       else
         var l := LimbsFor(radix1, 0 - f);
         2 + l + (Pos(2 + e + f * s - 32 * l) + 31) / 32 <= cap
  }

  lemma RoomForScaling(m: nat, e: int, radix1: nat, s: nat, f: int, cap: nat, len: nat)
    requires IsOddPart(radix1) && RoundRoom(m, e, radix1, s, f, cap) && len <= 2
    ensures HasRoom(m, len, cap, radix1, s, f, true, e)
  {
    hide Pow, Pow2, LimbsFor, Weight;
    if radix1 != 1 && f >= 0 {
      MulMonotone(1, Pow2(Pos(e + f * s)), m * Pow(radix1, f));
      WeightMonotone(cap - 1, cap);
    } else if f < 0 {
      Distribute(0, f, s);
    }
  }

  lemma RoomForShift(s: seq<limb>, n: nat, cap: nat)
    requires Normal(s) && Val(s) > 0 && Val(s) * Pow2(n) < Weight(cap)
    ensures |s| + n / 32 <= cap
  {
    NormalAtLeast(s);
    hide *;
    var l := n / 32;
    Pow2Monotone(32 * l, n);
    WeightIsPow2(l);
    ProductRoom(|s| - 1, l, cap, Val(s), Pow2(n));
  }

  lemma ProductRoom(a: nat, b: nat, cap: nat, v: nat, p: nat)
    requires Weight(a) <= v && Weight(b) <= p && v * p < Weight(cap)
    ensures a + b < cap
  {
    hide *;
    ProductFits(Weight(a), v, Weight(b), p);
    WeightAdd(a, b);
    if a + b >= cap {
      WeightMonotone(cap, a + b);
    }
  }

  lemma NormalAtLeast(s: seq<limb>)
    requires Normal(s) && Val(s) > 0
    ensures |s| >= 1 && Weight(|s| - 1) <= Val(s)
  {
    hide Val;
    TopLimb(s);
    assert Weight(0) == 1;
  }

  /** mul_pow_round: tmp1 = round(m * 2^e * (radix1 * 2^s)^f), exactly, for f of
      either sign and every rounding mode. */
  method MulPowRound(tmp1: Mpb, m: u64, e: int, radix1: nat, s: nat, f: int, rnd: Rnd)
    requires tmp1.tab.Length >= 2 && IsOddPart(radix1) && m > 0
    requires RoundRoom(m, e, radix1, s, f, tmp1.tab.Length)
    modifies tmp1, tmp1.tab
    ensures tmp1.Valid() && tmp1.Normalized() && radix1 * Pow2(s) >= 1
    ensures tmp1.Value() == RoundPow(m, e, radix1 * Pow2(s), f, rnd.Dir())
  {
    hide Val, Normal, Pow, Pow2, Weight, Scaled, LimbsFor, RoundPow, ShiftRound, HasRoom;
    tmp1.SetU64(m);
    RoomForScaling(m, e, radix1, s, f, tmp1.tab.Length, tmp1.len);
    var eOffset, k := MulPow(tmp1, radix1, s, f, true, e);
    ghost var v := tmp1.Value();
    ScaledRound(v, m, radix1, f, k, eOffset - e, rnd.Dir());
    RoundPowSplit(m, e, radix1, s, f, rnd.Dir());
    if eOffset - e < 0 {
      ScaledExactly(v, m, radix1, f);
      RoomForShift(tmp1.tab[..tmp1.len], e - eOffset, tmp1.tab.Length - 1);
    }
    tmp1.ShrRound(eOffset - e, rnd);
  }

  lemma ScaledExactly(v: nat, v0: nat, radix1: nat, f: int)
    requires radix1 >= 1 && Scaled(v, v0, radix1, f, 0) && (f >= 0 || radix1 == 1)
    ensures v == v0 * Pow(radix1, Pos(f)) && (v0 > 0 ==> v > 0)
  {
    PowOfOne(Pos(0 - f));
    PowZeroth(radix1);
    PowPositive(radix1, Pos(f));
    var n := v0 * Pow(radix1, Pos(f));
    assert v == Sticky(n * Pow2(0), 1);
    hide Pow, Pow2, Sticky;
    StickyChar(n, 1, n, 0);
    MulMonotone(1, Pow(radix1, Pos(f)), v0);
  }

  // ----- rounding to a double

  /** (m, e) stands for m * 2^(e - 53) with a full 53 bit mantissa, also for
      subnormal doubles; it is the double of index k. */
  ghost predicate IsDouble(m: nat, e: int, k: nat) {
    if k == 0 then m == 0
    else
      && TWO_52 <= m < TWO_53
      && if e >= 0 - 1021 then k == (e + 1021) * TWO_52 + m else m == k * Pow2(0 - 1021 - e)
  }

  /** The double that (m, e) stands for is unique, and so is the pair. */
  lemma DoubleUnique(m: nat, e: int, k: nat, m': nat, e': int, k': nat)
    requires IsDouble(m, e, k) && IsDouble(m', e', k') && k != 0 && k' != 0
    ensures m == m' && e == e' <==> k == k'
  {
    hide Pow2;
    if e < 0 - 1021 { SubnormalIndex(m, e, k); }
    if e' < 0 - 1021 { SubnormalIndex(m', e', k'); }
    if e < 0 - 1021 && e' < 0 - 1021 {
      if e == e' { MulCancel(k, k', Pow2(0 - 1021 - e)); }
    }
  }

  lemma SubnormalIndex(m: nat, e: int, k: nat)
    requires e < 0 - 1021 && m == k * Pow2(0 - 1021 - e) && TWO_52 <= m < TWO_53
    ensures 0 < k < TWO_52 && BitLen(k) == 1074 + e
  {
    var s := 0 - 1021 - e;
    Pow2Constants();
    FloatConstants();
    hide *;
    BitLenUnique(m, 53);
    if k == 0 { assert false; }
    BitLenShift(k, s);
    Pow2Monotone(BitLen(k), 52);
  }

  /** A value of len bits rounded to prec bits. */
  lemma RoundedRange(v: nat, len: nat, prec: int, dir: Direction)
    requires len > 0 && Pow2(len - 1) <= v < Pow2(len) && prec <= len
    ensures prec >= 0 ==> ShiftRound(v, 1, len - prec, dir) <= Pow2(prec)
    ensures prec >= 1 ==> Pow2(prec - 1) <= ShiftRound(v, 1, len - prec, dir)
    ensures prec < 0 && dir != AwayFromZero ==> ShiftRound(v, 1, len - prec, dir) == 0
  {
    hide *;
    var s := len - prec;
    var p := Pow2(s);
    ShiftRoundDown(v, 1, s, dir);
    assert ShiftRound(v, 1, s, dir) == RoundDiv(v, p, dir);
    if prec < 0 {
      Pow2Monotone(len, s - 1);
      Pow2Next(s - 1);
      if dir != AwayFromZero { BelowHalf(v, p, dir); }
    } else {
      Pow2Add(prec, s);
      if prec >= 1 {
        Pow2Add(prec - 1, s);
        RoundDivBetween(v, p, dir, Pow2(prec - 1), Pow2(prec));
      } else {
        RoundDivBetween(v, p, dir, 0, Pow2(prec));
      }
    }
  }

  lemma BelowHalf(v: nat, d: nat, dir: Direction)
    requires d > 0 && 2 * v < d && dir != AwayFromZero
    ensures RoundDiv(v, d, dir) == 0
  {
    RoundDivChar(v, d, dir, 0, v);
  }

  lemma RoundedUp(v: nat, len: nat, prec: nat, dir: Direction)
    requires len > 0 && Pow2(len - 1) <= v < Pow2(len) && prec > len
    ensures ShiftRound(v, 1, len - prec, dir) == v * Pow2(prec - len)
    ensures Pow2(prec - 1) <= v * Pow2(prec - len) < Pow2(prec)
  {
    hide *;
    ShiftRoundUp(v, 1, prec - len, dir);
    RoundDivByOne(v * Pow2(prec - len), dir);
    ShiftedRange(v, len, prec - len);
  }

  /** Both cases of the rounding in round_to_d. */
  lemma RoundedTo(v: nat, len: nat, prec: int, dir: Direction)
    requires len > 0 && Pow2(len - 1) <= v < Pow2(len) && prec <= 53 && dir != AwayFromZero
    ensures prec >= 0 ==> ShiftRound(v, 1, len - prec, dir) <= Pow2(prec)
    ensures prec >= 1 ==> Pow2(prec - 1) <= ShiftRound(v, 1, len - prec, dir)
    ensures prec < 0 ==> ShiftRound(v, 1, len - prec, dir) == 0
  {
    hide *;
    if prec <= len {
      RoundedRange(v, len, prec, dir);
    } else {
      RoundedUp(v, len, prec, dir);
    }
  }

  /** The mantissa m << (53 - prec) of round_to_d and its exponent. */
  lemma RoundedDouble(q: nat, e: int, prec: int, m: nat)
    requires prec == (if e < 0 - 1021 then 1074 + e else 53)
    requires prec >= 0 ==> q <= Pow2(prec)
    requires prec >= 1 ==> Pow2(prec - 1) <= q
    requires prec < 0 ==> q == 0
    requires m == q * Pow2(53 - prec)
    ensures m <= TWO_53 && (q == 0 || m >= TWO_52)
    ensures var k := q + Max(0, e + 1021) * TWO_52;
            if m >= TWO_53 then IsDouble(TWO_52, e + 1, k) else IsDouble(m, e, k)
  {
    Pow2Constants();
    FloatConstants();
    hide Pow2;
    var p := Pow2(53 - prec);
    if prec >= 0 {
      Pow2Add(prec, 53 - prec);
      MulMonotone(q, Pow2(prec), p);
      if prec >= 1 {
        Pow2Add(prec - 1, 53 - prec);
        MulMonotone(Pow2(prec - 1), q, p);
      } else if q > 0 {
        MulMonotone(1, q, p);
      }
    }
    PowZeroth(2);
    if e < 0 - 1021 {
      Pow2Next(0 - 1021 - e - 1);
      if m >= TWO_53 {
        assert q * p == TWO_53;
        var h := Pow2(0 - 1021 - e - 1);
        assert p == 2 * h;
        MulSwap(q, 2, h);
        MulAssoc(q, 2, h);
        assert q * h == TWO_52;
      }
    }
  }

  lemma ZeroIsDouble()
    ensures IsDouble(0, 0, 0)
  {}

  lemma ShortNumber(s: seq<limb>, len: nat)
    requires |s| >= 1 && Normal(s) && Val(s) < Pow2(len) && len <= 64
    ensures |s| <= 2
  {
    Pow2Monotone(len, 64);
    WeightIsPow2(2);
    hide Val, Pow2, Weight;
    NormalLength(s, 2);
  }

  lemma ShiftFits(q: nat, s: nat)
    requires q * Pow2(s) <= TWO_53
    ensures q % TWO_64 == q && q * Pow2(s) % TWO_64 == q * Pow2(s)
  {
    hide Pow2;
    MulMonotone(1, Pow2(s), q);
  }

  /** The rounding position of round_to_d. */
  function Precision(e: int): int {
    if e < 0 - 1021 then 53 - (0 - 1021 - e) else 53
  }

  lemma RoundToDCorrect(v: nat, eOffset: int, e: int, q: nat, dir: Direction)
    requires v > 0 && e == BitLen(v) - eOffset && dir != AwayFromZero
    requires q == ShiftRound(v, 1, BitLen(v) - Precision(e), dir)
    ensures var m, k := q * Pow2(53 - Precision(e)), RoundScaled(v, 1, 1074 - eOffset, dir);
            && 0 <= m <= TWO_53 && q <= m
            && if m >= TWO_53 then IsDouble(TWO_52, e + 1, k) else IsDouble(m, e, k)
  {
    hide Pow2, BitLen, ShiftRound, RoundScaled, IsDouble;
    var len, prec := BitLen(v), Precision(e);
    RoundedTo(v, len, prec, dir);
    RoundedDouble(q, e, prec, q * Pow2(53 - prec));
    RoundScaledAt(v, 1, len, 1074 - eOffset, dir);
    MulMonotone(1, Pow2(53 - prec), q);
  }

  /** round_to_d: a * 2^-eOffset as a double, rounded once, subnormal or not. */
  method RoundToD(a: Mpb, eOffset: int, rnd: Rnd) returns (m: u64, e: int)
    requires a.Valid() && a.Normalized() && a.tab.Length >= 4
    requires a.Value() != 0 ==> BitLen(a.Value()) - eOffset >= 0 - 1084
    modifies a, a.tab
    ensures IsDouble(m, e, RoundScaled(old(a.Value()), 1, 1074 - eOffset, rnd.Dir()))
  {
    assert BitLen(0) == 0;
    hide Val, Normal, Pow2, BitLen, ShiftRound, RoundScaled, IsDouble;
    var top := a.FloorLog2();
    if top < 0 {
      RoundScaledZero(1, 1074 - eOffset, rnd.Dir());
      ZeroIsDouble();
      return 0, 0;
    }
    m, e := RoundNonZero(a, eOffset, top + 1, rnd);
  }

  /** round_to_d of a number of len bits. */
  method RoundNonZero(a: Mpb, eOffset: int, len: nat, rnd: Rnd) returns (m: u64, e: int)
    requires a.Valid() && a.Normalized() && a.tab.Length >= 4 && a.Value() > 0 && len == BitLen(a.Value())
    modifies a, a.tab
    ensures IsDouble(m, e, RoundScaled(old(a.Value()), 1, 1074 - eOffset, rnd.Dir()))
  {
    hide Val, Normal, Pow2, BitLen, ShiftRound, RoundScaled, IsDouble;
    ghost var v := a.Value();
    e := len - eOffset;
    var prec := Precision(e);
    if prec > len {
      ShortNumber(a.tab[..a.len], len);
    }
    a.ShrRound(e + eOffset - prec, rnd);
    ghost var q := a.Value();
    RoundToDCorrect(v, eOffset, e, q, rnd.Dir());
    ShiftFits(q, 53 - prec);
    m := a.GetU64();
    m, e := PackMantissa(m, e, 53 - prec);
  }

  /** The end of round_to_d: align the mantissa, and halve it if rounding carried
      into the next power of two. */
  method PackMantissa(q: u64, e: int, shift: nat) returns (m: u64, e': int)
    requires q * Pow2(shift) <= TWO_53
    ensures (m, e') == if q * Pow2(shift) >= TWO_53 then (TWO_52, e + 1) else (q * Pow2(shift), e)
  {
    ShiftFits(q, shift);
    m, e' := q * Pow2(shift) % TWO_64, e;
    if m >= TWO_53 {
      m := m / 2;
      e' := e + 1;
    }
  }

  /** The index of the double that n * radix^f rounds to. */
  function DoubleOf(n: nat, radix: nat, f: int, dir: Direction): nat
    requires radix >= 1
  {
    PowPositive(radix, Pos(0 - f));
    RoundScaled(n * Pow(radix, Pos(f)), Pow(radix, Pos(0 - f)), 1074, dir)
  }

  lemma DoubleOfSplit(n: nat, radix1: nat, s: nat, f: int, dir: Direction)
    requires radix1 >= 1
    ensures Pow(radix1, Pos(0 - f)) > 0 && radix1 * Pow2(s) >= 1
    ensures DoubleOf(n, radix1 * Pow2(s), f, dir)
            == RoundScaled(n * Pow(radix1, Pos(f)), Pow(radix1, Pos(0 - f)), 1074 + f * s, dir)
  {
    hide Pow, Pow2, RoundScaled, DoubleOf;
    PowPositive(radix1, Pos(0 - f));
    MulMonotone(1, radix1, Pow2(s));
    if f >= 0 {
      DoubleOfUp(n, radix1, s, f, dir);
    } else {
      var g := 0 - f;
      DoubleOfDown(n, radix1, s, g, dir);
      Distribute(0, f, s);
    }
  }

  lemma DoubleOfUp(n: nat, radix1: nat, s: nat, f: nat, dir: Direction)
    requires radix1 >= 1 && radix1 * Pow2(s) >= 1 && Pow(radix1, Pos(0 - f)) > 0
    ensures DoubleOf(n, radix1 * Pow2(s), f, dir)
            == RoundScaled(n * Pow(radix1, Pos(f)), Pow(radix1, Pos(0 - f)), 1074 + f * s, dir)
  {
    hide Pow, Pow2, RoundScaled;
    PowZeroth(radix1);
    PowZeroth(radix1 * Pow2(s));
    SplitPower(radix1, s, f);
    MulAssoc(n, Pow(radix1, f), Pow2(f * s));
    RoundScaledShift(n * Pow(radix1, f), 1, f * s, 1074 + f * s, dir);
  }

  lemma DoubleOfDown(n: nat, radix1: nat, s: nat, g: nat, dir: Direction)
    requires radix1 >= 1 && radix1 * Pow2(s) >= 1 && g > 0 && Pow(radix1, g) > 0
    ensures DoubleOf(n, radix1 * Pow2(s), 0 - g, dir)
            == RoundScaled(n * Pow(radix1, Pos(0 - g)), Pow(radix1, g), 1074 - g * s, dir)
  {
    hide Pow, Pow2, RoundScaled;
    PowZeroth(radix1);
    PowZeroth(radix1 * Pow2(s));
    SplitPower(radix1, s, g);
    RoundScaledDen(n, Pow(radix1, g), g * s, 1074, dir);
  }

  /** n * radix^f is at least 2^-1085: below that the final shift of round_to_d
      would exceed a word. */
  ghost predicate NotTiny(n: nat, radix: nat, f: int) {
    Pow(radix, Pos(0 - f)) <= n * Pow(radix, Pos(f)) * Pow2(1085)
  }

  lemma StickyAtLeast(n: nat, d: nat, p: nat)
    requires d > 0 && p * d <= n
    ensures p <= Sticky(n, d)
  {
    hide *;
    var q, r := Divide(n, d);
    StickyChar(n, d, q, r);
    MulCancel(p, q + 1, d);
    Distribute(q, 1, d);
    SetBit0Grows(q);
  }

  lemma SetBit0Grows(q: nat)
    ensures q <= SetBit0(q)
  {}

  lemma NotTinyLength(n: nat, d: nat, k: nat, gs: nat)
    requires d > 0 && n > 0 && d * Pow2(gs) <= n * Pow2(1085)
    requires Sticky(n * Pow2(k), d) > 0
    ensures BitLen(Sticky(n * Pow2(k), d)) - (k + gs) >= 0 - 1084
  {
    hide *;
    if k + gs >= 1085 {
      RaisedAtLeast(n, d, k, gs);
    }
    TopBit(n * Pow2(k), d, k + gs);
  }

  lemma RaisedAtLeast(n: nat, d: nat, k: nat, gs: nat)
    requires k + gs >= 1085 && d * Pow2(gs) <= n * Pow2(1085)
    ensures Pow2(k + gs - 1085) * d <= n * Pow2(k)
  {
    hide *;
    var r := k + gs - 1085;
    Pow2Add(gs, k);
    Pow2Add(r, 1085);
    assert gs + k == r + 1085;
    ScaledCancel(d, Pow2(gs), n, Pow2(1085), Pow2(k), Pow2(r));
  }

  lemma TopBit(w: nat, d: nat, top: nat)
    requires d > 0 && Sticky(w, d) > 0 && (top >= 1085 ==> Pow2(top - 1085) * d <= w)
    ensures BitLen(Sticky(w, d)) - top >= 0 - 1084
  {
    hide *;
    BitLenAtLeast(Sticky(w, d), 0) by { PowZeroth(2); }
    if top >= 1085 {
      StickyAtLeast(w, d, Pow2(top - 1085));
      BitLenAtLeast(Sticky(w, d), top - 1085);
    }
  }

  lemma ScaledCancel(d: nat, a: nat, n: nat, b: nat, c: nat, r: nat)
    requires d * a <= n * b && a * c == r * b && b > 0
    ensures r * d <= n * c
  {
    MulMonotone(d * a, n * b, c);
    MulAssoc(d, a, c);
    assert d * (r * b) == (r * d) * b;
    MulSwap(n, b, c);
    MulCancel(r * d, n * c, b);
  }

  /** What round_to_d makes of the result of mul_pow. */
  lemma ScaledDouble(v: nat, v0: nat, radix1: nat, s: nat, f: int, k: nat, dir: Direction)
    requires radix1 >= 1 && Scaled(v, v0, radix1, f, k) && v0 > 0
    requires f >= 0 || radix1 == 1 ==> k == 0
    requires Precise(v0, radix1, f, k, false, 55, k - f * s)
    ensures radix1 * Pow2(s) >= 1
    ensures RoundScaled(v, 1, 1074 - (k - f * s), dir) == DoubleOf(v0, radix1 * Pow2(s), f, dir)
  {
    hide *;
    DoubleOfSplit(v0, radix1, s, f, dir);
    if f >= 0 || radix1 == 1 {
      ScaledExactly(v, v0, radix1, f);
      NoDivisor(radix1, f);
    } else {
      var g := 0 - f;
      ScaledDivisor(v, v0, radix1, g, k, s);
      RoundScaledSticky(v0 * Pow2(k), Pow(radix1, g), 1074 - (k - f * s), dir);
      RoundScaledShift(v0, Pow(radix1, g), k, 1074 + f * s, dir);
    }
  }

  lemma NoDivisor(radix1: nat, f: int)
    requires f >= 0 || radix1 == 1
    ensures Pow(radix1, Pos(0 - f)) == 1
  {
    PowOfOne(Pos(0 - f));
    PowZeroth(radix1);
  }

  lemma ScaledDivisor(v: nat, v0: nat, radix1: nat, g: nat, k: nat, s: nat)
    requires radix1 > 1 && g > 0 && Scaled(v, v0, radix1, 0 - g, k) && v0 > 0
    requires Precise(v0, radix1, 0 - g, k, false, 55, k + g * s)
    ensures Pow(radix1, g) > 0 && v == Sticky(v0 * Pow2(k), Pow(radix1, g))
    ensures Pow2(54) * Pow(radix1, g) <= v0 * Pow2(k)
    ensures v0 * Pow(radix1, Pos(0 - g)) == v0 && Pos(g) == g
  {
    PowZeroth(radix1);
    hide Pow, Pow2, Sticky;
    var d := Pow(radix1, g);
    assert v0 * Pow(radix1, Pos(0 - g)) == v0;
    Pow2Monotone(54, 55);
    MulMonotone(Pow2(54), Pow2(55), d);
  }

  lemma ScaledLong(v: nat, v0: nat, radix1: nat, s: nat, f: int, k: nat)
    requires radix1 >= 1 && Scaled(v, v0, radix1, f, k) && v0 > 0 && v > 0
    requires f >= 0 ==> k == 0
    requires NotTiny(v0, radix1 * Pow2(s), f)
    ensures BitLen(v) - (k - f * s) >= 0 - 1084
  {
    hide *;
    if f >= 0 {
      MulMonotone(0, f, s);
    } else {
      var g := 0 - f;
      SplitPower(radix1, s, g);
      TinyDivisor(v, v0, radix1, g, k, radix1 * Pow2(s));
      NotTinyLength(v0, Pow(radix1, g), k, g * s);
      Distribute(0, f, s);
    }
  }

  lemma TinyDivisor(v: nat, v0: nat, radix1: nat, g: nat, k: nat, radix: nat)
    requires g > 0 && Scaled(v, v0, radix1, 0 - g, k) && NotTiny(v0, radix, 0 - g)
    ensures Pow(radix1, g) > 0 && v == Sticky(v0 * Pow2(k), Pow(radix1, g))
    ensures Pow(radix, g) <= v0 * Pow2(1085)
  {
    PowZeroth(radix1);
    PowZeroth(radix);
    hide Pow, Pow2, Sticky;
    assert Pos(0 - g) == 0 && v0 * 1 == v0;
  }

  /** mul_pow_round_to_d: the double nearest to a * (radix1 * 2^s)^f, rounded
      once, subnormal or not. */
  method MulPowRoundToD(a: Mpb, radix1: nat, s: nat, f: int, rnd: Rnd) returns (m: u64, e: int)
    requires a.Valid() && a.Normalized() && IsOddPart(radix1) && a.Value() > 0 && a.tab.Length >= 4
    requires HasRoom(a.Value(), a.len, a.tab.Length, radix1, s, f, false, 55)
    requires NotTiny(a.Value(), radix1 * Pow2(s), f)
    modifies a, a.tab
    ensures radix1 * Pow2(s) >= 1
    ensures IsDouble(m, e, DoubleOf(old(a.Value()), radix1 * Pow2(s), f, rnd.Dir()))
  {
    hide Val, Normal, Pow, Pow2, Weight, Scaled, LimbsFor, DoubleOf, RoundScaled, HasRoom, Precise, BitLen, NotTiny, IsDouble;
    ghost var v0 := a.Value();
    var eOffset, k := MulPow(a, radix1, s, f, false, 55);
    ghost var v := a.Value();
    ScaledDouble(v, v0, radix1, s, f, k, rnd.Dir());
    if v > 0 {
      ScaledLong(v, v0, radix1, s, f, k);
    }
    m, e := RoundToD(a, eOffset, rnd);
  }
}

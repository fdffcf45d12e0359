/** Rounding of non-negative rationals n/d to integers, and the sticky-bit
    technique both arithmetic cores of the repository rely on. */
module Rounding {
  import opened Powers

  /** What a rounding mode does to a magnitude. Directed modes become
      TowardZero or AwayFromZero once the sign is known. */
  datatype Direction = NearestEven | NearestAway | TowardZero | AwayFromZero

  /** Whether the quotient q with remainder r of a division by d goes up. */
  predicate RoundsUp(q: nat, r: nat, d: nat, dir: Direction) {
    match dir
    case NearestEven => 2 * r > d || (2 * r == d && q % 2 == 1)
    case NearestAway => 2 * r >= d
    case TowardZero => false
    case AwayFromZero => r > 0
  }

  /** n/d rounded to an integer. */
  function RoundDiv(n: nat, d: nat, dir: Direction): nat
    requires d > 0
  {
    n / d + (if RoundsUp(n / d, n % d, d, dir) then 1 else 0)
  }

  lemma RoundDivChar(n: nat, d: nat, dir: Direction, q: nat, r: nat)
    requires d > 0 && r < d && n == q * d + r
    ensures RoundDiv(n, d, dir) == q + if RoundsUp(q, r, d, dir) then 1 else 0
  {
    DivUnique(n, d, q, r);
  }

  lemma RoundDivExact(q: nat, d: nat, dir: Direction)
    requires d > 0
    ensures RoundDiv(q * d, d, dir) == q
  {
    RoundDivChar(q * d, d, dir, q, 0);
  }

  /** Scaling a comparison of a remainder with its divisor. */
  lemma RoundsUpScale(q: nat, r: nat, d: nat, c: nat, rc: nat, dc: nat, dir: Direction)
    requires c > 0 && rc == r * c && dc == d * c
    ensures RoundsUp(q, rc, dc, dir) == RoundsUp(q, r, d, dir)
  {
    MulCancel(d, 2 * r, c);
    MulCancel(2 * r, d, c);
    assert (2 * r) * c == 2 * rc;
    MulCancel(0, r, c);
  }

  lemma ScaledDivision(n: nat, d: nat, c: nat, q: nat, r: nat)
    requires n == q * d + r
    ensures n * c == q * (d * c) + r * c
  {
    MulAssoc(q, d, c);
    assert (q * d + r) * c == (q * d) * c + r * c;
  }

  /** A common factor of numerator and denominator does not matter. */
  lemma RoundDivScale(n: nat, d: nat, c: nat, dir: Direction)
    requires d > 0 && c > 0
    ensures d * c > 0
    ensures RoundDiv(n * c, d * c, dir) == RoundDiv(n, d, dir)
  {
    hide *;
    MulStrict(0, d, c);
    var q, r := Divide(n, d);
    ScaledDivision(n, d, c, q, r);
    MulStrict(r, d, c);
    MulMonotone(0, r, c);
    RoundDivChar(n * c, d * c, dir, q, r * c);
    RoundDivChar(n, d, dir, q, r);
    RoundsUpScale(q, r, d, c, r * c, d * c, dir);
  }

  lemma RoundDivMonotone(n: nat, m: nat, d: nat, dir: Direction)
    requires d > 0 && n <= m
    ensures RoundDiv(n, d, dir) <= RoundDiv(m, d, dir)
  {
    var q, r := n / d, n % d;
    var q', r' := m / d, m % d;
    if q > q' {
      MulMonotone(q' + 1, q, d);
      assert false;
    }
  }

  /** An integer bound on the quotient survives rounding. */
  lemma RoundDivBetween(n: nat, d: nat, dir: Direction, lo: nat, hi: nat)
    requires d > 0 && lo * d <= n <= hi * d
    ensures lo <= RoundDiv(n, d, dir) <= hi
  {
    RoundDivMonotone(lo * d, n, d, dir);
    RoundDivMonotone(n, hi * d, d, dir);
    RoundDivExact(lo, d, dir);
    RoundDivExact(hi, d, dir);
  }

  /** v | 1 on an unsigned word. */
  function SetBit0(v: nat): nat {
    if v % 2 == 0 then v + 1 else v
  }

  /** floor(n/d), with bit 0 set when the division is inexact. */
  function Sticky(n: nat, d: nat): nat
    requires d > 0
  {
    if n % d == 0 then n / d else SetBit0(n / d)
  }

  lemma StickyRoundCore(b: nat, r: nat, half: nat, d: nat, a: nat, dir: Direction)
    requires 0 < r < d && half % 2 == 0 && b < 2 * half
    ensures SetBit0(b) < 2 * half
    ensures 0 < b * d + r < (2 * half) * d
    ensures RoundsUp(a, SetBit0(b), 2 * half, dir) == RoundsUp(a, b * d + r, (2 * half) * d, dir)
  {
    var b' := SetBit0(b);
    MulMonotone(0, b, d);
    assert b * d + r < (2 * half) * d by {
      MulMonotone(b + 1, 2 * half, d);
      assert (b + 1) * d == b * d + d;
    }
    assert (2 * half) * d == 2 * (half * d);
    if b < half {
      assert b' < half;
      MulMonotone(b + 1, half, d);
      assert (b + 1) * d == b * d + d;
      assert b * d + r < half * d;
    } else {
      assert b' > half;
      MulMonotone(half, b, d);
      assert b * d + r > half * d;
    }
  }

  lemma SetBit0Add(v: nat, b: nat)
    requires v % 2 == 0
    ensures SetBit0(v + b) == v + SetBit0(b)
  {}

  lemma StickyRoundInexact(n: nat, d: nat, p: nat, dir: Direction, q: nat, r: nat)
    requires 0 < r < d && p > 0 && p % 4 == 0
    requires n == q * d + r
    ensures p * d > 0
    ensures RoundDiv(SetBit0(q), p, dir) == RoundDiv(n, p * d, dir)
  {
    hide *;
    var a, b := Divide(q, p);
    assert 2 * (p / 2) == p;
    StickyRoundCore(b, r, p / 2, d, a, dir);
    ScaledDivision(q, p, d, a, b);
    RoundDivChar(n, p * d, dir, a, b * d + r);
    EvenProduct(a, p);
    SetBit0Add(a * p, b);
    RoundDivChar(SetBit0(q), p, dir, a, SetBit0(b));
  }

  /** The pillar: two spare bits and a sticky bit round exactly like the
      rational they stand for, in every direction. */
  lemma StickyRound(n: nat, d: nat, p: nat, dir: Direction)
    requires d > 0 && p > 0 && p % 4 == 0
    ensures p * d > 0
    ensures RoundDiv(Sticky(n, d), p, dir) == RoundDiv(n, p * d, dir)
  {
    hide *;
    var q, r := Divide(n, d);
    StickyChar(n, d, q, r);
    if r == 0 {
      RoundDivScale(q, p, d, dir);
    } else {
      StickyRoundInexact(n, d, p, dir, q, r);
    }
  }

  lemma StickyChar(n: nat, d: nat, q: nat, r: nat)
    requires r < d && n == q * d + r
    ensures Sticky(n, d) == if r == 0 then q else SetBit0(q)
  {
    DivUnique(n, d, q, r);
  }

  lemma EvenProduct(a: int, p: int)
    requires p % 2 == 0
    ensures (a * p) % 2 == 0
  {
    assert a * p == 2 * (a * (p / 2));
  }

  /** Adding an even number commutes with the sticky bit. */
  lemma StickyAdd(v: nat, n: nat, d: nat)
    requires d > 0 && v % 2 == 0
    ensures Sticky(v * d + n, d) == v + Sticky(n, d)
  {
    hide *;
    var q, r := Divide(n, d);
    StickyChar(n, d, q, r);
    Distribute(v, q, d);
    StickyChar(v * d + n, d, v + q, r);
    SetBit0Add(v, q);
  }

  /** So does subtracting from an even number. */
  lemma StickySub(v: nat, n: nat, d: nat)
    requires d > 0 && v % 2 == 0 && n <= v * d
    ensures Sticky(n, d) <= v
    ensures Sticky(v * d - n, d) == v - Sticky(n, d)
  {
    hide *;
    var q, r := Divide(n, d);
    StickyChar(n, d, q, r);
    if r == 0 {
      MulCancel(v, q, d);
      Distribute(v, q, d);
      StickyChar(v * d - n, d, v - q, 0);
    } else {
      MulCancel(q, v, d);
      Distribute(v - 1, q, d);
      Distribute(v, 1, d);
      StickyChar(v * d - n, d, v - 1 - q, d - r);
      SetBit0Sub(v, q);
    }
  }

  lemma SetBit0Sub(v: nat, q: nat)
    requires v % 2 == 0 && q < v
    ensures SetBit0(q) <= v && SetBit0(v - 1 - q) == v - SetBit0(q)
  {}
}

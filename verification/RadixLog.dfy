/** mul_log2_radix (dtoa.c:461-488): floor(a / log2(radix)) from a 24-bit
    reciprocal, and everything the tables promise about powers of a radix. */
module RadixLog {
  import opened Powers
  import opened RadixTables

  lemma {:induction false} PowMonotoneBoth(x: nat, i: nat, y: nat, j: nat, n: nat)
    requires Pow(x, i) <= Pow(y, j)
    ensures Pow(x, i * n) <= Pow(y, j * n)
  {
    if n > 0 {
      PowMonotoneBoth(x, i, y, j, n - 1);
      PowOneMore(x, i, n);
      PowOneMore(y, j, n);
      hide *;
      MulMonotone(Pow(x, i), Pow(y, j), Pow(x, i * (n - 1)));
      MulMonotone(Pow(x, i * (n - 1)), Pow(y, j * (n - 1)), Pow(y, j));
      MulCommute(Pow(y, j), Pow(x, i * (n - 1)));
      MulCommute(Pow(y, j), Pow(y, j * (n - 1)));
    }
  }

  lemma PowOneMore(x: nat, i: nat, n: nat)
    requires n > 0
    ensures Pow(x, i * n) == Pow(x, i) * Pow(x, i * (n - 1))
  {
    assert i * n == i + i * (n - 1);
    PowAdd(x, i, i * (n - 1));
  }

  lemma {:induction false} PowStrictBoth(x: nat, i: nat, y: nat, j: nat, n: nat)
    requires Pow(x, i) < Pow(y, j) && n > 0 && y > 0
    ensures Pow(x, i * n) < Pow(y, j * n)
  {
    if n > 1 {
      PowStrictBoth(x, i, y, j, n - 1);
      PowOneMore(x, i, n);
      PowOneMore(y, j, n);
      PowPositive(y, j);
      hide *;
      MulMonotone(Pow(x, i), Pow(y, j), Pow(x, i * (n - 1)));
      MulStrict(Pow(x, i * (n - 1)), Pow(y, j * (n - 1)), Pow(y, j));
      MulCommute(Pow(y, j), Pow(x, i * (n - 1)));
      MulCommute(Pow(y, j), Pow(y, j * (n - 1)));
    }
  }

  /** A fraction strictly between Farey neighbours p1/q1 < p2/q2 has a
      denominator of at least q1 + q2. */
  lemma FareyGap(p1: nat, q1: nat, p2: nat, q2: nat, k: nat, a: nat)
    requires p2 * q1 - p1 * q2 == 1
    requires p1 * a < k * q1 && k * q2 < p2 * a
    ensures a >= q1 + q2
  {
    var x, y := k * q1 - p1 * a, p2 * a - k * q2;
    assert a == q2 * x + q1 * y by {
      assert q2 * x == q2 * (k * q1) - q2 * (p1 * a);
      assert q1 * y == q1 * (p2 * a) - q1 * (k * q2);
      assert q1 * (p2 * a) == (p2 * q1) * a && q2 * (p1 * a) == (p1 * q2) * a;
      assert (p2 * q1) * a - (p1 * q2) * a == a by { Distribute(p2 * q1, p1 * q2, a); }
      assert q1 * (k * q2) == q2 * (k * q1);
    }
    MulMonotone(1, x, q2);
    MulMonotone(1, y, q1);
  }

  /** p/q is strictly below 1 / log2(r), or strictly above. */
  ghost predicate BelowLog(r: nat, p: nat, q: nat) {
    Pow(r, p) < Pow(2, q)
  }

  ghost predicate AboveLog(r: nat, p: nat, q: nat) {
    Pow(2, q) < Pow(r, p)
  }

  lemma BelowMeansLess(r: nat, p: nat, q: nat, k: nat, a: nat)
    requires r >= 2 && q > 0 && a > 0 && BelowLog(r, p, q) && k * q <= p * a
    ensures Pow(r, k) < Pow(2, a)
  {
    hide Pow;
    MulCommute(a, q);
    if Pow(2, a) <= Pow(r, k) {
      PowMonotoneBoth(2, a, r, k, q);
      PowStrictBoth(r, p, 2, q, a);
      PowMonotone(r, k * q, p * a);
      assert false;
    }
  }

  lemma AboveMeansMore(r: nat, p: nat, q: nat, k: nat, a: nat)
    requires r >= 2 && q > 0 && a > 0 && AboveLog(r, p, q) && p * a <= k * q
    ensures Pow(2, a) < Pow(r, k)
  {
    hide Pow;
    MulCommute(a, q);
    if Pow(r, k) <= Pow(2, a) {
      PowMonotoneBoth(r, k, 2, a, q);
      PowStrictBoth(2, q, r, p, a);
      PowMonotone(r, p * a, k * q);
      assert false;
    }
  }

  const UNIT: nat := 0x100_0000

  lemma CrossBelow(p: nat, q: nat, k: nat, a: nat, mult: nat)
    requires p * UNIT < mult * q && a * mult <= k * UNIT && a > 0
    ensures p * a < k * q
  {
    hide *;
    var u := UNIT;
    if k * q <= p * a {
      assert (k * u) * q == (k * q) * u && (p * a) * u == (p * u) * a && (mult * q) * a == (a * mult) * q;
      MulMonotone(a * mult, k * u, q);
      MulMonotone(k * q, p * a, u);
      MulStrict(p * u, mult * q, a);
      assert false;
    }
  }

  lemma CrossAbove(p: nat, q: nat, k: nat, a: nat, mult: nat)
    requires mult * q < p * UNIT && k * UNIT <= a * mult && a > 0
    ensures k * q < p * a
  {
    hide *;
    var u := UNIT;
    if p * a <= k * q {
      assert (k * u) * q == (k * q) * u && (p * a) * u == (p * u) * a && (mult * q) * a == (a * mult) * q;
      MulMonotone(k * u, a * mult, q);
      MulMonotone(p * a, k * q, u);
      MulStrict(mult * q, p * u, a);
      assert false;
    }
  }

  /** If mult / 2^24 and 1 / log2(r) lie between the same Farey neighbours, they
      compare alike with every k / a of small denominator. */
  lemma SameSide(r: nat, p1: nat, q1: nat, p2: nat, q2: nat, mult: nat, k: nat, a: nat)
    requires r >= 2 && q1 > 0 && q2 > 0 && p2 * q1 - p1 * q2 == 1 && 0 < a < q1 + q2
    requires BelowLog(r, p1, q1) && AboveLog(r, p2, q2)
    requires p1 * UNIT < mult * q1 && mult * q2 < p2 * UNIT
    ensures k * UNIT < a * mult ==> Pow(r, k) < Pow(2, a)
    ensures k * UNIT > a * mult ==> Pow(2, a) < Pow(r, k)
    ensures k * UNIT != a * mult
  {
    hide *;
    if k * UNIT <= a * mult {
      CrossAbove(p2, q2, k, a, mult);
      if p1 * a < k * q1 {
        FareyGap(p1, q1, p2, q2, k, a);
        assert false;
      }
      if a * mult <= k * UNIT {
        CrossBelow(p1, q1, k, a, mult);
        assert false;
      }
      BelowMeansLess(r, p1, q1, k, a);
    } else {
      CrossBelow(p1, q1, k, a, mult);
      if k * q2 < p2 * a {
        FareyGap(p1, q1, p2, q2, k, a);
        assert false;
      }
      AboveMeansMore(r, p2, q2, k, a);
    }
  }

  lemma PowTwo(n: nat)
    ensures Pow(2, n) == Pow2(n)
  {
    PowOfPow2(1, n);
    assert Pow2(1) == 2;
  }

  lemma TableNeighbours(radix: nat)
    requires TableRadix(radix)
    ensures Neighbours(BELOW[radix - 2], ABOVE[radix - 2])
    ensures BelowMult(BELOW[radix - 2], MUL_LOG2_RADIX[radix - 2])
    ensures AboveMult(ABOVE[radix - 2], MUL_LOG2_RADIX[radix - 2])
  {
    hide Neighbours, BelowMult, AboveMult;
    AreNeighbours(radix);
    BelowIsBelow(radix);
    AboveIsAbove(radix);
  }

  predicate Neighbours(lo: (nat, nat), hi: (nat, nat)) {
    lo.1 > 0 && hi.1 > 0 && hi.0 * lo.1 - lo.0 * hi.1 == 1 && lo.1 + hi.1 > 2048
  }

  predicate BelowMult(lo: (nat, nat), mult: nat) {
    lo.0 * UNIT < mult * lo.1
  }

  predicate AboveMult(hi: (nat, nat), mult: nat) {
    mult * hi.1 < hi.0 * UNIT
  }

  lemma AreNeighbours(radix: nat)
    requires TableRadix(radix)
    ensures Neighbours(BELOW[radix - 2], ABOVE[radix - 2])
  {
    hide Neighbours;
    if radix <= 13 {
      NeighboursTo13(radix);
    } else if radix <= 25 {
      NeighboursTo25(radix);
    } else {
      NeighboursTo36(radix);
    }
  }

  lemma NeighboursTo13(radix: nat)
    requires TableRadix(radix) && radix <= 13
    ensures Neighbours(BELOW[radix - 2], ABOVE[radix - 2])
  {}

  lemma NeighboursTo25(radix: nat)
    requires TableRadix(radix) && 13 < radix <= 25
    ensures Neighbours(BELOW[radix - 2], ABOVE[radix - 2])
  {}

  lemma NeighboursTo36(radix: nat)
    requires TableRadix(radix) && 25 < radix
    ensures Neighbours(BELOW[radix - 2], ABOVE[radix - 2])
  {}

  lemma BelowIsBelow(radix: nat)
    requires TableRadix(radix)
    ensures BelowMult(BELOW[radix - 2], MUL_LOG2_RADIX[radix - 2])
  {}

  lemma AboveIsAbove(radix: nat)
    requires TableRadix(radix)
    ensures AboveMult(ABOVE[radix - 2], MUL_LOG2_RADIX[radix - 2])
  {}

  function Mult(radix: nat): (m: nat)
    requires TableRadix(radix)
    ensures m >= 1
  {
    MUL_LOG2_RADIX[radix - 2]
  }

  /** The table decides every comparison of radix^k with 2^a up to a = 2048. */
  lemma TableDecides(radix: nat, k: nat, a: nat)
    requires TableRadix(radix) && 0 < a <= 2048
    ensures k * UNIT < a * Mult(radix) ==> Pow(radix, k) < Pow2(a)
    ensures k * UNIT > a * Mult(radix) ==> Pow2(a) < Pow(radix, k)
    ensures k * UNIT != a * Mult(radix)
  {
    TableNeighbours(radix);
    hide FastPow, Pow;
    Brackets(radix);
    var (p1, q1) := BELOW[radix - 2];
    var (p2, q2) := ABOVE[radix - 2];
    FastPowIsPow(radix, p1);
    FastPowIsPow(2, q1);
    FastPowIsPow(radix, p2);
    FastPowIsPow(2, q2);
    PowTwo(a);
    SameSide(radix, p1, q1, p2, q2, Mult(radix), k, a);
  }

  /** log2(radix) for a power of two, as 31 - clz32(radix). */
  function RadixBits(radix: nat): nat
    requires PowerOfTwo(radix)
  {
    BitLen(radix) - 1
  }

  lemma RadixBitsCorrect(radix: nat)
    requires PowerOfTwo(radix)
    ensures 1 <= RadixBits(radix) <= 5 && Pow2(RadixBits(radix)) == radix
  {
    assert Pow2(1) == 2 && Pow2(2) == 4 && Pow2(3) == 8 && Pow2(4) == 16 && Pow2(5) == 32 && Pow2(6) == 64;
    BitLenUnique(2, 2);
    BitLenUnique(4, 3);
    BitLenUnique(8, 4);
    BitLenUnique(16, 5);
    BitLenUnique(32, 6);
  }

  /** The test the tables allow for 2^a <= radix^k. */
  predicate TableAtLeast(radix: nat, k: int, a: int)
    requires IsRadix(radix)
  {
    if PowerOfTwo(radix) then k * RadixBits(radix) >= a else k * UNIT > a * Mult(radix)
  }

  /** The test the tables allow for radix^k <= 2^a. */
  predicate TableAtMost(radix: nat, k: int, a: int)
    requires IsRadix(radix)
  {
    if PowerOfTwo(radix) then k * RadixBits(radix) <= a else k * UNIT <= a * Mult(radix)
  }

  lemma AtLeast(radix: nat, k: nat, a: nat)
    requires IsRadix(radix) && a <= 2048 && TableAtLeast(radix, k, a)
    ensures Pow2(a) <= Pow(radix, k)
  {
    if a == 0 {
      PowPositive(radix, k);
    } else if PowerOfTwo(radix) {
      BitsPower(radix, k);
      Pow2Monotone(a, k * RadixBits(radix));
    } else {
      TableDecides(radix, k, a);
    }
  }

  lemma AtMost(radix: nat, k: nat, a: nat)
    requires IsRadix(radix) && a <= 2048 && TableAtMost(radix, k, a)
    ensures Pow(radix, k) <= Pow2(a)
  {
    hide Pow, Pow2, Mult, RadixBits, PowerOfTwo;
    if PowerOfTwo(radix) {
      BitsPower(radix, k);
      Pow2Monotone(k * RadixBits(radix), a);
    } else if a > 0 {
      TableDecides(radix, k, a);
    } else {
      PowZeroth(radix);
    }
  }

  lemma PowZeroth(b: nat)
    ensures Pow(b, 0) == Pow2(0) == 1
  {}

  /** Whenever AtLeast does not apply, radix^k is strictly smaller. */
  lemma NotAtLeast(radix: nat, k: nat, a: nat)
    requires IsRadix(radix) && 0 < a <= 2048 && !TableAtLeast(radix, k, a)
    ensures Pow(radix, k) < Pow2(a)
  {
    hide Pow, Pow2;
    if PowerOfTwo(radix) {
      BitsPower(radix, k);
      Pow2Monotone(k * RadixBits(radix), a - 1);
      Pow2Next(a - 1);
    } else {
      TableDecides(radix, k, a);
    }
  }

  lemma BitsPower(radix: nat, k: nat)
    requires PowerOfTwo(radix)
    ensures Pow(radix, k) == Pow2(k * RadixBits(radix))
  {
    RadixBitsCorrect(radix);
    PowOfPow2(RadixBits(radix), k);
    MulCommute(k, RadixBits(radix));
  }

  lemma NotBoth(radix: nat, k: nat, a: nat)
    requires IsRadix(radix) && a <= 2048 && !TableAtMost(radix, k, a)
    ensures Pow2(a) < Pow(radix, k)
  {
    if PowerOfTwo(radix) {
      BitsPower(radix, k);
      Pow2Monotone(a + 1, k * RadixBits(radix));
    } else if a > 0 {
      TableDecides(radix, k, a);
    } else {
      PowMonotone(radix, 1, k);
      assert Pow(radix, 1) == radix;
    }
  }

  /** radix^k <= 2^a, for exponents of either sign. */
  ghost predicate PowAtMost(radix: nat, k: int, a: int) {
    Pow(radix, Pos(k)) * Pow2(Pos(0 - a)) <= Pow2(Pos(a)) * Pow(radix, Pos(0 - k))
  }

  function Pos(v: int): nat {
    if v >= 0 then v else 0
  }

  /** C division, truncating towards zero. */
  function TruncDiv(a: int, b: nat): int
    requires b > 0
  {
    if a >= 0 then a / b else 0 - (0 - a) / b
  }

  function MulLog2Radix(a: int, radix: nat): int
    requires IsRadix(radix)
  {
    if PowerOfTwo(radix) then
      RadixBitsCorrect(radix);
      var bits := RadixBits(radix);
      TruncDiv(if a < 0 then a - (bits - 1) else a, bits)
    else
      a * Mult(radix) / UNIT
  }

  /** Both branches round down. */
  lemma LogIsFloor(a: int, radix: nat)
    requires IsRadix(radix)
    ensures TableAtMost(radix, MulLog2Radix(a, radix), a)
    ensures !TableAtMost(radix, MulLog2Radix(a, radix) + 1, a)
  {
    if PowerOfTwo(radix) {
      RadixBitsCorrect(radix);
      TruncFloor(a, RadixBits(radix));
    } else {
      var n := a * Mult(radix);
      assert n == n / UNIT * UNIT + n % UNIT;
    }
  }

  lemma TruncFloor(a: int, b: nat)
    requires 1 <= b <= 5
    ensures var q := TruncDiv(if a < 0 then a - (b - 1) else a, b); q * b <= a < (q + 1) * b
  {
    if b == 1 {} else if b == 2 {} else if b == 3 {} else if b == 4 {} else {}
  }

  lemma ComparisonAt(radix: nat, k: int, a: int)
    requires IsRadix(radix) && 0 - 2048 <= a <= 2048
    ensures PowAtMost(radix, k, a) <==> TableAtMost(radix, k, a)
  {
    PowZeroth(radix);
    hide Pow, Pow2, Mult, RadixBits, PowerOfTwo;
    if k >= 0 && a >= 0 {
      hide *;
      NonNegativePowers(radix, k, a);
      BothNonNegative(radix, k, a);
    } else if a >= 0 {
      MultPositive(radix);
      PowPositive(radix, 0 - k);
      MulMonotone(1, Pow2(a), Pow(radix, 0 - k));
    } else if k >= 0 {
      AtLeastTwo(0 - a);
      MultPositive(radix);
      PowPositive(radix, k);
      MulMonotone(1, Pow(radix, k), Pow2(0 - a));
    } else {
      BelowZero(radix, 0 - k, 0 - a);
    }
  }

  lemma NonNegativePowers(radix: nat, k: nat, a: nat)
    ensures PowAtMost(radix, k, a) <==> Pow(radix, k) <= Pow2(a)
  {}

  lemma AtLeastTwo(n: nat)
    requires n > 0
    ensures Pow2(n) >= 2
  {}

  lemma BothNonNegative(radix: nat, k: nat, a: nat)
    requires IsRadix(radix) && a <= 2048
    ensures Pow(radix, k) <= Pow2(a) <==> TableAtMost(radix, k, a)
  {
    hide *;
    if TableAtMost(radix, k, a) {
      AtMost(radix, k, a);
    } else {
      NotBoth(radix, k, a);
    }
  }

  lemma MultPositive(radix: nat)
    requires IsRadix(radix)
    ensures PowerOfTwo(radix) ==> RadixBits(radix) >= 1
  {
    if PowerOfTwo(radix) {
      RadixBitsCorrect(radix);
    }
  }

  lemma BelowZero(radix: nat, k: nat, a: nat)
    requires IsRadix(radix) && 0 < a <= 2048
    ensures Pow2(a) <= Pow(radix, k) <==> TableAtMost(radix, 0 - k, 0 - a)
  {
    hide Pow, Pow2, PowerOfTwo;
    if PowerOfTwo(radix) {
      hide RadixBits;
      NegatedCompare(k, RadixBits(radix), a, 1);
    } else {
      hide Mult;
      TableDecides(radix, k, a);
      NegatedCompare(k, UNIT, a, Mult(radix));
    }
    hide RadixBits, Mult;
    if TableAtLeast(radix, k, a) {
      AtLeast(radix, k, a);
    } else {
      NotAtLeast(radix, k, a);
    }
  }

  lemma NegatedCompare(k: int, u: int, a: int, m: int)
    ensures (0 - k) * u <= (0 - a) * m <==> a * m <= k * u
  {
    Distribute(0, k, u);
    Distribute(0, a, m);
  }

  /** mul_log2_radix is floor(a / log2(radix)) on its whole documented range:
      radix^r <= 2^a < radix^(r + 1). */
  lemma MulLog2RadixCorrect(a: int, radix: nat)
    requires IsRadix(radix) && 0 - 2048 <= a <= 2047
    ensures PowAtMost(radix, MulLog2Radix(a, radix), a)
    ensures !PowAtMost(radix, MulLog2Radix(a, radix) + 1, a)
  {
    hide PowAtMost, MulLog2Radix, TableAtMost;
    LogIsFloor(a, radix);
    ComparisonAt(radix, MulLog2Radix(a, radix), a);
    ComparisonAt(radix, MulLog2Radix(a, radix) + 1, a);
  }

  /** dtoa_max_digits: enough digits for 53 bits and two spare factors of two
      in a 64 bit word. */
  lemma DtoaDigits(radix: nat)
    requires IsRadix(radix)
    ensures DtoaMaxDigits(radix) >= 1
    ensures Pow2(53) <= Pow(radix, DtoaMaxDigits(radix) - 1)
    ensures 2 * Pow(radix, DtoaMaxDigits(radix)) < Pow2(64)
  {
    hide Pow, Pow2, Mult, RadixBits, TableAtLeast, TableAtMost;
    DtoaDigitsTable(radix);
    DigitPowers(radix, DtoaMaxDigits(radix));
  }

  /** And no more than enough: one digit less than the search starts with falls short. */
  lemma DtoaDigitsLeast(radix: nat)
    requires IsRadix(radix)
    ensures DtoaMaxDigits(radix) >= 2 && Pow(radix, DtoaMaxDigits(radix) - 2) < Pow2(53)
  {
    hide Pow, Pow2, Mult, TableAtLeast, TableAtMost;
    if TableRadix(radix) {
      DtoaTableLeast(radix);
      TableDecides(radix, DtoaMaxDigits(radix) - 2, 53);
    } else {
      BitsTable();
      BitsPower(radix, DtoaMaxDigits(radix) - 2);
      Pow2Monotone((DtoaMaxDigits(radix) - 2) * RadixBits(radix), 52);
      Pow2Next(52);
      DtoaBits(radix);
    }
  }

  lemma DtoaBits(radix: nat)
    requires PowerOfTwo(radix)
    ensures DtoaMaxDigits(radix) >= 2 && (DtoaMaxDigits(radix) - 2) * RadixBits(radix) <= 52
  {
    BitsTable();
  }

  lemma DtoaTableLeast(radix: nat)
    requires TableRadix(radix)
    ensures DtoaMaxDigits(radix) >= 2 && (DtoaMaxDigits(radix) - 2) * UNIT < 53 * Mult(radix)
  {}

  lemma DigitPowers(radix: nat, p: nat)
    requires IsRadix(radix) && p >= 1 && TableAtLeast(radix, p - 1, 53) && !TableAtLeast(radix, p, 63)
    ensures Pow2(53) <= Pow(radix, p - 1) && 2 * Pow(radix, p) < Pow2(64)
  {
    hide *;
    AtLeast(radix, p - 1, 53);
    NotAtLeast(radix, p, 63);
    Pow2Next(63);
  }

  lemma DtoaDigitsTable(radix: nat)
    requires IsRadix(radix)
    ensures DtoaMaxDigits(radix) >= 1
    ensures TableAtLeast(radix, DtoaMaxDigits(radix) - 1, 53)
    ensures !TableAtLeast(radix, DtoaMaxDigits(radix), 63)
  {
    hide RadixBits;
    if TableRadix(radix) {
      hide DtoaMaxDigits, Mult;
      DtoaTableOf(radix);
    } else {
      BitsTable();
    }
  }

  lemma DtoaTableOf(radix: nat)
    requires TableRadix(radix)
    ensures DtoaMaxDigits(radix) >= 1
    ensures 53 * Mult(radix) < (DtoaMaxDigits(radix) - 1) * UNIT
    ensures DtoaMaxDigits(radix) * UNIT <= 63 * Mult(radix)
  {}

  lemma BitsTable()
    ensures RadixBits(2) == 1 && RadixBits(4) == 2 && RadixBits(8) == 3 && RadixBits(16) == 4 && RadixBits(32) == 5
  {}

  /** The exponents from which a number surely overflows or underflows. */
  lemma ExponentLimits(radix: nat)
    requires IsRadix(radix)
    ensures Pow2(1024) <= Pow(radix, MaxExponent(radix))
    ensures MinExponent(radix) < 0 && Pow2(1075) <= Pow(radix, 0 - MinExponent(radix))
  {
    hide Pow, Pow2, Mult, RadixBits, TableAtLeast, MaxExponent, MinExponent;
    MaxTable(radix);
    MinTable(radix);
    AtLeast(radix, MaxExponent(radix), 1024);
    AtLeast(radix, 0 - MinExponent(radix), 1075);
  }

  lemma MaxTable(radix: nat)
    requires IsRadix(radix)
    ensures TableAtLeast(radix, MaxExponent(radix), 1024)
  {
    hide RadixBits;
    if TableRadix(radix) {
      hide MaxExponent, Mult;
      MaxTableOf(radix);
    } else {
      BitsTable();
    }
  }

  lemma MaxTableOf(radix: nat)
    requires TableRadix(radix)
    ensures MaxExponent(radix) * UNIT > 1024 * Mult(radix)
  {}

  lemma MinTable(radix: nat)
    requires IsRadix(radix)
    ensures MinExponent(radix) < 0 && TableAtLeast(radix, 0 - MinExponent(radix), 1075)
  {
    BitsTable();
    hide RadixBits;
  }

  /** atod_max_digits keeps a numeral within 128 bits. */
  lemma AtodDigits(radix: nat)
    requires IsRadix(radix)
    ensures Pow(radix, AtodMaxDigits(radix)) <= Pow2(128)
  {
    AtodTable(radix);
    hide *;
    AtMost(radix, AtodMaxDigits(radix), 128);
  }

  /** One digit more would be out of 128 bits, in the radices whose surplus digits are
      dropped. */
  lemma AtodDigitsMost(radix: nat)
    requires TableRadix(radix)
    ensures Pow2(128) < Pow(radix, AtodMaxDigits(radix) + 1)
  {
    AtodTableMost(radix);
    hide *;
    TableDecides(radix, AtodMaxDigits(radix) + 1, 128);
  }

  lemma AtodTableMost(radix: nat)
    requires TableRadix(radix)
    ensures (AtodMaxDigits(radix) + 1) * UNIT > 128 * Mult(radix)
  {}

  lemma AtodTable(radix: nat)
    requires IsRadix(radix)
    ensures TableAtMost(radix, AtodMaxDigits(radix), 128)
  {
    BitsTable();
  }

  /** The exponent limits are tight enough for what lies between them. */
  lemma ExponentSlack(radix: nat)
    requires IsRadix(radix)
    ensures MaxExponent(radix) >= 1 && Pow(radix, MaxExponent(radix) - 1) < Pow2(1024)
    ensures MinExponent(radix) < 0 && Pow(radix, 0 - MinExponent(radix)) <= Pow2(1085)
  {
    hide Pow, Pow2, Mult, RadixBits, TableAtLeast, TableAtMost, MaxExponent, MinExponent;
    SlackTable(radix);
    NotAtLeast(radix, MaxExponent(radix) - 1, 1024);
    AtMost(radix, 0 - MinExponent(radix), 1085);
  }

  lemma SlackTable(radix: nat)
    requires IsRadix(radix)
    ensures MaxExponent(radix) >= 1 && !TableAtLeast(radix, MaxExponent(radix) - 1, 1024)
    ensures MinExponent(radix) < 0 && TableAtMost(radix, 0 - MinExponent(radix), 1085)
  {
    hide RadixBits;
    if TableRadix(radix) {
      hide MaxExponent, MinExponent, Mult;
      SlackMax(radix);
      SlackMin(radix);
    } else {
      BitsTable();
    }
  }

  lemma SlackMax(radix: nat)
    requires TableRadix(radix)
    ensures MaxExponent(radix) >= 1 && (MaxExponent(radix) - 1) * UNIT <= 1024 * Mult(radix)
  {}

  lemma SlackMin(radix: nat)
    requires TableRadix(radix)
    ensures MinExponent(radix) < 0 && (0 - MinExponent(radix)) * UNIT <= 1085 * Mult(radix)
  {}

  /** Powers of two keep at least 55 bits of digits. */
  lemma AtodBits(radix: nat)
    requires PowerOfTwo(radix)
    ensures AtodMaxDigits(radix) >= 1 && (AtodMaxDigits(radix) - 1) * RadixBits(radix) >= 54
  {
    hide RadixBits;
    BitsTable();
  }
}

/** Natural-number powers and the few facts about products and quotients that
    the rest of the project needs. */
module Powers {

  function Pow(b: nat, n: nat): nat {
    if n == 0 then 1 else b * Pow(b, n - 1)
  }

  function Pow2(n: nat): (r: nat)
    ensures r >= 1
  {
    if n == 0 then 1 else 2 * Pow2(n - 1)
  }

  function Abs(v: int): nat {
    if v < 0 then 0 - v else v
  }

  function Square(v: int): int {
    v * v
  }

  lemma Pow2Next(n: nat)
    ensures Pow2(n + 1) == 2 * Pow2(n)
  {}

  /** n / d, with what proofs use of it. */
  function Quot(n: nat, d: nat): (q: nat)
    requires d > 0
    ensures q * d <= n < q * d + d
    ensures q <= n && (d >= 2 ==> 2 * q <= n)
  {
    HalfOrLess(n, d);
    n / d
  }

  /** n % d, likewise. */
  function Rem(n: nat, d: nat): (r: nat)
    requires d > 0
    ensures r < d && n == Quot(n, d) * d + r
  {
    n % d
  }

  lemma QuotUnique(n: nat, d: nat, q: nat, r: nat)
    requires n == q * d + r && r < d
    ensures Quot(n, d) == q && Rem(n, d) == r
  {
    DivUnique(n, d, q, r);
  }

  /** a >> s on a number of any width. */
  function ShiftRight(a: nat, s: nat): (r: nat)
    ensures r <= a && (s >= 1 ==> 2 * r <= a)
  {
    assert s >= 1 ==> Pow2(s) == 2 * Pow2(s - 1);
    Quot(a, Pow2(s))
  }

  /** The bits a >> s loses. */
  function ShiftedOut(a: nat, s: nat): (r: nat)
    ensures a == ShiftRight(a, s) * Pow2(s) + r && r < Pow2(s)
  {
    a - Quot(a, Pow2(s)) * Pow2(s)
  }

  lemma {:induction false} Pow2Add(a: nat, b: nat)
    ensures Pow2(a + b) == Pow2(a) * Pow2(b)
  {
    if a != 0 {
      Pow2Add(a - 1, b);
    }
  }

  lemma {:induction false} Pow2Monotone(a: nat, b: nat)
    requires a <= b
    ensures Pow2(a) <= Pow2(b)
  {
    if a < b {
      Pow2Monotone(a, b - 1);
    }
  }

  lemma {:induction false} PowPositive(b: nat, n: nat)
    requires b >= 1
    ensures Pow(b, n) >= 1
  {
    if n != 0 {
      PowPositive(b, n - 1);
    }
  }

  lemma {:induction false} PowAdd(b: nat, m: nat, n: nat)
    ensures Pow(b, m + n) == Pow(b, m) * Pow(b, n)
  {
    if m != 0 {
      PowAdd(b, m - 1, n);
      MulAssoc(b, Pow(b, m - 1), Pow(b, n));
    }
  }

  lemma {:induction false} PowMonotone(b: nat, m: nat, n: nat)
    requires b >= 1 && m <= n
    ensures Pow(b, m) <= Pow(b, n)
  {
    if m < n {
      PowMonotone(b, m, n - 1);
      PowPositive(b, n - 1);
      MulMonotone(1, b, Pow(b, n - 1));
    }
  }

  lemma {:induction false} PowOfProduct(a: nat, b: nat, n: nat)
    ensures Pow(a * b, n) == Pow(a, n) * Pow(b, n)
  {
    if n != 0 {
      PowOfProduct(a, b, n - 1);
      var x, y := Pow(a, n - 1), Pow(b, n - 1);
      assert (a * b) * (x * y) == (a * x) * (b * y) by {
        MulAssoc(a * b, x, y);
        MulAssoc(a, b, x);
        MulAssoc(a, x, b);
        MulAssoc(a * x, b, y);
      }
    }
  }

  lemma {:induction false} PowOfPow2(k: nat, n: nat)
    ensures Pow(Pow2(k), n) == Pow2(k * n)
  {
    if n != 0 {
      PowOfPow2(k, n - 1);
      assert k * n == k + k * (n - 1);
      Pow2Add(k, k * (n - 1));
    }
  }

  /** 2^a for the exponents that occur as machine constants. */
  lemma Pow2Constants()
    ensures Pow2(10) == 0x400
    ensures Pow2(11) == 0x800
    ensures Pow2(31) == 0x8000_0000
    ensures Pow2(32) == 0x1_0000_0000
    ensures Pow2(52) == 0x10_0000_0000_0000
    ensures Pow2(53) == 0x20_0000_0000_0000
    ensures Pow2(63) == 0x8000_0000_0000_0000
    ensures Pow2(64) == 0x1_0000_0000_0000_0000
  {
    assert Pow2(10) == 0x400;
    assert Pow2(20) == 0x10_0000;
    Pow2Add(20, 11);
    Pow2Add(21, 31);
    Pow2Add(32, 32);
  }

  lemma MulAssoc(a: int, b: int, c: int)
    ensures a * (b * c) == (a * b) * c
  {}

  lemma MulCommute(a: int, b: int)
    ensures a * b == b * a
  {}

  lemma Distribute(a: int, b: int, c: int)
    ensures (a + b) * c == a * c + b * c
    ensures (a - b) * c == a * c - b * c
  {}

  lemma MulSwap(a: int, b: int, c: int)
    ensures (a * b) * c == (a * c) * b
  {}

  lemma MulMonotone(a: int, b: int, c: int)
    requires a <= b && 0 <= c
    ensures a * c <= b * c
  {}

  lemma MulStrict(a: int, b: int, c: int)
    requires a < b && 0 < c
    ensures a * c < b * c
  {}

  /** Quotient and remainder are determined by the division equation. */
  lemma DivUnique(n: int, d: int, q: int, r: int)
    requires d > 0 && 0 <= r < d && n == q * d + r
    ensures n / d == q && n % d == r
  {
    var q', r' := n / d, n % d;
    assert n == d * q' + r';
    if q < q' {
      MulMonotone(q + 1, q', d);
      assert false;
    } else if q' < q {
      MulMonotone(q' + 1, q, d);
      assert false;
    }
  }

  /** Division as an equation, for proofs that should not see / and %. */
  lemma Divide(n: nat, d: nat) returns (q: nat, r: nat)
    requires d > 0
    ensures n == q * d + r && r < d
  {
    q, r := n / d, n % d;
  }

  lemma HalfOrLess(n: nat, d: nat)
    requires d > 0
    ensures n / d * d <= n < n / d * d + d
    ensures 0 <= n / d <= n
    ensures d >= 2 ==> 2 * (n / d) <= n
  {
    var q, r := n / d, n % d;
    assert n == d * q + r;
    hide *;
    MulMonotone(1, d, q);
    if d >= 2 { MulMonotone(2, d, q); }
  }

  lemma MulCancel(a: int, b: int, c: int)
    requires c > 0
    ensures a * c < b * c <==> a < b
    ensures a * c <= b * c <==> a <= b
    ensures a * c == b * c <==> a == b
  {
    if a < b { MulStrict(a, b, c); }
    if b < a { MulStrict(b, a, c); }
  }

  /** floor(floor(n/a)/b) == floor(n/(a*b)), with the divisibility of the parts. */
  lemma NestedDivision(n: nat, a: nat, b: nat)
    requires a > 0 && b > 0
    ensures a * b > 0
    ensures n / a / b == n / (a * b)
    ensures n % (a * b) == 0 <==> n % a == 0 && n / a % b == 0
  {
    MulStrict(0, a, b);
    var q, r := n / a, n % a;
    var q2, r2 := q / b, q % b;
    assert n == a * q + r;
    assert q == b * q2 + r2;
    var rest := a * r2 + r;
    assert n == q2 * (a * b) + rest by {
      assert a * (b * q2 + r2) == a * (b * q2) + a * r2;
      MulAssoc(a, b, q2);
    }
    assert 0 <= rest < a * b by {
      MulMonotone(r2, b - 1, a);
      assert (b - 1) * a == a * b - a;
    }
    DivUnique(n, a * b, q2, rest);
    if r2 > 0 {
      MulMonotone(1, r2, a);
    }
  }

  /** The number of significant bits: 0 for 0, else the n with 2^(n-1) <= v < 2^n. */
  function BitLen(v: nat): (n: nat)
    ensures v < Pow2(n)
    ensures v > 0 ==> n > 0 && Pow2(n - 1) <= v
  {
    if v == 0 then 0 else 1 + BitLen(v / 2)
  }

  lemma BitLenUnique(v: nat, n: nat)
    requires n > 0 && Pow2(n - 1) <= v < Pow2(n)
    ensures BitLen(v) == n
  {
    var k := BitLen(v);
    if k < n { Pow2Monotone(k, n - 1); }
    if n < k { Pow2Monotone(n, k - 1); }
  }

  lemma BitLenAtMost(v: nat, n: nat)
    requires v < Pow2(n)
    ensures BitLen(v) <= n
  {
    if v > 0 && n < BitLen(v) {
      Pow2Monotone(n, BitLen(v) - 1);
    }
  }

  lemma BitLenAtLeast(v: nat, n: nat)
    requires Pow2(n) <= v
    ensures BitLen(v) > n
  {
    if BitLen(v) <= n { Pow2Monotone(BitLen(v), n); }
  }

  lemma ScaleBetween(lo: int, v: int, hi: int, p: int)
    requires lo <= v < hi && p > 0
    ensures lo * p <= v * p < hi * p
  {
    MulMonotone(lo, v, p);
    MulStrict(v, hi, p);
  }

  lemma ShiftedRange(v: nat, n: nat, s: nat)
    requires n > 0 && Pow2(n - 1) <= v < Pow2(n)
    ensures Pow2(n + s - 1) <= v * Pow2(s) < Pow2(n + s)
  {
    Pow2Add(n, s);
    Pow2Add(n - 1, s);
    assert n + s - 1 == n - 1 + s;
    hide *;
    ScaleBetween(Pow2(n - 1), v, Pow2(n), Pow2(s));
  }

  /** A range scaled by p, with the factor moved next to the bounds. */
  lemma ScaleRange(lo: int, hi: int, d: int, n: int, p: int)
    requires lo * d <= n < hi * d && p > 0
    ensures (lo * p) * d <= n * p < (hi * p) * d
  {
    ScaleBetween(lo * d, n, hi * d, p);
    MulSwap(lo, p, d);
    MulSwap(hi, p, d);
  }

  lemma BitLenShift(v: nat, s: nat)
    requires v > 0
    ensures BitLen(v * Pow2(s)) == BitLen(v) + s
  {
    ShiftedRange(v, BitLen(v), s);
    hide *;
    BitLenUnique(v * Pow2(s), BitLen(v) + s);
  }

  lemma Multiples(x: int)
    ensures (2 * x) % 2 == 0 && (4 * x) % 4 == 0
  {}

  lemma Pow2Even(n: nat)
    requires n > 0
    ensures Pow2(n) % 2 == 0
    ensures n > 1 ==> Pow2(n) % 4 == 0
  {
    Multiples(Pow2(n - 1));
    if n > 1 {
      assert Pow2(n) == 4 * Pow2(n - 2);
      Multiples(Pow2(n - 2));
    }
  }

  /** Splitting a word at a constant: the division equation for / and %. */
  lemma Split(v: nat, unit: nat)
    requires unit > 0
    ensures v == v / unit * unit + v % unit && v % unit < unit
    ensures 0 <= v / unit
  {}

  lemma FiveTimesAny(v: int, b: nat)
    requires 1 <= b <= 5
    ensures v >= 0 ==> 0 <= v * b <= 5 * v
    ensures v <= 0 ==> 5 * v <= v * b <= 0
  {
    if b == 1 {} else if b == 2 {} else if b == 3 {} else if b == 4 {} else {}
  }
}

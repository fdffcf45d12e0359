/** Powers with exponents of either sign, as reals: used inside proofs that
    compare a power of the radix with a power of two. Products go through Times,
    so that proofs can hide what it is and use only the laws they name. */
module RealPow {
  import opened Powers

  function Times(x: real, y: real): real {
    x * y
  }

  lemma TimesCommute(x: real, y: real)
    ensures Times(x, y) == Times(y, x)
  {}

  lemma TimesAssoc(x: real, y: real, z: real)
    ensures Times(x, Times(y, z)) == Times(Times(x, y), z)
  {}

  lemma TimesDistribute(x: real, y: real, z: real)
    ensures Times(x + y, z) == Times(x, z) + Times(y, z)
    ensures Times(x - y, z) == Times(x, z) - Times(y, z)
  {}

  lemma TimesOne(x: real)
    ensures Times(1.0, x) == x && Times(x, 1.0) == x && Times(0.0, x) == 0.0
    ensures Times(2.0, x) == x + x && Times(0.5, x) == x / 2.0
  {}

  lemma TimesPositive(x: real, y: real)
    ensures x > 0.0 && y > 0.0 ==> Times(x, y) > 0.0
    ensures x >= 0.0 && y >= 0.0 ==> Times(x, y) >= 0.0
  {}

  lemma TimesOrder(x: real, y: real, z: real)
    requires z > 0.0
    ensures x < y <==> Times(x, z) < Times(y, z)
    ensures x <= y <==> Times(x, z) <= Times(y, z)
    ensures x == y <==> Times(x, z) == Times(y, z)
  {
    TimesLess(x, y, z);
    TimesLess(y, x, z);
  }

  lemma TimesLess(x: real, y: real, z: real)
    requires z > 0.0
    ensures x < y ==> Times(x, z) < Times(y, z)
  {}

  lemma TimesCast(x: int, y: int)
    ensures Times(x as real, y as real) == (x * y) as real
  {}

  /** b^x. */
  function RPow(b: nat, x: int): (r: real)
    requires b >= 1
    ensures r > 0.0
  {
    PowPositive(b, if x >= 0 then x else 0 - x);
    if x >= 0 then Pow(b, x) as real else 1.0 / (Pow(b, 0 - x) as real)
  }

  lemma RPowNat(b: nat, n: nat)
    requires b >= 1
    ensures RPow(b, n) == Pow(b, n) as real
    ensures Times(RPow(b, 0 - n), RPow(b, n)) == 1.0
  {
    PowPositive(b, n);
  }

  lemma RPowStep(b: nat, x: int)
    requires b >= 1
    ensures RPow(b, x + 1) == Times(RPow(b, x), b as real)
  {
    if x >= 0 {
      assert Pow(b, x + 1) == b * Pow(b, x);
      hide Pow;
      TimesCast(b, Pow(b, x));
    } else {
      var n := 0 - x - 1;
      PowPositive(b, n);
      assert Pow(b, n + 1) == b * Pow(b, n);
      assert Pow(b, 0) == 1;
      hide Pow;
      TimesCast(b, Pow(b, n));
      StepDown(b as real, Pow(b, n) as real);
    }
  }

  lemma StepDown(b: real, p: real)
    requires b > 0.0 && p > 0.0
    ensures 1.0 / p == 1.0 / (b * p) * b
  {}

  lemma {:induction false} RPowAddNat(b: nat, x: int, n: nat)
    requires b >= 1
    ensures RPow(b, x + n) == Times(RPow(b, x), RPow(b, n))
  {
    RPowZero(b);
    hide *;
    if n == 0 {
      TimesOne(RPow(b, x));
    } else {
      RPowAddNat(b, x, n - 1);
      RPowStep(b, x + n - 1);
      RPowStep(b, n - 1);
      TimesAssoc(RPow(b, x), RPow(b, n - 1), b as real);
    }
  }

  lemma RPowZero(b: nat)
    requires b >= 1
    ensures RPow(b, 0) == 1.0
  {}

  lemma RPowAdd(b: nat, x: int, y: int)
    requires b >= 1
    ensures RPow(b, x + y) == Times(RPow(b, x), RPow(b, y))
  {
    hide *;
    if y >= 0 {
      RPowAddNat(b, x, y);
    } else {
      var n := 0 - y;
      RPowAddNat(b, x + y, n);
      RPowNat(b, n);
      TimesAssoc(RPow(b, x + y), RPow(b, n), RPow(b, y));
      TimesCommute(RPow(b, n), RPow(b, y));
      TimesOne(RPow(b, x + y));
    }
  }

  lemma RPowMonotone(b: nat, x: int, y: int)
    requires b >= 1 && x <= y
    ensures RPow(b, x) <= RPow(b, y)
  {
    hide *;
    RPowAdd(b, x, y - x);
    RPowNat(b, y - x);
    PowPositive(b, y - x);
    TimesOrder(1.0, RPow(b, y - x), RPow(b, x));
    TimesOne(RPow(b, x));
    TimesCommute(RPow(b, y - x), RPow(b, x));
  }

  /** 2^x. */
  function Two(x: int): (r: real)
    ensures r > 0.0
  {
    RPow(2, x)
  }

  lemma TwoNat(n: nat)
    ensures Two(n) == Pow2(n) as real
  {
    RPowNat(2, n);
    PowOfPow2(1, n);
    assert Pow2(1) == 2;
  }

  lemma TwoAdd(x: int, y: int)
    ensures Two(x + y) == Times(Two(x), Two(y))
  {
    hide Times, RPow;
    RPowAdd(2, x, y);
  }

  lemma TwoNext(x: int)
    ensures Two(x + 1) == Two(x) + Two(x)
  {
    hide Times, RPow;
    RPowStep(2, x);
    TimesCommute(Two(x), 2.0);
    TimesOne(Two(x));
  }

  lemma TwoMonotone(x: int, y: int)
    requires x <= y
    ensures Two(x) <= Two(y)
  {
    hide RPow;
    RPowMonotone(2, x, y);
  }
}

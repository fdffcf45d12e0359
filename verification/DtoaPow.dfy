/** pow_ui and pow_ui_inv of dtoa.c: the word-sized powers the scaling loops
    multiply and divide by, from tables or by square and multiply. */
module DtoaPow {
  import opened Powers
  import opened Float64
  import opened Limbs
  import opened BigNum
  import opened RadixTables
  import opened RadixLog

  /** The low words of 5^1 .. 5^17, the high words of 5^14 .. 5^17, and the
      reciprocals of the normalised 5^1 .. 5^13. */
  const POW5: seq<limb> := [
    0x00000005, 0x00000019, 0x0000007d, 0x00000271, 0x00000c35, 0x00003d09,
    0x0001312d, 0x0005f5e1, 0x001dcd65, 0x009502f9, 0x02e90edd, 0x0e8d4a51,
    0x48c27395, 0x6bcc41e9, 0x1afd498d, 0x86f26fc1, 0xa2bc2ec5
  ]
  const POW5H: seq<limb> := [0x01, 0x07, 0x23, 0xb1]
  const POW5_INV: seq<limb> := [
    0x99999999, 0x47ae147a, 0x0624dd2f, 0xa36e2eb1, 0x4f8b588e, 0x0c6f7a0b, 0xad7f29ab,
    0x5798ee23, 0x12e0be82, 0xb7cdfd9d, 0x5fd7fe17, 0x19799812, 0xc25c2684
  ]

  lemma Pow5Rows(b: nat)
    requires 1 <= b <= 17
    ensures Pow(5, b) == POW5[b - 1] + if b >= 14 then POW5H[b - 14] * BASE else 0
  {
    assert Pow(5, 9) == 0x1dcd65;
    if b >= 10 {
      PowAdd(5, 9, b - 9);
    }
  }

  lemma MulMod(x: nat, y: nat, m: nat)
    requires m > 0
    ensures 0 <= (x % m) * (y % m) && ((x % m) * (y % m)) % m == (x * y) % m
  {
    var qx, rx := Divide(x, m);
    var qy, ry := Divide(y, m);
    DivUnique(x, m, qx, rx);
    DivUnique(y, m, qy, ry);
    var q, r := Divide(rx * ry, m);
    DivUnique(rx * ry, m, q, r);
    hide *;
    var top := qx * y + rx * qy;
    assert x * y == top * m + rx * ry by {
      Distribute(qx * m, rx, y);
      MulSwap(qx, m, y);
      assert rx * (qy * m + ry) == rx * (qy * m) + rx * ry;
      MulAssoc(rx, qy, m);
      Distribute(qx * y, rx * qy, m);
    }
    Distribute(top, q, m);
    DivUnique(x * y, m, top + q, r);
  }

  /** One step of square and multiply. */
  lemma SquareStep(a: nat, b: nat, i: nat)
    ensures ShiftRight(b, i) == 2 * ShiftRight(b, i + 1) + Bit(b, i)
    ensures var p := Pow(a, ShiftRight(b, i + 1));
            Pow(a, ShiftRight(b, i)) == if Bit(b, i) == 1 then p * p * a else p * p
  {
    var h, q := ShiftRight(b, i + 1), ShiftRight(b, i);
    HalfShift(b, i);
    hide ShiftRight;
    PowAdd(a, h, h);
    if Bit(b, i) == 1 {
      assert q == h + h + 1;
      PowAdd(a, h + h, 1);
      assert Pow(a, 1) == a * Pow(a, 0) == a;
    }
  }

  lemma HalfShift(b: nat, i: nat)
    ensures ShiftRight(b, i) == 2 * ShiftRight(b, i + 1) + Bit(b, i)
    ensures Bit(b, i) <= 1
  {
    BitIs(b, i);
    NestedShift(b, i, 1);
    var v := ShiftRight(b, i);
    hide ShiftRight;
    assert Pow2(1) == 2;
    ShiftUnique(v, 1, v / 2, v % 2);
  }

  /** pow_ui: a^b modulo 2^64. */
  method PowUi(a: limb, b: nat) returns (r: u64)
    ensures r == Pow(a, b) % TWO_64
  {
    PowLow(a);
    hide ShiftRight, Bit, Pow, Pow2;
    if b == 0 {
      return 1;
    }
    if b == 1 {
      return a;
    }
    if (a == 5 || a == 10) && b <= 17 {
      r := PowFromTable(a, b);
      return;
    }
    r := a;
    var n := BitLen(b);
    TopBitOnly(b);
    var i := n - 1;
    while i > 0
      invariant 0 <= i < n
      invariant r == Pow(a, ShiftRight(b, i)) % TWO_64
    {
      i := i - 1;
      SquareStep(a, b, i);
      HalfShift(b, i);
      r := SquareMultiply(Pow(a, ShiftRight(b, i + 1)), r, a, Bit(b, i));
    }
    NestedShift(b, 0, 0);
  }

  lemma PowLow(a: nat)
    ensures Pow(a, 0) == 1 && Pow(a, 1) == a
  {
    assert Pow(a, 1) == a * Pow(a, 0);
  }

  /** One turn of the loop of pow_ui, in 64 bit words that wrap. */
  method SquareMultiply(ghost p: nat, r: u64, a: limb, bit: nat) returns (r': u64)
    requires r == p % TWO_64
    ensures r' == (if bit == 1 then p * p * a else p * p) % TWO_64
  {
    MulMod(p, p, TWO_64);
    r' := r * r % TWO_64;
    if bit == 1 {
      MulMod(p * p, a, TWO_64);
      SmallMod(a);
      r' := r' * a % TWO_64;
    }
  }

  lemma SmallMod(a: limb)
    ensures a % TWO_64 == a
  {}

  method PowFromTable(a: limb, b: nat) returns (r: u64)
    requires (a == 5 || a == 10) && 1 <= b <= 17
    ensures r == Pow(a, b) % TWO_64
  {
    hide Pow, Pow2;
    Pow5Rows(b);
    PowersFit(b);
    r := POW5[b - 1];
    if b >= 14 {
      r := r + POW5H[b - 14] * BASE;
    }
    if a == 10 {
      r := r * Pow2(b) % TWO_64;
    }
  }

  lemma PowersFit(b: nat)
    requires b <= 17
    ensures Pow(10, b) == Pow(5, b) * Pow2(b) && Pow(5, b) <= Pow(10, b) < TWO_64
  {
    PowOfProduct(5, 2, b);
    PowOfPow2(1, b);
    assert Pow2(1) == 2;
    MulMonotone(1, Pow2(b), Pow(5, b));
    PowMonotone(10, b, 17);
    assert Pow(10, 8) == 100000000;
    PowAdd(10, 8, 9);
  }

  lemma TopBitOnly(b: nat)
    requires b > 0
    ensures ShiftRight(b, BitLen(b) - 1) == 1
  {
    var k := BitLen(b) - 1;
    assert Pow2(k + 1) == 2 * Pow2(k);
    hide Pow2, ShiftRight;
    ShiftUnique(b, k, 1, b - Pow2(k));
  }

  /** Shifting a limb until its top bit is set. */
  lemma NormalizeLimb(v: limb)
    requires v != 0
    ensures Clz32(v) < 32 && 0x8000_0000 <= v * Pow2(Clz32(v)) < BASE
  {
    Pow2Constants();
    BitLen32(v);
    var k := BitLen(v);
    ShiftedRange(v, k, 32 - k);
  }

  /** norm is v shifted left until its top bit is set, and inv its reciprocal. */
  ghost predicate InvRow(v: nat, shift: nat, norm: nat, inv: nat) {
    v * FastPow(2, shift) == norm && 0x8000_0000 <= norm < BASE && IsReciprocal(inv, norm)
  }

  lemma InvRows1To3()
    ensures InvRow(0x5, 29, 0xa0000000, 0x99999999)
    ensures InvRow(0x19, 27, 0xc8000000, 0x47ae147a)
    ensures InvRow(0x7d, 25, 0xfa000000, 0x624dd2f)
  {}

  lemma InvRows4To6()
    ensures InvRow(0x271, 22, 0x9c400000, 0xa36e2eb1)
    ensures InvRow(0xc35, 20, 0xc3500000, 0x4f8b588e)
    ensures InvRow(0x3d09, 18, 0xf4240000, 0xc6f7a0b)
  {}

  lemma InvRows7To9()
    ensures InvRow(0x1312d, 15, 0x98968000, 0xad7f29ab)
    ensures InvRow(0x5f5e1, 13, 0xbebc2000, 0x5798ee23)
    ensures InvRow(0x1dcd65, 11, 0xee6b2800, 0x12e0be82)
  {}

  lemma InvRows10To13()
    ensures InvRow(0x9502f9, 8, 0x9502f900, 0xb7cdfd9d)
    ensures InvRow(0x2e90edd, 6, 0xba43b740, 0x5fd7fe17)
    ensures InvRow(0xe8d4a51, 4, 0xe8d4a510, 0x19799812)
    ensures InvRow(0x48c27395, 1, 0x9184e72a, 0xc25c2684)
  {}

  lemma ClzUnique(v: limb, shift: nat)
    requires v != 0 && 0x8000_0000 <= v * Pow2(shift) < BASE
    ensures Clz32(v) == shift
  {
    Pow2Constants();
    LimbConstants();
    BitLenShift(v, shift);
    BitLenUnique(v * Pow2(shift), 32);
  }

  lemma InvRowMeaning(v: limb, shift: nat, norm: nat, inv: limb)
    requires v != 0 && InvRow(v, shift, norm, inv)
    ensures Clz32(v) == shift && IsReciprocal(inv, v * Pow2(shift))
  {
    hide Clz32, Pow2, FastPow;
    FastPowIsPow(2, shift);
    PowTwo(shift);
    ClzUnique(v, shift);
  }

  /** The tabulated reciprocals belong to the tabulated powers. */
  lemma Pow5Inverse(b: nat)
    requires 1 <= b <= 13
    ensures POW5[b - 1] == Pow(5, b) && POW5[b - 1] != 0
    ensures InvRow(POW5[b - 1], CLZ5[b - 1], NORM5[b - 1], POW5_INV[b - 1])
  {
    hide InvRow, Pow;
    Pow5Rows(b);
    InvRows1To3();
    InvRows4To6();
    InvRows7To9();
    InvRows10To13();
  }

  /** clz32 of 5^1 .. 5^13, and those powers normalised. */
  const CLZ5: seq<nat> := [29, 27, 25, 22, 20, 18, 15, 13, 11, 8, 6, 4, 1]
  const NORM5: seq<nat> := [
    0xa0000000, 0xc8000000, 0xfa000000, 0x9c400000, 0xc3500000, 0xf4240000, 0x98968000,
    0xbebc2000, 0xee6b2800, 0x9502f900, 0xba43b740, 0xe8d4a510, 0x9184e72a
  ]

  /** pow_ui_inv: a^b normalised, its reciprocal and the shift. */
  method PowUiInv(a: limb, b: nat) returns (r: limb, rInv: limb, shift: nat)
    requires 0 < Pow(a, b) < BASE
    ensures shift < 32 && r >= 0x8000_0000 && r == Pow(a, b) * Pow2(shift)
    ensures IsReciprocal(rInv, r)
  {
    hide Pow, Pow2, IsReciprocal, UdivNormInit, Clz32;
    if a == 5 && b >= 1 && b <= 13 {
      Pow5Inverse(b);
      r := POW5[b - 1];
      InvRowMeaning(r, CLZ5[b - 1], NORM5[b - 1], POW5_INV[b - 1]);
      shift := Clz32(r);
      NormalizeLimb(r);
      r := r * Pow2(shift);
      rInv := POW5_INV[b - 1];
    } else {
      var p := PowUi(a, b);
      assert p == Pow(a, b);
      shift := Clz32(p);
      NormalizeLimb(p);
      r := p * Pow2(shift);
      UdivNormInitCorrect(r);
      rInv := UdivNormInit(r);
    }
  }
}

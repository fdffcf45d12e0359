/** The integer part of rem_pio2_large (libm.c:790-946): the reduction of a large
    double modulo pi/2 in 64 bit words. */
module RemPio2 {
  import opened Powers
  import opened Float64
  import opened BigNum
  import opened SoftFpMul

  /** The stored digits of 1/(2 pi), the lowest word first, and those of pi/4. */
  const T: seq<u64> := [
    0x1580cc11bf1edaea, 0x9afed7ec47e35742, 0xcf41ce7de294a4ba, 0x5d49eeb1faf97c5e, 0xd3d18fd9a797fa8b,
    0xdb4d9fb3c9f2c26d, 0xfbcbc462d6829b47, 0xc7fe25fff7816603, 0x272117e2ef7e4a0e, 0x4e64758e60d4ce7d,
    0x3a671c09ad17df90, 0xba208d7d4baed121, 0x3f877ac72c4a69cf, 0x01924bba82746487, 0x6dc91b8e909374b8,
    0x7f9458eaf7aef158, 0x36d8a5664f10e410, 0x7f09d5f47d4d3770, 0x28be60db9391054a
  ]
  const T_LEN: nat := 19
  const PIO4_LOW: u64 := 0xc4c6628b80dc1cd1
  const PIO4_HIGH: u64 := 0xc90fdaa22168c234

  /** The number in 64 bit words. */
  function Words(s: seq<u64>): nat {
    if |s| == 0 then 0 else s[0] + TWO_64 * Words(s[1..])
  }

  /** get_u64_at_bit: the word that starts at bit pos. */
  function GetU64AtBit(tab: seq<u64>, pos: nat): nat
    requires pos / 64 < |tab|
  {
    var p, shift := pos / 64, pos % 64;
    ShiftRight(tab[p], shift)
    + (if shift != 0 && p + 1 < |tab| then tab[p + 1] * Pow2(64 - shift) % TWO_64 else 0)
  }

  lemma {:induction false} WordsDrop(s: seq<u64>, p: nat)
    requires p <= |s|
    ensures ShiftRight(Words(s), 64 * p) == Words(s[p..])
  {
    if p == 0 {
      NestedShift(Words(s), 0, 0);
      assert s[0..] == s;
    } else {
      hide ShiftRight, Pow2;
      WordsDrop(s[1..], p - 1);
      assert s[1..][p - 1..] == s[p..];
      var rest := Words(s[1..]);
      Pow2Constants();
      FloatConstants();
      assert Words(s) == rest * TWO_64 + s[0];
      ShiftUnique(Words(s), 64, rest, s[0]);
      NestedShift(Words(s), 64, 64 * (p - 1));
    }
  }

  lemma GetU64Correct(tab: seq<u64>, pos: nat)
    requires pos / 64 < |tab|
    ensures 0 <= GetU64AtBit(tab, pos) < TWO_64
    ensures GetU64AtBit(tab, pos) == Rem(ShiftRight(Words(tab), pos), TWO_64)
  {
    hide ShiftRight, ShiftedOut, Rem, Pow2;
    var p, shift := pos / 64, pos % 64;
    var rest := Words(tab[p + 1..]);
    assert tab[p..][1..] == tab[p + 1..];
    assert Words(tab[p..]) == tab[p] + TWO_64 * rest;
    var next := if p + 1 < |tab| then tab[p + 1] else 0;
    assert exists h: nat :: rest == next + TWO_64 * h by {
      if p + 1 < |tab| {
        assert rest == next + TWO_64 * Words(tab[p + 1..][1..]);
      } else {
        assert rest == next + TWO_64 * 0;
      }
    }
    var h: nat :| rest == next + TWO_64 * h;
    WordsDrop(tab, p);
    NestedShift(Words(tab), 64 * p, shift);
    WordAt(tab[p], next, h, shift, ShiftRight(Words(tab), pos));
    if shift == 0 {
      NestedShift(tab[p], 0, 0);
    }
  }

  /** Three words in a row, shifted: the middle of them decides the word cut out. */
  lemma WordAt(a: u64, next: u64, h: nat, shift: nat, v: nat)
    requires shift < 64 && v == ShiftRight(a + TWO_64 * (next + TWO_64 * h), shift)
    ensures var w := ShiftRight(a, shift) + if shift != 0 then next * Pow2(64 - shift) % TWO_64 else 0;
            0 <= w < TWO_64 && w == Rem(v, TWO_64)
  {
    hide ShiftRight, ShiftedOut, Pow2, Rem;
    FloatConstants();
    if shift == 0 {
      NestedShift(a, 0, 0);
      NestedShift(v, 0, 0);
      NestedShift(a + TWO_64 * (next + TWO_64 * h), 0, 0);
      QuotUnique(v, TWO_64, next + TWO_64 * h, a);
    } else {
      Pow2Constants();
      Pow2Add(64 - shift, shift);
      WordCut(a, next, h, ShiftRight(a, shift), ShiftedOut(a, shift), shift, Pow2(64 - shift), v);
    }
  }

  lemma WordCut(a: u64, next: u64, h: nat, hi: nat, lo: nat, shift: nat, q: nat, v: nat)
    requires a == hi * Pow2(shift) + lo && lo < Pow2(shift) && q * Pow2(shift) == TWO_64
    requires v == ShiftRight(a + TWO_64 * (next + TWO_64 * h), shift)
    ensures 0 <= hi + next * q % TWO_64 < TWO_64 && hi + next * q % TWO_64 == Rem(v, TWO_64)
  {
    hide ShiftRight, ShiftedOut, Pow2, Rem;
    CutWord(a, next, h, hi, lo, Pow2(shift), q);
    ShiftUnique(a + TWO_64 * (next + TWO_64 * h), shift, hi + q * (next + TWO_64 * h), lo);
    QuotUnique(v, TWO_64, next * q / TWO_64 + q * h, hi + next * q % TWO_64);
  }

  lemma CutWord(a: nat, next: nat, h: nat, hi: nat, lo: nat, p: nat, q: nat)
    requires a == hi * p + lo && lo < p && q * p == TWO_64 && a < TWO_64
    ensures a + TWO_64 * (next + TWO_64 * h) == (hi + q * (next + TWO_64 * h)) * p + lo
    ensures 0 <= next * q / TWO_64 && 0 <= hi + next * q % TWO_64 < TWO_64
    ensures hi + q * (next + TWO_64 * h) == (next * q / TWO_64 + q * h) * TWO_64 + (hi + next * q % TWO_64)
  {
    hide *;
    FloatConstants();
    var u := TWO_64;
    var qa, ra := Divide(next, p);
    Distribute(qa * p, ra, q);
    MulAssoc(qa, p, q);
    MulCommute(p, q);
    MulMonotone(ra + 1, p, q);
    Distribute(ra, 1, q);
    MulMonotone(0, ra, q);
    DivUnique(next * q, u, qa, ra * q);
    if hi >= q {
      MulMonotone(q, hi, p);
      assert false;
    }
    var x := next + u * h;
    Distribute(hi, q * x, p);
    MulSwap(q, x, p);
    MulCommute(q, next);
    assert q * (next + u * h) == q * next + q * (u * h);
    MulAssoc(q, u, h);
    MulSwap(q, h, u);
    Distribute(qa, q * h, u);
    MulSwap(q, u, h);
  }

  // ----- the fraction

  /** Where the three words that matter start. */
  function BitPosition(e: nat): int {
    T_LEN * 64 - (e - 1075) - 192
  }

  /** The integer that the table stores. */
  ghost function Stored(): nat {
    Words(T)
  }

  /** m * s / 2^(j + 64), whose low 128 bits the code is after. */
  ghost function Exact(m: nat, s: nat, j: nat): nat {
    ShiftRight(m * s, j + 64)
  }

  const TWO_128: nat := 0x1_0000_0000_0000_0000_0000_0000_0000_0000

  /** c with two's complement arithmetic of 128 bits. */
  function TwoWords(high: nat, low: nat): nat {
    high * TWO_64 + low
  }

  /** The sum of the three products: the low 128 bits of m * d / 2^64. */
  method MultiplyWords(m: u64, d0: u64, d1: u64, d2: u64) returns (c1: u64, c0: u64)
    ensures TwoWords(c1, c0) == ((m * (d0 + TWO_64 * d1 + TWO_64 * TWO_64 * d2)) / TWO_64) % TWO_128
  {
    hide MulU;
    MulUExact(m, d0);
    MulUExact(m, d1);
    MulUExact(m, d2);
    var w := MulU(m, d0);
    c0 := w.high;
    var w1 := MulU(m, d1);
    c0 := (c0 + w1.low) % TWO_64;
    var carry := if c0 < w1.low then 1 else 0;
    c1 := (w1.high + carry) % TWO_64;
    var w2 := MulU(m, d2);
    c1 := (c1 + w2.low) % TWO_64;
    SumOfProducts(m, d0, d1, d2, w.high, w.low, w1.high, w1.low, w2.high, w2.low);
  }

  /** The columns of the product, with carries modulo 2^64. */
  lemma SumOfProducts(m: u64, d0: u64, d1: u64, d2: u64, h0: u64, l0: u64, h1: u64, l1: u64, h2: u64, l2: u64)
    requires h0 * TWO_64 + l0 == m * d0 && h1 * TWO_64 + l1 == m * d1 && h2 * TWO_64 + l2 == m * d2
    ensures var c0 := (h0 + l1) % TWO_64; var carry := if c0 < l1 then 1 else 0;
            TwoWords(((h1 + carry) % TWO_64 + l2) % TWO_64, c0)
            == ((m * (d0 + TWO_64 * d1 + TWO_64 * TWO_64 * d2)) / TWO_64) % TWO_128
  {
    hide *;
    FloatConstants();
    ThreeProducts(m, d0, d1, d2);
    Columns(m * (d0 + TWO_64 * d1 + TWO_64 * TWO_64 * d2), h0, l0, h1, l1, h2, l2);
  }

  lemma ThreeProducts(m: nat, a: nat, b: nat, c: nat)
    ensures m * (a + TWO_64 * b + TWO_64 * TWO_64 * c) == m * a + TWO_64 * (m * b) + TWO_64 * TWO_64 * (m * c)
  {
    hide *;
    FloatConstants();
    var u, w := TWO_64, TWO_64 * TWO_64;
    MulCommute(m, a + u * b + w * c);
    Distribute(a + u * b, w * c, m);
    Distribute(a, u * b, m);
    MulSwap(u, b, m);
    MulSwap(w, c, m);
    MulAssoc(u, m, b);
    MulAssoc(w, m, c);
  }

  lemma Columns(x: nat, h0: u64, l0: u64, h1: u64, l1: u64, h2: u64, l2: u64)
    requires x == h0 * TWO_64 + l0 + TWO_64 * (h1 * TWO_64 + l1) + TWO_64 * TWO_64 * (h2 * TWO_64 + l2)
    ensures var c0 := (h0 + l1) % TWO_64; var carry := if c0 < l1 then 1 else 0;
            TwoWords(((h1 + carry) % TWO_64 + l2) % TWO_64, c0) == (x / TWO_64) % TWO_128
  {
    var q := h0 + l1 + TWO_64 * (h1 + l2) + TWO_64 * TWO_64 * h2;
    DivUnique(x, TWO_64, q, l0);
    var c0 := (h0 + l1) % TWO_64;
    var carry := if c0 < l1 then 1 else 0;
    assert h0 + l1 == carry * TWO_64 + c0;
    var c1 := ((h1 + carry) % TWO_64 + l2) % TWO_64;
    assert c1 == (h1 + carry + l2) % TWO_64;
    var k := (h1 + carry + l2) / TWO_64;
    assert q == (h2 + k) * (TWO_64 * TWO_64) + (c1 * TWO_64 + c0);
    DivUnique(q, TWO_64 * TWO_64, h2 + k, c1 * TWO_64 + c0);
  }

  /** Reading whole words of the table loses less than one unit of the product. */
  lemma WithinOne(m: u64, s: nat, j: nat, v: nat, d: nat, h: nat)
    requires v == ShiftRight(s, j) && v == d + Pow2(192) * h && m < TWO_64
    ensures var c := ((m * d) / TWO_64) % TWO_128; var x := Exact(m, s, j);
            x % TWO_128 == c || x % TWO_128 == (c + 1) % TWO_128
  {
    hide ShiftRight, ShiftedOut, Pow2;
    Pow2Constants();
    FloatConstants();
    Pow2Add(64, 128);
    Pow2Add(64, 64);
    Pow2Add(64, j);
    var p, low := Pow2(j), ShiftedOut(s, j);
    var q, r := Divide(m * v, TWO_64);
    CeilingOff(m, s, v, low, p, q, r);
    var q', r' := Divide(m * d, TWO_64);
    SameLowWords(m, v, d, h, q, r, q', r');
    DivUnique(m * d, TWO_64, q', r');
    var x := ShiftRight(m * s, j + 64);
    FloorBetween(m * s, j + 64, q, TWO_64 * p);
    AddOneMod(q, q', m * h);
  }

  lemma CeilingOff(m: nat, s: nat, v: nat, low: nat, p: nat, q: nat, r: nat)
    requires s == v * p + low && low < p && m * v == q * TWO_64 + r && r < TWO_64 && m < TWO_64
    ensures q * (TWO_64 * p) <= m * s < (q + 2) * (TWO_64 * p)
  {
    hide *;
    FloatConstants();
    var u := TWO_64;
    Distribute(v * p, low, m);
    MulCommute(m, s);
    MulSwap(v, p, m);
    MulCommute(v, m);
    Distribute(q * u, r, p);
    MulAssoc(q, u, p);
    MulMonotone(0, low, m);
    MulMonotone(0, r, p);
    MulMonotone(low, p, m);
    MulMonotone(r + m, 2 * u - 2, p);
    Distribute(r, m, p);
    MulCommute(p, m);
    Distribute(q, 2, u * p);
    Distribute(2 * u, 2, p);
    MulAssoc(2, u, p);
  }

  lemma FloorBetween(n: nat, s: nat, q: nat, w: nat)
    requires w == Pow2(s) && q * w <= n < (q + 2) * w
    ensures q <= ShiftRight(n, s) <= q + 1
  {
    hide ShiftRight, ShiftedOut, Pow2;
    var t, o := ShiftRight(n, s), ShiftedOut(n, s);
    Distribute(t, 1, w);
    MulCancel(q, t + 1, w);
    MulCancel(t, q + 2, w);
  }

  lemma SameLowWords(m: nat, v: nat, d: nat, h: nat, q: nat, r: nat, q': nat, r': nat)
    requires v == d + (TWO_64 * TWO_128) * h
    requires m * v == q * TWO_64 + r && r < TWO_64 && m * d == q' * TWO_64 + r' && r' < TWO_64
    ensures q == q' + m * h * TWO_128
  {
    hide *;
    FloatConstants();
    var u, w := TWO_64, TWO_128;
    MulCommute(m, v);
    Distribute(d, (u * w) * h, m);
    MulCommute(d, m);
    MulSwap(u * w, h, m);
    MulAssoc(u * w, m, h);
    MulAssoc(u, w, m * h);
    MulCommute(w, m * h);
    MulCommute(u, m * h * w);
    Distribute(q', m * h * w, u);
    DivUnique(m * v, u, q' + m * h * w, r');
    DivUnique(m * v, u, q, r);
  }

  lemma AddOneMod(q: nat, q': nat, k: nat)
    requires q == q' + k * TWO_128
    ensures q % TWO_128 == q' % TWO_128 && (q + 1) % TWO_128 == (q' % TWO_128 + 1) % TWO_128
  {
    var a, b := Divide(q', TWO_128);
    DivUnique(q', TWO_128, a, b);
    Distribute(a, k, TWO_128);
    DivUnique(q, TWO_128, a + k, b);
  }

  // ----- the whole reduction

  /** The words of the fraction are cut out of the table at bits j, j + 64, j + 128. */
  lemma CutOut(s: seq<u64>, j: nat)
    requires (j + 128) / 64 < |s|
    ensures var v := ShiftRight(Words(s), j);
            v == GetU64AtBit(s, j) + TWO_64 * GetU64AtBit(s, j + 64) + TWO_64 * TWO_64 * GetU64AtBit(s, j + 128)
                 + Pow2(192) * ShiftRight(v, 192)
  {
    hide GetU64AtBit, Words, ShiftRight, Rem, Pow2;
    GetU64Correct(s, j);
    GetU64Correct(s, j + 64);
    GetU64Correct(s, j + 128);
    NestedShift(Words(s), j, 64);
    NestedShift(Words(s), j, 128);
    ThreeLow(ShiftRight(Words(s), j));
  }

  lemma ThreeLow(v: nat)
    ensures v == Rem(v, TWO_64) + TWO_64 * Rem(ShiftRight(v, 64), TWO_64) + TWO_64 * TWO_64 * Rem(ShiftRight(v, 128), TWO_64)
                 + Pow2(192) * ShiftRight(v, 192)
  {
    hide ShiftRight, Rem, Pow2;
    NestedShift(v, 64, 64);
    NestedShift(v, 128, 64);
    LowWord(v);
    LowWord(ShiftRight(v, 64));
    LowWord(ShiftRight(v, 128));
    Pow2Constants();
    FloatConstants();
    Pow2Add(64, 64);
    Pow2Add(128, 64);
  }

  lemma LowWord(v: nat)
    ensures v == Rem(v, TWO_64) + TWO_64 * ShiftRight(v, 64)
  {
    Pow2Constants();
    hide Rem, Pow2, ShiftRight, ShiftedOut;
    QuotUnique(v, TWO_64, ShiftRight(v, 64), ShiftedOut(v, 64));
  }

  /** What the first half computes: c, its nearest quarter n and the rest r; a tie goes
      up. */
  ghost predicate Quartered(c: nat, n: int, flipped: bool, r: nat) {
    && r <= TWO_128 / 2 && 4 * c == n * TWO_128 + (if flipped then 0 - r else r)
    && (r == TWO_128 / 2 ==> flipped) && (r == 0 ==> !flipped)
  }

  /** So there is one nearest quarter, and one rest on one side of it. */
  lemma QuarterUnique(c: nat, n: int, flipped: bool, r: nat, n': int, flipped': bool, r': nat)
    requires Quartered(c, n, flipped, r) && Quartered(c, n', flipped', r')
    ensures n == n' && flipped == flipped' && r == r'
  {
    var d, d' := if flipped then 0 - r else r, if flipped' then 0 - r' else r';
    assert d - d' == (n' - n) * TWO_128;
  }

  /** n = round(c / 2^126) and c := |4 c - n 2^128|, on two words. */
  method Quarter(c1: u64, c0: u64) returns (n: int, flipped: bool, r1: u64, r0: u64)
    ensures Quartered(TwoWords(c1, c0), n, flipped, TwoWords(r1, r0)) && 0 <= n <= 4
  {
    hide Quartered;
    FloatConstants();
    n := c1 / 0x4000_0000_0000_0000;
    var rnd := c1 / 0x2000_0000_0000_0000 % 2;
    n := n + rnd;
    r1 := c1 * 4 % TWO_64 + c0 / 0x4000_0000_0000_0000;
    r0 := c0 * 4 % TWO_64;
    flipped := rnd == 1;
    QuarterWords(c1, c0, r1, r0);
    if flipped {
      r0 := TWO_64 - 1 - r0;
      r1 := TWO_64 - 1 - r1;
      r0 := (r0 + 1) % TWO_64;
      if r0 == 0 {
        r1 := (r1 + 1) % TWO_64;
      }
    }
  }

  lemma QuarterWords(c1: u64, c0: u64, r1: nat, r0: nat)
    requires r1 == c1 * 4 % TWO_64 + c0 / 0x4000_0000_0000_0000 && r0 == c0 * 4 % TWO_64
    ensures r1 < TWO_64
    ensures var n, rnd := c1 / 0x4000_0000_0000_0000, c1 / 0x2000_0000_0000_0000 % 2;
            if rnd == 1 then
              var t0 := (TWO_64 - 1 - r0 + 1) % TWO_64;
              var t1 := if t0 == 0 then (TWO_64 - 1 - r1 + 1) % TWO_64 else TWO_64 - 1 - r1;
              Quartered(TwoWords(c1, c0), n + 1, true, TwoWords(t1, t0))
            else Quartered(TwoWords(c1, c0), n, false, TwoWords(r1, r0))
  {
    var n, rest := c1 / 0x4000_0000_0000_0000, c1 % 0x4000_0000_0000_0000;
    var a, b := c0 / 0x4000_0000_0000_0000, c0 % 0x4000_0000_0000_0000;
    TopQuarter(c1);
    assert c0 * 4 % TWO_64 == b * 4;
    assert 4 * TwoWords(c1, c0) == n * TWO_128 + TwoWords(r1, r0);
  }

  /** The top two bits of a word, and the one below them. */
  lemma TopQuarter(c1: u64)
    ensures var n, rest := c1 / 0x4000_0000_0000_0000, c1 % 0x4000_0000_0000_0000;
            c1 == n * 0x4000_0000_0000_0000 + rest && c1 * 4 % TWO_64 == rest * 4
    ensures c1 / 0x2000_0000_0000_0000 % 2 == 1 <==> c1 % 0x4000_0000_0000_0000 >= 0x2000_0000_0000_0000
  {}

  /** Three words. */
  function ThreeWords(d2: nat, d1: nat, d0: nat): nat {
    d2 * TWO_128 + d1 * TWO_64 + d0
  }

  /** The columns of the product and their carries. */
  lemma Pio4Carries(h0: u64, l0: u64, h1: u64, l1: u64, h2: u64, l2: u64, v: nat)
    requires v == h0 * TWO_64 + l0 + (h1 * TWO_64 + l1) + (h2 * TWO_64 + l2) * TWO_64 && v < TWO_63 * TWO_128
    requires h0 <= TWO_64 - 2 && h1 <= TWO_64 - 2
    ensures var d0 := (l0 + l1) % TWO_64; var k := if d0 < l1 then 1 else 0;
            var d1 := (h0 + h1) % TWO_64; var k1 := if d1 < h1 then 1 else 0;
            var e1 := (d1 + k) % TWO_64; var k2 := if e1 < k then 1 else k1;
            var f1 := (e1 + l2) % TWO_64; var k3 := if f1 < l2 then 1 else 0;
            var d2 := (k2 + h2 + k3) % TWO_64;
            ThreeWords(d2, f1, d0) == v && d2 < TWO_63
  {
    var d0 := (l0 + l1) % TWO_64;
    var k := if d0 < l1 then 1 else 0;
    AddWords(l0, l1);
    var d1 := (h0 + h1) % TWO_64;
    var k1 := if d1 < h1 then 1 else 0;
    AddWords(h0, h1);
    var e1 := (d1 + k) % TWO_64;
    var k2 := if e1 < k then 1 else k1;
    AddWords(d1, k);
    var f1 := (e1 + l2) % TWO_64;
    var k3 := if f1 < l2 then 1 else 0;
    AddWords(e1, l2);
    assert h0 + h1 + k == k2 * TWO_64 + e1;
    SumUp(k2 + h2 + k3, f1, d0, v);
  }

  /** The carry of a sum of words. */
  lemma AddWords(x: u64, y: u64)
    ensures var z := (x + y) % TWO_64; x + y == (if z < y then 1 else 0) * TWO_64 + z
  {}

  lemma SumUp(t: nat, f1: nat, d0: nat, v: nat)
    requires v == t * TWO_128 + f1 * TWO_64 + d0 && v < TWO_63 * TWO_128
    ensures t % TWO_64 == t && t < TWO_63
  {}

  lemma HighBelow(h: nat, l: nat, a: u64, b: u64)
    requires h * TWO_64 + l == a * b
    ensures h <= TWO_64 - 2
  {
    MulMonotone(a, TWO_64 - 1, b);
    MulMonotone(b, TWO_64 - 1, TWO_64 - 1);
  }

  /** With c at most one half, c * pi/4 stays below one half. */
  lemma HalfOfPio4(c1: u64, c0: u64)
    requires TwoWords(c1, c0) <= TWO_128 / 2
    ensures 0 <= c0 * PIO4_HIGH + c1 * PIO4_LOW + c1 * PIO4_HIGH * TWO_64 < TWO_63 * TWO_128
  {}

  /** The columns of the three products added up, with the carries of the source. */
  method SumColumns(w: Wide, w1: Wide, w2: Wide, ghost v: nat) returns (d2: u64, d1: u64, d0: u64)
    requires v == w.high * TWO_64 + w.low + (w1.high * TWO_64 + w1.low) + (w2.high * TWO_64 + w2.low) * TWO_64
    requires v < TWO_63 * TWO_128 && w.high <= TWO_64 - 2 && w1.high <= TWO_64 - 2
    ensures ThreeWords(d2, d1, d0) == v && d2 < TWO_63
  {
    hide ThreeWords;
    Pio4Carries(w.high, w.low, w1.high, w1.low, w2.high, w2.low, v);
    d0, d1 := w.low, w.high;
    d0 := (d0 + w1.low) % TWO_64;
    var carry := if d0 < w1.low then 1 else 0;
    d1 := (d1 + w1.high) % TWO_64;
    var carry1 := if d1 < w1.high then 1 else 0;
    d1 := (d1 + carry) % TWO_64;
    if d1 < carry {
      carry1 := 1;
    }
    d2 := carry1;
    d1 := (d1 + w2.low) % TWO_64;
    carry := if d1 < w2.low then 1 else 0;
    d2 := (d2 + w2.high + carry) % TWO_64;
  }

  /** c * (pi/4) on three words. */
  method TimesPio4(c1: u64, c0: u64) returns (d2: u64, d1: u64, d0: u64)
    requires TwoWords(c1, c0) <= TWO_128 / 2
    ensures ThreeWords(d2, d1, d0) == c0 * PIO4_HIGH + c1 * PIO4_LOW + c1 * PIO4_HIGH * TWO_64
    ensures d2 < TWO_63
  {
    hide MulU, PIO4_HIGH, PIO4_LOW, ThreeWords, TwoWords;
    MulUExact(c0, PIO4_HIGH);
    MulUExact(c1, PIO4_LOW);
    MulUExact(c1, PIO4_HIGH);
    HalfOfPio4(c1, c0);
    var w, w1, w2 := MulU(c0, PIO4_HIGH), MulU(c1, PIO4_LOW), MulU(c1, PIO4_HIGH);
    HighBelow(w.high, w.low, c0, PIO4_HIGH);
    HighBelow(w1.high, w1.low, c1, PIO4_LOW);
    d2, d1, d0 := SumColumns(w, w1, w2, c0 * PIO4_HIGH + c1 * PIO4_LOW + c1 * PIO4_HIGH * TWO_64);
  }

  // ----- the result as two doubles

  /** The high 106 bits of the fraction d2:d1 once its e leading zeros are shifted out. */
  function HighBits(d2: nat, d1: nat, e: nat): nat {
    ShiftRight(TwoWords(d2, d1) * Pow2(e), 22)
  }

  /** y0 is the high 53 of these bits and y1 the low 53, each scaled back exactly. */
  ghost predicate IsSplit(y0: u64, y1: u64, sign: bool, d2: nat, d1: nat) {
    if d2 == 0 then y0 == 0 && y1 == 0
    else
      && IsFinite(y0) && IsFinite(y1) && Sign(y0) == sign && (y1 != 0 ==> Sign(y1) == sign)
      && var e: int := 64 - BitLen(d2);
         && 1 <= e <= 63 && TWO_52 <= Quot(HighBits(d2, d1, e), TWO_53) < TWO_53
         && Units(y0) == Quot(HighBits(d2, d1, e), TWO_53) * Pow2(1022 - e)
         && Units(y1) == Rem(HighBits(d2, d1, e), TWO_53) * Pow2(969 - e)
  }

  /** So their sum is exactly all 106 bits. */
  lemma SplitSum(y0: u64, y1: u64, sign: bool, d2: nat, d1: nat)
    requires d2 > 0 && IsSplit(y0, y1, sign, d2, d1)
    ensures var e: int := 64 - BitLen(d2); 1 <= e <= 63 && Units(y0) + Units(y1) == HighBits(d2, d1, e) * Pow2(969 - e)
  {
    hide Quot, Rem, HighBits, BitLen, Units, Pow2;
    var e := 64 - BitLen(d2);
    var w := HighBits(d2, d1, e);
    HalvesJoin(Quot(w, TWO_53), Rem(w, TWO_53), e);
  }

  /** The high 106 bits of d2:d1 as two doubles of 53 bits each. */
  method PackHalves(sign: bool, d2: u64, d1: u64) returns (y0: u64, y1: u64)
    requires d2 < TWO_63
    ensures IsSplit(y0, y1, sign, d2, d1)
  {
    hide BitLen, Pow2, ShiftRight, TwoWords, Units, Quot, Rem;
    FloatConstants();
    if d2 == 0 {
      return 0, 0;
    }
    var e := 64 - BitLen(d2);
    Normalise(d2, d1, e);
    var w2 := d2 * Pow2(e) + ShiftRight(d1, 64 - e);
    var w1 := d1 * Pow2(e) % TWO_64;
    var m0 := w2 / 0x800 % TWO_52;
    var m1 := w2 % 0x800 * 0x400_0000_0000 + w1 / 0x40_0000;
    SplitHalves(w2, w1, m0, m1);
    QuotUnique(HighBits(d2, d1, e), TWO_53, TWO_52 + m0, m1);
    y0 := (if sign then TWO_63 else 0) + (1023 - e) * TWO_52 + m0;
    PackedUnits(sign, 1023 - e, m0);
    if m1 == 0 {
      y1 := 0;
      ZeroUnits();
    } else {
      var e1 := 53 - BitLen(m1);
      LowHalf(m1, e1);
      var t := m1 * Pow2(e1) % TWO_52;
      y1 := (if sign then TWO_63 else 0) + (1023 - e - 53 - e1) * TWO_52 + t;
      PackedUnits(sign, 1023 - e - 53 - e1, t);
      ShiftBack(m1, e1, 969 - e - e1);
    }
  }

  /** d2:d1 shifted left until its top bit is set. */
  lemma Normalise(d2: u64, d1: u64, e: int)
    requires 0 < d2 < TWO_63 && e == 64 - BitLen(d2)
    ensures 1 <= e <= 63
    ensures var w2 := d2 * Pow2(e) + ShiftRight(d1, 64 - e); var w1 := d1 * Pow2(e) % TWO_64;
            TWO_63 <= w2 < TWO_64 && 0 <= w1 && TwoWords(d2, d1) * Pow2(e) == TwoWords(w2, w1)
  {
    hide BitLen, Pow2, ShiftRight, ShiftedOut;
    Pow2Constants();
    FloatConstants();
    PowZero(1);
    BitLenAtMost(d2, 63);
    BitLenAtLeast(d2, 0);
    ShiftedRange(d2, BitLen(d2), e);
    Pow2Add(64 - e, e);
    var p, q, hi, lo := Pow2(e), Pow2(64 - e), ShiftRight(d1, 64 - e), ShiftedOut(d1, 64 - e);
    ShiftWords(d2, d1, p, q, hi, lo, BitLen(d2));
  }

  lemma ShiftWords(d2: u64, d1: u64, p: nat, q: nat, hi: nat, lo: nat, len: nat)
    requires d1 == hi * q + lo && lo < q && q * p == TWO_64 && p >= 2
    requires TWO_63 <= d2 * p < TWO_64
    ensures d1 * p % TWO_64 == lo * p && hi < p && TWO_63 <= d2 * p + hi < TWO_64
    ensures (d2 * TWO_64 + d1) * p == (d2 * p + hi) * TWO_64 + lo * p
  {
    hide *;
    FloatConstants();
    var u := TWO_64;
    Distribute(hi * q, lo, p);
    MulAssoc(hi, q, p);
    MulMonotone(lo + 1, q, p);
    Distribute(lo, 1, p);
    MulMonotone(0, lo, p);
    DivUnique(d1 * p, u, hi, lo * p);
    if hi >= p {
      MulMonotone(p, hi, q);
      MulCommute(p, q);
      assert false;
    }
    Distribute(d2 * u, d1, p);
    MulSwap(d2, u, p);
    Distribute(d2 * p, hi, u);
    MulCommute(p, q);
    MulMonotone(d2 + 1, q, p);
    Distribute(d2, 1, p);
  }

  lemma SplitHalves(w2: u64, w1: u64, m0: nat, m1: nat)
    requires TWO_63 <= w2 && m0 == w2 / 0x800 % TWO_52 && m1 == w2 % 0x800 * 0x400_0000_0000 + w1 / 0x40_0000
    ensures m0 < TWO_52 && m1 < TWO_53
    ensures ShiftRight(TwoWords(w2, w1), 22) == (TWO_52 + m0) * TWO_53 + m1
  {
    hide ShiftRight, Pow2;
    Pow2Constants();
    Pow2Add(11, 11);
    ShiftUnique(TwoWords(w2, w1), 22, (TWO_52 + m0) * TWO_53 + m1, w1 % 0x40_0000);
  }

  /** A normal double from its fields. */
  lemma PackedUnits(sign: bool, x: int, m: nat)
    requires 1 <= x < 2047 && m < TWO_52
    ensures var a := (if sign then TWO_63 else 0) + x * TWO_52 + m;
            0 < a < TWO_64 && IsFinite(a) && Sign(a) == sign && Units(a) == (TWO_52 + m) * Pow2(x - 1)
  {
    hide Grid, Pow2;
    GridFields(x, m);
  }

  lemma ZeroUnits()
    ensures IsFinite(0) && Units(0) == 0
  {}

  lemma HalvesJoin(a: nat, m1: nat, e: int)
    requires 1 <= e <= 63
    ensures (a * TWO_53 + m1) * Pow2(969 - e) == a * Pow2(1022 - e) + m1 * Pow2(969 - e)
  {
    hide Pow2;
    Pow2Constants();
    Pow2Add(53, 969 - e);
    FloatConstants();
    hide *;
    var p := Pow2(969 - e);
    Distribute(a * TWO_53, m1, p);
    MulAssoc(a, TWO_53, p);
  }

  lemma LowHalf(m1: nat, e1: int)
    requires 0 < m1 < TWO_53 && e1 == 53 - BitLen(m1)
    ensures 0 <= e1 <= 52 && TWO_52 <= m1 * Pow2(e1) < TWO_53
    ensures m1 * Pow2(e1) % TWO_52 == m1 * Pow2(e1) - TWO_52
  {
    hide BitLen, Pow2;
    Pow2Constants();
    PowZero(1);
    BitLenAtMost(m1, 53);
    BitLenAtLeast(m1, 0);
    ShiftedRange(m1, BitLen(m1), e1);
  }

  lemma ShiftBack(m1: nat, e1: nat, x: nat)
    ensures (m1 * Pow2(e1)) * Pow2(x) == m1 * Pow2(e1 + x)
  {
    hide Pow2;
    Pow2Add(e1, x);
    MulAssoc(m1, Pow2(e1), Pow2(x));
  }

  /** c is the fraction of |x| / (2 pi) in 128 bits, to within one unit. */
  ghost predicate Fraction(x: u64, c: nat)
    requires 1022 <= ExpField(x) <= 2046
  {
    var exact := Exact(TWO_52 + MantField(x), Stored(), BitPosition(ExpField(x)));
    c < TWO_128 && (exact % TWO_128 == c || exact % TWO_128 == (c + 1) % TWO_128)
  }

  /** The first half of rem_pio2_large: the fraction. */
  method ReduceFraction(x: u64) returns (c1: u64, c0: u64)
    requires 1022 <= ExpField(x) <= 2046
    ensures Fraction(x, TwoWords(c1, c0))
  {
    hide GetU64AtBit, Words, ShiftRight, Pow2, T;
    FloatConstants();
    TableLength();
    var m: u64 := TWO_52 + MantField(x);
    var j := BitPosition(ExpField(x));
    CutOut(T, j);
    GetU64Correct(T, j);
    GetU64Correct(T, j + 64);
    GetU64Correct(T, j + 128);
    var d0, d1, d2 := GetU64AtBit(T, j), GetU64AtBit(T, j + 64), GetU64AtBit(T, j + 128);
    c1, c0 := MultiplyWords(m, d0, d1, d2);
    ghost var v := ShiftRight(Stored(), j);
    WithinOne(m, Stored(), j, v, d0 + TWO_64 * d1 + TWO_64 * TWO_64 * d2, ShiftRight(v, 192));
  }

  lemma TableLength()
    ensures |T| == T_LEN
  {}

  // ----- the constants

  /** The stored integers belong together: PIO4 / 2^128 is pi/4 and T / 2^1216 is
      1/(2 pi), and their product is 1/8 to within one part in 2^130. */
  lemma ConstantsAgree()
    ensures var p := PIO4_HIGH * TWO_64 + PIO4_LOW;
            Pow2(1344) - Pow2(1214) <= 8 * p * Words(T) <= Pow2(1344)
  {
    TopWords();
    hide Words, ShiftRight, ShiftedOut, Pow2;
    WordsDrop(T, 16);
    Pow2Add(320, 1024);
    Pow2Add(190, 1024);
    SmallPowers190();
    var w, low, q := Words(T[16..]), ShiftedOut(Words(T), 1024), Pow2(1024);
    assert Words(T) == w * q + low && low < q;
    Scale(8 * (PIO4_HIGH * TWO_64 + PIO4_LOW), w, low, q, Words(T), Pow2(320), Pow2(190));
  }

  lemma Scale(p: nat, w: nat, low: nat, q: nat, t: nat, a: nat, b: nat)
    requires t == w * q + low && low < q && a - b <= p * w && p * w + p <= a
    ensures a * q - b * q <= p * t <= a * q
  {
    MulMonotone(low, q, p);
    MulAssoc(p, w, q);
    MulDistribute(p, w * q, low);
    var pw := p * w;
    Distribute(pw, p, q);
    Distribute(pw, b, q);
    MulMonotone(pw + p, a, q);
    MulMonotone(a, pw + b, q);
  }

  lemma MulDistribute(p: nat, x: nat, y: nat)
    ensures p * (x + y) == p * x + p * y
  {}

  lemma TopWords()
    ensures Words(T[16..]) == 0x28be60db9391054a_7f09d5f47d4d3770_36d8a5664f10e410
  {
    assert T[16..][1..] == T[17..] && T[17..][1..] == T[18..];
    WordsOf(T[18..], []);
    WordsOf(T[17..], T[18..]);
    WordsOf(T[16..], T[17..]);
  }

  lemma WordsOf(s: seq<u64>, rest: seq<u64>)
    requires |s| > 0 && s[1..] == rest
    ensures Words(s) == s[0] + TWO_64 * Words(rest) && Words([]) == 0
  {}

  lemma SmallPowers190()
    ensures var p, w := 8 * (PIO4_HIGH * TWO_64 + PIO4_LOW), 0x28be60db9391054a_7f09d5f47d4d3770_36d8a5664f10e410;
            Pow2(320) - Pow2(190) <= p * w && p * w + p <= Pow2(320)
  {
    hide Pow2;
    Pow2Constants();
    FloatConstants();
    Pow2Add(64, 64);
    Pow2Add(64, 126);
    Pow2Add(62, 64);
    Pow2Add(128, 128);
    Pow2Add(256, 64);
    Pow2Next(62);
    Pow2Next(63);
  }

  /** What rem_pio2_large goes through: the fraction c, its quarter and the rest r1:r0,
      and the product d2:d1:d0 with pi/4. */
  datatype Steps = Steps(c: nat, quarter: int, flipped: bool, r1: u64, r0: u64, d2: u64, d1: u64, d0: u64)

  ghost predicate Reduction(x: u64, n: int, y0: u64, y1: u64, w: Steps)
    requires 1022 <= ExpField(x) <= 2046
  {
    && Fraction(x, w.c) && Quartered(w.c, w.quarter, w.flipped, TwoWords(w.r1, w.r0))
    && n == (if Sign(x) then 0 - w.quarter else w.quarter)
    && ThreeWords(w.d2, w.d1, w.d0) == w.r0 * PIO4_HIGH + w.r1 * PIO4_LOW + w.r1 * PIO4_HIGH * TWO_64
    && IsSplit(y0, y1, Sign(x) != w.flipped, w.d2, w.d1)
  }

  /** rem_pio2_large: n is the nearest number of quarter turns and y0 + y1 the
      remainder, both with the sign of x worked in. */
  method RemPio2Large(x: u64) returns (n: int, y0: u64, y1: u64)
    requires 1022 <= ExpField(x) <= 2046
    ensures exists w :: Reduction(x, n, y0, y1, w)
  {
    hide Fraction, Quartered, PIO4_HIGH, PIO4_LOW, IsSplit, TwoWords, ThreeWords;
    var c1, c0 := ReduceFraction(x);
    var flipped, r1, r0;
    n, flipped, r1, r0 := Quarter(c1, c0);
    ghost var c := TwoWords(c1, c0);
    QuarteredSmall(c, n, flipped, TwoWords(r1, r0));
    var d2, d1, d0 := TimesPio4(r1, r0);
    y0, y1 := PackHalves(Sign(x) != flipped, d2, d1);
    ghost var w := Steps(c, n, flipped, r1, r0, d2, d1, d0);
    if Sign(x) {
      n := 0 - n;
    }
    assert Reduction(x, n, y0, y1, w);
  }

  lemma QuarteredSmall(c: nat, n: int, flipped: bool, r: nat)
    requires Quartered(c, n, flipped, r)
    ensures r <= TWO_128 / 2
  {}

  // ----- what the two halves mean together

  /** The fraction is that of |x| * T in units of 2^2162. */
  lemma FractionMeans(x: u64, c: nat) returns (q: nat, rest: nat)
    requires 1022 <= ExpField(x) <= 2046 && Fraction(x, c)
    ensures Units(x) * Words(T) == q * Pow2(2162) + rest && rest < Pow2(2162)
    ensures c < TWO_128 && (q % TWO_128 == c || q % TWO_128 == (c + 1) % TWO_128)
  {
    hide Grid, Words, Pow2, ShiftRight, ShiftedOut;
    Fields(x);
    GridFields(ExpField(x), MantField(x));
    var m, e, w := TWO_52 + MantField(x), ExpField(x), Words(T);
    var s: nat := 2163 - e;
    q := ShiftRight(m * w, s);
    var low, p, u := ShiftedOut(m * w, s), Pow2(s), Pow2(e - 1);
    rest := low * u;
    Pow2Add(s, e - 1);
    assert m * w == q * p + low;
    hide *;
    FractionScaled(m, u, w, q, p, low);
  }

  lemma FractionScaled(m: nat, u: nat, w: nat, q: nat, p: nat, low: nat)
    requires m * w == q * p + low && low < p && u > 0
    ensures m * u * w == q * (p * u) + low * u && low * u < p * u
  {
    MulSwap(m, u, w);
    Distribute(q * p, low, u);
    MulAssoc(q, p, u);
    MulStrict(low, p, u);
  }

  /** The product with pi/4 lacks less than one unit of its lowest word. */
  lemma ProductMeans(r1: u64, r0: u64, d: nat)
    requires d == r0 * PIO4_HIGH + r1 * PIO4_LOW + r1 * PIO4_HIGH * TWO_64
    ensures var rp := (r1 * TWO_64 + r0) * (PIO4_HIGH * TWO_64 + PIO4_LOW);
            d * TWO_64 <= rp < d * TWO_64 + TWO_128
  {
    WordProduct(r1, r0, PIO4_HIGH, PIO4_LOW, TWO_64);
    hide PIO4_HIGH, PIO4_LOW;
    FloatConstants();
    MulMonotone(0, r0, PIO4_LOW);
    MulMonotone(r0, TWO_64 - 1, PIO4_LOW);
    MulMonotone(PIO4_LOW, TWO_64 - 1, TWO_64 - 1);
  }

  lemma WordProduct(a: int, b: int, h: int, l: int, t: int)
    ensures (a * t + b) * (h * t + l) == (b * h + a * l + a * h * t) * t + b * l
  {}

  /** The doubles are the product, cut off after 106 bits. */
  lemma HalvesMean(y0: u64, y1: u64, sign: bool, d2: nat, d1: nat)
    requires d2 > 0 && d1 < TWO_64 && IsSplit(y0, y1, sign, d2, d1)
    ensures var v, s := TwoWords(d2, d1) * Pow2(947), Units(y0) + Units(y1);
            s <= v < s + Pow2(968)
  {
    hide Units, BitLen, Pow2, ShiftRight, ShiftedOut, TwoWords, IsSplit, Quot, Rem, IsFinite, Sign;
    SplitSum(y0, y1, sign, d2, d1);
    var e := 64 - BitLen(d2);
    var w := TwoWords(d2, d1);
    var wide, p, u := w * Pow2(e), Pow2(22), Pow2(947 - e);
    var h, low := HighBits(d2, d1, e), ShiftedOut(wide, 22);
    assert wide == h * p + low && low < p;
    Pow2Add(e, 947 - e);
    Pow2Add(22, 947 - e);
    Pow2Monotone(969 - e, 968);
    hide *;
    CutOff(w, Pow2(e), h, p, low, u);
  }

  lemma CutOff(w: nat, t: nat, h: nat, p: nat, low: nat, u: nat)
    requires w * t == h * p + low && low < p && u > 0
    ensures h * (p * u) <= w * (t * u) < h * (p * u) + p * u
  {
    MulAssoc(w, t, u);
    Distribute(h * p, low, u);
    MulAssoc(h, p, u);
    MulStrict(low, p, u);
    MulMonotone(0, low, u);
  }

  /** From x to n, y0 and y1, in the integers that the source stores: the fraction c of
      |x| * T is n' quarters and a rest of r / 2^128 quarters on either side; y0 + y1 is
      r * PIO4 / 2^255, cut off below 2^-105. */
  lemma ReductionMeans(x: u64, n: int, y0: u64, y1: u64, w: Steps) returns (q: nat, rest: nat)
    requires 1022 <= ExpField(x) <= 2046 && Reduction(x, n, y0, y1, w)
    ensures Units(x) * Words(T) == q * Pow2(2162) + rest && rest < Pow2(2162)
    ensures q % TWO_128 == w.c || q % TWO_128 == (w.c + 1) % TWO_128
    ensures var r := w.r1 * TWO_64 + w.r0;
            && 4 * w.c == w.quarter * TWO_128 + (if w.flipped then 0 - r else r) && 2 * r <= TWO_128
            && (2 * r == TWO_128 ==> w.flipped)
    ensures n == if Sign(x) then 0 - w.quarter else w.quarter
    ensures IsFinite(y0) && IsFinite(y1)
    ensures w.d2 > 0 ==> Sign(y0) == (Sign(x) != w.flipped) && (y1 != 0 ==> Sign(y1) == Sign(y0))
    ensures var rp, s := (w.r1 * TWO_64 + w.r0) * (PIO4_HIGH * TWO_64 + PIO4_LOW), Units(y0) + Units(y1);
            && s <= rp * Pow2(819)
            && (w.d2 > 0 ==> rp * Pow2(819) < s + Pow2(969))
            && (w.d2 == 0 ==> s == 0 && rp < Pow2(193))
  {
    hide Units, Words, Pow2, Fraction, IsSplit, Sign, Index, IsFinite, T, PIO4_HIGH, PIO4_LOW, ExpField;
    q, rest := FractionMeans(x, w.c);
    var d, p := ThreeWords(w.d2, w.d1, w.d0), PIO4_HIGH * TWO_64 + PIO4_LOW;
    var r: nat := w.r1 * TWO_64 + w.r0;
    ProductMeans(w.r1, w.r0, d);
    SumMeans(y0, y1, Sign(x) != w.flipped, w.d2, w.d1, w.d0, r * p);
  }

  lemma SumMeans(y0: u64, y1: u64, sign: bool, d2: u64, d1: u64, d0: u64, rp: nat)
    requires IsSplit(y0, y1, sign, d2, d1)
    requires ThreeWords(d2, d1, d0) * TWO_64 <= rp < ThreeWords(d2, d1, d0) * TWO_64 + TWO_128
    ensures IsFinite(y0) && IsFinite(y1)
    ensures d2 > 0 ==> Sign(y0) == sign && (y1 != 0 ==> Sign(y1) == sign)
    ensures var s := Units(y0) + Units(y1);
            && s <= rp * Pow2(819)
            && (d2 > 0 ==> rp * Pow2(819) < s + Pow2(969))
            && (d2 == 0 ==> s == 0 && rp < Pow2(193))
  {
    ZeroUnits();
    hide Units, Pow2, BitLen, Quot, Rem, HighBits;
    var v := TwoWords(d2, d1);
    FloatConstants();
    Pow2Constants();
    Pow2Add(64, 64);
    Pow2Add(128, 64);
    Pow2Next(192);
    Pow2Add(128, 819);
    Pow2Next(968);
    Pow2Next(947);
    Pow2Monotone(948, 968);
    if d2 > 0 {
      HalvesMean(y0, y1, sign, d2, d1);
      hide *;
      WordsAround(v, d0, rp);
      ProductWithin(v, rp, Pow2(128), Pow2(819));
    }
  }

  lemma WordsAround(v: nat, d0: u64, rp: nat)
    requires (v * TWO_64 + d0) * TWO_64 <= rp < (v * TWO_64 + d0) * TWO_64 + TWO_128
    ensures v * TWO_128 <= rp < (v + 2) * TWO_128
  {}

  lemma ProductWithin(v: nat, rp: nat, t: nat, u: nat)
    requires v * t <= rp < (v + 2) * t
    ensures v * (t * u) <= rp * u <= (v + 2) * (t * u)
  {
    MulAssoc(v, t, u);
    MulAssoc(v + 2, t, u);
    MulMonotone(v * t, rp, u);
    MulMonotone(rp, (v + 2) * t, u);
  }
}

/** Little-endian numbers in limbs of 32 bits, and the in-place loops of dtoa.c
    that add, multiply, divide and shift them (mp_add_ui to mp_div1norm). */
module Limbs {
  import opened Powers

  const BASE: nat := 0x1_0000_0000

  type limb = x: int | 0 <= x < 0x1_0000_0000

  /** The number sum(s[i] * 2^(32 i)). */
  function Val(s: seq<limb>): nat {
    if |s| == 0 then 0 else s[0] + BASE * Val(s[1..])
  }

  /** 2^(32 n): what a carry out of n limbs is worth. */
  function Weight(n: nat): (r: nat)
    ensures r >= 1
  {
    if n == 0 then 1 else BASE * Weight(n - 1)
  }

  lemma {:induction false} WeightIsPow2(n: nat)
    ensures Weight(n) == Pow2(32 * n)
  {
    if n > 0 {
      WeightIsPow2(n - 1);
      Pow2Constants();
      Pow2Add(32, 32 * (n - 1));
    }
  }

  lemma {:induction false} ValAppend(s: seq<limb>, x: limb)
    ensures Val(s + [x]) == Val(s) + x * Weight(|s|)
  {
    if |s| == 0 {
      assert s + [x] == [x] && [x][1..] == [];
    } else {
      assert (s + [x])[1..] == s[1..] + [x];
      ValAppend(s[1..], x);
      var w := Weight(|s| - 1);
      assert x * (BASE * w) == BASE * (x * w);
    }
  }

  lemma {:induction false} ValConcat(s: seq<limb>, t: seq<limb>)
    ensures Val(s + t) == Val(s) + Weight(|s|) * Val(t)
  {
    if |s| == 0 {
      assert s + t == t;
    } else {
      assert (s + t)[1..] == s[1..] + t;
      ValConcat(s[1..], t);
      var w, v := Weight(|s| - 1), Val(t);
      assert (BASE * w) * v == BASE * (w * v) by { MulAssoc(BASE, w, v); }
    }
  }

  lemma {:induction false} ValBound(s: seq<limb>)
    ensures Val(s) < Weight(|s|)
  {
    if |s| > 0 {
      ValBound(s[1..]);
    }
  }

  lemma ValFirst(x: limb, s: seq<limb>)
    ensures Val([x] + s) == x + BASE * Val(s)
  {
    assert ([x] + s)[1..] == s;
  }

  lemma {:induction false} ValZeros(n: nat)
    ensures Val(seq(n, _ => 0)) == 0
  {
    if n > 0 {
      assert seq(n, _ => 0)[1..] == seq(n - 1, _ => 0);
      ValZeros(n - 1);
    }
  }

  /** new_ with carry c is old_ * b + init. */
  ghost predicate Multiplied(new_: seq<limb>, old_: seq<limb>, b: nat, c: nat, init: nat) {
    |new_| == |old_| && Val(new_) + c * Weight(|new_|) == Val(old_) * b + init
  }

  lemma NothingMultiplied(b: nat, init: nat)
    ensures Multiplied([], [], b, init, init)
  {}

  /** One more limb processed from below with carries c and c'. */
  lemma StepUp(new_: seq<limb>, old_: seq<limb>, x: limb, y: limb, b: nat, c: nat, c': nat, init: nat)
    requires Multiplied(new_, old_, b, c, init)
    requires x + c' * BASE == y * b + c
    ensures Multiplied(new_ + [x], old_ + [y], b, c', init)
  {
    ValAppend(new_, x);
    ValAppend(old_, y);
    WeightStep(|new_|);
    hide Val, Weight;
    StepUpArith(Val(new_), Val(old_), x, y, b, c, c', init, Weight(|new_|));
  }

  lemma WeightStep(n: nat)
    ensures Weight(n + 1) == BASE * Weight(n)
  {}

  lemma StepUpArith(vn: nat, vo: nat, x: nat, y: nat, b: nat, c: nat, c': nat, init: nat, w: nat)
    requires vn + c * w == vo * b + init && x + c' * BASE == y * b + c
    ensures vn + x * w + c' * (BASE * w) == (vo + y * w) * b + init
  {
    assert (x + c' * BASE) * w == (y * b + c) * w;
    assert c' * (BASE * w) == (c' * BASE) * w;
    Distribute(x, c' * BASE, w);
    Distribute(y * b, c, w);
    Distribute(vo, y * w, b);
    MulSwap(y, b, w);
  }

  /** old_ with init on top is new_ * b + r. */
  ghost predicate Divided(new_: seq<limb>, old_: seq<limb>, b: nat, r: nat, init: nat) {
    |new_| == |old_| && Val(old_) + init * Weight(|new_|) == Val(new_) * b + r
  }

  lemma NothingDivided(b: nat, init: nat)
    ensures Divided([], [], b, init, init)
  {}

  /** One more limb processed from above with remainders r and r'. */
  lemma StepDown(new_: seq<limb>, old_: seq<limb>, x: limb, y: limb, b: nat, r: nat, r': nat, init: nat)
    requires Divided(new_, old_, b, r, init)
    requires y + r * BASE == x * b + r'
    ensures Divided([x] + new_, [y] + old_, b, r', init)
  {
    ValFirst(x, new_);
    ValFirst(y, old_);
    WeightStep(|new_|);
    hide Val, Weight;
    StepDownArith(Val(new_), Val(old_), x, y, b, r, r', init, Weight(|new_|));
  }

  lemma StepDownArith(vn: nat, vo: nat, x: nat, y: nat, b: nat, r: nat, r': nat, init: nat, w: nat)
    requires vo + init * w == vn * b + r && y + r * BASE == x * b + r'
    ensures y + BASE * vo + init * (BASE * w) == (x + BASE * vn) * b + r'
  {
    assert BASE * (vo + init * w) == BASE * (vn * b + r);
    assert init * (BASE * w) == BASE * (init * w);
    assert (BASE * vn) * b == BASE * (vn * b);
    Distribute(x, BASE * vn, b);
  }

  /** mp_mul1 in place: tab = tab * b + l, returning the carry. */
  method MpMul1(tab: array<limb>, n: nat, b: limb, l: limb) returns (carry: limb)
    requires n <= tab.Length
    modifies tab
    ensures Multiplied(tab[..n], old(tab[..n]), b, carry, l)
    ensures tab[n..] == old(tab[n..])
  {
    hide Multiplied;
    carry := l;
    var i := 0;
    NothingMultiplied(b, l);
    while i < n
      invariant 0 <= i <= n
      invariant Multiplied(tab[..i], old(tab[..i]), b, carry, l)
      invariant tab[i..] == old(tab[i..])
    {
      var t := tab[i] * b + carry;
      WordTimesWord(tab[i], b, carry);
      ghost var c := carry;
      ghost var new_, old_, y := tab[..i], old(tab[..i]), tab[i];
      assert old(tab[..i + 1]) == old_ + [y];
      tab[i] := t % BASE;
      carry := t / BASE;
      assert tab[..i + 1] == new_ + [t % BASE];
      StepUp(new_, old_, t % BASE, y, b, c, carry, l);
      i := i + 1;
    }
  }

  lemma WordTimesWord(x: limb, b: limb, c: limb)
    ensures 0 <= x * b + c && (x * b + c) / BASE < BASE
    ensures (x * b + c) % BASE + (x * b + c) / BASE * BASE == x * b + c
  {
    var p := x * b;
    assert 0 <= p <= (BASE - 1) * (BASE - 1) by {
      MulMonotone(0, x, b);
      MulMonotone(x, BASE - 1, b);
      MulMonotone(b, BASE - 1, BASE - 1);
    }
    SplitDouble(p + c);
  }

  lemma SplitDouble(t: nat)
    requires t < BASE * BASE
    ensures 0 <= t / BASE < BASE && t % BASE + t / BASE * BASE == t
  {}

  /** mp_add_ui in place: tab += b, returning the carry. */
  method MpAddUi(tab: array<limb>, b: limb, n: nat) returns (k: limb)
    requires n <= tab.Length
    modifies tab
    ensures Multiplied(tab[..n], old(tab[..n]), 1, k, b)
    ensures tab[n..] == old(tab[n..])
    ensures n > 0 ==> k <= 1
  {
    hide Multiplied;
    k := b;
    var i := 0;
    NothingMultiplied(1, b);
    while i < n
      invariant 0 <= i <= n
      invariant Multiplied(tab[..i], old(tab[..i]), 1, k, b)
      invariant tab[i..] == old(tab[i..])
      invariant i > 0 ==> k <= 1
    {
      if k == 0 {
        AddStopped(tab[..i], old(tab[..i]), tab[i..n], b);
        assert tab[i..n] == tab[i..][..n - i] && old(tab[i..n]) == old(tab[i..])[..n - i];
        assert tab[n..] == tab[i..][n - i..] && old(tab[n..]) == old(tab[i..])[n - i..];
        assert tab[..n] == tab[..i] + tab[i..n];
        assert old(tab[..n]) == old(tab[..i]) + tab[i..n];
        return;
      }
      var a := (tab[i] + k) % BASE;
      ghost var c, new_, old_, y := k, tab[..i], old(tab[..i]), tab[i];
      assert old(tab[..i + 1]) == old_ + [y];
      k := if a < k then 1 else 0;
      CarryOut(y, c);
      tab[i] := a;
      assert tab[..i + 1] == new_ + [a];
      StepUp(new_, old_, a, y, 1, c, k, b);
      i := i + 1;
    }
  }

  /** a < k after a := a + k detects the wrap-around. */
  lemma CarryOut(y: limb, k: limb)
    ensures var a := (y + k) % BASE;
            a + (if a < k then 1 else 0) * BASE == y * 1 + k
  {}

  lemma AddStopped(new_: seq<limb>, old_: seq<limb>, rest: seq<limb>, b: nat)
    requires Multiplied(new_, old_, 1, 0, b)
    ensures Multiplied(new_ + rest, old_ + rest, 1, 0, b)
  {
    ValConcat(new_, rest);
    ValConcat(old_, rest);
  }

  /** mp_div1 in place: tab := (r * BASE^n + tab) / b, returning the remainder. */
  method MpDiv1(tab: array<limb>, n: nat, b: limb, r: limb) returns (rem: limb)
    requires n <= tab.Length && r < b
    modifies tab
    ensures Divided(tab[..n], old(tab[..n]), b, rem, r) && rem < b
    ensures tab[n..] == old(tab[n..])
  {
    hide Divided;
    rem := r;
    var i := n;
    NothingDivided(b, r);
    assert tab[n..n] == [];
    while i > 0
      invariant 0 <= i <= n && rem < b
      invariant Divided(tab[i..n], old(tab[i..n]), b, rem, r)
      invariant tab[..i] == old(tab[..i]) && tab[n..] == old(tab[n..])
    {
      i := i - 1;
      var a1 := rem * BASE + tab[i];
      ghost var r0, new_, old_, y := rem, tab[i + 1..n], old(tab[i + 1..n]), tab[i];
      assert old(tab[i..n]) == [y] + old_;
      QuotientFits(rem, tab[i], b);
      tab[i] := a1 / b;
      rem := a1 % b;
      assert tab[i..n] == [a1 / b] + new_;
      StepDown(new_, old_, a1 / b, y, b, r0, rem, r);
    }
  }

  lemma QuotientFits(r: nat, y: limb, b: nat)
    requires r < b < BASE
    ensures 0 <= (r * BASE + y) / b < BASE && 0 <= (r * BASE + y) % b < b
    ensures y + r * BASE == (r * BASE + y) / b * b + (r * BASE + y) % b
  {
    var t := r * BASE + y;
    HalfOrLess(t, b);
    var q := t / b;
    hide *;
    assert BASE == BASE;
    if q >= BASE {
      MulMonotone(BASE, q, b);
      MulMonotone(r + 1, b, BASE);
      Distribute(r, 1, BASE);
      assert false;
    }
  }

  /** mp_shl in place: tab := tab * 2^shift + low, returning the high bits. */
  method MpShl(tab: array<limb>, n: nat, shift: nat, low: limb) returns (high: limb)
    requires n <= tab.Length && 1 <= shift < 32 && low < Pow2(shift)
    modifies tab
    ensures Multiplied(tab[..n], old(tab[..n]), Pow2(shift), high, low)
    ensures high < Pow2(shift)
    ensures tab[n..] == old(tab[n..])
  {
    hide Pow2, Multiplied, ShiftRight;
    high := low;
    var i := 0;
    NothingMultiplied(Pow2(shift), low);
    while i < n
      invariant 0 <= i <= n
      invariant Multiplied(tab[..i], old(tab[..i]), Pow2(shift), high, low)
      invariant tab[i..] == old(tab[i..]) && high < Pow2(shift)
    {
      ghost var c, new_, old_ := high, tab[..i], old(tab[..i]);
      var a := tab[i];
      assert old(tab[..i + 1]) == old_ + [a];
      ShlWord(a, shift, high);
      var x := a * Pow2(shift) % BASE + high;
      tab[i] := x;
      high := ShiftRight(a, 32 - shift);
      assert tab[..i + 1] == new_ + [x];
      StepUp(new_, old_, x, a, Pow2(shift), c, high, low);
      i := i + 1;
    }
  }

  lemma ShlWord(a: limb, shift: nat, low: nat)
    requires 1 <= shift < 32 && low < Pow2(shift)
    ensures 0 <= a * Pow2(shift) % BASE + low < BASE
    ensures 0 <= ShiftRight(a, 32 - shift) < Pow2(shift)
    ensures a * Pow2(shift) % BASE + low + ShiftRight(a, 32 - shift) * BASE == a * Pow2(shift) + low
  {
    hide *;
    Pow2Constants();
    Pow2Add(32 - shift, shift);
    LimbConstants();
    ShlWordArith(a, ShiftRight(a, 32 - shift), ShiftedOut(a, 32 - shift), Pow2(32 - shift), Pow2(shift), low);
  }

  lemma LimbConstants()
    ensures BASE == 0x1_0000_0000
  {}

  lemma ShlWordArith(a: nat, h: nat, l: nat, w: nat, p: nat, low: nat)
    requires a == h * w + l && l < w && w * p == BASE && low < p && a < BASE
    ensures h < p
    ensures 0 <= a * p % BASE + low < BASE
    ensures a * p % BASE + low + h * BASE == a * p + low
  {
    Distribute(h * w, l, p);
    MulAssoc(h, w, p);
    MulMonotone(l + 1, w, p);
    Distribute(l, 1, p);
    DivUnique(a * p, BASE, h, l * p);
    if h >= p {
      MulMonotone(p, h, w);
      MulCommute(p, w);
      assert false;
    }
  }

  /** mp_shr in place: tab := (tab + high * BASE^n) >> shift, returning the bits lost. */
  method MpShr(tab: array<limb>, n: nat, shift: nat, high: limb) returns (rem: limb)
    requires n <= tab.Length && 1 <= shift < 32 && high < Pow2(shift)
    modifies tab
    ensures Divided(tab[..n], old(tab[..n]), Pow2(shift), rem, high)
    ensures rem < Pow2(shift)
    ensures tab[n..] == old(tab[n..])
  {
    hide Pow2, Divided, ShiftRight, ShiftedOut;
    var l: limb := high;
    ghost var r: nat := high;
    var i := n;
    NothingDivided(Pow2(shift), high);
    assert tab[n..n] == [];
    LowBitsSmall(high, shift);
    while i > 0
      invariant 0 <= i <= n
      invariant r == ShiftedOut(l, shift) && r < Pow2(shift)
      invariant Divided(tab[i..n], old(tab[i..n]), Pow2(shift), r, high)
      invariant tab[..i] == old(tab[..i]) && tab[n..] == old(tab[n..])
    {
      i := i - 1;
      var a := tab[i];
      ghost var new_, old_ := tab[i + 1..n], old(tab[i + 1..n]);
      assert old(tab[i..n]) == [a] + old_;
      ShrWord(a, l, shift);
      var x := ShiftRight(a, shift) + l * Pow2(32 - shift) % BASE;
      tab[i] := x;
      assert tab[i..n] == [x] + new_;
      StepDown(new_, old_, x, a, Pow2(shift), r, ShiftedOut(a, shift), high);
      l := a;
      r := ShiftedOut(a, shift);
    }
    rem := ShiftedOut(l, shift);
  }

  lemma LowBitsSmall(v: limb, shift: nat)
    requires v < Pow2(shift)
    ensures ShiftedOut(v, shift) == v
  {
    hide *;
    var q, p := ShiftRight(v, shift), Pow2(shift);
    assert v == q * p + ShiftedOut(v, shift);
    if q > 0 {
      MulMonotone(1, q, p);
      assert false;
    }
  }

  lemma ShrWord(a: limb, l: limb, shift: nat)
    requires 1 <= shift < 32
    ensures 0 <= ShiftRight(a, shift) + l * Pow2(32 - shift) % BASE < BASE
    ensures a + ShiftedOut(l, shift) * BASE
            == (ShiftRight(a, shift) + l * Pow2(32 - shift) % BASE) * Pow2(shift) + ShiftedOut(a, shift)
  {
    hide *;
    Pow2Constants();
    Pow2Add(32 - shift, shift);
    LimbConstants();
    ShrWordArith(a, l, ShiftRight(a, shift), ShiftedOut(a, shift), ShiftRight(l, shift), ShiftedOut(l, shift),
                 Pow2(shift), Pow2(32 - shift));
  }

  lemma ShrWordArith(a: nat, l: nat, ha: nat, la: nat, hl: nat, ll: nat, p: nat, w: nat)
    requires a == ha * p + la && la < p && l == hl * p + ll && ll < p && w * p == BASE && a < BASE
    ensures 0 <= ha + l * w % BASE < BASE
    ensures a + ll * BASE == (ha + l * w % BASE) * p + la
  {
    Distribute(hl * p, ll, w);
    MulAssoc(hl, p, w);
    MulCommute(p, w);
    MulMonotone(ll + 1, p, w);
    Distribute(ll, 1, w);
    DivUnique(l * w, BASE, hl, ll * w);
    Distribute(ha, ll * w, p);
    MulAssoc(ll, w, p);
    if ha >= w {
      MulMonotone(w, ha, p);
      assert false;
    }
  }

  // ----- division by a normalised limb through its reciprocal

  /** udiv1norm_init: floor((BASE^2 - 1) / d) - BASE. */
  function UdivNormInit(d: limb): limb
    requires d >= 0x8000_0000
  {
    ReciprocalFits(d);
    ((BASE - d - 1) * BASE + (BASE - 1)) / d
  }

  lemma ReciprocalFits(d: limb)
    requires d >= 0x8000_0000
    ensures 0 <= ((BASE - d - 1) * BASE + (BASE - 1)) / d < BASE
  {
    var n := (BASE - d - 1) * BASE + (BASE - 1);
    HalfOrLess(n, d);
    var q := n / d;
    LimbConstants();
    hide *;
    if q >= BASE {
      MulMonotone(BASE, q, d);
      assert false;
    }
  }

  /** What makes v a reciprocal of d: BASE^2 - k = (v + BASE) * d with 1 <= k <= d. */
  ghost predicate IsReciprocal(v: nat, d: nat) {
    (v + BASE) * d < BASE * BASE <= (v + BASE) * d + d
  }

  lemma UdivNormInitCorrect(d: limb)
    requires d >= 0x8000_0000
    ensures IsReciprocal(UdivNormInit(d), d)
  {
    var n := (BASE - d - 1) * BASE + (BASE - 1);
    var v := UdivNormInit(d);
    HalfOrLess(n, d);
    assert v * d <= n < v * d + d;
    assert (v + BASE) * d == v * d + BASE * d;
  }

  /** The identity behind the estimate: with n1 the top bit of a0 and
      x = v (a1 + n1) + a0 + n1 (d - BASE), the error of q1 = x / BASE + a1 is
      BASE (N - q1 d) = k (a1 + n1) + (BASE - d)(a0 - n1 (BASE - d)) + d (x mod BASE). */
  lemma EstimateIdentity(a1: nat, a0: nat, n1: nat, d: nat, v: nat, k: nat, x: nat, q: nat, m: nat)
    requires n1 <= 1 && d <= BASE
    requires v * d + BASE * d + k == BASE * BASE
    requires x == v * (a1 + n1) + a0 + n1 * d - n1 * BASE && x == q * BASE + m
    ensures BASE * (a1 * BASE + a0 - (q + a1) * d)
            == k * (a1 + n1) + (BASE - d) * (a0 - n1 * (BASE - d)) + d * m
  {
    var vd := v * d;
    assert BASE * (q * d) == d * x - d * m by {
      assert d * (q * BASE) == BASE * (q * d);
      assert d * x == d * (q * BASE + m);
    }
    assert d * (v * (a1 + n1)) == vd * (a1 + n1) by { MulAssoc(d, v, a1 + n1); MulCommute(d, v); }
    assert vd == BASE * BASE - BASE * d - k;
    var s := a1 + n1;
    assert vd * s == BASE * BASE * s - BASE * (d * s) - k * s by { ThreeTerms(vd, d, k, s); }
    if n1 == 0 {
      assert d * x == vd * s + d * a0;
    } else {
      assert d * x == vd * s + d * a0 + d * d - BASE * d;
      assert d * s == d * a1 + d;
      assert (BASE - d) * (a0 - (BASE - d)) == BASE * a0 - d * a0 - BASE * BASE + 2 * (BASE * d) - d * d;
    }
  }

  lemma ThreeTerms(vd: int, d: int, k: int, s: int)
    requires vd == BASE * BASE - BASE * d - k
    ensures vd * s == BASE * BASE * s - BASE * (d * s) - k * s
  {
    assert (BASE * BASE - BASE * d - k) * s == BASE * BASE * s - BASE * d * s - k * s;
    assert BASE * d * s == BASE * (d * s);
  }

  /** So the estimate is the quotient or one less. */
  lemma EstimateBounds(e: int, k: nat, s: nat, t: nat, m: nat, d: nat)
    requires BASE * e == k * s + (BASE - d) * t + d * m
    requires k <= d && s <= d && t < d <= BASE && m < BASE
    ensures 0 <= e < 2 * d
  {
    LimbConstants();
    hide *;
    var x, y, z := k * s, (BASE - d) * t, d * m;
    assert 0 <= x <= d * d by { MulMonotone(0, k, s); MulMonotone(k, d, s); MulMonotone(s, d, d); }
    assert 0 <= y <= (BASE - d) * d by { MulMonotone(0, BASE - d, t); MulMonotone(t, d, BASE - d); }
    assert 0 <= z <= d * (BASE - 1) by { MulMonotone(0, d, m); MulMonotone(m, BASE - 1, d); }
    assert (BASE - d) * d == BASE * d - d * d;
  }

  datatype QuotRem = QuotRem(q: limb, r: limb)

  /** udiv1norm: a1 * BASE + a0 by d, in 32 and 64 bit words that wrap. n1m is
      all ones when the top bit of a0 is set. */
  function UdivNorm(a1: limb, a0: limb, d: limb, dInv: limb): QuotRem {
    var top := a0 >= 0x8000_0000;
    var nAdj := (a0 + if top then d else 0) % BASE;
    var s := (a1 + if top then 1 else 0) % BASE;
    UdivFinish(a1 * BASE + a0, HighPlus(DoubleWord(dInv * s + nAdj), a1), d)
  }

  function DoubleWord(v: int): nat {
    v % (BASE * BASE)
  }

  function HighPlus(a: nat, a1: limb): limb {
    (a / BASE + a1) % BASE
  }

  /** The second half: one conditional correction driven by the high word. */
  function UdivFinish(n: nat, q: limb, d: limb): QuotRem {
    var b := DoubleWord(n - q * d - d);
    var ah := b / BASE;
    assert 0 <= ah < BASE;
    QuotRem((q + 1 + ah) % BASE, (b % BASE + (if ah == 0 then 0 else AndAllOnes(ah, d))) % BASE)
  }

  /** ah & d; ah is only ever 0 or all ones (UdivNormCorrect). */
  function AndAllOnes(ah: limb, d: limb): limb {
    if ah == BASE - 1 then d else (ah as bv32 & d as bv32) as limb
  }

  /** The final correction: b is the error minus d, seen modulo BASE^2. */
  lemma CorrectQuotient(n: nat, q: limb, d: limb, e: int)
    requires e == n - q * d && 0 <= e < 2 * d && 0 < d && n < d * BASE
    ensures n == UdivFinish(n, q, d).q * d + UdivFinish(n, q, d).r && UdivFinish(n, q, d).r < d
  {
    hide AndAllOnes;
    var w := e - d;
    assert n - q * d - d == w;
    FinishWords(w, q, d);
    if w >= 0 {
      if q + 1 >= BASE {
        MulMonotone(BASE, q + 1, d);
        assert false;
      }
      assert (q + 1) * d == q * d + d;
    }
  }

  lemma FinishWords(w: int, q: limb, d: limb)
    requires 0 - d <= w < d && 0 < d
    ensures w < 0 ==> DoubleWord(w) / BASE == BASE - 1 && DoubleWord(w) % BASE == w + BASE
    ensures w < 0 ==> (q + 1 + (BASE - 1)) % BASE == q && (w + BASE + d) % BASE == w + d
    ensures w >= 0 ==> DoubleWord(w) / BASE == 0 && DoubleWord(w) % BASE == w
    ensures AndAllOnes(BASE - 1, d) == d
  {
    if w < 0 {
      DivUnique(w + BASE * BASE, BASE, BASE - 1, w + BASE);
    }
  }

  /** The estimate of the source: its high word plus a1 is the quotient or one less. */
  lemma EstimateCorrect(a1: limb, a0: limb, d: limb, v: limb, n1: nat, x: nat, q: nat, m: nat)
    requires d >= 0x8000_0000 && a1 < d && IsReciprocal(v, d)
    requires n1 == (if a0 >= 0x8000_0000 then 1 else 0)
    requires x == v * (a1 + n1) + (a0 + n1 * d - n1 * BASE) && x == q * BASE + m && m < BASE
    ensures 0 <= a1 * BASE + a0 - (q + a1) * d < 2 * d
    ensures q + a1 < BASE
  {
    LimbConstants();
    var p := (v + BASE) * d;
    assert p < BASE * BASE <= p + d;
    assert p == v * d + BASE * d;
    hide *;
    var k := BASE * BASE - p;
    var t := a0 - n1 * (BASE - d);
    assert 0 <= t < d;
    var e := a1 * BASE + a0 - (q + a1) * d;
    EstimateIdentity(a1, a0, n1, d, v, k, x, q, m);
    EstimateBounds(e, k, a1 + n1, t, m, d);
    if q + a1 >= BASE {
      MulMonotone(BASE, q + a1, d);
      MulMonotone(a1 + 1, d, BASE);
      assert false;
    }
  }

  /** The words of the source hold the exact values: nothing wraps before the end. */
  lemma EstimateWords(a1: limb, a0: limb, d: limb, v: limb, n1: nat) returns (x: nat)
    requires d >= 0x8000_0000 && a1 < d && n1 == (if a0 >= 0x8000_0000 then 1 else 0)
    ensures x == v * (a1 + n1) + (a0 + n1 * d - n1 * BASE) && x < BASE * BASE
    ensures (a0 + if a0 >= 0x8000_0000 then d else 0) % BASE == a0 + n1 * d - n1 * BASE
    ensures (a1 + if a0 >= 0x8000_0000 then 1 else 0) % BASE == a1 + n1
  {
    var nAdj: nat := a0 + n1 * d - n1 * BASE;
    assert nAdj < BASE;
    assert (a0 + if a0 >= 0x8000_0000 then d else 0) % BASE == nAdj;
    var s := a1 + n1;
    assert v * s <= (BASE - 1) * (BASE - 1) by {
      MulMonotone(v, BASE - 1, s);
      MulMonotone(s, BASE - 1, BASE - 1);
    }
    MulMonotone(0, v, s);
    x := v * s + nAdj;
  }

  /** udiv1norm is exact division for every normalised d. */
  lemma UdivNormCorrect(a1: limb, a0: limb, d: limb, v: limb)
    requires d >= 0x8000_0000 && a1 < d && IsReciprocal(v, d)
    ensures var x := UdivNorm(a1, a0, d, v);
            a1 * BASE + a0 == x.q * d + x.r && x.r < d
  {
    hide IsReciprocal, UdivFinish;
    var n1 := if a0 >= 0x8000_0000 then 1 else 0;
    var x := EstimateWords(a1, a0, d, v, n1);
    SplitDouble(x);
    EstimateCorrect(a1, a0, d, v, n1, x, x / BASE, x % BASE);
    var q := x / BASE + a1;
    HighWord(x, a1);
    assert UdivNorm(a1, a0, d, v) == UdivFinish(a1 * BASE + a0, q, d);
    CorrectQuotient(a1 * BASE + a0, q, d, a1 * BASE + a0 - q * d);
  }

  lemma HighWord(x: nat, a1: limb)
    requires x < BASE * BASE && x / BASE + a1 < BASE
    ensures DoubleWord(x) == x && HighPlus(x, a1) == x / BASE + a1
  {}

  /** Dividing the shifted number by the shifted divisor shifts the remainder. */
  lemma DivideShifted(mid: seq<limb>, new_: seq<limb>, old_: seq<limb>, p: nat, b: nat, d: nat,
                      r: nat, high: nat, rem: nat) returns (rem': nat)
    requires p > 0 && b == d * p
    requires Multiplied(mid, old_, p, high, 0) && Divided(new_, mid, b, rem, r * p + high) && rem < b
    ensures rem == rem' * p && rem' < d && Divided(new_, old_, d, rem', r)
  {
    var w := Weight(|old_|);
    var vo, vn := Val(old_), Val(new_);
    assert Val(mid) + high * w == vo * p;
    assert Val(mid) + (r * p + high) * w == vn * b + rem;
    hide Val, Weight;
    Distribute(r * p, high, w);
    MulSwap(r, p, w);
    MulAssoc(vn, d, p);
    Distribute(vo, r * w, p);
    assert (vo + r * w) * p == (vn * d) * p + rem;
    Distribute(vo + r * w, vn * d, p);
    rem' := ExactFactor(vo + r * w - vn * d, rem, p, d);
  }

  lemma ExactFactor(t: int, rem: nat, p: nat, d: nat) returns (rem': nat)
    requires t * p == rem && p > 0 && rem < d * p
    ensures rem' == t && rem' < d
  {
    MulCancel(t, d, p);
    MulCancel(t, 0, p);
    rem' := t;
  }

  /** mp_div1norm in place: b is the divisor d shifted left until its top bit is
      set, bInv its reciprocal. The number is shifted along and the remainder back. */
  method MpDiv1Norm(tab: array<limb>, n: nat, b: limb, r: limb, bInv: limb, shift: nat, ghost d: nat) returns (rem: limb)
    requires n <= tab.Length && shift < 32 && r < d
    requires b >= 0x8000_0000 && b == d * Pow2(shift) && IsReciprocal(bInv, b)
    modifies tab
    ensures Divided(tab[..n], old(tab[..n]), d, rem, r) && rem < d
    ensures tab[n..] == old(tab[n..])
  {
    hide Divided, Multiplied, IsReciprocal, UdivNorm, Pow2, ShiftRight;
    ghost var high: nat := 0;
    rem := r;
    if shift != 0 {
      var h := MpShl(tab, n, shift, 0);
      ShiftedRemainder(r, d, Pow2(shift), h, b);
      rem := r * Pow2(shift) + h;
      high := h;
    } else {
      NoShift(tab[..n], r);
    }
    ShiftedRemainder(r, d, Pow2(shift), high, b);
    ghost var mid, init := tab[..n], r * Pow2(shift) + high;
    assert rem == init;
    NothingDivided(b, init);
    assert tab[n..n] == [];
    var i := n;
    while i > 0
      invariant 0 <= i <= n && rem < b
      invariant tab[..i] == mid[..i] && tab[n..] == old(tab[n..])
      invariant Divided(tab[i..n], mid[i..n], b, rem, init)
    {
      i := i - 1;
      ghost var r0, new_, y := rem, tab[i + 1..n], tab[i];
      UdivNormCorrect(rem, tab[i], b, bInv);
      var x := UdivNorm(rem, tab[i], b, bInv);
      tab[i] := x.q;
      rem := x.r;
      assert tab[i..n] == [x.q] + new_;
      assert mid[i..n] == [y] + mid[i + 1..];
      StepDown(new_, mid[i + 1..], x.q, y, b, r0, rem, init);
    }
    assert mid[0..n] == mid;
    ghost var rem' := DivideShifted(mid, tab[..n], old(tab[..n]), Pow2(shift), b, d, r, high, rem);
    ExactShift(rem, rem', shift);
    rem := ShiftRight(rem, shift);
  }

  lemma ShiftedRemainder(r: nat, d: nat, p: nat, h: nat, b: nat)
    requires r < d && h < p && b == d * p
    ensures 0 <= r * p + h < b
  {
    MulMonotone(r + 1, d, p);
    Distribute(r, 1, p);
    MulMonotone(0, r, p);
  }

  lemma NoShift(s: seq<limb>, r: nat)
    ensures Multiplied(s, s, Pow2(0), 0, 0) && r * Pow2(0) == r && 0 < Pow2(0)
  {
    assert Pow2(0) == 1;
  }

  lemma ExactShift(v: nat, q: nat, shift: nat)
    requires v == q * Pow2(shift)
    ensures ShiftRight(v, shift) == q
  {
    var p := Pow2(shift);
    DivUnique(v, p, q, 0);
  }
}

/** The big number mpb_t of dtoa.c: a limb buffer of fixed capacity and a
    length, updated in place. */
module BigNum {
  import opened Powers
  import opened Rounding
  import opened Float64
  import opened Limbs

  /** JS_RNDN, JS_RNDNA and JS_RNDZ. */
  datatype Rnd = RNDN | RNDNA | RNDZ {
    function Dir(): Direction {
      match this
      case RNDN => NearestEven
      case RNDNA => NearestAway
      case RNDZ => TowardZero
    }
  }

  // ----- limb sequences

  /** No leading zero limb, except in the single limb 0. */
  predicate Normal(s: seq<limb>) {
    |s| == 1 || (|s| > 1 && s[|s| - 1] != 0)
  }

  lemma TopLimb(s: seq<limb>)
    requires |s| >= 1
    ensures s[|s| - 1] != 0 <==> Val(s) >= Weight(|s| - 1)
  {
    var n := |s| - 1;
    assert s == s[..n] + [s[n]];
    ValAppend(s[..n], s[n]);
    ValBound(s[..n]);
    hide Val, Weight;
    if s[n] != 0 { MulMonotone(1, s[n], Weight(n)); }
  }

  /** The length of a normal number is decided by its value. */
  lemma NormalLength(s: seq<limb>, cap: nat)
    requires Normal(s) && Val(s) < Weight(cap) && cap >= 1
    ensures |s| <= cap
  {
    TopLimb(s);
    if |s| > cap {
      WeightMonotone(cap, |s| - 1);
    }
  }

  lemma {:induction false} WeightMonotone(a: nat, b: nat)
    requires a <= b
    ensures Weight(a) <= Weight(b)
  {
    if a < b { WeightMonotone(a, b - 1); }
  }

  lemma {:induction false} WeightAdd(a: nat, b: nat)
    ensures Weight(a + b) == Weight(a) * Weight(b)
  {
    if a > 0 {
      WeightAdd(a - 1, b);
      MulAssoc(BASE, Weight(a - 1), Weight(b));
    }
  }

  /** Dropping the low limbs is a floor division. */
  lemma DropLimbs(s: seq<limb>, l: nat)
    requires l <= |s|
    ensures Val(s) == Val(s[l..]) * Weight(l) + Val(s[..l]) && Val(s[..l]) < Weight(l)
  {
    assert s == s[..l] + s[l..];
    ValConcat(s[..l], s[l..]);
    ValBound(s[..l]);
    MulCommute(Weight(l), Val(s[l..]));
  }

  lemma LowBits(s: seq<limb>, l: nat, k: nat)
    requires l < |s| && k < 32
    ensures ShiftedOut(Val(s), 32 * l + k) == Val(s[..l]) + Weight(l) * ShiftedOut(s[l], k)
    ensures ShiftRight(Val(s), 32 * l + k) == ShiftRight(s[l], k) + Pow2(32 - k) * Val(s[l + 1..])
  {
    hide *;
    DropLimbs(s, l);
    ValFirst(s[l], s[l + 1..]);
    assert s[l..] == [s[l]] + s[l + 1..];
    WeightIsPow2(l);
    LimbConstants();
    LowBitsOf(Val(s), Val(s[..l]), s[l], Val(s[l + 1..]), l, k);
  }

  lemma LowBitsOf(v: nat, low: nat, x: nat, rest: nat, l: nat, k: nat)
    requires k < 32 && v == (x + 0x1_0000_0000 * rest) * Pow2(32 * l) + low && low < Pow2(32 * l)
    ensures ShiftedOut(v, 32 * l + k) == low + Pow2(32 * l) * ShiftedOut(x, k)
    ensures ShiftRight(v, 32 * l + k) == ShiftRight(x, k) + Pow2(32 - k) * rest
  {
    hide *;
    Pow2Add(32 * l, k);
    Pow2Add(32 - k, k);
    Pow2Constants();
    var w, p, p' := Pow2(32 * l), Pow2(k), Pow2(32 - k);
    var h, o := ShiftRight(x, k), ShiftedOut(x, k);
    LowBitsArith(v, low, x, rest, w, p, p', h, o, w * p);
    ShiftUnique(v, 32 * l + k, h + p' * rest, low + w * o);
  }

  lemma LowBitsArith(v: nat, low: nat, x: nat, rest: nat, w: nat, p: nat, p': nat, h: nat, o: nat, wp: nat)
    requires v == (x + 0x1_0000_0000 * rest) * w + low && low < w && x == h * p + o && o < p
    requires p' * p == 0x1_0000_0000 && wp == w * p
    ensures v == (h + p' * rest) * wp + (low + w * o)
    ensures 0 <= low + w * o < wp
  {
    assert x + 0x1_0000_0000 * rest == (h + p' * rest) * p + o by {
      MulSwap(p', rest, p);
      Distribute(h, p' * rest, p);
    }
    var t := h + p' * rest;
    Distribute(t * p, o, w);
    MulAssoc(t, p, w);
    MulCommute(p, w);
    MulCommute(o, w);
    MulMonotone(o + 1, p, w);
    Distribute(o, 1, w);
    MulMonotone(0, o, w);
  }

  lemma ShiftUnique(v: nat, s: nat, q: nat, r: nat)
    requires v == q * Pow2(s) + r && r < Pow2(s)
    ensures ShiftRight(v, s) == q && ShiftedOut(v, s) == r
  {
    var p := Pow2(s);
    DivUnique(v, p, q, r);
  }

  lemma ShiftSmall(v: nat, s: nat)
    requires v < Pow2(s)
    ensures ShiftRight(v, s) == 0 && ShiftedOut(v, s) == v
  {
    ShiftUnique(v, s, 0, v);
  }

  /** Bit k of v. */
  function Bit(v: nat, k: nat): nat {
    ShiftRight(v, k) % 2
  }

  lemma LimbBit(s: seq<limb>, l: nat, k: nat)
    requires l < |s| && k < 32
    ensures Bit(Val(s), 32 * l + k) == ShiftRight(s[l], k) % 2
  {
    hide *;
    LowBits(s, l, k);
    Pow2Next(31 - k);
    EvenAdded(ShiftRight(s[l], k), Pow2(31 - k), Val(s[l + 1..]));
    BitIs(Val(s), 32 * l + k);
  }

  lemma BitIs(v: nat, k: nat)
    ensures Bit(v, k) == ShiftRight(v, k) % 2
  {}

  lemma EvenAdded(a: nat, p: nat, r: nat)
    ensures (a + (2 * p) * r) % 2 == a % 2
  {
    MulAssoc(2, p, r);
  }

  lemma BeyondLimbs(s: seq<limb>, k: nat)
    requires k >= 32 * |s|
    ensures Val(s) < Pow2(k)
  {
    ValBound(s);
    WeightIsPow2(|s|);
    Pow2Monotone(32 * |s|, k);
  }

  lemma RoundBits(v: nat, shift: nat, dir: Direction, bit1: nat, low: nat)
    requires shift >= 1 && dir != AwayFromZero
    requires bit1 == Bit(v, shift - 1) && low == ShiftedOut(v, shift - 1)
    ensures RoundDiv(v, Pow2(shift), dir)
            == ShiftRight(v, shift)
               + match dir
                 case TowardZero => 0
                 case NearestAway => bit1
                 case _ => if bit1 == 1 && (low != 0 || Bit(v, shift) == 1) then 1 else 0
  {
    hide ShiftRight, ShiftedOut, Pow2, RoundDiv;
    var q', p' := ShiftRight(v, shift - 1), Pow2(shift - 1);
    var q := q' / 2;
    Pow2Next(shift - 1);
    assert v == q' * p' + low && low < p' && q' == 2 * q + bit1;
    HalfSplit(v, q', q, bit1, p', low);
    ShiftUnique(v, shift, q, bit1 * p' + low);
    RoundDivChar(v, Pow2(shift), dir, q, bit1 * p' + low);
    assert bit1 * p' == if bit1 == 1 then p' else 0;
  }

  lemma HalfSplit(v: nat, q': nat, q: nat, bit1: nat, p': nat, low: nat)
    requires v == q' * p' + low && low < p' && q' == 2 * q + bit1 && bit1 <= 1
    ensures v == q * (2 * p') + (bit1 * p' + low) && bit1 * p' + low < 2 * p'
  {
    Distribute(2 * q, bit1, p');
    MulAssoc(q, 2, p');
    MulCommute(2, q);
    MulMonotone(bit1, 1, p');
  }

  lemma ValNonZero(s: seq<limb>, x: limb)
    ensures Val(s + [x]) != 0 <==> Val(s) != 0 || x != 0
  {
    ValAppend(s, x);
    var w := Weight(|s|);
    hide *;
    MulMonotone(0, x, w);
    if x > 0 { MulMonotone(1, x, w); }
  }

  lemma BitBeyond(s: seq<limb>, k: nat)
    requires k >= 32 * |s|
    ensures Bit(Val(s), k) == 0 && ShiftRight(Val(s), k) == 0
  {
    BeyondLimbs(s, k);
    ShiftSmall(Val(s), k);
  }

  /** The bits below position 32 l + k, as the rounding loop collects them. */
  lemma LowBitsNonZero(s: seq<limb>, l: nat, k: nat)
    requires k < 32
    ensures l < |s| ==> (ShiftedOut(Val(s), 32 * l + k) != 0 <==> Val(s[..l]) != 0 || ShiftedOut(s[l], k) != 0)
    ensures l >= |s| ==> ShiftedOut(Val(s), 32 * l + k) == Val(s)
  {
    hide *;
    if l < |s| {
      LowBits(s, l, k);
      var o, w := ShiftedOut(s[l], k), Weight(l);
      MulMonotone(0, w, o);
      if o > 0 { MulMonotone(1, o, w); MulCommute(w, o); }
    } else {
      BeyondLimbs(s, 32 * l + k);
      ShiftSmall(Val(s), 32 * l + k);
    }
  }

  class Mpb {
    const tab: array<limb>
    var len: nat

    ghost predicate Valid()
      reads this
    {
      1 <= len <= tab.Length
    }

    /** The number represented. */
    ghost function Value(): nat
      requires Valid()
      reads this, tab
    {
      Val(tab[..len])
    }

    ghost predicate Normalized()
      requires Valid()
      reads this, tab
    {
      Normal(tab[..len])
    }

    constructor (capacity: nat)
      requires capacity >= 1
      ensures Valid() && fresh(tab) && tab.Length == capacity
    {
      tab := new limb[capacity];
      len := 1;
    }

    /** mpb_renorm: drop leading zero limbs. */
    method Renorm()
      requires Valid()
      modifies this
      ensures Valid() && Normalized() && len <= old(len)
      ensures Value() == old(Value())
    {
      while len > 1 && tab[len - 1] == 0
        invariant 1 <= len <= old(len)
        invariant Value() == old(Value())
      {
        assert tab[..len] == tab[..len - 1] + [tab[len - 1]];
        ValAppend(tab[..len - 1], 0);
        len := len - 1;
      }
    }

    /** mpb_get_bit. */
    method GetBit(k: nat) returns (bit: limb)
      requires Valid()
      ensures bit == Bit(Value(), k)
    {
      hide Bit, ShiftRight, Pow2, Val;
      var l, k' := k / 32, k % 32;
      if l >= len {
        BitBeyond(tab[..len], k);
        bit := 0;
      } else {
        LimbBit(tab[..len], l, k');
        bit := ShiftRight(tab[l], k') % 2;
      }
    }

    /** The choice of add_one in mpb_shr_round. Bits OR-ed together are only ever
        compared with zero. */
    method RoundingBit(shift: nat, rnd: Rnd) returns (addOne: limb)
      requires Valid() && shift >= 1
      ensures addOne <= 1
      ensures RoundDiv(Value(), Pow2(shift), rnd.Dir()) == ShiftRight(Value(), shift) + addOne
    {
      hide Bit, ShiftRight, ShiftedOut, Pow2, Val, RoundDiv;
      ghost var low := ShiftedOut(Value(), shift - 1);
      RoundBits(Value(), shift, rnd.Dir(), Bit(Value(), shift - 1), low);
      if rnd == RNDZ {
        return 0;
      }
      var bit1 := GetBit(shift - 1);
      if bit1 == 0 {
        return 0;
      }
      var bit2 := rnd == RNDNA;
      if !bit2 {
        if shift >= 2 {
          bit2 := AnyLowBit(shift - 1);
        } else {
          NoLowBits(Value());
        }
      }
      if bit2 {
        addOne := 1;
      } else {
        addOne := GetBit(shift);
      }
      BitSmall(Value(), shift);
      BitSmall(Value(), shift - 1);
    }

    /** OR of all bits below position k. */
    method AnyLowBit(k: nat) returns (any: bool)
      requires Valid()
      ensures any <==> ShiftedOut(Value(), k) != 0
    {
      hide ShiftRight, ShiftedOut, Pow2, Val;
      any := false;
      var l, k' := k / 32, k % 32;
      assert tab[..0] == [];
      EmptyVal();
      var i, stop := 0, if l < len then l else len;
      while i < stop
        invariant 0 <= i <= stop
        invariant any <==> Val(tab[..i]) != 0
      {
        ValNonZero(tab[..i], tab[i]);
        assert tab[..i + 1] == tab[..i] + [tab[i]];
        any := any || tab[i] != 0;
        i := i + 1;
      }
      LowBitsNonZero(tab[..len], l, k');
      if l < len {
        assert tab[..len][..l] == tab[..l];
        any := any || ShiftedOut(tab[l], k') != 0;
      }
    }

    /** Drop the l low limbs, moving the rest down. */
    method DropLow(l: nat)
      requires Valid() && l < len
      modifies this, tab
      ensures Valid() && len == old(len) - l
      ensures tab[..len] == old(tab[l..len])
    {
      var n := len - l;
      var i := 0;
      while i < n
        invariant 0 <= i <= n && len == old(len)
        invariant tab[..i] == old(tab[l..])[..i]
        invariant tab[i..] == old(tab[i..])
      {
        assert tab[i + l] == old(tab[i..])[l];
        tab[i] := tab[i + l];
        i := i + 1;
      }
      len := n;
    }

    /** Move the limbs up by l places and clear the low ones. */
    method MoveUp(l: nat)
      requires Valid() && len + l <= tab.Length
      modifies this, tab
      ensures Valid() && len == old(len) + l
      ensures tab[..len] == seq(l, _ => 0) + old(tab[..len])
    {
      CopyUp(l);
      ghost var high := tab[l..];
      assert high[..len] == tab[l..len + l];
      ClearLow(l);
      len := len + l;
      assert tab[..len] == tab[..l] + tab[l..][..len - l];
    }

    method CopyUp(l: nat)
      requires Valid() && len + l <= tab.Length
      modifies tab
      ensures tab[l..len + l] == old(tab[..len])
    {
      var i := len;
      while i > 0
        invariant 0 <= i <= len
        invariant forall j :: 0 <= j < i ==> tab[j] == old(tab[j])
        invariant forall j :: i + l <= j < len + l ==> tab[j] == old(tab[j - l])
      {
        i := i - 1;
        tab[i + l] := tab[i];
      }
    }

    method ClearLow(l: nat)
      requires l <= tab.Length
      modifies tab
      ensures tab[..l] == seq(l, _ => 0)
      ensures tab[l..] == old(tab[l..])
    {
      var i := 0;
      while i < l
        invariant 0 <= i <= l
        invariant tab[..i] == seq(i, _ => 0)
        invariant tab[l..] == old(tab[l..])
      {
        tab[i] := 0;
        assert tab[..i + 1] == tab[..i] + [0];
        i := i + 1;
      }
    }

    /** Add 1; a carry out of the top needs one more limb. */
    method AddOne()
      requires Valid()
      requires Value() + 1 == Weight(len) ==> len < tab.Length
      modifies this, tab
      ensures Valid() && Value() == old(Value()) + 1
      ensures old(Normalized()) ==> Normalized()
    {
      hide Val, Weight, Multiplied, Normal;
      ghost var v, n := Value(), len;
      var a := MpAddUi(tab, 1, len);
      CarriedOne(tab[..n], v, a, old(tab[..n]));
      if a != 0 {
        tab[len] := a;
        len := len + 1;
        assert tab[..len] == tab[..n] + [a];
      }
      GrowNormal(old(tab[..n]), tab[..len]);
    }

    /** The floor of the value over 2^shift, for shift at most the bit length. */
    method FloorShift(shift: nat)
      requires Valid() && 1 <= shift && shift / 32 < len
      modifies this, tab
      ensures Valid() && Value() == ShiftRight(old(Value()), shift)
      ensures old(Normalized()) ==> Normalized()
      ensures len < tab.Length || Value() + 1 < Weight(len)
    {
      hide Val, Weight, Normal, ShiftRight;
      ghost var v := Value();
      var l, k := shift / 32, shift % 32;
      NestedShift(v, 32 * l, k);
      assert ShiftRight(ShiftRight(v, 32 * l), k) == ShiftRight(v, shift);
      if l > 0 {
        WholeLimbs(tab[..len], l);
        DroppedNormal(tab[..len], l);
        DropLow(l);
      } else {
        NestedShift(v, 0, k);
      }
      assert Value() == ShiftRight(v, 32 * l);
      if k != 0 {
        ShrInLimbs(k);
      }
    }

    /** The floor over 2^k for a shift inside limbs; no carry can follow it. */
    method ShrInLimbs(k: nat)
      requires Valid() && 1 <= k < 32
      modifies this, tab
      ensures Valid() && Value() == ShiftRight(old(Value()), k) && Normalized()
      ensures len < tab.Length || Value() + 1 < Weight(len)
    {
      hide Val, Weight, Normal, ShiftRight, Divided, Pow2;
      PowAtLeastOne(k);
      var rem := MpShr(tab, len, k, 0);
      DividedPlain(tab[..len], old(tab[..len]), Pow2(k), rem);
      ShiftUnique(old(Value()), k, Value(), rem);
      NoCarryAfterShift(old(tab[..len]), tab[..len], k, rem);
      Renorm();
    }

    /** mpb_shr_round: the value over 2^shift, rounded; a negative shift multiplies. */
    method ShrRound(shift: int, rnd: Rnd)
      requires Valid()
      requires shift < 0 ==> len + (-shift) / 32 + (if (-shift) % 32 != 0 then 1 else 0) <= tab.Length
      modifies this, tab
      ensures Valid() && Value() == ShiftRound(old(Value()), 1, shift, rnd.Dir())
      ensures old(Normalized()) && (shift >= 0 || old(Value()) != 0) ==> Normalized()
    {
      hide Val, Weight, ShiftRight, Pow2, RoundDiv, Normal;
      if shift == 0 {
        ShiftRoundZero(Value(), rnd.Dir());
        return;
      }
      if shift < 0 {
        ShlExact(-shift);
        ShiftRoundUp(old(Value()), 1, -shift, rnd.Dir());
        RoundDivByOne(Value(), rnd.Dir());
      } else {
        ShiftRoundDown(Value(), 1, shift, rnd.Dir());
        var addOne := RoundingBit(shift, rnd);
        var l := shift / 32;
        if l >= len {
          BitBeyond(tab[..len], shift);
          len := 1;
          tab[0] := addOne;
          OneLimb(addOne);
          assert tab[..len] == [addOne];
        } else {
          FloorShift(shift);
          if addOne == 1 {
            AddOne();
          }
        }
      }
    }

    /** The left shift: whole limbs after a shift inside limbs. */
    method ShlExact(shift: nat)
      requires Valid() && shift > 0
      requires len + shift / 32 + (if shift % 32 != 0 then 1 else 0) <= tab.Length
      modifies this, tab
      ensures Valid() && Value() == old(Value()) * Pow2(shift)
      ensures old(Normalized()) && old(Value()) != 0 ==> Normalized()
    {
      hide Val, Weight, Multiplied, Normal, ShiftRight, Pow2;
      ghost var s := tab[..len];
      var l, k := shift / 32, shift % 32;
      if k != 0 {
        PowAtLeastOne(k);
        var h := MpShl(tab, len, k, 0);
        TopWord(s, tab[..len], k, h);
        tab[len] := h;
        len := len + 1;
        assert tab[..len] == tab[..len - 1] + [h];
        Renorm();
      } else {
        PowZero(Value());
      }
      ghost var mid := tab[..len];
      if l > 0 {
        MoveUp(l);
      }
      assert tab[..len] == seq(l, _ => 0) + mid;
      MovedUp(mid, l, k, shift, Val(s));
      if Normal(mid) && Val(mid) != 0 {
        MovedNormal(mid, l);
      }
      NonZeroProduct(Val(s), Pow2(k));
    }

    /** mpb_cmp: -1, 0 or 1. On normal numbers the lengths may be compared first. */
    method Cmp(b: Mpb) returns (res: int)
      requires Valid() && Normalized() && b.Valid() && b.Normalized()
      ensures res == if Value() < b.Value() then -1 else if Value() > b.Value() then 1 else 0
    {
      hide Val, Weight;
      LengthDecides(tab[..len], b.tab[..b.len]);
      LengthDecides(b.tab[..b.len], tab[..len]);
      if len < b.len {
        return -1;
      } else if len > b.len {
        return 1;
      }
      var i := len;
      assert tab[len..len] == b.tab[len..len] == [];
      while i > 0
        invariant 0 <= i <= len
        invariant tab[i..len] == b.tab[i..len]
      {
        i := i - 1;
        if tab[i] != b.tab[i] {
          LimbDecides(tab[..len], b.tab[..len], i);
          if tab[i] < b.tab[i] {
            return -1;
          } else {
            return 1;
          }
        }
        assert tab[i..len] == [tab[i]] + tab[i + 1..len];
        assert b.tab[i..len] == [tab[i]] + b.tab[i + 1..len];
      }
      assert tab[0..len] == tab[..len] && b.tab[0..len] == b.tab[..len];
      res := 0;
    }

    /** mpb_set_u64. */
    method SetU64(m: u64)
      requires tab.Length >= 2
      modifies this, tab
      ensures Valid() && Normalized() && Value() == m && len <= 2
    {
      tab[0] := m % BASE;
      tab[1] := m / BASE;
      TwoLimbs(m % BASE, m / BASE);
      OneLimb(m % BASE);
      if tab[1] == 0 {
        len := 1;
        assert tab[..len] == [m % BASE];
      } else {
        len := 2;
        assert tab[..len] == [m % BASE, m / BASE];
      }
    }

    /** mpb_get_u64: the low 64 bits. */
    method GetU64() returns (m: u64)
      requires Valid()
      ensures m == Value() % TWO_64
    {
      hide Val, Weight;
      if len == 1 {
        OneLimb(tab[0]);
        assert tab[..len] == [tab[0]];
        m := tab[0];
      } else {
        LowTwoLimbs(tab[..len]);
        m := tab[0] + tab[1] * BASE;
      }
    }

    /** mpb_floor_log2: the position of the top bit, or -1 for 0. */
    method FloorLog2() returns (l: int)
      requires Valid() && Normalized()
      ensures l == BitLen(Value()) - 1
    {
      hide Val, Weight, BitLen, Pow2;
      TopLimbLength(tab[..len]);
      BitLen32(tab[len - 1]);
      var v := tab[len - 1];
      if v == 0 {
        l := -1;
      } else {
        l := len * 32 - 1 - Clz32(v);
      }
    }

    /** One multiplication step of the power loops: this := this * b + a, with a
        new limb for a carry (mul_pow and mpb_mul1_base). */
    method Mul1(b: limb, a: limb)
      requires Valid() && Normalized()
      requires Value() * b + a >= Weight(len) ==> len < tab.Length
      modifies this, tab
      ensures Valid() && Value() == old(Value()) * b + a
      ensures b > 0 ==> Normalized()
    {
      hide Val, Weight, Multiplied, Normal;
      ghost var n := len;
      var h := MpMul1(tab, len, b, a);
      Carried(tab[..n], old(tab[..n]), b, h, a);
      if h != 0 {
        tab[len] := h;
        len := len + 1;
        assert tab[..len] == tab[..n] + [h];
      }
      NormalAfterMul(old(tab[..n]), tab[..len], b, a);
    }

    /** mpb_mul1_base: this := this * base + a, where radixBase 0 means 2^32. */
    method Mul1Base(radixBase: limb, a: limb)
      requires Valid() && Normalized() && len + 2 <= tab.Length
      modifies this, tab
      ensures Valid() && Normalized()
      ensures Value() == old(Value()) * (if radixBase == 0 then BASE else radixBase) + a
    {
      hide Val, Weight, Multiplied, Normal;
      ghost var s := tab[..len];
      OneLimb(a);
      if tab[0] == 0 && len == 1 {
        assert s == [0];
        OneLimb(0);
        tab[0] := a;
        assert tab[..len] == [a];
        return;
      }
      if radixBase == 0 {
        PushLow(a);
        ValFirst(a, s);
        MulCommute(BASE, Val(s));
      } else {
        var h := MpMul1(tab, len, radixBase, a);
        Carried(tab[..len], s, radixBase, h, a);
        tab[len] := h;
        len := len + 1;
        assert tab[..len] == tab[..len - 1] + [h];
      }
      Renorm();
    }

    /** Move every limb up by one place and put a at the bottom. */
    method PushLow(a: limb)
      requires Valid() && len + 2 <= tab.Length
      modifies this, tab
      ensures Valid() && len == old(len) + 1
      ensures tab[..len] == [a] + old(tab[..len])
    {
      var i := len + 1;
      while i > 0
        invariant 0 <= i <= len + 1 && len == old(len)
        invariant forall j :: 0 <= j < i ==> tab[j] == old(tab[j])
        invariant forall j :: i < j <= len + 1 ==> tab[j] == old(tab[j - 1])
      {
        i := i - 1;
        tab[i + 1] := tab[i];
      }
      tab[0] := a;
      len := len + 1;
    }

    /** tab[0] |= 1. */
    method SetSticky()
      requires Valid()
      modifies tab
      ensures Valid() && Value() == SetBit0(old(Value()))
      ensures old(Normalized()) ==> Normalized()
    {
      ghost var s := tab[..len];
      tab[0] := SetBit0(tab[0]);
      assert s == [s[0]] + s[1..];
      assert tab[..len] == [tab[0]] + s[1..];
      StickyLimb(s[0], s[1..]);
    }
  }

  function Clz32(v: limb): nat
    requires v != 0
  {
    BitLen32(v);
    32 - BitLen(v)
  }

  lemma BitLen32(v: limb)
    ensures BitLen(v) <= 32
  {
    Pow2Constants();
    BitLenAtMost(v, 32);
  }

  lemma StickyLimb(x: limb, rest: seq<limb>)
    ensures Val([SetBit0(x)] + rest) == SetBit0(Val([x] + rest))
    ensures Normal([x] + rest) ==> Normal([SetBit0(x)] + rest)
  {
    ValFirst(x, rest);
    ValFirst(SetBit0(x), rest);
    hide Val;
    EvenPart(x, Val(rest));
  }

  lemma EvenPart(x: nat, v: nat)
    ensures SetBit0(x + BASE * v) == SetBit0(x) + BASE * v
  {
    assert BASE * v == 2 * (0x8000_0000 * v);
  }

  lemma TopLimbLength(s: seq<limb>)
    requires |s| >= 1 && Normal(s)
    ensures BitLen(Val(s)) == if s[|s| - 1] == 0 then 0 else 32 * (|s| - 1) + BitLen(s[|s| - 1])
  {
    ZeroValue(s);
    hide *;
    var n := |s| - 1;
    assert s == s[..n] + [s[n]];
    if s[n] != 0 {
      ValAppend(s[..n], s[n]);
      ValBound(s[..n]);
      WeightIsPow2(n);
      ScaledLength(Val(s), Val(s[..n]), s[n], 32 * n);
    }
  }

  lemma ScaledLength(v: nat, low: nat, x: nat, s: nat)
    requires x > 0 && v == low + x * Pow2(s) && low < Pow2(s)
    ensures BitLen(v) == s + BitLen(x)
  {
    var k := BitLen(x);
    hide *;
    Pow2Add(k, s);
    Pow2Add(k - 1, s);
    assert k - 1 + s == s + k - 1;
    TopBit(v, low, x, Pow2(s), Pow2(k - 1), Pow2(k));
    BitLenUnique(v, s + k);
  }

  lemma ZeroValue(s: seq<limb>)
    requires |s| >= 1 && Normal(s)
    ensures s[|s| - 1] == 0 ==> Val(s) == 0 && BitLen(0) == 0
  {
    if s[|s| - 1] == 0 {
      assert s[1..] == [];
    }
  }

  lemma TopBit(v: nat, low: nat, x: nat, w: nat, lo: nat, hi: nat)
    requires v == low + x * w && low < w && lo <= x < hi
    ensures lo * w <= v < hi * w
  {
    MulMonotone(lo, x, w);
    MulMonotone(x + 1, hi, w);
    Distribute(x, 1, w);
  }

  /** A normal number with fewer limbs is smaller. */
  lemma LengthDecides(s: seq<limb>, t: seq<limb>)
    requires |s| >= 1 && Normal(t)
    ensures |s| < |t| ==> Val(s) < Val(t)
  {
    if |s| < |t| {
      TopLimb(t);
      ValBound(s);
      WeightMonotone(|s|, |t| - 1);
    }
  }

  lemma LimbDecides(s: seq<limb>, t: seq<limb>, i: nat)
    requires |s| == |t| && i < |s| && s[i + 1..] == t[i + 1..] && s[i] != t[i]
    ensures s[i] < t[i] ==> Val(s) < Val(t)
    ensures s[i] > t[i] ==> Val(s) > Val(t)
  {
    hide Val, Weight;
    DropLimbs(s, i);
    DropLimbs(t, i);
    assert s[i..] == [s[i]] + s[i + 1..] && t[i..] == [t[i]] + t[i + 1..];
    ValFirst(s[i], s[i + 1..]);
    ValFirst(t[i], t[i + 1..]);
    HigherWins(Val(s), Val(s[i..]), Val(s[..i]), Val(t), Val(t[i..]), Val(t[..i]), Weight(i));
  }

  lemma HigherWins(v: nat, h: nat, l: nat, v': nat, h': nat, l': nat, w: nat)
    requires v == h * w + l && l < w && v' == h' * w + l' && l' < w
    ensures h < h' ==> v < v'
    ensures h > h' ==> v > v'
  {
    if h < h' {
      MulMonotone(h + 1, h', w);
      Distribute(h, 1, w);
    } else if h > h' {
      MulMonotone(h' + 1, h, w);
      Distribute(h', 1, w);
    }
  }

  lemma TwoLimbs(x: limb, y: limb)
    ensures Val([x, y]) == x + BASE * y
  {
    assert [x, y][1..] == [y];
    OneLimb(y);
  }

  lemma LowTwoLimbs(s: seq<limb>)
    requires |s| >= 2
    ensures Val(s) % TWO_64 == s[0] + s[1] * BASE
  {
    var rest := s[2..];
    assert s == [s[0]] + ([s[1]] + rest);
    ValFirst(s[0], [s[1]] + rest);
    ValFirst(s[1], rest);
    DivUnique(Val(s), TWO_64, Val(rest), s[0] + s[1] * BASE);
  }

  lemma Carried(new_: seq<limb>, old_: seq<limb>, b: nat, h: limb, a: nat)
    requires Multiplied(new_, old_, b, h, a)
    ensures Val(new_ + [h]) == Val(old_) * b + a
    ensures h == 0 ==> Val(new_) == Val(old_) * b + a
    ensures h != 0 ==> Val(old_) * b + a >= Weight(|old_|)
  {
    ValAppend(new_, h);
    var w := Weight(|old_|);
    if h != 0 { MulMonotone(1, h, w); }
  }

  lemma NormalAfterMul(old_: seq<limb>, new_: seq<limb>, b: nat, a: nat)
    requires |old_| >= 1 && (|new_| == |old_| || (|new_| == |old_| + 1 && new_[|old_|] != 0))
    requires Val(new_) == Val(old_) * b + a && Normal(old_)
    ensures b > 0 ==> Normal(new_)
  {
    hide Val, Weight;
    TopLimb(old_);
    TopLimb(new_);
    if b > 0 {
      var v := Val(old_);
      MulMonotone(1, b, v);
      MulCommute(v, b);
    }
  }

  lemma PowAtLeastOne(k: nat)
    ensures 0 < Pow2(k)
  {}

  lemma PowZero(v: nat)
    ensures v * Pow2(0) == v
  {
    assert Pow2(0) == 1;
  }

  lemma ShiftRoundZero(v: nat, dir: Direction)
    ensures ShiftRound(v, 1, 0, dir) == v
  {
    assert Pow2(0) == 1;
    RoundDivByOne(v, dir);
  }

  lemma RoundDivByOne(v: nat, dir: Direction)
    ensures RoundDiv(v, 1, dir) == v
  {}

  lemma OneLimb(x: limb)
    ensures Val([x]) == x && Normal([x])
  {
    assert [x][1..] == [];
  }

  lemma CarriedOne(new_: seq<limb>, v: nat, a: limb, old_: seq<limb>)
    requires Multiplied(new_, old_, 1, a, 1) && v == Val(old_)
    ensures Val(new_ + [a]) == v + 1
    ensures a == 0 ==> Val(new_) == v + 1
    ensures a != 0 && a <= 1 ==> v + 1 == Weight(|old_|)
  {
    ValAppend(new_, a);
    ValBound(old_);
    var w := Weight(|old_|);
    if a == 1 {
      ValBound(new_);
    }
  }

  /** A number that grew by one limb at most stays normal. */
  lemma GrowNormal(old_: seq<limb>, new_: seq<limb>)
    requires |old_| >= 1 && (|new_| == |old_| || (|new_| == |old_| + 1 && new_[|old_|] != 0))
    requires Val(new_) == Val(old_) + 1
    ensures Normal(old_) ==> Normal(new_)
  {
    TopLimb(old_);
    TopLimb(new_);
  }

  lemma DroppedNormal(s: seq<limb>, l: nat)
    requires l < |s|
    ensures Normal(s) ==> Normal(s[l..])
  {}

  lemma WholeLimbs(s: seq<limb>, l: nat)
    requires l <= |s|
    ensures Val(s[l..]) == ShiftRight(Val(s), 32 * l)
  {
    DropLimbs(s, l);
    WeightIsPow2(l);
    hide Val, Weight, ShiftRight, Pow2;
    ShiftUnique(Val(s), 32 * l, Val(s[l..]), Val(s[..l]));
  }

  lemma NestedShift(v: nat, a: nat, b: nat)
    ensures ShiftRight(ShiftRight(v, a), b) == ShiftRight(v, a + b)
    ensures ShiftRight(v, 0) == v
  {
    ShiftUnique(v, 0, v, 0) by { assert Pow2(0) == 1; }
    Pow2Add(b, a);
    hide ShiftRight, ShiftedOut, Pow2;
    var mid := ShiftRight(v, a);
    var t := ShiftRight(mid, b);
    TwoShifts(v, mid, t, Pow2(b), ShiftedOut(mid, b), Pow2(a), ShiftedOut(v, a));
    ShiftUnique(v, a + b, t, ShiftedOut(mid, b) * Pow2(a) + ShiftedOut(v, a));
  }

  lemma DividedPlain(t: seq<limb>, m: seq<limb>, b: nat, rem: nat)
    requires Divided(t, m, b, rem, 0)
    ensures Val(m) == Val(t) * b + rem
  {}

  lemma TwoShifts(v: nat, mid: nat, t: nat, p: nat, rem: nat, w: nat, low: nat)
    requires v == mid * w + low && low < w && mid == t * p + rem && rem < p
    ensures v == t * (p * w) + (rem * w + low) && 0 <= rem * w + low < p * w
  {
    Distribute(t * p, rem, w);
    MulAssoc(t, p, w);
    MulMonotone(rem + 1, p, w);
    Distribute(rem, 1, w);
    MulMonotone(0, rem, w);
  }

  lemma NoCarryAfterShift(mid: seq<limb>, t: seq<limb>, k: nat, rem: nat)
    requires |t| >= 1 && k >= 1 && Divided(t, mid, Pow2(k), rem, 0)
    ensures Val(t) + 1 < Weight(|t|)
  {
    ValBound(mid);
    var v, w := Val(t), Weight(|t|);
    assert Val(mid) == v * Pow2(k) + rem && Val(mid) < w;
    assert w >= BASE;
    LimbConstants();
    Pow2Next(k - 1);
    hide *;
    MulMonotone(2, Pow2(k), v);
    MulCommute(v, Pow2(k));
  }

  lemma TopWord(s: seq<limb>, t: seq<limb>, k: nat, h: limb)
    requires Multiplied(t, s, Pow2(k), h, 0)
    ensures Val(t + [h]) == Val(s) * Pow2(k)
  {
    ValAppend(t, h);
  }

  lemma MovedUp(mid: seq<limb>, l: nat, k: nat, shift: nat, v: nat)
    requires Val(mid) == v * Pow2(k) && shift == 32 * l + k
    ensures Val(seq(l, _ => 0) + mid) == v * Pow2(shift)
  {
    ValConcat(seq(l, _ => 0), mid);
    ValZeros(l);
    WeightIsPow2(l);
    Pow2Add(k, 32 * l);
    hide *;
    MulAssoc(v, Pow2(k), Pow2(32 * l));
    MulCommute(Weight(l), Val(mid));
  }

  lemma MovedNormal(mid: seq<limb>, l: nat)
    requires |mid| >= 1 && Normal(mid) && Val(mid) != 0
    ensures Normal(seq(l, _ => 0) + mid)
  {
    if |mid| == 1 {
      assert mid[1..] == [];
      assert Val(mid) == mid[0];
    }
  }

  lemma NonZeroProduct(v: nat, p: nat)
    requires p > 0
    ensures v != 0 ==> v * p != 0
  {
    if v != 0 { MulMonotone(1, v, p); }
  }

  lemma EmptyVal()
    ensures Val([]) == 0
  {}

  lemma NoLowBits(v: nat)
    ensures ShiftedOut(v, 0) == 0
  {
    assert Pow2(0) == 1;
  }

  lemma BitSmall(v: nat, k: nat)
    ensures Bit(v, k) <= 1
  {}
}

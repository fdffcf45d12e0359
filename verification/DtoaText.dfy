/** Numbers as text: u32toa, u64toa, u64toa_radix and output_digits
    (dtoa.c:532-689, 845-889). The characters written so far are a string. */
module DtoaText {
  import opened Powers
  import opened Rounding
  import opened Float64
  import opened Limbs
  import opened BigNum
  import opened RadixTables
  import opened RadixLog
  import opened DtoaPow
  import opened DtoaRoom
  import opened DtoaSearch
  import opened AtodLex

  function DigitChar(d: nat): char
    requires d < 36
  {
    if d < 10 then '0' + d as char else 'a' + (d - 10) as char
  }

  lemma DigitCharIs(d: nat)
    requires d < 36
    ensures ToDigit(DigitChar(d)) == d
    ensures DigitChar(d) == '0' <==> d == 0
    ensures DigitChar(d) != '.' && DigitChar(d) != '_' && DigitChar(d) != '@' && DigitChar(d) != '-' && DigitChar(d) != '+'
    ensures d < 10 ==> '0' <= DigitChar(d) <= '9'
  {}

  /** The n low digits of v, the most significant first. */
  function DigitString(v: nat, radix: nat, n: nat): (s: string)
    requires IsRadix(radix)
    ensures |s| == n
  {
    if n == 0 then "" else DigitString(Quot(v, radix), radix, n - 1) + [DigitChar(Rem(v, radix))]
  }

  /** The same digits as numbers. */
  function DigitsOf(v: nat, radix: nat, n: nat): (s: seq<nat>)
    requires IsRadix(radix)
    ensures |s| == n
  {
    if n == 0 then [] else DigitsOf(Quot(v, radix), radix, n - 1) + [Rem(v, radix)]
  }

  lemma {:induction false} DigitsOfValue(v: nat, radix: nat, n: nat)
    requires IsRadix(radix) && v < Pow(radix, n)
    ensures DigitsValue(DigitsOf(v, radix, n), radix) == v
  {
    if n > 0 {
      hide Quot, Rem, Pow;
      QuotientBelow(v, radix, n);
      DigitsOfValue(Quot(v, radix), radix, n - 1);
      var s := DigitsOf(Quot(v, radix), radix, n - 1);
      assert (s + [Rem(v, radix)])[..n - 1] == s;
    } else {
      PowZeroth(radix);
    }
  }

  lemma QuotientBelow(v: nat, radix: nat, n: nat)
    requires radix >= 2 && n > 0 && v < Pow(radix, n)
    ensures Quot(v, radix) < Pow(radix, n - 1)
  {
    NextPowerOf(radix, n - 1);
    hide *;
    MulCommute(radix, Pow(radix, n - 1));
    MulCancel(Quot(v, radix), Pow(radix, n - 1), radix);
  }

  /** The last digit of h * (radix * p) + w is that of w. */
  lemma SplitDigit(v: nat, h: nat, p: nat, w: nat, radix: nat)
    requires radix >= 2 && v == h * (radix * p) + w
    ensures Rem(v, radix) == Rem(w, radix) && Quot(v, radix) == h * p + Quot(w, radix)
  {
    hide *;
    MulCommute(radix, p);
    MulAssoc(h, p, radix);
    MulMonotone(0, h, p);
    Distribute(h * p, Quot(w, radix), radix);
    QuotUnique(v, radix, h * p + Quot(w, radix), Rem(w, radix));
  }

  /** Higher parts of the number do not show in its low digits. */
  lemma {:induction false} LowDigits(v: nat, w: nat, h: nat, radix: nat, n: nat)
    requires IsRadix(radix) && v == h * Pow(radix, n) + w
    ensures DigitString(v, radix, n) == DigitString(w, radix, n)
  {
    if n > 0 {
      hide Pow, Quot, Rem;
      NextPowerOf(radix, n - 1);
      SplitDigit(v, h, Pow(radix, n - 1), w, radix);
      LowDigits(Quot(v, radix), Quot(w, radix), h, radix, n - 1);
    }
  }

  /** Digits come in pieces. */
  lemma {:induction false} DigitPieces(v: nat, h: nat, w: nat, radix: nat, a: nat, b: nat)
    requires IsRadix(radix) && v == h * Pow(radix, b) + w && w < Pow(radix, b)
    ensures DigitString(v, radix, a + b) == DigitString(h, radix, a) + DigitString(w, radix, b)
  {
    hide Pow, Quot, Rem;
    PowZeroth(radix);
    if b == 0 {
      TimesOneIs(h, Pow(radix, 0));
      assert DigitString(h, radix, a) + "" == DigitString(h, radix, a);
    } else {
      NextPowerOf(radix, b - 1);
      SplitDigit(v, h, Pow(radix, b - 1), w, radix);
      QuotientBelow(w, radix, b);
      DigitPieces(Quot(v, radix), h, Quot(w, radix), radix, a, b - 1);
      var x, y, z := DigitString(h, radix, a), DigitString(Quot(w, radix), radix, b - 1), [DigitChar(Rem(w, radix))];
      assert x + (y + z) == x + y + z;
    }
  }

  /** u64toa_bin_len and limb_to_a (and u32toa_len): len digits of n, written
      from the last to the first. */
  method ToText(n0: nat, radix: nat, len: nat) returns (text: string)
    requires IsRadix(radix)
    ensures text == DigitString(n0, radix, len)
  {
    hide Quot, Rem;
    text := "";
    var n: nat, i: nat := n0, len;
    while i > 0
      invariant 0 <= i <= len && |text| == len - i
      invariant DigitString(n0, radix, len) == DigitString(n, radix, i) + text
    {
      i := i - 1;
      ghost var x, z := DigitString(Quot(n, radix), radix, i), [DigitChar(Rem(n, radix))];
      assert x + z + text == x + (z + text);
      text := [DigitChar(Rem(n, radix))] + text;
      n := Quot(n, radix);
    }
    assert DigitString(n, radix, 0) + text == text;
  }

  /** Insert the dot before position dot, unless that is the end. */
  function WithDot(s: string, dot: nat): string
    requires dot <= |s|
  {
    if dot == |s| then s else s[..dot] + "." + s[dot..]
  }

  /** One chunk of a number v = h * radix^d + low: its last n digits are those of
      low, and with a full chunk the rest is in h. */
  lemma Chunk(v: nat, h: nat, low: nat, radix: nat, d: nat, n: nat, left: nat)
    requires IsRadix(radix) && v == h * Pow(radix, d) + low && low < Pow(radix, d) && n == Min(left, d)
    ensures DigitString(v, radix, left) == DigitString(h, radix, left - n) + DigitString(low, radix, n)
  {
    hide Pow;
    if left <= d {
      PowAdd(radix, d - n, n);
      MulAssoc(h, Pow(radix, d - n), Pow(radix, n));
      LowDigits(v, low, h * Pow(radix, d - n), radix, n);
      assert DigitString(h, radix, 0) + DigitString(low, radix, n) == DigitString(low, radix, n);
    } else {
      DigitPieces(v, h, low, radix, left - d, d);
    }
  }

  lemma AppendChunk(whole: string, rest: string, chunk: string, text: string)
    requires whole == rest + chunk + text
    ensures whole == rest + (chunk + text)
  {}

  /** The loop of output_digits that divides by radix_base. */
  method DigitsTable(a: Mpb, radix: nat, nDigits: nat) returns (text: string)
    requires a.Valid() && a.Normalized() && TableRadix(radix)
    modifies a, a.tab
    ensures text == DigitString(old(a.Value()), radix, nDigits)
  {
    hide Val, Normal, Divided, DigitString, Pow, DigitsPerLimb, RadixBase, PowerOfTwo;
    LimbBase(radix);
    TableBase(radix);
    var left := nDigits;
    text := "";
    assert DigitString(a.Value(), radix, left) + "" == DigitString(a.Value(), radix, left);
    while left != 0
      invariant 0 <= left <= nDigits && a.Valid() && a.Normalized()
      invariant DigitString(old(a.Value()), radix, nDigits) == DigitString(a.Value(), radix, left) + text
    {
      var n := Min(left, DigitsPerLimb(radix));
      ghost var v, s := a.Value(), a.tab[..a.len];
      var r := MpDiv1(a.tab, a.len, RadixBase(radix), 0);
      DividedPlain(a.tab[..a.len], s, RadixBase(radix), r);
      Chunk(v, a.Value(), r, radix, DigitsPerLimb(radix), n, left);
      a.Renorm();
      var chunk := ToText(r, radix, n);
      AppendChunk(DigitString(old(a.Value()), radix, nDigits), DigitString(a.Value(), radix, left - n), chunk, text);
      text := chunk + text;
      left := left - n;
    }
    assert DigitString(a.Value(), radix, 0) + text == text;
  }

  lemma TableBase(radix: nat)
    requires TableRadix(radix)
    ensures RadixBase(radix) > 0
  {}

  lemma FloorShiftIs(v: nat, s: nat)
    ensures ShiftRound(v, 1, s, TowardZero) == ShiftRight(v, s)
  {
    ShiftRoundDown(v, 1, s, TowardZero);
    hide Pow2, ShiftRight, ShiftedOut;
    var p := Pow2(s);
    assert 1 * p == p;
    RoundDivChar(v, p, TowardZero, ShiftRight(v, s), ShiftedOut(v, s));
  }

  /** The limbs of a power-of-two radix hold whole digits. */
  lemma BinaryLimb(radix: nat)
    requires PowerOfTwo(radix)
    ensures 1 <= DigitsPerLimb(radix) && DigitsPerLimb(radix) * RadixBits(radix) <= 32
  {
    hide RadixBits;
    BitsTable();
  }

  /** The low limb shows the low digits of the whole number. */
  lemma LowLimb(s: seq<limb>, radix: nat, n: nat)
    requires PowerOfTwo(radix) && |s| >= 1 && n * RadixBits(radix) <= 32
    ensures DigitString(Val(s), radix, n) == DigitString(s[0], radix, n)
  {
    hide Pow, Pow2, Val, DigitString, RadixBits;
    var k := n * RadixBits(radix);
    assert s == [s[0]] + s[1..];
    ValFirst(s[0], s[1..]);
    BitsPower(radix, n);
    Pow2Add(32 - k, k);
    Pow2Constants();
    var h := Val(s[1..]) * Pow2(32 - k);
    MulAssoc(Val(s[1..]), Pow2(32 - k), Pow2(k));
    MulCommute(BASE, Val(s[1..]));
    LowDigits(Val(s), s[0], h, radix, n);
  }

  lemma BinaryChunk(v: nat, radix: nat, left: nat, n: nat, d: nat, s: nat)
    requires IsRadix(radix) && PowerOfTwo(radix) && n == Min(left, d) && s == d * RadixBits(radix)
    ensures DigitString(v, radix, left) == DigitString(ShiftRight(v, s), radix, left - n) + DigitString(v, radix, n)
  {
    hide Pow, Pow2, DigitString, RadixBits, ShiftRight, ShiftedOut;
    BitsPower(radix, d);
    var h, low := ShiftRight(v, s), ShiftedOut(v, s);
    Chunk(v, h, low, radix, d, n, left);
    PowAdd(radix, d - n, n);
    MulAssoc(h, Pow(radix, d - n), Pow(radix, n));
    LowDigits(v, low, h * Pow(radix, d - n), radix, n);
  }

  /** The loop of output_digits that shifts. */
  method DigitsBinary(a: Mpb, radix: nat, nDigits: nat) returns (text: string)
    requires a.Valid() && a.Normalized() && PowerOfTwo(radix)
    modifies a, a.tab
    ensures text == DigitString(old(a.Value()), radix, nDigits)
  {
    hide Val, Normal, DigitString, Pow, Pow2, DigitsPerLimb, RadixBits, PowerOfTwo, ShiftRight, ShiftRound;
    PowerOfTwoRange(radix);
    BinaryLimb(radix);
    RadixBitsCorrect(radix);
    var left := nDigits;
    text := "";
    assert DigitString(a.Value(), radix, left) + "" == DigitString(a.Value(), radix, left);
    while true
      invariant 0 <= left <= nDigits && a.Valid() && a.Normalized()
      invariant DigitString(old(a.Value()), radix, nDigits) == DigitString(a.Value(), radix, left) + text
      decreases left
    {
      var n := Min(left, DigitsPerLimb(radix));
      BinaryChunk(a.Value(), radix, left, n, DigitsPerLimb(radix), DigitsPerLimb(radix) * RadixBits(radix));
      MulMonotone(n, DigitsPerLimb(radix), RadixBits(radix));
      LowLimb(a.tab[..a.len], radix, n);
      var chunk := ToText(a.tab[0], radix, n);
      left := left - n;
      ghost var rest := DigitString(ShiftRight(a.Value(), DigitsPerLimb(radix) * RadixBits(radix)), radix, left);
      AppendChunk(DigitString(old(a.Value()), radix, nDigits), rest, chunk, text);
      text := chunk + text;
      if left == 0 {
        assert rest == "" && rest + text == text;
        break;
      }
      FloorShiftIs(a.Value(), DigitsPerLimb(radix) * RadixBits(radix));
      a.ShrRound(DigitsPerLimb(radix) * RadixBits(radix), RNDZ);
    }
  }

  /** output_digits: n digits of a, with the dot before position dotPos. */
  method OutputDigits(a: Mpb, radix: nat, nDigits: nat, dotPos: nat) returns (text: string)
    requires a.Valid() && a.Normalized() && IsRadix(radix) && dotPos <= nDigits
    modifies a, a.tab
    ensures text == WithDot(DigitString(old(a.Value()), radix, nDigits), dotPos)
  {
    hide Val, Normal, DigitString, PowerOfTwo;
    if PowerOfTwo(radix) {
      PowerOfTwoRange(radix);
      text := DigitsBinary(a, radix, nDigits);
    } else {
      text := DigitsTable(a, radix, nDigits);
    }
    if dotPos != nDigits {
      text := text[..dotPos] + "." + text[dotPos..];
    }
  }

  lemma PowerOfTwoRange(radix: nat)
    ensures PowerOfTwo(radix) ==> IsRadix(radix)
  {}

  // ----- integers

  /** How many digits v has; 1 for zero. */
  function NumDigits(v: nat, radix: nat): (n: nat)
    requires IsRadix(radix)
    ensures n >= 1
  {
    if v < radix then 1 else 1 + NumDigits(Quot(v, radix), radix)
  }

  lemma {:induction false} NumDigitsRange(v: nat, radix: nat)
    requires IsRadix(radix)
    ensures v < Pow(radix, NumDigits(v, radix))
    ensures v > 0 ==> Pow(radix, NumDigits(v, radix) - 1) <= v
  {
    PowLow(radix);
    if v >= radix {
      var n := NumDigits(Quot(v, radix), radix);
      NumDigitsRange(Quot(v, radix), radix);
      NextPowerOf(radix, n);
      NextPowerOf(radix, n - 1);
      hide Pow, Quot;
      var q, r := Quot(v, radix), Rem(v, radix);
      MulMonotone(q + 1, Pow(radix, n), radix);
      Distribute(q, 1, radix);
      MulCommute(Pow(radix, n), radix);
      MulCommute(Pow(radix, n - 1), radix);
      if q == 0 { assert false; }
      MulMonotone(Pow(radix, n - 1), q, radix);
    }
  }

  lemma NumDigitsUnique(v: nat, radix: nat, n: nat)
    requires IsRadix(radix) && n >= 1 && v < Pow(radix, n) && (n > 1 ==> Pow(radix, n - 1) <= v)
    ensures NumDigits(v, radix) == n
  {
    hide Pow, NumDigits;
    var k := NumDigits(v, radix);
    NumDigitsRange(v, radix);
    if k < n {
      PowMonotone(radix, k, n - 1);
    } else if n < k {
      if v == 0 {
        NumDigitsZero(radix);
      } else {
        PowMonotone(radix, n, k - 1);
      }
    }
  }

  lemma NumDigitsZero(radix: nat)
    requires IsRadix(radix)
    ensures NumDigits(0, radix) == 1
  {}

  /** v in full. */
  function NumberText(v: nat, radix: nat): string
    requires IsRadix(radix)
  {
    DigitString(v, radix, NumDigits(v, radix))
  }

  /** u32toa, and the last branch of u64toa_radix: digits until nothing is left. */
  method WholeText(n0: nat, radix: nat) returns (text: string)
    requires IsRadix(radix)
    ensures text == NumberText(n0, radix)
  {
    hide Quot, Rem;
    text := [DigitChar(Rem(n0, radix))];
    var n: nat := Quot(n0, radix);
    SmallQuot(n0, radix);
    ghost var k := 1;
    assert DigitString(n, radix, 0) + text == text;
    while n != 0
      invariant k >= 1 && NumDigits(n0, radix) == if n == 0 then k else k + NumDigits(n, radix)
      invariant NumberText(n0, radix) == (if n == 0 then "" else NumberText(n, radix)) + text
    {
      SmallQuot(n, radix);
      ghost var x, z := if Quot(n, radix) == 0 then "" else NumberText(Quot(n, radix), radix), [DigitChar(Rem(n, radix))];
      assert NumberText(n, radix) == x + z;
      assert x + z + text == x + (z + text);
      text := [DigitChar(Rem(n, radix))] + text;
      n := Quot(n, radix);
      k := k + 1;
    }
    assert "" + text == text;
  }

  lemma SmallQuot(v: nat, radix: nat)
    requires IsRadix(radix)
    ensures v < radix <==> Quot(v, radix) == 0
    ensures v < radix ==> NumberText(v, radix) == [DigitChar(Rem(v, radix))]
    ensures v >= radix ==> NumberText(v, radix) == NumberText(Quot(v, radix), radix) + [DigitChar(Rem(v, radix))]
    ensures v >= radix ==> NumDigits(v, radix) == 1 + NumDigits(Quot(v, radix), radix)
  {
    hide Quot, Rem;
    var q, r := Quot(v, radix), Rem(v, radix);
    if q >= 1 { MulMonotone(1, q, radix); }
    if v < radix {
      assert DigitString(q, radix, 0) + [DigitChar(r)] == [DigitChar(r)];
    }
  }

  /** A number in full is its high part in full and its low digits. */
  lemma NumberPieces(v: nat, h: nat, w: nat, radix: nat, b: nat)
    requires IsRadix(radix) && h > 0 && v == h * Pow(radix, b) + w && w < Pow(radix, b)
    ensures NumberText(v, radix) == NumberText(h, radix) + DigitString(w, radix, b)
  {
    hide Pow, NumDigits, DigitString;
    var a := NumDigits(h, radix);
    NumDigitsRange(h, radix);
    PowAdd(radix, a, b);
    PowAdd(radix, a - 1, b);
    var p := Pow(radix, b);
    MulMonotone(h + 1, Pow(radix, a), p);
    Distribute(h, 1, p);
    MulMonotone(Pow(radix, a - 1), h, p);
    NumDigitsUnique(v, radix, a + b);
    DigitPieces(v, h, w, radix, a, b);
  }

  const BILLION: nat := 1000000000

  lemma BillionIs()
    ensures Pow(10, 9) == BILLION
  {}

  /** u64toa: in pieces of nine digits. */
  method U64toa(n0: u64) returns (text: string)
    ensures text == NumberText(n0, 10)
  {
    hide NumberText, DigitString, Pow;
    BillionIs();
    if n0 < BASE {
      text := WholeText(n0, 10);
      return;
    }
    var n1, n := n0 / BILLION, n0 % BILLION;
    NumberPieces(n0, n1, n, 10, 9);
    if n1 >= BASE {
      var n2, n3 := n1 / BILLION, n1 % BILLION;
      NumberPieces(n1, n2, n3, 10, 9);
      TwoDigits(n2);
      text := "";
      if n2 >= 10 {
        text := [DigitChar(n2 / 10)];
        n2 := n2 % 10;
      }
      text := text + [DigitChar(n2)];
      var middle := ToText(n3, 10, 9);
      text := text + middle;
    } else {
      text := WholeText(n1, 10);
    }
    var low := ToText(n, 10, 9);
    text := text + low;
  }

  lemma TwoDigits(n: nat)
    requires n < 100
    ensures NumberText(n, 10) == if n >= 10 then [DigitChar(n / 10)] + [DigitChar(n % 10)] else [DigitChar(n)]
  {
    QuotUnique(n, 10, n / 10, n % 10);
    SmallQuot(n, 10);
    if n >= 10 {
      QuotUnique(n / 10, 10, 0, n / 10);
      SmallQuot(n / 10, 10);
    }
  }

  /** How many digits a power-of-two radix needs. */
  lemma BinaryNumDigits(n: nat, radix: nat)
    requires IsRadix(radix) && PowerOfTwo(radix)
    ensures RadixBits(radix) > 0
    ensures NumDigits(n, radix) == if n == 0 then 1 else Quot(BitLen(n) + RadixBits(radix) - 1, RadixBits(radix))
  {
    hide NumDigits, Pow, Pow2, RadixBits, BitLen, Quot;
    RadixBitsCorrect(radix);
    NumDigitsZero(radix);
    if n > 0 {
      var b := RadixBits(radix);
      var l := Quot(BitLen(n) + b - 1, b);
      BitLenAtLeast(n, 0) by { PowZeroth(2); }
      if l == 0 { assert false; }
      Distribute(l, 1, b);
      BitsPower(radix, l);
      BitsPower(radix, l - 1);
      Pow2Monotone(BitLen(n), l * b);
      Pow2Monotone((l - 1) * b, BitLen(n) - 1);
      NumDigitsUnique(n, radix, l);
    }
  }

  /** u64toa_radix. */
  method U64toaRadix(n: u64, radix: nat) returns (text: string)
    requires IsRadix(radix)
    ensures text == NumberText(n, radix)
  {
    hide DigitString, NumDigits, BitLen, RadixBits, Quot;
    if radix == 10 {
      text := U64toa(n);
    } else if PowerOfTwo(radix) {
      BinaryNumDigits(n, radix);
      var l := if n == 0 then 1 else Quot(BitLen(n) + RadixBits(radix) - 1, RadixBits(radix));
      text := ToText(n, radix, l);
    } else {
      text := WholeText(n, radix);
    }
  }
}

/** The free-format digit search of js_dtoa (dtoa.c:1180-1236), on the big
    number it works in. */
module DtoaFree {
  import opened Powers
  import opened Rounding
  import opened Float64
  import opened Limbs
  import opened BigNum
  import opened RadixTables
  import opened RadixLog
  import opened RealPow
  import opened DtoaPow
  import opened DtoaScale
  import opened DtoaNearest
  import opened DtoaSearch
  import opened DtoaRoom

  /** What a trial needs to know of the double m * 2^(e - 53). */
  ghost predicate Searchable(m: nat, e: int, radix: nat) {
    IsRadix(radix) && FullMantissa(m) && 0 - 1073 <= e <= 1024
  }

  /** A digit string of p digits: no leading zero. */
  predicate HasDigits(mant: nat, radix: nat, p: nat) {
    p >= 1 && Pow(radix, p - 1) <= mant < Pow(radix, p)
  }

  /** The mantissa mant with exponent x stands for a value near d. */
  lemma DigitsModerate(mant: nat, radix: nat, p: nat, x: int, e0: int, e: int)
    requires IsRadix(radix) && HasDigits(mant, radix, p) && Bracket(radix, e0, e)
    requires 0 - 1073 <= e <= 1024 && e0 <= x <= e0 + 1
    ensures Moderate(mant, radix, x - p)
  {
    hide Pow, RPow, Two, Times;
    var r := RPow(radix, x - p);
    RPowNat(radix, p - 1);
    RPowNat(radix, p);
    RPowAdd(radix, p - 1, x - p);
    RPowAdd(radix, p, x - p);
    TimesOrder(Pow(radix, p - 1) as real, mant as real, r);
    TimesOrder(mant as real, Pow(radix, p) as real, r);
    RPowMonotone(radix, e0 - 1, x - 1);
    RPowMonotone(radix, x, e0 + 1);
    LowerEnd(radix, e0, e);
    UpperEnd(radix, e0, e);
  }

  lemma LowerEnd(radix: nat, e0: int, e: int)
    requires IsRadix(radix) && Bracket(radix, e0, e) && 0 - 1073 <= e
    ensures Two(0 - 1085) <= RPow(radix, e0 - 1)
  {
    hide RPow, Two, Times;
    RadixBelow64(radix);
    var r := RPow(radix, e0 - 1);
    RPowStep(radix, e0 - 1);
    TwoAdd(0 - 1085, 6);
    TwoMonotone(0 - 1079, e - 1);
    TimesCommute(r, radix as real);
    TimesOrder(radix as real, Two(6), r);
    TimesCommute(Two(6), r);
    TimesOrder(Two(0 - 1085), r, Two(6));
  }

  lemma UpperEnd(radix: nat, e0: int, e: int)
    requires IsRadix(radix) && Bracket(radix, e0, e) && e <= 1024
    ensures RPow(radix, e0 + 1) < Two(1060)
  {
    hide RPow, Two, Times;
    RadixBelow64(radix);
    RPowStep(radix, e0 - 1);
    RPowStep(radix, e0);
    UpperStep(RPow(radix, e0 - 1), radix, RPow(radix, e0), e - 1);
    UpperStep(RPow(radix, e0), radix, RPow(radix, e0 + 1), e + 5);
    TwoMonotone(e + 11, 1059);
    TwoNext(1059);
  }

  /** The first and any later trial fit the buffer and a 64 bit word. */
  lemma TrialRoom(m: nat, e: int, radix: nat, e0: int, x: int, p: nat)
    requires Searchable(m, e, radix) && Bracket(radix, e0, e)
    requires e0 <= x <= e0 + 1 && 1 <= p <= DtoaMaxDigits(radix)
    ensures IsOddPart(OddPart(radix))
    ensures RoundRoom(m, e - 53, OddPart(radix), Twos(radix), p - x, LEN_MAX)
  {
    hide *;
    SearchableIs(m, e, radix);
    TrialBound(m, e, radix, e0, x, p);
    ExponentRange(radix, e0, e);
    PrintRoom(m, e, radix, p - x);
  }

  lemma SearchableIs(m: nat, e: int, radix: nat)
    ensures Searchable(m, e, radix) <==> IsRadix(radix) && FullMantissa(m) && 0 - 1073 <= e <= 1024
    ensures FullMantissa(m) <==> TWO_52 <= m < TWO_53
  {}

  /** d * radix^(p - x) stays below 2^64, and 2^1626 leaves room for the shift. */
  lemma TrialBound(m: nat, e: int, radix: nat, e0: int, x: int, p: nat)
    requires IsRadix(radix) && FullMantissa(m) && 0 - 1073 <= e <= 1024 && Bracket(radix, e0, e)
    requires e0 <= x && p <= DtoaMaxDigits(radix)
    ensures Times(ScaledValue(ValueOf(m, e), radix, p - x), Two(Pos(53 - e))) < Two(1632)
  {
    hide RPow, Two, Times, Pow, Pow2, ValueOf, DtoaMaxDigits, Bracket, FullMantissa;
    DtoaDigits(radix);
    FirstRange(radix, e0, m, e, p);
    ValueRange(m, e);
    TwoNat(64);
    RPowNat(radix, DtoaMaxDigits(radix));
    SmallerTrial(ValueOf(m, e), radix, p - x, p - e0);
    RPowMonotone(radix, p, DtoaMaxDigits(radix));
    TimesOrder(ScaledValue(ValueOf(m, e), radix, p - x), Two(64), Two(Pos(53 - e)));
    TwoAdd(64, Pos(53 - e));
    TwoMonotone(64 + Pos(53 - e), 1632);
  }

  lemma SmallerTrial(v: real, radix: nat, f: int, f': int)
    requires radix >= 1 && f <= f' && v > 0.0
    ensures ScaledValue(v, radix, f) <= ScaledValue(v, radix, f')
  {
    hide RPow, Times;
    RPowMonotone(radix, f, f');
    TimesCommute(v, RPow(radix, f));
    TimesCommute(v, RPow(radix, f'));
    TimesOrder(RPow(radix, f), RPow(radix, f'), v);
  }

  /** One trial: round(d * radix^f), read back as a word. */
  method Trial(tmp1: Mpb, m: u64, e: int, radix: nat, f: int) returns (mant: u64)
    requires tmp1.tab.Length == LEN_MAX && Searchable(m, e, radix) && IsOddPart(OddPart(radix))
    requires RoundRoom(m, e - 53, OddPart(radix), Twos(radix), f, LEN_MAX)
    requires RoundPow(m, e - 53, radix, f, NearestEven) < TWO_64
    modifies tmp1, tmp1.tab
    ensures mant == RoundPow(m, e - 53, radix, f, NearestEven)
  {
    hide RoundRoom, RoundPow, OddPart, Twos, Pow2, Val, Normal;
    RadixParts(radix);
    MulPowRound(tmp1, m, e - 53, OddPart(radix), Twos(radix), f, RNDN);
    mant := tmp1.GetU64();
  }

  /** The mantissa computed at exponent x. */
  ghost function MantissaAt(m: nat, e: int, radix: nat, p: nat, x: int): nat
    requires radix >= 1
  {
    RoundPow(m, e - 53, radix, p - x, NearestEven)
  }

  lemma MantissaNear(m: nat, e: int, radix: nat, p: nat, x: int)
    requires radix >= 1
    ensures Near(MantissaAt(m, e, radix, p, x), ScaledValue(ValueOf(m, e), radix, p - x))
  {
    hide Near, RoundPow, ScaledValue;
    RoundPowNear(m, e - 53, radix, p - x, NearestEven);
  }

  /** What an accepted mantissa satisfies: it has p digits, and with the full
      number of digits it is close enough to need no check. */
  ghost predicate Candidate(mant: nat, x: int, m: nat, e: int, radix: nat, p: nat)
    requires radix >= 1
  {
    && HasDigits(mant, radix, p) && Near(mant, ScaledValue(ValueOf(m, e), radix, p - x))
    && (Pow2(53) <= Pow(radix, p - 1) ==> Close(ScaledValue(mant as real, radix, x - p), m, e))
  }

  /** The exponent a trial with p digits settles on. */
  ghost function TrialExponent(m: nat, e: int, radix: nat, e0: int, p: nat): int
    requires radix >= 1
  {
    if MantissaAt(m, e, radix, p, e0) < Pow(radix, p) then e0 else e0 + 1
  }

  /** Whether the trial with p digits reads back as the double k. */
  ghost predicate TrialWorks(m: nat, e: int, radix: nat, p: nat, k: nat)
    requires IsRadix(radix)
  {
    var x := TrialExponent(m, e, radix, 1 + MulLog2Radix(e - 1, radix), p);
    DoubleOf(MantissaAt(m, e, radix, p, x), radix, x - p, NearestEven) == k
  }

  lemma FirstTrial(m: nat, e: int, radix: nat, e0: int, p: nat)
    requires Searchable(m, e, radix) && Bracket(radix, e0, e) && 1 <= p <= DtoaMaxDigits(radix)
    ensures var q := MantissaAt(m, e, radix, p, e0);
            q < TWO_64 && (q < Pow(radix, p) ==> Candidate(q, e0, m, e, radix, p))
  {
    DtoaDigits(radix);
    PowMonotone(radix, p, DtoaMaxDigits(radix));
    Pow2Constants();
    FloatConstants();
    hide Pow, Pow2, Near, ScaledValue, ValueOf, Bracket, MantissaAt, Close, DtoaMaxDigits;
    var q := MantissaAt(m, e, radix, p, e0);
    MantissaNear(m, e, radix, p, e0);
    FirstMantissa(radix, e0, m, e, p, q);
    if Pow2(53) <= Pow(radix, p - 1) {
      FirstIsClose(radix, e0, m, e, p, q);
    }
  }

  lemma SecondTrial(m: nat, e: int, radix: nat, e0: int, p: nat)
    requires Searchable(m, e, radix) && Bracket(radix, e0, e) && p >= 1
    requires MantissaAt(m, e, radix, p, e0) >= Pow(radix, p)
    ensures Candidate(MantissaAt(m, e, radix, p, e0 + 1), e0 + 1, m, e, radix, p)
  {
    hide Pow, Pow2, Near, ScaledValue, ValueOf, Bracket, MantissaAt, Close;
    var q, q' := MantissaAt(m, e, radix, p, e0), MantissaAt(m, e, radix, p, e0 + 1);
    MantissaNear(m, e, radix, p, e0);
    MantissaNear(m, e, radix, p, e0 + 1);
    SecondMantissa(radix, e0, m, e, p, q, q');
    if Pow2(53) <= Pow(radix, p - 1) {
      SecondIsClose(radix, e0, m, e, p, q, q');
    }
  }

  /** radix^p as the word mant_max1. */
  method MantissaLimit(radix: nat, p: nat) returns (limit: u64)
    requires IsRadix(radix) && p <= DtoaMaxDigits(radix)
    ensures limit == Pow(radix, p)
  {
    DtoaDigits(radix);
    PowMonotone(radix, p, DtoaMaxDigits(radix));
    Pow2Constants();
    hide Pow, Pow2, DtoaMaxDigits;
    limit := PowUi(radix, p);
  }

  /** The inner loop: raise the exponent until the mantissa has p digits; once
      at most. */
  method FindMantissa(tmp1: Mpb, m: u64, e: int, radix: nat, e0: int, p: nat) returns (mant: u64, x: int)
    requires tmp1.tab.Length == LEN_MAX && Searchable(m, e, radix)
    requires Bracket(radix, e0, e) && 1 <= p <= DtoaMaxDigits(radix)
    modifies tmp1, tmp1.tab
    ensures e0 <= x <= e0 + 1 && Candidate(mant, x, m, e, radix, p)
    ensures x == TrialExponent(m, e, radix, e0, p) && mant == MantissaAt(m, e, radix, p, x)
  {
    hide Pow, Pow2, Bracket, RoundRoom, RoundPow, OddPart, Twos, Candidate, DtoaMaxDigits;
    var limit := MantissaLimit(radix, p);
    FirstTrial(m, e, radix, e0, p);
    TrialRoom(m, e, radix, e0, e0, p);
    x := e0;
    mant := Trial(tmp1, m, e, radix, p - x);
    while mant >= limit
      invariant e0 <= x <= e0 + 1 && mant == MantissaAt(m, e, radix, p, x)
      invariant x == e0 + 1 ==> Candidate(mant, x, m, e, radix, p) && MantissaAt(m, e, radix, p, e0) >= limit
      decreases e0 + 1 - x
    {
      if x == e0 + 1 {
        CandidateBelow(mant, x, m, e, radix, p);
        assert false;
      }
      SecondTrial(m, e, radix, e0, p);
      TrialRoom(m, e, radix, e0, e0 + 1, p);
      CandidateBelow(MantissaAt(m, e, radix, p, e0 + 1), e0 + 1, m, e, radix, p);
      x := x + 1;
      mant := Trial(tmp1, m, e, radix, p - x);
    }
  }

  lemma CandidateBelow(mant: nat, x: int, m: nat, e: int, radix: nat, p: nat)
    requires radix >= 1 && Candidate(mant, x, m, e, radix, p)
    ensures HasDigits(mant, radix, p) && mant < Pow(radix, p)
    ensures Near(mant, ScaledValue(ValueOf(m, e), radix, p - x))
  {}

  /** Remove useless trailing zero digits: the digits left are those of a trial with
      fewer digits, and so is every number of digits on the way. */
  method StripZeros(mant0: u64, radix: nat, p0: nat, ghost x: int, ghost m: nat, ghost e: int, ghost k: nat)
    returns (mant: u64, p: nat)
    requires IsRadix(radix) && HasDigits(mant0, radix, p0) && IsTrial(mant0, x, m, e, radix, p0)
    ensures HasDigits(mant, radix, p) && p <= p0 && mant % radix != 0 && IsTrial(mant, x, m, e, radix, p)
    ensures DoubleOf(mant, radix, x - p, NearestEven) == DoubleOf(mant0, radix, x - p0, NearestEven)
    ensures DoubleOf(mant0, radix, x - p0, NearestEven) == k ==> AllWork(m, e, radix, p, p0, k)
  {
    hide DoubleOf, HasDigits, IsTrial, AllWork, TrialWorks;
    mant, p := mant0, p0;
    if DoubleOf(mant0, radix, x - p0, NearestEven) == k { OneWorks(mant0, x, m, e, radix, p0, k); }
    while mant % radix == 0
      invariant HasDigits(mant, radix, p) && p <= p0 && IsTrial(mant, x, m, e, radix, p)
      invariant DoubleOf(mant, radix, x - p, NearestEven) == DoubleOf(mant0, radix, x - p0, NearestEven)
      invariant DoubleOf(mant0, radix, x - p0, NearestEven) == k ==> AllWork(m, e, radix, p, p0, k)
      decreases p
    {
      FewerDigits(mant, radix, p);
      assert mant == radix * (mant / radix);
      StripZero(mant / radix, radix, x - p + 1, NearestEven);
      StillTrial(mant / radix, mant, x, m, e, radix, p);
      mant := mant / radix;
      p := p - 1;
      if DoubleOf(mant0, radix, x - p0, NearestEven) == k { MoreWork(mant, x, m, e, radix, p, p0, k); }
    }
  }

  /** mant and x are what the trial with p digits computes. */
  ghost predicate IsTrial(mant: nat, x: int, m: nat, e: int, radix: nat, p: nat)
    requires IsRadix(radix)
  {
    && FullMantissa(m)
    && x == TrialExponent(m, e, radix, 1 + MulLog2Radix(e - 1, radix), p) && mant == MantissaAt(m, e, radix, p, x)
  }

  /** The trials with p to q digits all read back. */
  ghost predicate AllWork(m: nat, e: int, radix: nat, p: nat, q: nat, k: nat)
    requires IsRadix(radix)
  {
    forall j :: p <= j <= q ==> TrialWorks(m, e, radix, j, k)
  }

  lemma OneWorks(mant: nat, x: int, m: nat, e: int, radix: nat, p: nat, k: nat)
    requires IsRadix(radix) && IsTrial(mant, x, m, e, radix, p) && DoubleOf(mant, radix, x - p, NearestEven) == k
    ensures TrialWorks(m, e, radix, p, k) && AllWork(m, e, radix, p, p, k)
  {
    hide DoubleOf, TrialExponent, MantissaAt, MulLog2Radix;
  }

  lemma MoreWork(mant: nat, x: int, m: nat, e: int, radix: nat, p: nat, q: nat, k: nat)
    requires IsRadix(radix) && IsTrial(mant, x, m, e, radix, p) && DoubleOf(mant, radix, x - p, NearestEven) == k
    requires AllWork(m, e, radix, p + 1, q, k)
    ensures AllWork(m, e, radix, p, q, k)
  {
    hide DoubleOf, TrialExponent, MantissaAt, MulLog2Radix, TrialWorks;
    OneWorks(mant, x, m, e, radix, p, k);
  }

  lemma JoinWork(m: nat, e: int, radix: nat, p: nat, q: nat, r: nat, k: nat)
    requires IsRadix(radix) && AllWork(m, e, radix, p, q, k) && AllWork(m, e, radix, q + 1, r, k)
    ensures AllWork(m, e, radix, p, r, k)
  {
    hide TrialWorks;
  }

  /** A trial that ends in a zero digit computes what the trial with one digit less does. */
  lemma StillTrial(n: nat, mant: nat, x: int, m: nat, e: int, radix: nat, p: nat)
    requires IsRadix(radix) && p >= 2 && mant == radix * n && HasDigits(n, radix, p - 1)
    requires IsTrial(mant, x, m, e, radix, p)
    ensures IsTrial(n, x, m, e, radix, p - 1)
  {
    hide Pow, Near, ScaledValue, ValueOf, MantissaAt, MulLog2Radix;
    var v, e0 := ValueOf(m, e), 1 + MulLog2Radix(e - 1, radix);
    var w := ScaledValue(v, radix, p - 1 - x);
    MantissaNear(m, e, radix, p, x);
    MantissaNear(m, e, radix, p - 1, x);
    LowerByOne(v, radix, p - x);
    StrippedNear(n, mant, MantissaAt(m, e, radix, p - 1, x), radix, w, ScaledValue(v, radix, p - x));
    if x == e0 + 1 {
      var u := ScaledValue(v, radix, p - 1 - e0);
      MantissaNear(m, e, radix, p, e0);
      MantissaNear(m, e, radix, p - 1, e0);
      LowerByOne(v, radix, p - e0);
      NextPowerOf(radix, p - 1);
      StillLarge(MantissaAt(m, e, radix, p, e0), MantissaAt(m, e, radix, p - 1, e0), radix, u, ScaledValue(v, radix, p - e0), Pow(radix, p - 1));
    }
  }

  /** A tenth, so to speak, of a number near a multiple of ten is far from a tie. */
  lemma StrippedNear(n: nat, rn: nat, q: nat, radix: nat, w: real, v: real)
    requires radix >= 2 && rn == radix * n && v == Times(w, radix as real) && Near(rn, v) && Near(q, w)
    ensures q == n
  {
    hide Times;
    var b := radix as real;
    TimesCast(4 * n, radix);
    assert 4 * rn == (4 * n) * radix;
    TimesDistribute(w + w, w + w, b);
    TimesDistribute(w, w, b);
    TimesDistribute(w + w + (w + w), 1.0, b);
    TimesOne(b);
    TimesOrder(w + w + (w + w) - 1.0, (4 * n) as real, b);
    TimesOrder((4 * n) as real, w + w + (w + w) + 1.0, b);
  }

  lemma StillLarge(q: nat, q': nat, radix: nat, w: real, v: real, p: nat)
    requires radix >= 2 && v == Times(w, radix as real) && Near(q, v) && Near(q', w) && q >= radix * p
    ensures q' >= p
  {
    hide Times;
    var b := radix as real;
    TimesCast(4 * p, radix);
    assert 4 * (radix * p) == (4 * p) * radix;
    TimesDistribute(w + w, w + w, b);
    TimesDistribute(w, w, b);
    TimesDistribute(w + w + (w + w), 1.0, b);
    TimesOne(b);
    TimesOrder((4 * p) as real, w + w + (w + w) + 1.0, b);
  }

  lemma FewerDigits(mant: nat, radix: nat, p: nat)
    requires radix >= 2 && HasDigits(mant, radix, p) && mant % radix == 0
    ensures p >= 2 && 0 <= mant / radix && HasDigits(mant / radix, radix, p - 1)
  {
    var q := mant / radix;
    assert mant == q * radix;
    NextPowerOf(radix, p - 1);
    PowZeroth(radix);
    PowPositive(radix, p - 1);
    hide Pow;
    if p == 1 {
      if q > 0 { MulMonotone(1, q, radix); }
      assert false;
    }
    NextPowerOf(radix, p - 2);
    MulCommute(radix, Pow(radix, p - 2));
    MulCommute(radix, Pow(radix, p - 1));
    MulCancel(Pow(radix, p - 2), q, radix);
    MulCancel(q, Pow(radix, p - 1), radix);
  }

  /** The check: does mant * radix^f read back as the double (m, e)? */
  method ReadsBack(tmp1: Mpb, mant: u64, radix: nat, f: int, m: u64, e: int, ghost k: nat) returns (same: bool)
    requires tmp1.tab.Length == LEN_MAX && IsRadix(radix) && mant > 0 && IsDouble(m, e, k) && k > 0
    requires Moderate(mant, radix, f) && 0 - f <= DtoaMaxDigits(radix) - MinExponent(radix)
    modifies tmp1, tmp1.tab
    ensures same <==> DoubleOf(mant, radix, f, NearestEven) == k
  {
    hide OddPart, Twos, Pow2, Val, Normal, HasRoom, NotTiny, DoubleOf, IsDouble, Moderate, DtoaMaxDigits, MinExponent;
    RadixParts(radix);
    tmp1.SetU64(mant);
    ConvertRoom(mant, tmp1.len, radix, f, DtoaMaxDigits(radix));
    var m1, e1 := MulPowRoundToD(tmp1, OddPart(radix), Twos(radix), f, RNDN);
    SameDouble(m, e, k, m1, e1, DoubleOf(mant, radix, f, NearestEven));
    same := m1 == m && e1 == e;
  }

  lemma SameDouble(m: nat, e: int, k: nat, m1: nat, e1: int, k1: nat)
    requires IsDouble(m, e, k) && IsDouble(m1, e1, k1) && k > 0
    ensures m1 == m && e1 == e <==> k1 == k
  {
    if k1 != 0 {
      DoubleUnique(m, e, k, m1, e1, k1);
    }
  }

  lemma DigitsPositive(mant: nat, radix: nat, p: nat)
    requires radix >= 1 && HasDigits(mant, radix, p)
    ensures mant > 0
  {
    PowPositive(radix, p - 1);
  }

  /** The candidate with all the digits is the double, without a check. */
  lemma Guaranteed(mant: nat, x: int, m: nat, e: int, radix: nat, k: nat)
    requires IsRadix(radix) && Candidate(mant, x, m, e, radix, DtoaMaxDigits(radix)) && IsDouble(m, e, k) && k > 0
    ensures DoubleOf(mant, radix, x - DtoaMaxDigits(radix), NearestEven) == k
  {
    DtoaDigits(radix);
    hide Pow, Pow2, Close, ScaledValue, DoubleOf, IsDouble, DtoaMaxDigits, InUnits;
    var b, c := DoubleOfIs(mant, radix, x - DtoaMaxDigits(radix), NearestEven);
    CloseRounds(ScaledValue(mant as real, radix, x - DtoaMaxDigits(radix)), m, e, k, b, c);
  }

  /** Digits that print the double k: p of them, the last not zero, and the
      value mant * radix^(x - p), a nearest one with p digits to the double
      (m, e), reads back as k. */
  ghost predicate Prints(mant: nat, x: int, p: int, radix: nat, m: nat, e: int, k: nat)
    requires radix >= 1
  {
    && p >= 1 && HasDigits(mant, radix, p) && mant % radix != 0
    && Near(mant, ScaledValue(ValueOf(m, e), radix, p - x))
    && DoubleOf(mant, radix, x - p, NearestEven) == k
  }

  /** The digits the search settles on: those of the trial with p digits, where every
      trial with p digits or more reads back and the one with one digit less does not. */
  ghost predicate Chosen(mant: nat, x: int, p: int, radix: nat, m: nat, e: int, k: nat) {
    && IsRadix(radix) && Prints(mant, x, p, radix, m, e, k) && p <= DtoaMaxDigits(radix)
    && MinExponent(radix) < x <= MaxExponent(radix) + 1
    && IsTrial(mant, x, m, e, radix, p) && AllWork(m, e, radix, p, DtoaMaxDigits(radix), k)
    && (p == 1 || !TrialWorks(m, e, radix, p - 1, k))
  }

  lemma ChosenIs(mant: nat, x: int, p: int, radix: nat, m: nat, e: int, k: nat)
    requires Chosen(mant, x, p, radix, m, e, k)
    ensures IsRadix(radix) && Prints(mant, x, p, radix, m, e, k) && 1 <= p <= DtoaMaxDigits(radix)
    ensures MinExponent(radix) < x <= MaxExponent(radix) + 1
  {}

  lemma WorksAt(m: nat, e: int, radix: nat, p: nat, q: nat, k: nat, j: nat)
    requires IsRadix(radix) && AllWork(m, e, radix, p, q, k) && p <= j <= q
    ensures TrialWorks(m, e, radix, j, k)
  {
    hide TrialWorks;
  }

  /** So a double has one text in free format. */
  lemma ChosenUnique(mant: nat, x: int, p: int, mant': nat, x': int, p': int, radix: nat, m: nat, e: int, k: nat)
    requires Chosen(mant, x, p, radix, m, e, k) && Chosen(mant', x', p', radix, m, e, k)
    ensures mant == mant' && x == x' && p == p'
  {
    hide TrialWorks, AllWork, TrialExponent, MantissaAt, MulLog2Radix, DtoaMaxDigits, MinExponent, MaxExponent, DoubleOf, HasDigits,
      Near;
    if p < p' {
      WorksAt(m, e, radix, p, DtoaMaxDigits(radix), k, p' - 1);
    } else if p' < p {
      WorksAt(m, e, radix, p', DtoaMaxDigits(radix), k, p - 1);
    }
  }

  /** The digit search: ever fewer digits, while they still read back. */
  method FreeDigits(tmp1: Mpb, m: u64, e: int, radix: nat, ghost k: nat) returns (mant: u64, x: int, p: nat)
    requires tmp1.tab.Length == LEN_MAX && Searchable(m, e, radix) && IsDouble(m, e, k) && k > 0
    modifies tmp1, tmp1.tab
    ensures Chosen(mant, x, p, radix, m, e, k)
    ensures tmp1.Valid() && tmp1.Normalized() && tmp1.Value() == mant
  {
    hide Pow, Pow2, Bracket, Candidate, HasDigits, DoubleOf, IsDouble, Moderate, DtoaMaxDigits, MinExponent, MaxExponent,
      MulLog2Radix, Val, Normal, Near, ScaledValue, ValueOf, TrialExponent, MantissaAt, AllWork, IsTrial, FullMantissa;
    DtoaDigits(radix);
    var e0 := 1 + MulLog2Radix(e - 1, radix);
    LogBracket(radix, e);
    ExponentRange(radix, e0, e);
    mant, x, p := 0, 0, 0;
    var q := DtoaMaxDigits(radix);
    while true
      invariant 1 <= q <= DtoaMaxDigits(radix) && 0 <= p
      invariant p == 0 ==> q == DtoaMaxDigits(radix)
      invariant p > 0 ==> Prints(mant, x, p, radix, m, e, k) && q == p - 1 && p <= DtoaMaxDigits(radix) && e0 <= x <= e0 + 1
      invariant p > 0 ==> IsTrial(mant, x, m, e, radix, p) && AllWork(m, e, radix, p, DtoaMaxDigits(radix), k)
      decreases q
    {
      var mant1, x1 := FindMantissa(tmp1, m, e, radix, e0, q);
      CandidateBelow(mant1, x1, m, e, radix, q);
      TrialIs(mant1, x1, m, e, radix, q);
      var mant2, q2 := StripZeros(mant1, radix, q, x1, m, e, k);
      TrialNear(mant2, x1, m, e, radix, q2);
      var same := true;
      if p == 0 {
        Guaranteed(mant1, x1, m, e, radix, k);
      } else {
        DigitsModerate(mant2, radix, q2, x1, e0, e);
        DigitsPositive(mant2, radix, q2);
        same := ReadsBack(tmp1, mant2, radix, x1 - q2, m, e, k);
      }
      if !same {
        TrialFails(mant1, x1, m, e, radix, q, k);
        break;
      }
      HasDigitsAtLeast(mant2, radix, q2);
      if p > 0 { JoinWork(m, e, radix, q2, q, DtoaMaxDigits(radix), k); }
      mant, x, p := mant2, x1, q2;
      if q2 == 1 {
        break;
      }
      q := q2 - 1;
    }
    tmp1.SetU64(mant);
  }

  lemma TrialIs(mant: nat, x: int, m: nat, e: int, radix: nat, p: nat)
    requires Searchable(m, e, radix)
    requires x == TrialExponent(m, e, radix, 1 + MulLog2Radix(e - 1, radix), p) && mant == MantissaAt(m, e, radix, p, x)
    ensures IsTrial(mant, x, m, e, radix, p)
  {
    hide TrialExponent, MantissaAt, MulLog2Radix;
  }

  lemma TrialNear(mant: nat, x: int, m: nat, e: int, radix: nat, p: nat)
    requires IsRadix(radix) && IsTrial(mant, x, m, e, radix, p)
    ensures Near(mant, ScaledValue(ValueOf(m, e), radix, p - x))
  {
    hide TrialExponent, MantissaAt, MulLog2Radix, Near, ScaledValue, ValueOf;
    MantissaNear(m, e, radix, p, x);
  }

  lemma TrialFails(mant: nat, x: int, m: nat, e: int, radix: nat, p: nat, k: nat)
    requires IsRadix(radix) && IsTrial(mant, x, m, e, radix, p) && DoubleOf(mant, radix, x - p, NearestEven) != k
    ensures !TrialWorks(m, e, radix, p, k)
  {
    hide TrialExponent, MantissaAt, MulLog2Radix, DoubleOf;
  }

  lemma HasDigitsAtLeast(mant: nat, radix: nat, p: nat)
    requires HasDigits(mant, radix, p)
    ensures p >= 1
  {}
}

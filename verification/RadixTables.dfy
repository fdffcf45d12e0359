/** The per-radix tables of dtoa.c, entry radix - 2 for radix 2 to 36, what each
    promises about powers of the radix, and mul_log2_radix, which estimates
    logarithms through one of them. */
module RadixTables {
  import opened Powers

  const DIGITS_PER_LIMB: seq<nat> := [
    32, 20, 16, 13, 12, 11, 10, 10, 9, 9, 8, 8, 8, 8, 8, 7, 7, 7,
    7, 7, 7, 7, 6, 6, 6, 6, 6, 6, 6, 6, 6, 6, 6, 6, 6
  ]

  /** radix^DIGITS_PER_LIMB, with 0 for 2^32. */
  const RADIX_BASE: seq<nat> := [
    0x0, 0xcfd41b91, 0x0, 0x48c27395, 0x81bf1000, 0x75db9c97, 0x40000000, 0xcfd41b91,
    0x3b9aca00, 0x8c8b6d2b, 0x19a10000, 0x309f1021, 0x57f6c100, 0x98c29b81, 0x0, 0x18754571,
    0x247dbc80, 0x3547667b, 0x4c4b4000, 0x6b5a6e1d, 0x94ace180, 0xcaf18367, 0xb640000, 0xe8d4a51,
    0x1269ae40, 0x17179149, 0x1cb91000, 0x23744899, 0x2b73a840, 0x34e63b41, 0x40000000, 0x4cfa3cc1,
    0x5c13d840, 0x6d91b519, 0x81bf1000
  ]

  const DTOA_MAX_DIGITS: seq<nat> := [
    54, 35, 28, 24, 22, 20, 19, 18, 17, 17, 16, 16, 15, 15, 15, 14, 14, 14,
    14, 14, 13, 13, 13, 13, 13, 13, 13, 12, 12, 12, 12, 12, 12, 12, 12
  ]

  const ATOD_MAX_DIGITS: seq<nat> := [
    64, 80, 32, 55, 49, 45, 21, 40, 38, 37, 35, 34, 33, 32, 16, 31, 30, 30,
    29, 29, 28, 28, 27, 27, 27, 26, 26, 26, 26, 25, 12, 25, 25, 24, 24
  ]

  const MAX_EXPONENT: seq<nat> := [
    1024, 647, 512, 442, 397, 365, 342, 324, 309, 297, 286, 277, 269, 263, 256, 251, 246, 242,
    237, 234, 230, 227, 224, 221, 218, 216, 214, 211, 209, 207, 205, 203, 202, 200, 199
  ]

  const MIN_EXPONENT: seq<int> := [
    -1075, -679, -538, -463, -416, -383, -359, -340, -324, -311, -300, -291,
    -283, -276, -269, -263, -258, -254, -249, -245, -242, -238, -235, -232,
    -229, -227, -224, -222, -220, -217, -215, -214, -212, -210, -208
  ]

  /** 2^24 / log2(radix), rounded; 0 for the powers of two. */
  const MUL_LOG2_RADIX: seq<nat> := [
    0x0, 0xa1849d, 0x0, 0x6e40d2, 0x6308c9, 0x5b3065, 0x0, 0x50c24e,
    0x4d104d, 0x4a0027, 0x4768ce, 0x452e54, 0x433d00, 0x418677, 0x0, 0x3ea16b,
    0x3d645a, 0x3c43c2, 0x3b3b9a, 0x3a4899, 0x39680b, 0x3897b3, 0x37d5af, 0x372069,
    0x367686, 0x35d6df, 0x354072, 0x34b261, 0x342bea, 0x33ac62, 0x0, 0x32bfd9,
    0x3251dd, 0x31e8d6, 0x318465
  ]

  /** The fractions with denominators up to 2048 next below and next above
      1 / log2(radix), as (p, q) for p / q: neighbours in the Farey sequence. */
  const BELOW: seq<(nat, nat)> := [
    (0, 1), (971, 1539), (0, 1), (643, 1493), (306, 791), (571, 1603), (0, 1),
    (153, 485), (497, 1651), (37, 128), (306, 1097), (227, 840), (462, 1759), (290, 1133),
    (0, 1), (343, 1402), (153, 638), (121, 514), (351, 1517), (339, 1489), (37, 165),
    (403, 1823), (306, 1403), (424, 1969), (227, 1067), (102, 485), (353, 1697), (169, 821),
    (290, 1423), (131, 649), (0, 1), (45, 227), (343, 1745), (379, 1944), (153, 791)
  ]

  const ABOVE: seq<(nat, nat)> := [
    (0, 1), (665, 1054), (0, 1), (789, 1832), (665, 1719), (680, 1909), (0, 1),
    (512, 1623), (146, 485), (579, 2003), (359, 1287), (464, 1717), (109, 415), (247, 965),
    (0, 1), (263, 1075), (359, 1497), (480, 2039), (146, 631), (130, 571), (431, 1922),
    (191, 864), (359, 1646), (73, 339), (237, 1114), (359, 1707), (109, 524), (345, 1676),
    (247, 1212), (371, 1838), (0, 1), (383, 1932), (263, 1338), (263, 1349), (359, 1856)
  ]

  predicate IsRadix(radix: int) {
    2 <= radix <= 36
  }

  function DigitsPerLimb(radix: nat): nat
    requires IsRadix(radix)
  {
    DIGITS_PER_LIMB[radix - 2]
  }

  function RadixBase(radix: nat): nat
    requires IsRadix(radix)
  {
    RADIX_BASE[radix - 2]
  }

  function DtoaMaxDigits(radix: nat): nat
    requires IsRadix(radix)
  {
    DTOA_MAX_DIGITS[radix - 2]
  }

  function AtodMaxDigits(radix: nat): nat
    requires IsRadix(radix)
  {
    ATOD_MAX_DIGITS[radix - 2]
  }

  function MaxExponent(radix: nat): nat
    requires IsRadix(radix)
  {
    MAX_EXPONENT[radix - 2]
  }

  function MinExponent(radix: nat): int
    requires IsRadix(radix)
  {
    MIN_EXPONENT[radix - 2]
  }

  /** Powers by repeated squaring: the same numbers, computable for large exponents. */
  function FastPow(b: int, n: nat): int {
    if n == 0 then 1
    else if n % 2 == 0 then Square(FastPow(b, n / 2))
    else b * Square(FastPow(b, n / 2))
  }

  lemma {:induction false} FastPowIsPow(b: nat, n: nat)
    ensures FastPow(b, n) == Pow(b, n)
  {
    if n > 0 {
      var h := n / 2;
      FastPowIsPow(b, h);
      PowAdd(b, h, h);
      if n % 2 == 0 {
        assert n == h + h;
      } else {
        assert Pow(b, n) == b * Pow(b, n - 1) && n - 1 == h + h;
      }
    }
  }

  predicate PowLess(a: nat, p: nat, b: nat, q: nat) {
    FastPow(a, p) < FastPow(b, q)
  }

  lemma Below3() ensures PowLess(3, 971, 2, 1539) {}
  lemma Below5() ensures PowLess(5, 643, 2, 1493) {}
  lemma Below6() ensures PowLess(6, 306, 2, 791) {}
  lemma Below7() ensures PowLess(7, 571, 2, 1603) {}
  lemma Below9() ensures PowLess(9, 153, 2, 485) {}
  lemma Below10() ensures PowLess(10, 497, 2, 1651) {}
  lemma Below11() ensures PowLess(11, 37, 2, 128) {}
  lemma Below12() ensures PowLess(12, 306, 2, 1097) {}
  lemma Below13() ensures PowLess(13, 227, 2, 840) {}
  lemma Below14() ensures PowLess(14, 462, 2, 1759) {}
  lemma Below15() ensures PowLess(15, 290, 2, 1133) {}
  lemma Below17() ensures PowLess(17, 343, 2, 1402) {}
  lemma Below18() ensures PowLess(18, 153, 2, 638) {}
  lemma Below19() ensures PowLess(19, 121, 2, 514) {}
  lemma Below20() ensures PowLess(20, 351, 2, 1517) {}
  lemma Below21() ensures PowLess(21, 339, 2, 1489) {}
  lemma Below22() ensures PowLess(22, 37, 2, 165) {}
  lemma Below23() ensures PowLess(23, 403, 2, 1823) {}
  lemma Below24() ensures PowLess(24, 306, 2, 1403) {}
  lemma Below25() ensures PowLess(25, 424, 2, 1969) {}
  lemma Below26() ensures PowLess(26, 227, 2, 1067) {}
  lemma Below27() ensures PowLess(27, 102, 2, 485) {}
  lemma Below28() ensures PowLess(28, 353, 2, 1697) {}
  lemma Below29() ensures PowLess(29, 169, 2, 821) {}
  lemma Below30() ensures PowLess(30, 290, 2, 1423) {}
  lemma Below31() ensures PowLess(31, 131, 2, 649) {}
  lemma Below33() ensures PowLess(33, 45, 2, 227) {}
  lemma Below34() ensures PowLess(34, 343, 2, 1745) {}
  lemma Below35() ensures PowLess(35, 379, 2, 1944) {}
  lemma Below36() ensures PowLess(36, 153, 2, 791) {}
  lemma Above3() ensures PowLess(2, 1054, 3, 665) {}
  lemma Above5() ensures PowLess(2, 1832, 5, 789) {}
  lemma Above6() ensures PowLess(2, 1719, 6, 665) {}
  lemma Above7() ensures PowLess(2, 1909, 7, 680) {}
  lemma Above9() ensures PowLess(2, 1623, 9, 512) {}
  lemma Above10() ensures PowLess(2, 485, 10, 146) {}
  lemma Above11() ensures PowLess(2, 2003, 11, 579) {}
  lemma Above12() ensures PowLess(2, 1287, 12, 359) {}
  lemma Above13() ensures PowLess(2, 1717, 13, 464) {}
  lemma Above14() ensures PowLess(2, 415, 14, 109) {}
  lemma Above15() ensures PowLess(2, 965, 15, 247) {}
  lemma Above17() ensures PowLess(2, 1075, 17, 263) {}
  lemma Above18() ensures PowLess(2, 1497, 18, 359) {}
  lemma Above19() ensures PowLess(2, 2039, 19, 480) {}
  lemma Above20() ensures PowLess(2, 631, 20, 146) {}
  lemma Above21() ensures PowLess(2, 571, 21, 130) {}
  lemma Above22() ensures PowLess(2, 1922, 22, 431) {}
  lemma Above23() ensures PowLess(2, 864, 23, 191) {}
  lemma Above24() ensures PowLess(2, 1646, 24, 359) {}
  lemma Above25() ensures PowLess(2, 339, 25, 73) {}
  lemma Above26() ensures PowLess(2, 1114, 26, 237) {}
  lemma Above27() ensures PowLess(2, 1707, 27, 359) {}
  lemma Above28() ensures PowLess(2, 524, 28, 109) {}
  lemma Above29() ensures PowLess(2, 1676, 29, 345) {}
  lemma Above30() ensures PowLess(2, 1212, 30, 247) {}
  lemma Above31() ensures PowLess(2, 1838, 31, 371) {}
  lemma Above33() ensures PowLess(2, 1932, 33, 383) {}
  lemma Above34() ensures PowLess(2, 1338, 34, 263) {}
  lemma Above35() ensures PowLess(2, 1349, 35, 263) {}
  lemma Above36() ensures PowLess(2, 1856, 36, 359) {}

  predicate PowerOfTwo(radix: int) {
    radix == 2 || radix == 4 || radix == 8 || radix == 16 || radix == 32
  }

  /** The radices whose logarithm mul_log2_radix looks up. */
  predicate TableRadix(radix: int) {
    IsRadix(radix) && !PowerOfTwo(radix)
  }

  lemma Brackets(radix: nat)
    requires TableRadix(radix)
    ensures PowLess(radix, BELOW[radix - 2].0, 2, BELOW[radix - 2].1)
    ensures PowLess(2, ABOVE[radix - 2].1, radix, ABOVE[radix - 2].0)
  {
    hide PowLess;
    Below3(); Below5(); Below6(); Below7(); Below9(); Below10(); Below11(); Below12(); Below13(); Below14();
    Below15(); Below17(); Below18(); Below19(); Below20(); Below21(); Below22(); Below23(); Below24(); Below25();
    Below26(); Below27(); Below28(); Below29(); Below30(); Below31(); Below33(); Below34(); Below35(); Below36();
    Above3(); Above5(); Above6(); Above7(); Above9(); Above10(); Above11(); Above12(); Above13(); Above14();
    Above15(); Above17(); Above18(); Above19(); Above20(); Above21(); Above22(); Above23(); Above24(); Above25();
    Above26(); Above27(); Above28(); Above29(); Above30(); Above31(); Above33(); Above34(); Above35(); Above36();
  }

  /** radix^digits is the word base, which is 0 for 2^32. */
  predicate LimbRow(radix: nat, digits: nat, base: nat) {
    FastPow(radix, digits) == if base == 0 then 0x1_0000_0000 else base
  }

  lemma LimbRows2To8()
    ensures LimbRow(2, 32, 0x0)
    ensures LimbRow(3, 20, 0xcfd41b91)
    ensures LimbRow(4, 16, 0x0)
    ensures LimbRow(5, 13, 0x48c27395)
    ensures LimbRow(6, 12, 0x81bf1000)
    ensures LimbRow(7, 11, 0x75db9c97)
    ensures LimbRow(8, 10, 0x40000000)
  {}

  lemma LimbRows9To15()
    ensures LimbRow(9, 10, 0xcfd41b91)
    ensures LimbRow(10, 9, 0x3b9aca00)
    ensures LimbRow(11, 9, 0x8c8b6d2b)
    ensures LimbRow(12, 8, 0x19a10000)
    ensures LimbRow(13, 8, 0x309f1021)
    ensures LimbRow(14, 8, 0x57f6c100)
    ensures LimbRow(15, 8, 0x98c29b81)
  {}

  lemma LimbRows16To22()
    ensures LimbRow(16, 8, 0x0)
    ensures LimbRow(17, 7, 0x18754571)
    ensures LimbRow(18, 7, 0x247dbc80)
    ensures LimbRow(19, 7, 0x3547667b)
    ensures LimbRow(20, 7, 0x4c4b4000)
    ensures LimbRow(21, 7, 0x6b5a6e1d)
    ensures LimbRow(22, 7, 0x94ace180)
  {}

  lemma LimbRows23To29()
    ensures LimbRow(23, 7, 0xcaf18367)
    ensures LimbRow(24, 6, 0xb640000)
    ensures LimbRow(25, 6, 0xe8d4a51)
    ensures LimbRow(26, 6, 0x1269ae40)
    ensures LimbRow(27, 6, 0x17179149)
    ensures LimbRow(28, 6, 0x1cb91000)
    ensures LimbRow(29, 6, 0x23744899)
  {}

  lemma LimbRows30To36()
    ensures LimbRow(30, 6, 0x2b73a840)
    ensures LimbRow(31, 6, 0x34e63b41)
    ensures LimbRow(32, 6, 0x40000000)
    ensures LimbRow(33, 6, 0x4cfa3cc1)
    ensures LimbRow(34, 6, 0x5c13d840)
    ensures LimbRow(35, 6, 0x6d91b519)
    ensures LimbRow(36, 6, 0x81bf1000)
  {}

  /** A limb holds DIGITS_PER_LIMB digits. */
  lemma LimbBase(radix: nat)
    requires IsRadix(radix)
    ensures 6 <= DigitsPerLimb(radix) <= 32
    ensures 0 <= RadixBase(radix) < 0x1_0000_0000
    ensures Pow(radix, DigitsPerLimb(radix))
            == if RadixBase(radix) == 0 then 0x1_0000_0000 else RadixBase(radix)
    ensures radix % 2 == 1 ==> RadixBase(radix) != 0
  {
    LimbRows(radix);
    hide Pow, FastPow;
    FastPowIsPow(radix, DigitsPerLimb(radix));
  }

  lemma LimbRows(radix: nat)
    requires IsRadix(radix)
    ensures LimbRow(radix, DigitsPerLimb(radix), RadixBase(radix))
  {
    hide LimbRow;
    LimbRows2To8();
    LimbRows9To15();
    LimbRows16To22();
    LimbRows23To29();
    LimbRows30To36();
  }
}

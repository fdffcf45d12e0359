# Verified models of the number and text cores of MicroQuickJS

This project models, in Dafny, the arithmetic and text-editing code of MicroQuickJS
that does not depend on the engine, and proves what that code is for.

* **Doubles to text and back** (`dtoa.c`). A small number class over 32-bit limbs,
  changed in place, carries everything: `js_dtoa` prints a double in any radix from 2
  to 36 and `js_atod` reads one. Every double other than NaN that is printed in free
  format reads back as the same bits, in every radix and every exponent mode, except that
  -0 reads back as 0 unless its minus sign was asked for. There is one text for each double,
  format and mode, and `DtoaLength.TextLength` says when it keeps within the length that
  `js_dtoa_max_len` promises. `DtoaLaws` says what each text denotes and when it has an
  exponent, and `AtodNumerals` which double a text with given digits is. On the way: the digit search, the scaled division with its
  sticky bit, the fixed and fractional formats, the tables of exponents and digit counts,
  and the bound of 52 limbs.
* **IEEE 754 arithmetic in 64-bit integers** (`softfp_template.h`,
  `softfp_template_icvt.h`). Addition, multiplication, division, square root, fmod and the
  integer conversions are correctly rounded in all five modes, with subnormals, overflow,
  signed zeros, infinities and NaN. `SoftFpLaws` says so for each operation in terms of the
  values of the operands, with each mode spelled out in `RoundingModes`.
* **Reduction of large angles** (`libm.c`, the integer part of `rem_pio2_large`): n and the
  remainder in terms of the stored constants, to within 2^-105.
* **The line editor** (`readline.c` with the UTF-8 coding of `cutils.c`). The bytes in the
  buffers, moved in place, are proved to follow a state machine on code points, byte by
  byte and over every run of bytes; the packed history is a bounded list of distinct lines.
  `LineKeys` and `HistoryKeys` say what every key does to the text, the cursor, the kill
  buffer and the history.

## How it is built

A finite double is counted in units of 2^-1074, so its magnitude is `Grid(k)` for its bit
pattern `k`, and the grid goes on above the largest double as if the exponent had no limit.
`Float64.CorrectlyRounded` says what section 4.3 of IEEE 754-2008 asks of a result without
computing it; `RoundMag` computes it, and every operation is compared with that.
`RoundingModes.Meets` says the same of signed results over all finite doubles, by the names
of the modes. In the printer and the parser, `NearestReals.NearestReal` says that a double is
the one nearest to a real number.
`Rounding.StickyRound` is the fact both halves rest on: a truncated quotient with two spare
bits and a sticky bit rounds like the exact quotient.

| files | subject |
|---|---|
| `Powers`, `Rounding`, `Float64`, `Ieee754`, `RoundingModes`, `RealPow`, `NearestReals` | powers, rounding of fractions, the double grid, what IEEE 754 asks, mode by mode |
| `SoftFpCore` ... `SoftFpConvert`, `SoftFpLaws` | the floating-point emulator |
| `Limbs`, `BigNum` | limb loops and the `mpb_t` class |
| `RadixTables`, `RadixLog` | the constant tables and `mul_log2_radix` |
| `DtoaPow`, `DtoaScale`, `DtoaRoom` | scaling by powers of the radix, and that it fits |
| `DtoaNearest`, `DtoaSearch`, `DtoaFree`, `DtoaFixed`, `DtoaText`, `Dtoa`, `DtoaLength`, `DtoaLaws` | the printer |
| `AtodLex`, `Atod`, `AtodConvert`, `AtodNumerals` | what a text means, and the parser |
| `RoundTrip` | printer and parser together |
| `RemPio2` | angle reduction |
| `Utf8`, `EditText`, `PackedHistory`, `LineBuffer`, `LineEditor`, `Readline`, `LineRuns`, `LineKeys`, `HistoryKeys` | the line editor |

Loops and objects of the source are methods and classes here (`Mpb`, `EditBuffer`,
`History`, `Readline`); loop-free computations are functions. Widths are explicit: `limb` is
32 bits, `u64` 64 bits, and every wrap-around is written out.

## Where the code differs from what one might expect

* `js_atod` multiplies the written exponent by the bits of a digit in a 32-bit `int` with no
  test (`dtoa.c:1573-1577`). `AtodLex.TextFits` says when all that arithmetic stays within
  32 bits; the model returns `Overflowed` exactly when it does not, and
  `RoundTrip.OverflowExample` is a short text for which it does not.
* `sqrtrem_u` takes its start value from the high word alone (`softfp_template.h:549-557`).
  `SoftFpSqrt.SqrtremU` proves for every number below 2^126 that the assertion of `divrem_u`
  (`softfp_template.h:416`) holds throughout if and only if the number is not 2^126 - 1, and
  that the result is then the integer square root if and only if not `StartsShort`: the high
  word is the square of the start and the low word more than twice the start.
  `SoftFpSqrt.ShortExample` is such a number. `sqrt_sf` passes a low word of 0, for which the
  start is good.
* `js_dtoa_max_len` is meant to bound the length of every text. `DtoaLength.TextLength` proves
  that it does if and only if `Bounded`: always, but for the fixed format without exponents,
  where the double must not round below 10^-318 (10^-317 when negative), and for a zero in the
  fractional format with an enforced exponent, whose digits and sign must not exceed four.
  `DtoaLength.SmallestTooLong` gives 2^-1074 in the fixed format as a double that fails.
* The size test of `term_insert_region` (`readline.c:260`) looks at the cursor, not at the
  length of the line. `LineEditor.InsertFits` gives the exact condition under which the line
  stays inside its buffer and `LineEditor.CursorCheckOverruns` a line for which it does not.
  Methods that insert require that condition.
* `clz` of 0 is undefined (`cutils.h:139`), yet exact zeros reach `normalize_sf`. It is a
  parameter `clz0` between 1 and 64, and no result of the emulated operations depends on it.
* `mp_div1norm` reads its input after writing its output (`dtoa.c:192-195`), so it is
  correct in place only. That is how it is called and how it is modelled.

## Model

| member | source | states |
|---|---|---|
| Rounding.StickyRound | softfp_template.h:94-106 | Truncating n/d, setting bit 0 when anything was lost, and rounding the result by a multiple of 4 equals rounding n/(p*d) once, in every direction |
| Float64.RoundMagCorrect | softfp_template.h:117-190 | The rounding function used as specification picks, in each direction, the grid point that IEEE 754 asks for: bracketing for directed modes, nearest of all points with the tie rule otherwise |
| Float64.CorrectlyRoundedUnique | softfp_template.h:117-190 | No other grid point meets that requirement |
| RoundingModes.RoundToDoubleMeets | softfp_template.h:117-190 | The rounding that the operations are compared with meets each of the five modes on signed values, overflow included |
| RoundingModes.RoundDown | softfp_template.h:121-142 | RDN: the result is not above the exact value and no finite double between them; -infinity when there is none below |
| RoundingModes.RoundUp | softfp_template.h:121-142 | RUP: the mirror image |
| RoundingModes.RoundTowardZero | softfp_template.h:121-142 | RTZ: the largest magnitude that is not above, never infinite |
| RoundingModes.RoundNearestEven | softfp_template.h:121-142 | RNE: no double is closer, none as close unless the last bit is 0; infinite from 2^1024 - 2^970 on |
| RoundingModes.RoundNearestAway | softfp_template.h:121-142 | RMM: no double is closer, and at a tie the larger magnitude; infinite from the same point on |
| RoundingModes.DoubleValue | softfp_template.h:79-92 | The value of a double from its exponent and mantissa fields |
| RoundingModes.NearestDoubleMeans | softfp_template.h:117-190 | What the nearest double to a fraction of units is, on bit patterns |
| SoftFpCore.RShiftRndIsSticky | softfp_template.h:94-106 | rshift_rnd is the truncated quotient by 2^d with a sticky bit, for every shift count |
| SoftFpCore.RoundPackCorrect | softfp_template.h:117-190 | round_pack_sf rounds mant * 2^(exp-11) units correctly in all five modes, through subnormals, a carry into the exponent and overflow to infinity or the largest finite number |
| SoftFpCore.NormalizeCorrect | softfp_template.h:193-202 | normalize_sf does so for every mantissa below 2^63, zero included, whatever clz(0) is |
| SoftFpCore.UnpackValue | softfp_template.h:204-210 | A normalised subnormal or normal operand stands for exactly its value |
| SoftFpAdd.AlignedSticky | softfp_template.h:270-293 | The aligned sum or difference with three extra bits of the smaller operand is the sticky image of the exact one |
| SoftFpAdd.AddCorrect | softfp_template.h:235-294 | add_sf is the correctly rounded exact sum in five modes, with cancellation, subnormals, overflow, infinities, NaN and the sign of an exact zero |
| SoftFpAdd.SubCorrect | softfp_template.h:296-299 | sub_sf is the correctly rounded exact difference, with the sign of an exact zero, infinities and NaN |
| SoftFpMul.MulUExact | softfp_template.h:315-338 | mul_u on half words returns both words of the full product |
| SoftFpMul.MulCorrect | softfp_template.h:344-397 | mul_sf is the correctly rounded product for all operands, subnormal and special ones included |
| SoftFpDiv.DivremU | softfp_template.h:412-430 | The shift-subtract loop returns quotient and remainder of a 128-bit number although its partial remainder needs 65 bits |
| SoftFpDiv.DivSf | softfp_template.h:434-507 | div_sf is the correctly rounded quotient for all operands, subnormal and special ones included |
| SoftFpSqrt.NewtonStep | softfp_template.h:559-565 | A Newton step from any start at or above 0 never falls below the integer square root |
| SoftFpSqrt.NewtonStop | softfp_template.h:559-565 | When the step no longer decreases, the root is reached |
| SoftFpSqrt.SqrtremU | softfp_template.h:543-570 | For every number below 2^126: the assertion of divrem_u holds at each division except for 2^126 - 1, and the loop ends at the integer square root exactly when the start value, computed from the high word alone, is not too small; inexact exactly when the square differs |
| SoftFpSqrt.ShortExample | softfp_template.h:549-557 | For 2^124 + 2^64 - 1 the start value 2^62 is below the root 2^62 + 1 |
| SoftFpSqrt.LargestStep | softfp_template.h:559-565 | For 2^126 - 1 the loop goes from its start 2^63 to 2^63 - 1 and, the sum q + s wrapping, from there to a divisor of 0 |
| SoftFpSqrt.SqrtSf | softfp_template.h:574-624 | sqrt_sf is correctly rounded in five modes: the operand lies between the squares of the neighbouring grid points or midpoints as the mode demands |
| SoftFpFmod.FmodSf | softfp_template.h:882-933 | fmod_sf is exact for all operands: the remainder of the magnitudes in units of 2^-1074, with the sign of a |
| SoftFpConvert.FloatToIntCorrect | softfp_template_icvt.h:38-112 | Float to integer is rounding in the given mode and clamping to the range of the type, NaN giving the maximum |
| SoftFpConvert.IntToFloatCorrect | softfp_template_icvt.h:127-154 | Integer to float is correctly rounded for every 32 and 64 bit signed and unsigned integer |
| SoftFpConvert.IntRoundTrip | softfp_template_icvt.h:38-154 | Integers of at most 53 bits, so all 32-bit ones, survive the trip to double and back in any pair of modes |
| SoftFpLaws.AddMeans | softfp_template.h:235-294 | a + b for finite operands is the exact sum rounded in the mode named; the sign of a zero sum; infinities; NaN for infinities of unlike signs and for NaN |
| SoftFpLaws.SubMeans | softfp_template.h:296-299 | The same for a - b |
| SoftFpLaws.MulMeans | softfp_template.h:344-397 | The exact product rounded, with its sign; infinity times zero is NaN |
| SoftFpLaws.DivMeans | softfp_template.h:434-507 | What div_sf returns is the exact quotient rounded, with its sign; 0/0 and infinity/infinity are NaN, division by zero is infinite |
| SoftFpLaws.SqrtMeans | softfp_template.h:574-624 | What sqrt_sf returns, squared, brackets the operand as the mode asks: against every double, and for nearest modes against every mean of two |
| SoftFpLaws.FmodMeans | softfp_template.h:882-933 | What fmod_sf returns is a minus an integer multiple of b, smaller than b, with the sign of a |
| SoftFpLaws.IntModes | softfp_template_icvt.h:75-100 | What each mode asks of an integer: floor, ceiling, truncation, nearest with ties to even, nearest with ties away from zero |
| SoftFpLaws.IntRange | softfp_template_icvt.h:58-62 | The ranges of the four integer types |
| SoftFpLaws.FloatToIntMeans | softfp_template_icvt.h:38-112 | The value rounded in the mode named if it is in range, else the nearer end of the range; NaN gives the maximum |
| SoftFpLaws.IntToFloatMeans | softfp_template_icvt.h:127-154 | The integer rounded in the mode named |
| Limbs.MpAddUi | dtoa.c:75-89 | mp_add_ui adds in place with the carry out, although it stops early |
| Limbs.MpMul1 | dtoa.c:92-105 | mp_mul1 in place is tab * b + l exactly, the carry being the word above |
| Limbs.UdivNormInitCorrect | dtoa.c:107-115 | udiv1norm_init is the reciprocal floor((2^64 - 1)/d) - 2^32 |
| Limbs.UdivNormCorrect | dtoa.c:117-135 | udiv1norm returns the exact quotient and remainder for every normalised d and a1 < d, under 32 and 64 bit wrap-around |
| Limbs.MpDiv1 | dtoa.c:137-148 | mp_div1 in place: old + r * 2^(32 n) = new * b + rem with rem < b |
| Limbs.MpShr | dtoa.c:152-166 | mp_shr in place is division by 2^shift with the bits lost as result |
| Limbs.MpShl | dtoa.c:170-184 | mp_shl in place is multiplication by 2^shift with the high bits as result |
| Limbs.MpDiv1Norm | dtoa.c:186-199 | mp_div1norm in place divides by the unnormalised divisor: old + r * 2^(32 n) = new * d + rem with rem < d |
| BigNum.Mpb.Renorm | dtoa.c:214-218 | Dropping leading zero limbs keeps the value |
| BigNum.Mpb.GetBit | dtoa.c:300-310 | The bit at any position, 0 beyond the number |
| BigNum.Mpb.RoundingBit | dtoa.c:339-380 | The choice of add_one makes floor plus add_one the rounded quotient, in the three modes |
| BigNum.Mpb.ShrRound | dtoa.c:313-399 | mpb_shr_round is mathematical rounding of value/2^shift for every shift of either sign, and keeps numbers normal |
| BigNum.Mpb.Cmp | dtoa.c:401-417 | mpb_cmp orders normal numbers by value although it compares lengths first |
| BigNum.Mpb.SetU64 | dtoa.c:419-431 | mpb_set_u64 stores the value normalised |
| BigNum.Mpb.GetU64 | dtoa.c:434-446 | mpb_get_u64 is the value modulo 2^64 |
| BigNum.Mpb.FloorLog2 | dtoa.c:447-456 | mpb_floor_log2 is the position of the top bit, -1 for zero |
| BigNum.Mpb.Mul1Base | dtoa.c:1332-1351 | mpb_mul1_base is value * base + a, base 0 meaning 2^32 |
| RadixTables.LimbBase | dtoa.c:702-720 | radix_base is radix^digits_per_limb for all 35 radices, 0 standing for 2^32 |
| RadixLog.FareyGap | dtoa.c:461-472 | Between neighbouring Farey fractions every fraction has a denominator of at least the sum of theirs |
| RadixLog.MulLog2RadixCorrect | dtoa.c:461-488 | With the rounded table, mul_log2_radix is the floor of a / log2(radix) for every radix and -2048 <= a <= 2047: radix^r <= 2^a < radix^(r+1) |
| RadixLog.DtoaDigits | dtoa.c:722-725 | With P_max digits, radix^(P_max-1) >= 2^53 and 2 radix^P_max < 2^64 |
| RadixLog.DtoaDigitsLeast | dtoa.c:722-725 | One digit less is too few: radix^(P_max-2) < 2^53 |
| RadixLog.ExponentLimits | dtoa.c:735-751 | radix^max_exponent >= 2^1024 and radix^-min_exponent >= 2^1075 |
| RadixLog.ExponentSlack | dtoa.c:735-751 | The limits are tight: one less than max_exponent stays below 2^1024, and radix^-min_exponent is at most 2^1085 |
| RadixLog.AtodDigits | dtoa.c:727-733 | The digits kept by the parser fit 128 bits |
| RadixLog.AtodDigitsMost | dtoa.c:727-733 | One digit more would not, in the radices whose surplus digits are dropped |
| RadixLog.AtodBits | dtoa.c:727-733 | For powers of two they hold at least 55 bits |
| DtoaPow.PowUi | dtoa.c:242-269 | pow_ui, by table of powers of 5 or by squaring, is a^b modulo 2^64 |
| DtoaPow.PowUiInv | dtoa.c:271-292 | pow_ui_inv is a^b shifted to a full limb together with its exact reciprocal, also from the table of powers of 5 |
| DtoaScale.MulByPow | dtoa.c:901-917 | Multiplying limb by limb gives a * radix1^f exactly |
| DtoaScale.DivByPow | dtoa.c:938-952 | Dividing by several limbs in turn is one floor division by radix1^g, and some remainder was non-zero exactly when that division is inexact |
| DtoaScale.MulPow | dtoa.c:893-956 | mul_pow returns the sticky image of a * 2^k * radix1^f with the matching offset, and enough spare bits for one final rounding |
| DtoaScale.MulPowRound | dtoa.c:958-967 | mul_pow_round equals round(m * 2^e * radix^f) exactly, for f of either sign and three modes |
| DtoaScale.RoundToD | dtoa.c:969-1001 | round_to_d gives the unique full mantissa and exponent of the correctly rounded double, rounding once also in the subnormal range |
| DtoaScale.MulPowRoundToD | dtoa.c:1003-1013 | mul_pow_round_to_d does so for a * radix^f: scaling and rounding together round once |
| NearestReals.NearestToReal | dtoa.c:1003-1013 | The double that printer and parser specify for n * radix^f * 2^t is the one nearest to that real number, ties to even, infinite from 2^1024 - 2^970 on |
| NearestReals.NearestMeans | dtoa.c:1003-1013 | On bit patterns: no finite double is nearer |
| NearestReals.NearestUnique | dtoa.c:1003-1013 | There is one such double |
| DtoaScale.DoubleUnique | dtoa.c:1220-1222 | Two doubles are equal exactly when their mantissas and exponents are, which is what the search compares |
| DtoaRoom.LimbTable | dtoa.c:64-66 | Every division that a double needs takes at most 44 limbs of divisor, in every radix |
| DtoaRoom.PrintRoom | dtoa.c:893-967 | Every mul_pow_round of the printer fits 52 limbs, carry limbs included |
| DtoaRoom.ConvertRoom | dtoa.c:1003-1013 | Every mul_pow_round_to_d of printer and parser fits 52 limbs and stays in the range of round_to_d |
| DtoaNearest.CloseRounds | dtoa.c:1213-1222 | A number within a half unit of a double, on the nearer side below a power of two, rounds to it |
| DtoaSearch.LogBracket | dtoa.c:1180-1182 | The chosen E satisfies radix^(E-1) <= 2^(e-1) < radix^E |
| DtoaSearch.ExponentRange | dtoa.c:1180-1182 | The printed exponent lies strictly between min_exponent and max_exponent + 1 |
| DtoaSearch.FirstMantissa | dtoa.c:1196-1207 | The first trial lies between radix^(P-1) and 2 radix^P |
| DtoaSearch.SecondMantissa | dtoa.c:1199-1207 | After a first trial with a digit too many, the second has exactly P digits: E++ happens at most once |
| DtoaSearch.FirstIsClose | dtoa.c:1187-1215 | With P_max digits the candidate is close enough to read back, without a check |
| DtoaSearch.SecondIsClose | dtoa.c:1187-1215 | So is the candidate after E++, also when it was rounded up to a power of the radix |
| DtoaFree.FindMantissa | dtoa.c:1196-1207 | The inner loop ends after one or two trials with a mantissa of exactly P digits, the rounding of d * radix^(P-E) |
| DtoaFree.StripZeros | dtoa.c:1208-1212 | Dropping trailing zero digits keeps the double read back, and what is left is exactly what the trials with fewer digits compute, each of which reads back too |
| DtoaFree.Guaranteed | dtoa.c:1213-1215 | The first candidate is accepted without a check and does read back as the double |
| DtoaFree.ReadsBack | dtoa.c:1216-1222 | The check is true exactly when the digits round to the double |
| DtoaFree.FreeDigits | dtoa.c:1184-1236 | The search ends with the digits of a trial that reads back, as do all trials with more digits up to P_max, while the trial with one digit less fails or there is none |
| DtoaFree.StillTrial | dtoa.c:1196-1212 | A trial that ends in a zero digit computes the number and exponent of the trial with one digit less |
| DtoaFree.ChosenUnique | dtoa.c:1184-1236 | That determines the digits, their count and the exponent |
| DtoaText.ToText | dtoa.c:532-588 | The fixed-length writers produce the base-radix digits of n, padded with zeros |
| DtoaText.OutputDigits | dtoa.c:847-889 | output_digits writes the last n digits of the number, by shifts or by limb divisions, with the dot in place |
| DtoaText.U64toaRadix | dtoa.c:658-689 | u64toa_radix writes the shortest digits of n in any radix |
| DtoaText.DigitsOfValue | dtoa.c:560-588 | The digits written have the value they stand for |
| DtoaFixed.MantMax | dtoa.c:1264-1268 | mant_max is 10^n |
| DtoaFixed.FixedDigits | dtoa.c:1260-1277 | FIXED: the number rounded half away from zero to n significant digits, at the one exponent where it has n digits and at the exponent below has more, after at most one E++ |
| DtoaFixed.FixedUnique | dtoa.c:1260-1277 | There is one such exponent and mantissa: 9 to one digit is 9, and never 10 |
| DtoaFixed.FixedExponent | dtoa.c:1270-1276 | It is the exponent first chosen or the next |
| DtoaFixed.TrimmedNumber | dtoa.c:1250-1258 | At most one leading zero is dropped, and what remains is the number in full |
| DtoaFixed.FracDigits | dtoa.c:1242-1259 | FRAC: the text is d rounded half away from zero to n fractional digits in the usual notation |
| Dtoa.Unpack | dtoa.c:1155-1166 | Every finite non-zero double becomes a full mantissa and its exponent |
| Dtoa.WriteNumber | dtoa.c:1278-1312 | The output part writes the digits in the plain, leading-zero, zero-padded or exponent layout |
| Dtoa.JsDtoa | dtoa.c:1107-1318 | js_dtoa prints signs, NaN, Infinity and zeros; in FREE the digits of the search; in FIXED and FRAC the rounded digits; in the layout that the flags select |
| Dtoa.PrintedUnique | dtoa.c:1107-1318 | What is printed is determined: one text for each double, radix, digit count, format and mode |
| DtoaLaws.FreePrinted | dtoa.c:1107-1318 | FREE: sign, digits v without a leading zero and exponent x of a number that the double is nearest to, in as few digits as the search finds (Shortest) or in full for an integer below 2^53; an exponent always, never, or in AUTO exactly for numbers below radix^-6 or from radix^(P_max+4) on |
| DtoaLaws.DecimalPrinted | dtoa.c:1278-1284 | In radix 10 and AUTO: an exponent exactly for printed numbers below 10^-6 or from 10^21 on |
| DtoaLaws.FixedPrinted | dtoa.c:1260-1312 | FIXED: n digits of the double at exponent x rounded half up, and the same rule with 10^n as the limit |
| DtoaLaws.FracPrinted | dtoa.c:1242-1259 | FRAC: the double times 10^n rounded half up, n digits behind the dot, no superfluous leading zero |
| DtoaLaws.SpecialPrinted | dtoa.c:1126-1154 | NaN, Infinity and -Infinity; zero with its digits, its exponent if enforced and its sign on demand |
| DtoaLaws.ChosenShortest | dtoa.c:1184-1236 | The digits chosen are the double rounded to p places, the last not zero; the double rounded to p - 1 places, or its trial in the source's sense, does not read back |
| DtoaLaws.WhenExponential | dtoa.c:1279-1284 | The comparison of E with -6 and E_max, as one of the printed number with powers of the radix |
| DtoaLaws.LayoutWritten | dtoa.c:1285-1312 | The layouts spelled out: one digit before the dot and an exponent, or zeros in front, or a dot inside, or zeros behind |
| DtoaLaws.ExponentWritten | dtoa.c:1287-1301 | 'e' in radix 10, 'p' and a power of two in radix 2, 4, 8 and 16, '@' in the others; a sign; decimal digits |
| DtoaLaws.DigitsWritten | dtoa.c:543-589 | Digits from ten on are lower-case letters |
| DtoaLaws.WritesExample | dtoa.c:543-557 | 255 in radix 16 is "ff" |
| DtoaLength.SubnormalDigits | dtoa.c:1184-1236 | For subnormal doubles the search stops as soon as the last digit is worth about a unit of 2^-1074 |
| DtoaLength.TextLength | dtoa.c:1031-1082 | The printed text keeps within js_dtoa_max_len exactly under the stated condition, which is true but for two uses of the formats |
| DtoaLength.SmallestTooLong | dtoa.c:1031-1082 | 2^-1074 in the fixed format without exponent is longer than js_dtoa_max_len, whatever the digit count |
| Atod.SkipLeadingZeros | dtoa.c:1440-1459 | The loop over leading zeros, dots and separators ends where the grammar says |
| Atod.CollectDigits | dtoa.c:1461-1496 | The digit loop reads exactly the digits of the grammar, keeps the leading ones as a number limb by limb and knows whether any surplus digit was non-zero |
| Atod.StickyKept | dtoa.c:1507-1511 | The kept digits with the surplus OR-ed into bit 0 are the sticky image of the whole numeral |
| Atod.ReadExponentPart | dtoa.c:1513-1554 | Exponents in e, p and @ form, signed, with separators, are read as written or reported as too large |
| Atod.SaturatedIndex | dtoa.c:1555-1562 | The exit for huge exponents agrees with rounding: infinity or zero is the nearest double |
| AtodConvert.StickyDigitsRound | dtoa.c:1507-1511 | In power-of-two radices the kept digits with the sticky bit round like the whole numeral of any length |
| AtodConvert.BinaryExits | dtoa.c:1576-1580 | The early overflow and underflow exits for power-of-two radices agree with rounding |
| AtodConvert.TableOverflow | dtoa.c:1584-1586 | The early overflow exit of the other radices agrees with rounding |
| AtodConvert.TableUnderflow | dtoa.c:1584-1588 | The early underflow exit of the other radices agrees with rounding |
| AtodConvert.ConvertBinary | dtoa.c:1572-1581 | The number of any length in a power-of-two radix becomes the nearest-even double, or infinity |
| AtodConvert.ConvertTable | dtoa.c:1582-1590 | The kept digits in another radix become the nearest-even double, or infinity |
| AtodConvert.PackDouble | dtoa.c:1591-1607 | The final case split packs subnormal, normal, underflowing and overflowing results |
| AtodConvert.NearestToCorrect | dtoa.c:1572-1607 | The index that a numeral is specified to have is the correctly rounded double of exactly n * radix^f * 2^t |
| Atod.ConvertNumber | dtoa.c:1568-1607 | The 32-bit exponent arithmetic, step by step, overflows exactly when stated, and otherwise the conversion delivers the specified index |
| Atod.JsAtod | dtoa.c:1354-1620 | js_atod returns what the text means under the grammar of signs, prefixes, separators, dots and exponents, with the rest of the text, or fails, or overflows its exponent words exactly when TextFits is false |
| AtodNumerals.PlainMeans | dtoa.c:1354-1620 | A text without prefix reads as the double nearest to its number, all digits counting while radix^n <= 2^128 for the n digits behind leading zeros or when the radix is a power of two; the text behind it is returned |
| AtodNumerals.LongMeans | dtoa.c:1480-1511 | For longer numerals the digits that count are the most that stay within 2^128, and the number they write is off by less than one unit of the last of them |
| AtodNumerals.PlainReads | dtoa.c:1440-1607 | In every radix a numeral of at most 20 digits, with a dot or without, reads as the double nearest to all its digits |
| AtodNumerals.ScaledReads | dtoa.c:1513-1607 | With an exponent: 'e' in radix 10, '@' in the others, scaling by the radix; 'p' in radix 2, 4, 8 and 16, counting powers of two |
| AtodNumerals.PrefixMeans | dtoa.c:1385-1400 | 0x, 0o and 0b numerals of any length in radix 16, 8 and 2 |
| AtodNumerals.PrefixReads | dtoa.c:1385-1400 | So 0x, 0o and 0b integers are their digits in radix 16, 8 and 2 |
| AtodNumerals.PrefixAlone | dtoa.c:1411-1413 | A prefix without a digit behind it is an error |
| AtodNumerals.LegacyMeans | dtoa.c:1401-1410 | Legacy octal: a zero and octal digits, in radix 8 and without separators |
| AtodNumerals.LegacyReads | dtoa.c:1401-1410 | So 0ddd is its digits in radix 8 |
| AtodNumerals.NotLegacy | dtoa.c:1401-1410 | An 8 or 9 among the digits makes it decimal |
| AtodNumerals.InfinityMeans | dtoa.c:1415-1418 | Infinity, with its sign, except where integers are asked for |
| AtodNumerals.BadExponentMeans | dtoa.c:1526-1535 | An exponent letter without digits behind it is an error |
| AtodNumerals.SeparatorMeans | dtoa.c:1472-1473 | Where separators are allowed, one between two digits might as well not be there |
| AtodNumerals.DigitMeans | dtoa.c:1320-1330 | Letters of either case are digits from ten on |
| AtodNumerals.SkipThenScan | dtoa.c:1440-1496 | Skipping leading zeros first drops them and changes nothing else |
| RoundTrip.LayoutReads | dtoa.c:1278-1312 | A number of at most P_max digits written in any layout reads as the double nearest to it |
| RoundTrip.FreeMeansItself | dtoa.c:1107-1318 | Every text that js_dtoa may print in free format for a double means that double to js_atod, in every radix and exponent mode, and never overflows the exponent words |
| RoundTrip.PrintAndParse | dtoa.c:1354-1620 | Printing and then parsing returns the same bits, -0 becoming 0 unless the minus is asked for |
| RoundTrip.OverflowExample | dtoa.c:1573-1574 | "1@1000000000" in radix 32 overflows the exponent word |
| RemPio2.GetU64Correct | libm.c:827-837 | get_u64_at_bit is the 64-bit window of the table at any bit position |
| RemPio2.MultiplyWords | libm.c:865-872 | The three products with their carries are bits 64 to 191 of m * d |
| RemPio2.WithinOne | libm.c:858-872 | Leaving out the table bits below j loses less than one unit of the 128-bit fraction |
| RemPio2.ReduceFraction | libm.c:852-872 | For every biased exponent from 1022 to 2046 the fraction is within one unit of the exact window of m * T |
| RemPio2.Quarter | libm.c:876-891 | 4c = n * 2^128 + r or n * 2^128 - r with r <= 2^127, the rounding bit choosing the sign |
| RemPio2.QuarterUnique | libm.c:876-891 | That pins down n, the sign and r, ties going up |
| RemPio2.TimesPio4 | libm.c:894-911 | The carry chain is exactly c0 P1 + c1 P0 + c1 P1 2^64 on three words |
| RemPio2.PackHalves | libm.c:921-942 | Of the product with its leading zeros shifted out, the first double is exactly the top 53 bits and the second exactly the next 53 |
| RemPio2.SplitSum | libm.c:921-942 | So their sum is exactly the top 106 bits |
| RemPio2.RemPio2Large | libm.c:844-946 | The steps together: the fraction, its nearest quarter turn with the sign of x, and the two doubles that hold the top 53 bits of the product and the next 53 |
| RemPio2.ReductionMeans | libm.c:844-946 | In the stored integers: the fraction c of x * T / 2^2162 to within one unit, its quarters n' and rest r, n with the sign of x, and y0 + y1 equal to r * PIO4 / 2^255 cut off below 2^-105 |
| RemPio2.ConstantsAgree | libm.c:798-825 | 8 * PIO4 * T is 2^1344 to within 2^1214, as pi/4 times 1/(2 pi) is 1/8 |
| Utf8.DecodeEncode | cutils.c:82-103 | utf8_get undoes unicode_to_utf8, length included, whatever follows |
| Utf8.DecodeEncodeAll | cutils.c:156-178 | Decoding an encoded text gives the text |
| Utf8.EncodeInjective | cutils.c:82-103 | Different texts have different encodings |
| Utf8.TakeText | readline.c:714-732 | The incremental decoder completes exactly the code points of a typed text, after any broken sequence |
| EditText.CharAt | readline.c:280-303 | Where a code point lies in the line: its first byte gives its length, the others are continuation bytes, and a space is one byte |
| EditText.Spliced | readline.c:231-272 | Replacing text between two code points replaces exactly its bytes |
| EditText.KillThenYank | readline.c:362-365 | Yanking what was just killed restores the text |
| EditText.InsertThenKill | readline.c:314-320 | Killing back over an insertion, or backspace over one character, undoes it |
| EditText.LeftWhileIs | readline.c:322-335 | The word motion skips exactly the maximal run of spaces or of other characters |
| EditText.RightWhileIs | readline.c:337-350 | So does the word motion to the right |
| LineBuffer.UnicodeToUtf8 | cutils.c:82-103 | Written through a moving position, the bytes are the encoding |
| LineBuffer.EditBuffer.KillRegion | readline.c:231-254 | Killing to a byte position in place is KillTo on code points, and the kill buffer takes the bytes |
| LineBuffer.EditBuffer.InsertRegion | readline.c:256-272 | Inserting in place is Insert on code points when the size test passes, and nothing otherwise |
| LineBuffer.EditBuffer.Backward | readline.c:285-294 | Stepping back over continuation bytes moves the cursor by one code point |
| LineBuffer.EditBuffer.Forward | readline.c:296-303 | Stepping forward moves it by one code point |
| LineBuffer.EditBuffer.DeleteChar | readline.c:305-312 | One code point goes at the cursor |
| LineBuffer.EditBuffer.BackspaceChar | readline.c:314-320 | One code point goes before the cursor |
| LineBuffer.EditBuffer.SkipWordBackward | readline.c:322-335 | The byte loops end at the start of the word in code points |
| LineBuffer.EditBuffer.SkipWordForward | readline.c:337-350 | The byte loops end at the end of the word in code points |
| LineBuffer.EditBuffer.Yank | readline.c:362-365 | The kill buffer goes in at the cursor |
| LineBuffer.EditBuffer.Load | readline.c:387-395 | A history line replaces the text, cursor at its end |
| PackedHistory.AddLineKeeps | readline.c:429-474 | Adding keeps a list of distinct non-empty lines within the buffer size and puts the line last |
| PackedHistory.AddLineIs | readline.c:429-474 | Of the old lines but for the one added, in order, exactly the longest end that leaves room survives, and the new line follows; all of them when it is new and fits |
| PackedHistory.AddTwo | readline.c:429-474 | Two different lines that fit together end up next to each other |
| PackedHistory.EvictIsEnd | readline.c:459-466 | Only oldest lines are dropped, and no more than needed |
| PackedHistory.LineAt | readline.c:397-427 | Where line i lies in the packed buffer, between its terminators |
| PackedHistory.History.Add | readline.c:429-474 | term_hist_add on the packed bytes is the list operation: an equal line is taken out, oldest lines are evicted, the line goes last |
| PackedHistory.History.Up | readline.c:397-412 | The walk back over bytes finds the line before |
| PackedHistory.History.Down | readline.c:414-427 | The step forward finds the line after, or leaves the history |
| LineEditor.InsertFits | readline.c:256-272 | The line stays inside its buffer exactly when the inserted bytes fit or the size test refuses them |
| LineEditor.CursorCheckOverruns | readline.c:260 | A line for which the size test passes and the line overruns |
| LineEditor.ByteGood | readline.c:563-732 | Every byte that fits keeps the invariant: whole code points inside the buffer, cursor on a boundary, bounded history of distinct stored lines |
| LineEditor.RunGood | readline.c:563-732 | So does every run of bytes |
| LineRuns.RunIsChars | readline.c:714-732 | Bytes act through the characters they complete and in no other way |
| LineRuns.TypeText | readline.c:563-732 | The bytes of a text insert exactly that text at the cursor, after any broken sequence, and change nothing else |
| LineRuns.ReturnAccepts | readline.c:555-561 | Return accepts the line and puts it into the history as AddLine does, last; except for passwords and empty lines, which leave the history alone |
| LineRuns.AcceptThenUp | readline.c:555-742 | After return and a restart, the up key shows the accepted line again |
| LineRuns.UpsShow | readline.c:387-412 | From a line being edited, k times up shows the k-th line from the end of the history, and the oldest when there are fewer |
| LineRuns.UpThenDown | readline.c:397-427 | Down undoes up between lines of the history |
| LineKeys.Typing | readline.c:256-278 | Typing u leaves t[..k] + u + t[k..] with the cursor behind u |
| LineKeys.MoveKeys | readline.c:652-675 | ESC [ or ESC O or code 155, any parameters, then D, C, H or F: one code point left or right, start, end |
| LineKeys.TildeKeys | readline.c:676-698 | ESC [ n ~: start for 1, delete for 3, end for 4, nothing for other numbers |
| LineKeys.LeftsThenType | readline.c:285-294 | n times left from the end, then typing u, puts u in n code points before the end, the cursor behind it |
| LineKeys.LeftAndRight | readline.c:285-303 | Right undoes left and left undoes right |
| LineKeys.HomeEndThenType | readline.c:377-385 | After ^A, ESC [ H, ESC O H or ESC [ 1 ~ typing goes in front; after ^E, ESC [ F, ESC O F or ESC [ 4 ~ behind |
| LineKeys.DeleteKeys | readline.c:305-320 | ^D and ESC [ 3 ~ delete the code point after the cursor, ^H and DEL the one before |
| LineKeys.KillKeys | readline.c:591-596 | ^K leaves t[..k] and ^U t[k..], the rest in the kill buffer |
| LineKeys.KilledComesBack | readline.c:591-602 | ^Y right after either restores the text |
| LineKeys.WordStart | readline.c:322-335 | Back over a word: over spaces, then over at least one other code point, to a space or the start |
| LineKeys.WordEnd | readline.c:337-350 | Forward over a word in the same way |
| LineKeys.WordBackKeys | readline.c:597-641 | ESC b moves to the start of the word before the cursor; ^W, ESC ^H and ESC DEL kill back to it |
| LineKeys.WordOnKeys | readline.c:642-648 | ESC f moves to the end of the word after the cursor; ESC d kills up to it |
| LineKeys.OtherKeys | readline.c:563-620 | The other control characters leave the line alone |
| HistoryKeys.UpRun | readline.c:397-412 | k times ESC [ A shows the k-th history line from the end, or the oldest |
| HistoryKeys.DownRun | readline.c:414-427 | j times ESC [ B from a history line shows the j-th after it |
| HistoryKeys.DownKeys | readline.c:414-427 | One step down, and out of the history behind its last line |
| HistoryKeys.AcceptTwo | readline.c:429-561 | After accepting two different lines, restarting each time, up shows the second and up again the first |
| HistoryKeys.Returns | readline.c:563-732 | -1 exactly for ^D on an empty line, 2 exactly for return, 0 exactly for characters without a meaning, which change nothing |
| HistoryKeys.EscapeReturn | readline.c:628-631 | ESC RET does what return does but is not reported as acceptance |
| Readline.Readline.HandleByte | readline.c:714-732 | One byte on the mutable state is one step of the state machine, result code included |
| Readline.Readline.Return | readline.c:555-561 | term_return terminates the line and adds it to the history |
| Readline.Readline.Start | readline.c:734-742 | readline_start empties the line and leaves history and kill buffer |
| Readline.Readline.Feed | readline.c:563-732 | Every run of bytes that fits takes the buffers to the state that the state machine gives: the line buffer holds the encoded text up to the cursor and behind it, the history buffer the packed lines |

## Left out

- SoftFpSqrt.SqrtremU: a high word of 1 with clz(0) taken as 1 is left out, since the start value is then a shift by the whole word, which C does not define.
- Atod.JsAtod: texts of at most 2^28 characters, so that positions and their multiples by 5 fit an int.
- Atod.ConvertNumber: in radices that are not powers of two the surplus digits beyond atod_max_digits are truncated, as the code does; for longer numerals AtodNumerals.LongMeans says which number is rounded and how far it is from the one written.
- AtodLex.TextFits: what a 32-bit int holds after it overflows is not modelled.
- DtoaScale.RoundToD: for values of at least 2^-1085; below, the source shifts a word by 64 or more, which C does not define. DtoaRoom.ConvertRoom shows that no call does.
- DtoaFree.FreeDigits: the search stops at the first digit count that fails, so no claim is made that no shorter digits exist beyond it, nor that no other number of one digit less would read back.
- Dtoa.JsDtoa: FIXED and FRAC in radix 10 only, as dtoa.h documents; the output is a string that grows instead of a buffer.
- RemPio2.RemPio2Large: in terms of the stored integers, which are proved to belong together (ConstantsAgree) but not to be the digits of 1/(2 pi) and pi/4; the floating-point path of js_rem_pio2 is not modelled.
- SoftFpConvert.FloatToIntCorrect: status flags are not modelled in any operation, since the code is built with F_USE_FFLAGS 0.
- LineBuffer.EditBuffer.InsertRegion: requires that the text fits whenever the size test passes, since the test does not ensure it; beyond that C does not define the outcome. LineEditor.InsertFits shows that this is the exact condition.
- LineBuffer.EditBuffer.Yank: the same.
- Readline.Readline.Feed: the same, at every byte.
- Readline.Readline.HandleByte: numeric parameters of control sequences are unbounded; isspace is that of the "C" locale; what is drawn on the terminal is not modelled.
- The 32-bit instance of the emulator, float comparisons, rint and conversions between float sizes would add only easier members.
- Transcendental functions of libm.c, js_pow and the portable js_sqrt: error analysis over hardware doubles.
- unicode_from_utf8: the editor does not use it.
- Colours, cursor movement, terminal input, completion, the command line and the table generators: no arithmetic or state of their own.
- The engine, its garbage collector and its parser: mquickjs.c is not part of this model.

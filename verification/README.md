# Machine-checked model of the cryptographic core

The programs in this repository run an IKE-style key exchange on top of mbed TLS. This project
models the code that the exchange rests on, and the protocol itself, and proves what it
computes:

* **The multi-precision integers** of `bignum.c`: a sign and an array of limbs of 32 or 64 bits
  (`biL` stays a parameter), changed in place by carry loops. Every routine is tied to the integer
  operation it stands for, from addition up to long division, Montgomery multiplication, windowed
  exponentiation, binary gcd, modular inverse, the primality test and the text formats.
  Modules `Arith` to `MpiText` and `MpiConstTime`.
* **The two-party exchange** of `ike_engine.c`: the engine as a class with the source's fields, a
  world of two engines and a network that may drop, duplicate and reorder packets, and key agreement
  over every run. Modules `Dh`, `Ike`, `IkeRuns`.
* **The block-cipher code**: CBC with its streaming buffer and paddings (`Cbc`, `Padding`, `Cipher`),
  CMAC (`Cmac`), XTS (`Xts`), CCM (`Ccm`), and the table-driven AES itself (`Gf256`, `AesTables`,
  `Aes`, `AesBlock`, `AesKeys`), which is proved to be the cipher of FIPS 197 as the standard states
  it on bytes (`Fips197`, `AesStandard`).
* **The printers and parsers**: DER (`Der`, `DerWrite`, `DerParse`, `DerSequence`), base64 (`Base64`),
  and the branch-free primitives (`ConstantTime`), with 32-bit `unsigned` and a `size_t` whose width
  `sizeL` stays a parameter.

Objects that the source changes in place are classes or arrays here, and loops are loops; each such
method is proved against a function or a relation on plain values, and the laws are lemmas about
those. Aliasing that the source allows (an output that is also an input, in-place encryption, a
table entry multiplied with itself) is allowed here too.

`dfyconfig.toml` lists the files; `dafny verify dfyconfig.toml` checks the project.

## Where the code does less than one would expect

Each of these is a proved statement, with the exact condition under which the expected property
holds:

* `mbedtls_mpi_shift_r` leaves the sign alone on its main path, so shifting all bits out of a
  negative number can leave a negative zero (`MpiShift.ShiftR` has the exact condition,
  `MpiShift.ShiftRNegativeZero` the run -1 >> 1).
* `mbedtls_mpi_div_mpi` with the quotient stored over the dividend reads the dividend's sign
  after overwriting it: the quotient has the wrong sign exactly for a negative dividend that is not
  smaller than the divisor (`MpiDiv.DivInPlaceCorrect`, `MpiDiv.DivInPlaceWrong`). bignum.h, lines 785
  and 806, forbids this aliasing; `mpi_write_hlp` divides in place all the same (bignum.c, line 506),
  on a number that is never negative.
* `mbedtls_int_div_int` without a double-width type shifts a word by its whole width if the top bit of
  the divisor is set, which C leaves undefined; the mask makes the outcome irrelevant, and
  `IntDiv.ShiftIn` is proved for any word that the shift may give.
* `mbedtls_mpi_mod_int` loses bits for divisors above half a word: it is right for every number exactly
  if the divisor is at most half a word or a power of two (`MpiMod.RemainderIff`); for any other
  divisor the number with the limbs 0 and 1 gives 0 (`MpiMod.RemainderWrong`).
* `mbedtls_mpi_exp_mod` with a negative base and an odd exponent gives N instead of 0 when N divides
  the power, which it does exactly if it divides the power with the exponent cut to the bit length of N
  (`MpiExp.ModExpReducedIff`); it never does for a base coprime to N > 1. The smallest case is
  (-3)^1 mod 3 (`MpiExp.ModExpNotReduced`).
* `mbedtls_mpi_gcd` with a second argument of 0 returns a copy of the first, negative sign included
  (`MpiGcd.GcdResultCorrect`; `MpiGcd.GcdNegativeCopy` for -3 and 0).
* The mask in the witness loop of `mpi_miller_rabin` is a shift by a negative amount if and only if the
  candidate has a leading zero limb (`Primes.TopLimbMask`) and a draw has more bits than X - 1
  (`Primes.MaskUndefined` for the limbs 5 and 0). The test is proved for every candidate whose draws do
  not reach that shift.
* `mbedtls_ct_size_mask_lt` is the comparison exactly for operands that are less than half the range
  apart (or exactly half, the smaller one first): `ConstantTime.SizeMaskLtCorrect`, with half the range
  against 0 as the failure in `ConstantTime.SizeMaskLtWrong`. The padding readers do meet such operands,
  because their index wraps, and are right all the same (`Padding.GetPadding`);
  `mbedtls_ct_mpi_uint_lt` is right for all operands (`MpiConstTime.UintLt`).
* Zero padding can be undone exactly if the message is whole blocks or does not end in a zero
  byte (`Padding.PaddingRecognised`, `Cipher.WholeRoundTrip`; `Padding.ZeroByteLost` for the single
  byte 0).
* An established IKE side does not stay established: a replayed proposal sets the responder back while
  the initiator stays established, a replayed key exchange message or a new call of `ike_initiate` sets
  the initiator back (`IkeRuns.EstablishedIsLost`, `IkeRuns.ReplaySetsBack`).
* The DER writers write the magnitude of a negative MPI and the low byte of a negative int; these do
  not come back (`Der.MpiRoundTrip`, `Der.IntRoundTrip`; -1 in `Der.NegativeOneLost`).

## Model

| member | source | states |
|---|---|---|
| `Kernels.MulHlp` | mbedTLS/library/bignum.c:1413-1468 | adds b times the limbs of s to d with every carry absorbed, for any buffers whose result fits, also when s and d are the same buffer |
| `Kernels.SubHlp` | mbedTLS/library/bignum.c:1228-1242 | the n-limb difference modulo the radix power together with the borrow is the exact difference of the numbers, also in place |
| `Kernels.CondAssign` | mbedTLS/library/constant_time.c:258-282 | masking with all ones or all zeros selects the source limbs or keeps the old ones, and touches nothing beyond them |
| `Limbs.MulAddCExact` | mbedTLS/include/mbedtls/bn_mul.h:957-974 | one multiply-accumulate step with a double-width product loses nothing: limb and carry together hold s * b + c + d |
| `Limbs.HalfFormSame` | mbedTLS/include/mbedtls/bn_mul.h:977-1000 | the form with four half-word products and four carries gives the same limb and carry for all operands |
| `Mpis.Grow` | mbedTLS/library/bignum.c:98-123 | growing keeps the value, the sign and every old limb |
| `Mpis.Shrink` | mbedTLS/library/bignum.c:129-170 | dropping leading zero limbs keeps the value and leaves at least the requested room |
| `Mpis.Copy` | mbedTLS/library/bignum.c:197-236 | the target takes the value, grows to exactly the significant limbs if it is smaller and never shrinks; copying onto itself changes nothing |
| `Mpis.Lset` | mbedTLS/library/bignum.c:267-281 | the object holds the signed word exactly, also the most negative one |
| `Mpis.CmpAbs` | mbedTLS/library/bignum.c:1038-1077 | the result is the sign of the difference of the magnitudes, whatever leading zeros the buffers hold |
| `Mpis.CmpMpi` | mbedTLS/library/bignum.c:1082-1128 | the result is the sign of the difference of the two integers |
| `Mpis.CmpInt` | mbedTLS/library/bignum.c:1133-1145 | the same against a signed word |
| `MpiArith.AddAbs` | mbedTLS/library/bignum.c:1150-1209 | the magnitude is the sum of the old magnitudes, with either operand possibly the output |
| `MpiArith.SubAbs` | mbedTLS/library/bignum.c:1247-1299 | refused exactly if the difference would be negative, else the difference, in place or not |
| `MpiArith.AddSub` | mbedTLS/library/bignum.c:1304-1335 | signed sum or difference for every combination of signs and aliasing, and the result is never a negative zero |
| `MpiArith.MulMpi` | mbedTLS/library/bignum.c:1473-1532 | the signed product, with any aliasing, never a negative zero |
| `MpiArith.MulInt` | mbedTLS/library/bignum.c:1537-1570 | the shortcut a + a * (b - 1) is the product with one limb |
| `MpiBits.Bitlen` | mbedTLS/library/bignum.c:372-389 | the number of significant bits of the magnitude |
| `MpiBits.Lsb` | mbedTLS/library/bignum.c:334-348 | the number of factors of two, 0 for 0 |
| `MpiBits.GetBit` | mbedTLS/library/bignum.c:286-295 | bit pos of the magnitude, 0 beyond the buffer |
| `MpiShift.ShiftL` | mbedTLS/library/bignum.c:943-989 | multiplies by a power of two, losing no bit, and grows the buffer exactly as far as needed |
| `MpiShift.ShiftR` | mbedTLS/library/bignum.c:994-1033 | divides the magnitude by a power of two; the result is well-formed if and only if the number was not negative, or the early exit is taken, or a bit remains |
| `MpiShift.ShiftRNegativeZero` | mbedTLS/library/bignum.c:994-1033 | the concrete failure -1 >> 1, which leaves a negative zero |
| `IntDiv.ShiftIn` | mbedTLS/library/bignum.c:1622-1630 | shifting in the top bits of the lower word with an or and a mask is an addition, whatever an undefined shift by the whole width yields |
| `IntDiv.HalfDigit` | mbedTLS/library/bignum.c:1641-1651 | the estimate from the top half of the divisor, corrected downwards, is the exact half-word quotient digit |
| `IntDiv.HalfRemainder` | mbedTLS/library/bignum.c:1653-1655 | the remainder computed modulo the word size from products that wrap is the true remainder |
| `IntDiv.IntDivInt` | mbedTLS/library/bignum.c:1576-1674 | quotient and remainder of two words by one are floor and rest for every u1 < d; all ones otherwise |
| `MpiDiv.EstimateNotSmall` | mbedTLS/library/bignum.c:1743-1749 | no quotient digit exceeds an estimate from the leading limbs |
| `MpiDiv.EstimateNotBig` | mbedTLS/library/bignum.c:1755-1763 | an estimate that passes the leading-limb test is at most one too large |
| `MpiDiv.DigitPasses` | mbedTLS/library/bignum.c:1743-1763 | the true digit fits one limb and passes both the one-limb and the three-limb test, so the correction loop stops |
| `MpiDiv.DigitClose` | mbedTLS/library/bignum.c:1756-1763 | any limb that passes the three-limb test is at most one above the true digit |
| `MpiDiv.EstimateDigit` | mbedTLS/library/bignum.c:1744-1763 | the corrected estimate is the true digit or one more |
| `MpiDiv.SubtractDigit` | mbedTLS/library/bignum.c:1765-1774 | after one conditional add-back digit and running remainder are exactly quotient and rest by the shifted divisor |
| `MpiDiv.LeadingDigit` | mbedTLS/library/bignum.c:1737-1740 | repeated subtraction ends below the shifted divisor, keeps quotient times divisor plus remainder, and never overflows the digit |
| `MpiDiv.DigitLoop` | mbedTLS/library/bignum.c:1743-1775 | the digit loop conserves quotient times divisor plus remainder and ends with a remainder below the divisor |
| `MpiDiv.DivCore` | mbedTLS/library/bignum.c:1716-1775 | the normalised division gives floor quotient and shifted remainder of the magnitudes |
| `MpiDiv.DivMpi` | mbedTLS/library/bignum.c:1679-1799 | truncated quotient and remainder with the error for a zero divisor, either output optional, outputs over the dividend allowed |
| `MpiDiv.TruncDivExact` | mbedTLS/library/bignum.c:1676-1680 | A = Q * B + R with the remainder smaller than the divisor and zero or signed like A |
| `MpiDiv.TruncDivUnique` | mbedTLS/library/bignum.c:1676-1680 | no other pair satisfies that |
| `MpiDiv.DivInPlaceCorrect` | mbedTLS/library/bignum.c:1777-1780 | storing the quotient over the dividend is right if and only if the dividend is not negative or is smaller than the divisor |
| `MpiDiv.DivInPlaceWrong` | mbedTLS/library/bignum.c:1777-1780 | the concrete failure -7 / 2, which comes out as 3 |
| `MpiMod.ModMpi` | mbedTLS/library/bignum.c:1823-1847 | the remainder that is never negative, in place or not, with the two error codes in the source's order |
| `MpiMod.DivInt` | mbedTLS/library/bignum.c:1804-1818 | division by a signed word, with the same in-place exception |
| `MpiMod.NextHalf` | mbedTLS/library/bignum.c:1882-1894 | shifting in half a limb gives the remainder of the number read so far, without overflow for divisors up to half a word |
| `MpiMod.RemainderCorrect` | mbedTLS/library/bignum.c:1880-1893 | the loop gives the remainder for divisors up to half a word, for powers of two, and for numbers of one limb |
| `MpiMod.RemainderIff` | mbedTLS/library/bignum.c:1880-1893 | it is right for every number if and only if the divisor is at most half a word or divides the word size |
| `MpiMod.RemainderWrong` | mbedTLS/library/bignum.c:1880-1893 | every other divisor fails on the limbs 0 and 1 |
| `MpiMod.ModInt` | mbedTLS/library/bignum.c:1852-1906 | the error codes, the nonnegative remainder for the divisors the loop is right for, negative numbers included, and the loop's value for the others |
| `Montgomery.SeedInverse` | mbedTLS/library/bignum.c:1913-1915 | the starting value is an inverse modulo 16 for every odd limb |
| `Montgomery.NewtonStep` | mbedTLS/library/bignum.c:1917-1919 | one iteration squares the modulus for which the value is an inverse |
| `Montgomery.MontmulInit` | mbedTLS/library/bignum.c:1911-1922 | mm * N[0] = -1 modulo the word size, for both word sizes |
| `Montgomery.LowLimbCancels` | mbedTLS/library/bignum.c:1943-1947 | adding the chosen multiple of N clears the low limb |
| `Montgomery.MontRoom` | mbedTLS/library/bignum.c:1946-1947 | the running value stays below N + B and both accumulations fit the scratch buffer |
| `Montgomery.MontAdvance` | mbedTLS/library/bignum.c:1939-1950 | one step keeps the running value congruent to the partial product over the radix power |
| `Montgomery.MontStep` | mbedTLS/library/bignum.c:1943-1949 | one pass over the scratch array divides exactly by the radix after adding both rows |
| `Montgomery.FinalFlag` | mbedTLS/library/bignum.c:1962-1969 | the top limb after adding one and taking the borrow off says whether the value reaches N |
| `Montgomery.FinalSubtraction` | mbedTLS/library/bignum.c:1958-1970 | the branch-free ending leaves the value reduced by N exactly when it reaches N |
| `Montgomery.MontMul` | mbedTLS/library/bignum_internal.h:42-64 | the low limbs of A end fully reduced and congruent to A * B / R, the limbs above stay as they were |
| `MpiExp.MulMod` | mbedTLS/library/bignum.c:1924-1971 | the same for whole numbers: a product congruent to c * R becomes c modulo N |
| `MpiExp.GetMontR2` | mbedTLS/library/bignum.c:2020-2032 | the helper value is the square of the radix power modulo N, in at least as many limbs as N |
| `MpiExp.SafeCondAssign` | mbedTLS/library/constant_time.c:505-530 | sign and magnitude of the second operand are taken over if and only if the flag is set |
| `MpiExp.Select` | mbedTLS/library/bignum.c:2006-2018 | reading every table entry ends with the selected one |
| `MpiExp.LoadRR` | mbedTLS/library/bignum.c:2144-2155 | cached or computed, the helper value is right, and the cache is left holding it |
| `MpiExp.FillTable` | mbedTLS/library/bignum.c:2181-2210 | entry 1 and the upper half of the table hold their powers of the base in Montgomery form |
| `MpiExp.Times` | mbedTLS/library/bignum.c:2243-2244 | multiplying by entry idx adds idx to the exponent in the accumulator, entry 0 doubles it |
| `MpiExp.WindowGrows` | mbedTLS/library/bignum.c:2253-2254 | or-ing the next bit into the window keeps it the left-aligned held-back bits |
| `MpiExp.WindowBit` | mbedTLS/library/bignum.c:2230-2276 | each bit keeps accumulator exponent and held-back bits together equal to the exponent prefix, across skipped zeros, growing and completed windows |
| `MpiExp.Scan` | mbedTLS/library/bignum.c:2212-2277 | after the main loop accumulator exponent and held-back bits make up the whole exponent |
| `MpiExp.Tail` | mbedTLS/library/bignum.c:2282-2292 | the remaining bits of an incomplete window are consumed one by one |
| `MpiExp.Power` | mbedTLS/library/bignum.c:2116-2297 | the accumulator leaves as the reduced power of the magnitude of the base |
| `MpiExp.ExpMod` | mbedTLS/library/bignum.c:2037-2328 | refused exactly for a modulus that is not positive and odd, a negative exponent or too many bits; else the result of ModExp, with the output possibly the base and the cache kept valid |
| `MpiExp.ModExpCorrect` | mbedTLS/library/bignum.c:2297-2302 | always congruent to the power and between 0 and N; the reduced power if and only if the base is not negative, the exponent is even, or N does not divide the power |
| `MpiExp.ModExpReducedIff` | mbedTLS/library/bignum.c:2297-2302 | the same condition with the exponent cut to the bit length of N; a base coprime to N > 1 always gives the reduced power |
| `MpiExp.ModExpNotReduced` | mbedTLS/library/bignum.c:2299-2302 | the concrete failure (-3)^1 mod 3, which comes out as 3 |
| `MpiGcd.OddGcdStep` | mbedTLS/library/bignum.c:2404-2417 | half the difference of two odd numbers has the same odd common divisors |
| `MpiGcd.GcdByParts` | mbedTLS/library/bignum.c:2364-2398 | the gcd is the gcd of the odd parts times the common power of two |
| `MpiGcd.OddReduce` | mbedTLS/library/bignum.c:2399-2419 | the reduction loop terminates and leaves the odd gcd |
| `MpiGcd.GcdMpi` | mbedTLS/library/bignum.c:2333-2438 | what the function leaves for all arguments, with the output possibly an operand |
| `MpiGcd.GcdResultCorrect` | mbedTLS/library/bignum.c:2350-2358 | it is the greatest common divisor if and only if the second argument is not 0 or the first one is not negative |
| `MpiGcd.GcdNegativeCopy` | mbedTLS/library/bignum.c:2350-2358 | the concrete failure for -3 and 0 |
| `MpiGcd.ParityFix` | mbedTLS/library/bignum.c:2611-2614 | adding N to one cofactor and taking A off the other makes both even and keeps their combination |
| `MpiGcd.HalveColumn` | mbedTLS/library/bignum.c:2608-2618 | every halving is exact and keeps the combination equal to the number |
| `MpiGcd.ExtendedStep` | mbedTLS/library/bignum.c:2607-2641 | one pass keeps both linear combinations and the coprimality, and lowers the sum of the two numbers |
| `MpiGcd.ExtendedLoop` | mbedTLS/library/bignum.c:2607-2641 | the loops terminate with a combination of A and N equal to 1 |
| `MpiGcd.InvMod` | mbedTLS/library/bignum.c:2574-2660 | refused exactly if N is at most 1 or not coprime to A; else the inverse, strictly between 0 and N |
| `MpiGcd.InvertibleIffCoprime` | mbedTLS/library/bignum.c:2592-2595 | an inverse exists exactly for coprime numbers, so the refusal is never wrong |
| `Divisors.Fermat` | mbedTLS/library/bignum.c:2773-2805 | Fermat's little theorem, which the test relies on |
| `Divisors.SquareRootsOfOne` | mbedTLS/library/bignum.c:2783-2796 | modulo a prime 1 has no square roots but 1 and -1 |
| `Divisors.BoundedPower` | mbedTLS/library/bignum.c:2297-2302 | a number of k bits divides a power exactly if it divides the power with the exponent cut to k |
| `Primes.PrimeIsStrong` | mbedTLS/library/bignum.c:2773-2805 | no base refutes a prime |
| `Primes.StrongIsFermat` | mbedTLS/library/bignum.c:2773-2805 | a number that a base supports satisfies Fermat's congruence for it |
| `Primes.OneRoundTooFew` | mbedTLS/library/bignum.c:2751-2805 | the base 7 supports 25 and the base 2 refutes it, so a single round does not do |
| `Primes.Verdict` | mbedTLS/library/bignum.c:2783-2805 | the way the squaring loop ends decides whether the base refutes the number |
| `Primes.Test` | mbedTLS/library/bignum.c:2778-2805 | a round accepts if and only if the number is a strong probable prime to the base |
| `Primes.TopLimbMask` | mbedTLS/library/bignum.c:2759-2763 | the shift in the mask is by a defined amount if and only if the top limb of the candidate is not zero |
| `Primes.MaskUndefined` | mbedTLS/library/bignum.c:2759-2763 | the candidate with limbs 5 and 0, and a draw that reaches the undefined shift |
| `Primes.NormalisedDraws` | mbedTLS/library/bignum.c:2757-2763 | no draw reaches it if the candidate has no leading zero limb |
| `Primes.Draw` | mbedTLS/library/bignum.c:2757-2763 | a draw is cut to one bit less than the bound when it is too long |
| `Primes.DrawnBelow` | mbedTLS/library/bignum.c:2759-2763 | a draw that is cut ends below the bound, and every number of the shorter length is still possible |
| `Primes.PickWitness` | mbedTLS/library/bignum.c:2755-2771 | the witness lies strictly between 1 and X - 1 and is the first usable draw; giving up means 31 useless draws and one that is not looked at |
| `Primes.MillerRabin` | mbedTLS/library/bignum.c:2727-2814 | for draws that keep the mask defined: success if and only if the first usable draws, one for each round and never after 31 useless ones in a row, all support the number; a number too long for exp_mod fails in the first round; a prime is refused only if the source runs dry |
| `Primes.CertainlyPrime` | mbedTLS/library/bignum.c:2708-2711 | the early exit of trial division accepts primes only |
| `Primes.CheckSmallFactors` | mbedTLS/library/bignum.c:2698-2722 | each of the three outcomes is right: prime up to 997, composite with a small factor, or above 997 without one |
| `Primes.IsPrimeExt` | mbedTLS/library/bignum.c:2819-2850 | exact up to 997; above, a number with a factor up to 997 is refused and the witness loop decides about all others; a prime is refused only for lack of usable random numbers |
| `MpiBytes.LimbsToHost` | mbedTLS/library/bignum.c:769-796 | reverses the limbs and the bytes of each, in place, for odd and even lengths |
| `MpiBytes.ReadBinary` | mbedTLS/library/bignum.c:828-858 | the number of the big-endian bytes, in exactly the limbs they need |
| `MpiBytes.WriteBinary` | mbedTLS/library/bignum.c:899-938 | refused exactly if the number does not fit, leaving the buffer alone; else the whole buffer reads back as the number |
| `MpiBytes.FromBEInjective` | mbedTLS/library/bignum.c:828-938 | byte strings of one length are determined by their value, so writing is determined by reading |
| `MpiText.ReadHex` | mbedTLS/library/bignum.c:454-467 | or-ing digits into the limbs from the last one on gives the value of the digits |
| `MpiText.ReadString` | mbedTLS/library/bignum.c:426-487 | the parsed integer, with both errors, in every radix; no negative zero |
| `MpiText.DigitCharacters` | mbedTLS/library/bignum.c:400-421 | the accepted characters, upper and lower case, and the value of each; every other one is refused in every radix |
| `MpiText.WriteHlp` | mbedTLS/library/bignum.c:492-525 | the digits without leading zeros, produced from the back and moved to the front, or a refusal if they do not fit |
| `MpiText.DigitCharIs` | mbedTLS/library/bignum.c:510-514 | the writer's characters are the digits and the upper-case letters in order |
| `MpiText.DigitsUnique` | mbedTLS/library/bignum.c:492-525 | no other upper-case text without a superfluous zero has that value |
| `MpiText.WriteHex` | mbedTLS/library/bignum.c:577-593 | the hexadecimal digits, byte by byte, with the leading zero bytes skipped |
| `MpiText.HexUnique` | mbedTLS/library/bignum.c:577-593 | no other upper-case hexadecimal text of that length has that value |
| `MpiText.EstimateEnough` | mbedTLS/library/bignum.c:545-562 | the estimate covers sign, digits, the even number of hexadecimal digits and the terminator in every radix |
| `MpiText.WriteString` | mbedTLS/library/bignum.c:530-612 | refused exactly below the estimate, which is reported; else a terminated text that parses to the integer |
| `MpiText.TextRoundTrip` | mbedTLS/library/bignum.c:426-612 | parsing the text of an integer gives the integer back in every radix from 2 to 16 |
| `MpiConstTime.UintLt` | mbedTLS/library/constant_time.c:218-244 | the bit formula on the top bits is the comparison of two limbs, for all operands |
| `MpiConstTime.LtMpiCt` | mbedTLS/library/constant_time.c:577-639 | walking over all limbs decides the signed comparison; refused exactly for buffers of different size |
| `MpiConstTime.SafeCondSwap` | mbedTLS/library/constant_time.c:538-572 | signs and magnitudes are exchanged if and only if the flag is set |
| `Dh.DhExponent` | src-7020-7020final/crypto_hw_driver.c:140-163 | with 256-byte numbers exp_mod accepts exactly the odd moduli, and then gives the reduced power |
| `Dh.DhModExp` | src-7020-7020final/crypto_hw_driver.c:140-163 | the modular power from bytes to bytes |
| `Dh.DhPowerValue` | src-7020-7020final/crypto_hw_driver.c:140-163 | the bytes have the value of the reduced power for an odd modulus, and are zero for an even one |
| `Dh.Commutes` | src-7020-7020final/ike_engine.c:192-199 | both sides compute one secret from each other's public value, for every odd modulus, base and pair of exponents |
| `Dh.Dh14Ends` | src-7020-7020final/ike_engine.c:21-44 | the prime has 2048 bits, of which the first and the last 64 are ones, and the generator is 2 |
| `Ike.PacketParses` | src-7020-7020final/ike_engine.c:73-85 | a built packet reads back as its type, cookies and payload |
| `Ike.PacketBytes` | src-7020-7020final/ike_engine.c:73-81 | type, zero byte, the length with its high byte first, and the cookies, each at its place |
| `Ike.AuthTexts` | src-7020-7020final/ike_engine.c:204-222 | the two texts that the AUTH messages carry, filled up with zeros |
| `Ike.OpenSeal` | src-7020-7020final/ike_engine.c:254-317 | opening undoes sealing under the same keys, for every message and IV |
| `Ike.SealParts` | src-7020-7020final/ike_engine.c:254-277 | IV, blocks that decrypt to the text and 1 to 16 bytes of padding, and the HMAC of everything before it |
| `Ike.OpenedIsTagged` | src-7020-7020final/ike_engine.c:279-300 | what is opened carries the HMAC of all bytes before it, so texts with one tag are the same unless the HMAC collides |
| `Ike.RunSchedule` | src-7020-7020final/ike_engine.c:127-151 | the buffer juggling computes K_1, K_2 and K_3 of the chain of section 5 of RFC 2409 over the secret, the cookies and a counter, under the HMAC of the nonces |
| `Ike.KeysBind` | src-7020-7020final/ike_engine.c:127-151 | unless the HMAC collides, one common key and a common SKEYID force the same Diffie-Hellman secret and cookies, and a common SKEYID the same nonces |
| `Ike.IkeContext.DeriveKeys` | src-7020-7020final/ike_engine.c:127-156 | the fields become K_1, K_2, K_3 of the chain, the encryption key 16 bytes of K_3 and the authentication key K_2, and nothing else changes |
| `Ike.IkeContext.EncryptData` | src-7020-7020final/ike_engine.c:254-277 | refused exactly above 1039 bytes, else IV, ciphertext of the padded text and MAC |
| `Ike.IkeContext.DecryptData` | src-7020-7020final/ike_engine.c:279-317 | accepts exactly what carries the right MAC, and strips a padding only if all its bytes agree |
| `Ike.IkeContext.ProcessMessage` | src-7020-7020final/ike_engine.c:158-252 | the whole new state, the return code and the answer, for every message type, role and state, also for packets longer than their length field |
| `IkeRuns.ResponderStep` | src-7020-7020final/ike_engine.c:158-252 | a responder that processes any packet it may see stays consistent with the session, and answers only with packets that the initiator may see |
| `IkeRuns.InitiatorStep` | src-7020-7020final/ike_engine.c:158-252 | the same for the initiator |
| `IkeRuns.StepOk` | src-7020-7020final/ike_engine.c:158-252 | every event of the two-party world keeps the invariant, and facts once established stay |
| `IkeRuns.KeysAgree` | src-7020-7020final/ike_engine.c:127-156 | at every point of every run, sides that have derived keys hold equal ones |
| `IkeRuns.EstablishedMeansAgreed` | src-7020-7020final/ike_engine.c:215-232 | a side is established only if both have derived keys and hold the same |
| `IkeRuns.DataIsAuthentic` | src-7020-7020final/ike_engine.c:233-247 | whatever an established side decrypts from the network was sent by one of the two |
| `IkeRuns.EstablishedIsLost` | src-7020-7020final/ike_engine.c:114-214 | at every step of every run, an established initiator is lost exactly by a new start or a complete key exchange message, an established responder exactly by a proposal; starting and proposals leave the keys |
| `IkeRuns.ReplaySetsBack` | src-7020-7020final/ike_engine.c:169-182 | from every start there is a run of eight events that establishes both sides and then, with a replayed proposal, leaves the responder behind an initiator that stays established |
| `IkeRuns.HandshakeCompletes` | src-7020-7020final/ike_engine.c:114-252 | from every start there is a run of seven events that establishes both sides |
| `Cbc.EncryptedBlock` | mbedTLS/library/aes.c:1136-1151 | every block is the encrypted sum of the plain block there and the encrypted block before, or the IV |
| `Cbc.DecryptedBlock` | mbedTLS/library/aes.c:1118-1135 | every block is the decrypted one there summed with the encrypted block before, or the IV |
| `Cbc.RoundTrip` | mbedTLS/library/aes.c:1084-1157 | decryption undoes encryption over any block permutation |
| `Cbc.EncryptConcat` | mbedTLS/library/aes.c:1084-1157 | encrypting in two parts with the chaining value carried over is encrypting at once |
| `Cbc.CryptCbc` | mbedTLS/library/aes.c:1084-1157 | output and chaining value for both directions, in place or not; refused exactly for partial blocks |
| `Padding.AddPadding` | mbedTLS/library/cipher.c:715-855 | each scheme's filling behind the data, which stays |
| `Padding.FillingBytes` | mbedTLS/library/cipher.c:715-855 | every byte of each filling, as a number |
| `Padding.GetPadding` | mbedTLS/library/cipher.c:726-895 | the branch-free readers, with their masks and a pad index that may wrap, accept exactly the well-formed paddings and find the data length |
| `Padding.PaddingRecognised` | mbedTLS/library/cipher.c:715-876 | reading finds the length that was padded, for zero padding exactly if the data are empty or end in a nonzero byte |
| `Padding.OnlyPadded` | mbedTLS/library/cipher.c:726-876 | nothing else is recognised: behind the data stands what would have been added |
| `Padding.ZeroByteLost` | mbedTLS/library/cipher.c:847-876 | the concrete failure: the byte 0 with zero padding reads back as no data |
| `Cipher.HeldUnique` | mbedTLS/library/cipher.c:554-613 | the number of waiting bytes is determined by the number of bytes fed |
| `Cipher.CipherContext.Update` | mbedTLS/library/cipher.c:545-629 | feeding a chunk extends the fed and the emitted bytes consistently, refused exactly in place with waiting bytes or a partial block |
| `Cipher.CipherContext.Finish` | mbedTLS/library/cipher.c:898-993 | all output together is that of one pass over the padded message, or its error |
| `Cipher.CryptInChunks` | mbedTLS/library/cipher.c:485-993 | the result does not depend on how the message is cut up |
| `Cipher.WholeMeaning` | mbedTLS/library/cipher.c:715-993 | encrypting is CBC over the message and its filling; what decryption returns is the CBC plaintext without a filling |
| `Cipher.WholeRoundTrip` | mbedTLS/library/cipher.c:715-993 | decrypting an encrypted message gives it back if and only if it is recoverable under the padding scheme |
| `Cmac.ShiftStep` | mbedTLS/library/cmac.c:54-94 | one byte of the shift loop doubles the number, carry included |
| `Cmac.MultiplyByU` | mbedTLS/library/cmac.c:54-94 | the byte loop and the mask are doubling in GF(2^64) or GF(2^128) |
| `Cmac.DoubleIsTimesU` | mbedTLS/library/cmac.c:54-94 | the doubling, coefficient by coefficient, is multiplication by u modulo u^64 + u^4 + u^3 + u + 1 or u^128 + u^7 + u^2 + u + 1 |
| `Cmac.SubkeysExist` | mbedTLS/library/cmac.c:101-132 | the subkeys of the code are u times and u^2 times the encrypted zero block |
| `Cmac.GenerateSubkeys` | mbedTLS/library/cmac.c:101-132 | the subkeys are one and two doublings of the encrypted zero block |
| `Cmac.CmacContext.Update` | mbedTLS/library/cmac.c:213-277 | any chunk keeps the buffered state that of the concatenated message, with a nonempty block held back |
| `Cmac.CmacContext.Finish` | mbedTLS/library/cmac.c:279-335 | the tag is the CBC-MAC of the whole message with its last block summed with the first subkey, or completed by a one bit and summed with the second (section 2.4 of RFC 4493); the context starts over |
| `Cmac.MacInChunks` | mbedTLS/library/cmac.c:213-335 | the same for a message in any pieces: the tag depends on the concatenation only |
| `Xts.MulXIsTimesX` | mbedTLS/library/aes.c:1172-1185 | the arithmetic on two 64-bit words, coefficient by coefficient over the bytes, is multiplication by x modulo x^128 + x^7 + x^2 + x + 1 |
| `Xts.TweakIsPower` | mbedTLS/library/aes.c:1254-1255 | the tweak k blocks on is x^k times the first one |
| `Xts.XtsInverse` | mbedTLS/library/aes.c:1190-1299 | decryption undoes encryption for every length of at least one block, partial last blocks included |
| `Xts.Steal` | mbedTLS/library/aes.c:1261-1296 | the byte exchange and the last encryption are ciphertext stealing |
| `Xts.CryptXts` | mbedTLS/library/aes.c:1190-1299 | accepted exactly from 1 to 2^20 blocks, in place for whole blocks; every whole block is crypted between two sums with its power of x times the encrypted data unit number, and the last two pieces steal ciphertext under their two powers, swapped for decryption |
| `Ccm.CountersDistinct` | mbedTLS/library/ccm.c:145-180 | a length that fits its field leaves the data counters pairwise different, different from the tag counter and without overflow |
| `Ccm.IncCounter` | mbedTLS/library/ccm.c:271-276 | the byte-wise carry loop advances the counter field by one |
| `Ccm.CtrTwice` | mbedTLS/library/ccm.c:118-126 | masking twice with one key stream gives the data back |
| `Ccm.CryptAndMac` | mbedTLS/library/ccm.c:249-276 | the interleaved loop yields the counter-mode output and the CBC-MAC of the plain data in both directions, in place or not |
| `Ccm.AuthCrypt` | mbedTLS/library/ccm.c:133-302 | accepted exactly for admissible nonce, tag, header and data lengths; every output byte is masked with its place in the key stream, and the tag is the CBC-MAC of the formatted input of NIST SP 800-38C, byte by byte, masked with counter block 0 |
| `Ccm.FormattedIs` | mbedTLS/library/ccm.c:170-247 | flags as a number, nonce, length and padded data determine the formatted input, and it is what the code authenticates |
| `Ccm.FormattedExists` | mbedTLS/library/ccm.c:170-247 | for admissible parameters there is one |
| `Ccm.CounterExists` | mbedTLS/library/ccm.c:244-247 | the counter block of every number that fits is the one of section A.3 of NIST SP 800-38C |
| `Ccm.CtMemcmp` | mbedTLS/library/constant_time.c:37-55 | zero exactly for equal strings |
| `Ccm.AuthDecrypt` | mbedTLS/library/ccm.c:346-399 | accepts exactly the right tag; a wrong one leaves zeros in the output |
| `Ccm.DecryptInverts` | mbedTLS/library/ccm.c:323-399 | what encryption put out decrypts to the message and to the tag of the message |
| `Ccm.SealAndOpen` | mbedTLS/library/ccm.c:323-399 | encrypting and then decrypting with the tag as put out succeeds exactly for admissible lengths and gives the message back, on any buffers, in place too |
| `Gf256.Power3Order` | mbedTLS/library/aes.c:389-396 | no power of 3 below the 255th is 1 |
| `Gf256.LogExists` | mbedTLS/library/aes.c:389-396 | 3 generates all nonzero bytes, so the logarithm table is complete |
| `AesTables.InverseByLog` | mbedTLS/library/aes.c:412-413 | the entry at 255 minus the logarithm is the field inverse |
| `AesTables.AffineBits` | mbedTLS/library/aes.c:415-419 | the rotations and sums are the affine map of section 5.1.1 of FIPS 197, bit by bit |
| `AesTables.GenTables` | mbedTLS/library/aes.c:383-459 | the boxes are the S-box of section 5.1.1 of FIPS 197 and its inverse, and the wide tables the columns of both mixing matrices |
| `Aes.MixByTables` | mbedTLS/library/aes.c:829-855 | four table lookups are one column of the mixing matrix |
| `Aes.InvMixMix` | mbedTLS/library/aes.c:444-456 | the inverse mixing matrix undoes the mixing matrix on every column |
| `Aes.InvRoundsBack` | mbedTLS/library/aes.c:952-1007 | the inverse rounds run through the states of the rounds backwards |
| `Aes.InverseCipherCorrect` | mbedTLS/library/aes.c:881-1007 | the equivalent inverse cipher of section 5.3.5 of FIPS 197 undoes the cipher for every inverted schedule |
| `AesBlock.InternalEncrypt` | mbedTLS/library/aes.c:881-936 | the table-driven rounds compute the cipher of the schedule |
| `AesBlock.InternalDecrypt` | mbedTLS/library/aes.c:952-1007 | the same for the inverse cipher |
| `AesStandard.EncryptIsStandard` | mbedTLS/library/aes.c:881-936 | encryption under the schedule of a key is the cipher of section 5.1 of FIPS 197 on bytes: substitution, shifted rows, the matrix 2, 3, 1, 1 and the expanded key |
| `AesStandard.EncryptWithKey` | mbedTLS/library/aes.c:589-936 | key setup and encryption of a block, from bytes to bytes |
| `AesStandard.DecryptWithKey` | mbedTLS/library/aes.c:691-1007 | key setup and decryption give back whatever block encrypts to the input |
| `Fips197.SboxExample` | mbedTLS/library/aes.c:409-423 | the example of section 5.1.1 of FIPS 197 |
| `Fips197.ProductExamples` | mbedTLS/library/aes.c:392-396 | the examples of section 4.2 of FIPS 197 |
| `AesKeys.SetKeyEnc` | mbedTLS/library/aes.c:589-684 | exactly the three key sizes are accepted; the first words hold the key bytes in order, and the others follow by the expansion |
| `AesStandard.ScheduleBytes` | mbedTLS/library/aes.c:620-684 | every byte of the schedule is the one that section 5.2 of FIPS 197 derives from the key, round constants and the extra substitution of 256-bit keys included |
| `AesKeys.InvMixWord` | mbedTLS/library/aes.c:728-735 | the reverse tables behind the S-box are the inverse mixing matrix |
| `AesKeys.SetKeyDec` | mbedTLS/library/aes.c:691-746 | the schedule is the encryption schedule reversed, with the inner keys passed through the inverse mixing |
| `AesKeys.DecryptUndoesEncrypt` | mbedTLS/library/aes.c:881-1007 | for every key of the three sizes and every block decryption undoes encryption |
| `AesKeys.AesIsSound` | mbedTLS/library/aes.c:881-1007 | AES is a block permutation, so the results on CBC, XTS, CMAC and CCM hold for it |
| `ConstantTime.Mask` | mbedTLS/library/constant_time.c:57-105 | the bit formula is all ones for a nonzero value and 0 for 0, in every width |
| `ConstantTime.SizeMaskLtCorrect` | mbedTLS/library/constant_time.c:124-143 | the masks are the comparison if and only if the operands are at most half the range apart with the smaller first, or less than that otherwise |
| `ConstantTime.SizeMaskLtWrong` | mbedTLS/library/constant_time.c:124-137 | the concrete failure: half the range counts as less than 0 |
| `ConstantTime.SizeMaskOfBytes` | mbedTLS/library/constant_time.c:124-143 | on bytes the masks are always the comparison |
| `ConstantTime.MaskOfRangeCorrect` | mbedTLS/library/constant_time.c:154-164 | all ones exactly for a byte in the range |
| `ConstantTime.SizeBoolEq` | mbedTLS/library/constant_time.c:168-192 | the bit formula is 1 exactly for equal words, in both widths |
| `ConstantTime.UintIf` | mbedTLS/library/constant_time.c:248-254 | the bit formula is the conditional |
| `Base64.DigitRoundTrip` | mbedTLS/library/constant_time.c:288-317 | reading a written digit gives its value, and no digit is padding or white space |
| `Base64.CharRoundTrip` | mbedTLS/library/constant_time.c:288-317 | every character that reads as a digit is the one written for its value |
| `Base64.DigitsAreBits` | mbedTLS/library/base64.c:51-66 | four digits are the 24 bits of three bytes, the first ones first |
| `Base64.TextExamples` | mbedTLS/library/base64.c:27-89 | the texts of "Man", "Ma" and "M" |
| `Base64.PackedBytes` | mbedTLS/library/base64.c:174-191 | the 24 low bits of the accumulator are the three bytes, whatever was in it before |
| `Base64.ScanShape` | mbedTLS/library/base64.c:104-156 | input that passes the first scan is digits and at most two paddings at the end, and the counts are right |
| `Base64.LinesAccepted` | mbedTLS/library/base64.c:104-156 | line breaks between digits do not keep the scan from accepting |
| `Base64.AcceptedIff` | mbedTLS/library/base64.c:104-150 | the scan accepts if and only if spaces stand before a line end or the end only, carriage returns before line feeds only, and the rest is digits and then at most two paddings |
| `Base64.OutputFits` | mbedTLS/library/base64.c:162-191 | the second pass writes no more bytes than the first one computed |
| `Base64.Encode` | mbedTLS/library/base64.c:27-89 | text and terminator, or the size needed |
| `Base64.Decode` | mbedTLS/library/base64.c:94-197 | which inputs are refused with which code, by layout and shape of the text, a missing destination included; the decoded bytes, and an untouched buffer on refusal |
| `Base64.DecodeUndoesEncode` | mbedTLS/library/base64.c:27-197 | decoding undoes encoding for every byte string, with line breaks inserted anywhere |
| `Base64.PlainRoundTrip` | mbedTLS/library/base64.c:27-197 | the encoder's own text is accepted and decodes to the bytes |
| `Der.TagNumbers` | mbedTLS/library/asn1write.c:111-380 | the first byte of each encoding is the tag of section 8 of X.690 |
| `Der.LengthFieldIs` | mbedTLS/library/asn1write.c:19-81 | the short form, or the number of bytes with the top bit set and the length in as few big-endian bytes as possible |
| `Der.LengthAccepted` | mbedTLS/library/asn1parse.c:27-87 | exactly the short forms and the long forms of one to four bytes are accepted, if what they announce is there |
| `Der.LengthRoundTrip` | mbedTLS/library/asn1write.c:19-81 | a written length is read back, whatever follows |
| `Der.LengthMinimal` | mbedTLS/library/asn1parse.c:27-87 | no accepted length field is shorter than the written one (section 10.1 of X.690) |
| `Der.IntContentValue` | mbedTLS/library/asn1write.c:232-258 | the content has the value, a clear top bit and no superfluous zero byte |
| `Der.IntRoundTrip` | mbedTLS/library/asn1write.c:232-258 | an int is read back with all bytes consumed if and only if it is not negative |
| `Der.MpiRoundTrip` | mbedTLS/library/asn1write.c:111-152 | the magnitude is read back, so the number if and only if it is not negative |
| `Der.NegativeOneLost` | mbedTLS/library/asn1write.c:111-258 | the concrete failure: -1 reads back as 1 from an MPI and as 255 from an int |
| `Der.MinBytesShortest` | mbedTLS/library/asn1write.c:111-130 | no byte string of the value is shorter than the written magnitude |
| `Der.BitContentIs` | mbedTLS/library/asn1write.c:349-380 | the number of unused bits in front, and the last byte with these cleared |
| `Der.BitsRoundTrip` | mbedTLS/library/asn1write.c:349-380 | number of bits and every bit come back |
| `Der.TrimmedIs` | mbedTLS/library/asn1write.c:305-347 | a named bit string loses exactly its trailing zero bits (section 11.2.2 of X.690) |
| `Der.AlgRoundTrip` | mbedTLS/library/asn1write.c:189-212 | object identifier and parameters come back, with all bytes consumed, with and without parameters, whenever the encoding exists |
| `DerWrite.WriteLen` | mbedTLS/library/asn1write.c:19-81 | the shortest length field in front of p, nothing else changed, refused exactly for lack of room or a length of 2^32 and more |
| `DerWrite.WriteTaggedInt` | mbedTLS/library/asn1write.c:232-258 | the encoding in front of p and its length, or a refusal exactly for lack of room |
| `DerWrite.WriteMpi` | mbedTLS/library/asn1write.c:111-152 | the same for an MPI of any size, refused for lack of room or a content of 2^32 bytes and more |
| `DerWrite.WriteBitstring` | mbedTLS/library/asn1write.c:349-380 | the same for a bit string of any length with its unused bits cleared |
| `DerWrite.WriteNamedBitstring` | mbedTLS/library/asn1write.c:305-347 | the trimming loop finds the last set bit, and the encoding is that of the trimmed string |
| `DerWrite.WriteAlg` | mbedTLS/library/asn1write.c:189-212 | parameters that already stand behind p are enclosed, or NULL is written for empty ones; which refusal, and the bytes |
| `DerParse.GetLen` | mbedTLS/library/asn1parse.c:27-87 | length, size and every error of the length field, never past the end |
| `DerParse.GetTaggedInt` | mbedTLS/library/asn1parse.c:127-172 | leading zeros are skipped, the value is exact, and everything beyond a nonnegative int is refused |
| `DerParse.GetMpi` | mbedTLS/library/asn1parse.c:189-205 | the MPI holds the content as a big-endian number |
| `DerParse.GetBitstring` | mbedTLS/library/asn1parse.c:208-240 | bits and unused count, with all errors, ending exactly at the end |
| `DerParse.GetAlg` | mbedTLS/library/asn1parse.c:378-424 | object identifier and optional parameters with all errors |
| `DerSequence.TraverseSequenceOf` | mbedTLS/library/asn1parse.c:246-292 | with which elements the callback is called and how the traversal ends, for every input and every callback, one that stops it included |
| `DerSequence.SequenceRoundTrip` | mbedTLS/library/asn1parse.c:246-292 | on a written sequence the callback gets exactly the elements that the mask lets through, in order, up to the first it rejects, and its code is the result |

## Left out

Limits of the model:

- Memory allocation failure, the ceiling of 10000 limbs and the ceiling on hexadecimal text length are not modelled; every allocation succeeds.
- Zeroising of freed memory and everything about timing and side channels: masks and selections are proved to compute what plain conditionals compute, nothing more.
- `MpiExp.ExpMod`: table entries start as empty numbers and are written before they are read; the source zeroes the table. The failure of a cached helper value that belongs to another modulus is a precondition.
- The assembly variants of the multiply-accumulate macro and the unrolling of the loop around it: `Kernels.MulHlp` is a loop of single steps.
- `IntDiv.IntDivInt`: the fallback without a double-width type only; with one the compiler divides.
- `Primes.MillerRabin`: draws that make the source shift by a negative amount, which has no meaning in C, are excluded (`Primes.TopLimbMask`).
- `Primes.IsPrimeExt`: the same above 997, where it goes on to the witness loop.
- Random numbers are parameters: a sequence of limb vectors for the primality test, IV, cookie, nonce and private value for IKE. Failing generators are not modelled.
- `MpiText.WriteString`: the caller's pointer arithmetic with `buflen` is kept as positions in one buffer.
- `DerWrite.WriteMpi`: the bytes are first written to a buffer of their own and then copied, where the source lets mbedtls_mpi_write_binary write in place.
- `DerWrite.WriteAlg`: object identifiers of up to 2^31 - 1 bytes, since the source passes their size on as an int.
- The DER writers report sizes without a bound; from 2^31 on the int that the source returns would be negative.
- `Der.AlgRoundTrip` and `DerSequence.SequenceRoundTrip`: contents below 2^32 bytes, the limit of the length field; longer ones have no encoding.
- `DerWrite.WriteLen` and `DerParse.GetLen`: the source has one branch for each number of length bytes; the model has a loop over that number.
- `DerSequence.TraverseSequenceOf`: the callback's context is the list of elements it was called with, and a missing callback is one that always returns 0.
- `Cipher.CipherContext.Update`: the bytes that will wait are saved after the whole blocks have been processed, the source saves them before; the blocks written do not overlap them.
- `Cipher.CryptInChunks`: CBC only. ECB, CFB, OFB, CTR, GCM, XTS and stream modes of the wrapper, tags and the PSA branches are left out.
- `Xts.CryptXts`: with bytes left over the buffers must be separate, as the source assumes when it copies bytes forward; splitting the XTS key and the two key schedules are left out.
- `AesBlock.InternalEncrypt` and `AesBlock.InternalDecrypt`: words are records of four bytes, lookups and sums are the source's. AES-NI, Padlock and the variants with fewer or fixed tables are left out.
- `Ike.IkeContext.ProcessMessage`: a length field that says more than was received, and decrypted data larger than the local buffers (64 bytes for AUTH, 1024 for DATA), are excluded; the source checks neither.
- HMAC-SHA1 is an uninterpreted function with digests of 20 bytes, and the hardware AES an uninterpreted CBC engine that keeps lengths, chains its IV and decrypts what it encrypted. The AES core of the board is not part of this model.
- `IkeRuns.KeysAgree`: the network may drop, duplicate and reorder packets but does not forge them or reflect them to their sender; both sides hold one pre-shared key.
- IP addresses and the zero IV stored with the association are not fields of the model; nothing reads them.

Not modelled, because it repeats the shapes above or has no interesting property:

- Reading and writing MPIs from files and in little-endian order, `mbedtls_mpi_random`, `mbedtls_mpi_gen_prime`, setting single bits.
- `mbedtls_ct_mem_move_to_left`, `mbedtls_ct_hmac` and the unpadding of PKCS #1.
- The remaining DER types (booleans, strings, enumerations, linked lists of named data).
- Camellia, ARIA, Blowfish, ARC4, ChaCha20, GCM, the drivers' registers, the network code, and the near copy of the engine for the PC.

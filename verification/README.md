# Mbed TLS: the integer engine and the stateful modes, verified

Dafny models of the C code of Mbed TLS that computes: the multi-precision integer
engine (limb arrays overwritten in place by loops with carries and borrows, the
signed numbers built on them, and the algorithms on top: Montgomery multiplication,
windowed exponentiation, constant-iteration GCD and modular inverse, Knuth division,
Fermat inversion), the modes and ciphers whose code carries state (XTS, the buffering
CBC stream, CCM, CTR, ARIA), and Base64. Each C function that changes memory is a
method on arrays or on a class with the same fields, proved against a mathematical
function of its inputs; the lemmas prove what those functions promise.

## How the model is laid out

- `Arith`, `NumberTheory`, `Fermat`: powers, congruences, gcd, Bezout, bit length,
  the binomial theorem and Fermat's little theorem.
- `Limbs`, `Words`, `BnMul`: limbs below `BASE` (2^32 or 2^64, left open, so every
  result holds for both), the wrapping operations, and the multiply-add step. `Val`
  is the number a run of limbs stands for and `Scale(n)` is `BASE^n`.
- `BignumCore`, `Shifts`, `BitLength`, `GcdSteps`, `GcdModinv`, `Montgomery`,
  `MontForm`, `ExpMod`: `library/bignum_core.c`. A C pointer is an array and an
  offset; `OnlyWrites` says that nothing outside the destination changed.
  `Rep(x, v, n, m)` says that x is the Montgomery form of v.
- `ModRaw`: `library/bignum_mod_raw.c`.
- `Mpi` (module `Mpis`), `MpiArith`, `IntDiv`, `Division`, `MpiMod`, `MpiGcd`,
  `MpiInverse`, `MpiExpMod`, `MpiStrings`: `library/bignum.c`. An `Mpi` object has a
  sign and a limb array that is replaced when it grows; `V()` is its value.
- `Bytes`, `Xts`, `Cbc` (module `CbcMode`), `Padding`, `CbcStream`, `CcmSpec`, `Ccm`,
  `AesCtr`: the modes, over an arbitrary block permutation and its inverse.
- `AriaTables`, `AriaDiffusion`, `Aria`, `AriaKeys`: ARIA, with its real tables; `AriaLaws`: what its key schedule and
  rounds have to satisfy.
- `Base64`: the encoder, the two-pass decoder and the two digit maps.

## Where the code and its documentation differ

The model follows the code; each difference has its exact condition as a lemma.

- `mbedtls_mpi_mod_int` moves the residue up by half a limb and drops what exceeds a
  limb. The header promises `A mod b` for every positive `b`. The result is right for
  every A if and only if `b <= 2^biH` or b divides `2^biL` (`MpiMod.ModLoopCorrectIff`,
  with `MpiMod.LostCarry` as the failing input).
- `mbedtls_mpi_exp_mod`: the result is `A^E mod N` except in three cases
  (`MpiExpMod.ResultCorrectIff`): an exponent without limbs when N is 1 (the result is 1),
  a negative base with an odd exponent when N divides the power (the result is N,
  not 0), and a negative base with an odd exponent when the result overwrites the base
  and N does not divide the power (the sign is lost). `RightWithoutSign`, `RightForCoprimeIff` and
  `RightForMultipleIff` give conditions a caller can check, and `ModulusForZero`, `SignLost` and
  `OneModuloOne` an input for each case.
- `mbedtls_mpi_div_mpi` must not be given a quotient that aliases an operand, says the
  header; `mpi_write_hlp` does it. The model says what then happens, and
  `Division.OverwritingIsRightIff` and `Division.RemainderIsRightIff` say when that is right
  (`Division.OverwrittenDividend` is an input for which it is not).
- `mbedtls_mpi_mod_mpi` may be given the modulus as its result; the header does not forbid it. For a positive
  modulus the residue is left if and only if the two are separate objects (`MpiMod.ResidueIffSeparate`). Otherwise
  a negative remainder is doubled until the addition needs more than `MBEDTLS_MPI_MAX_LIMBS` limbs and fails with
  the allocation error, and any other remainder keeps the last loop comparing the object with itself for ever
  (`MpiMod.NegativeIntoModulus` and `MpiMod.PositiveIntoModulus` are inputs for the two).
- `aria_rot128` says it rotates left by n bits. It does so for every block if and only if n is not a multiple of 32
  (`AriaKeys.RotatesIff`, with `AriaKeys.CombinesWords` as the failing input); the key schedule uses no such n.
- The CCM header asks for all associated data before the message. The code takes message data early, and refuses
  to finish exactly as long as announced associated data is missing (`Ccm.CcmContext.Update`, `Ccm.CcmContext.Finish`).
- The header wants zero to be held with the sign +1, set by every function. `mbedtls_mpi_shift_r` does not do so for a
  negative number of which nothing remains (`Mpis.MpiShiftR` states when it does, `Mpis.MinusZero` is an input); of the
  others modelled here, those that write a number keep it, given operands that do (the predicate `Normal`).
- `mbedtls_aes_crypt_xts` in place overwrites a partial block before reading it, so the result does not
  depend on that block (`Xts.InPlaceRightIff`, `Xts.InPlaceRightForLengthIff`). The header does not forbid it.
- Zero padding cannot be undone when the message ends in a zero octet inside an
  incomplete block (`CbcStream.ZerosRoundTripIff`).
- CCM counters repeat once the data has more than `2^(8q)` blocks
  (`CcmSpec.CountersDifferentIff`); the length limit excludes it
  (`CcmSpec.CountersFresh`).

## Model

| member | source | states |
|---|---|---|
| BnMul.MulAddDouble | library/bn_mul.h:1027-1041 | the double-width step leaves the two-limb number s*b + c + d exactly, no carry lost |
| BnMul.MulAddHalf | library/bn_mul.h:1046-1070 | four half-limb products with wrapping sums give the same exact two-limb number |
| BnMul.MulAdd | library/bn_mul.h:1026-1075 | whichever body is compiled in, the step is exact |
| Words.AddCarry | library/bignum_core.c:406-422 | the two wrap tests of a chained addition add up to its carry, which is at most 1 |
| Words.SubBorrow | library/bignum_core.c:445-460 | the two tests of a chained subtraction add up to its borrow, which is at most 1 |
| Words.OrDisjoint | library/bignum_core.c:331-404 | combining bit fields that do not overlap is addition |
| BignumCore.Add | library/bignum_core.c:406-422 | the limbs and the returned carry are the exact sum, operands possibly aliased, nothing else written |
| BignumCore.AddIf | library/bignum_core.c:424-443 | the masked addition is the sum or leaves X, with the exact carry |
| BignumCore.Sub | library/bignum_core.c:445-460 | the limbs less the returned borrow are the exact difference |
| BignumCore.SubInt | library/bignum_core.c:972-985 | subtracting one limb is exact, borrow included |
| BignumCore.Mla | library/bignum_core.c:462-498 | d + b*s for every pair of lengths: what does not fit is the returned carry |
| BignumCore.Mul | library/bignum_core.c:500-509 | X is the exact product of A and B for all lengths |
| BignumCore.MulStep | library/bignum_core.c:500-509 | the carry each row of the product discards is zero |
| BignumCore.CheckZero | library/bignum_core.c:987-998 | nonzero is reported exactly when the number is not zero |
| BignumCore.LtCt | library/bignum_core.c:133-167 | the branch-free comparison from the top limb down decides A < B |
| BignumCore.CondAssign | library/bignum_core.c:169-186 | X becomes A or stays, nothing else written |
| BignumCore.CondSwap | library/bignum_core.c:188-202 | the two limb runs, in one array or two, are exchanged or both stay |
| Shifts.ShiftR | library/bignum_core.c:331-369 | the result is the quotient by 2^count for every count, past the end included |
| Shifts.BitsDown | library/bignum_core.c:353-368 | the in-limb part of the shift, carried from the top limb down, divides by 2^v1 |
| Shifts.ShiftL | library/bignum_core.c:371-404 | the result is X*2^count modulo 2^(biL*limbs) |
| Shifts.BitsUp | library/bignum_core.c:393-403 | the in-limb part of the shift multiplies by 2^v1 and drops what leaves the top |
| BitLength.Clz | library/bignum_core.c:25-52 | the leading zeros complete the bit length of a limb to biL |
| BitLength.CoreBitlen | library/bignum_core.c:54-67 | the result is the bit length of the whole number |
| BitLength.LimbBit | library/bignum_core.c:918 | bit b of limb l is bit l*biL + b of the number |
| GcdSteps.PotentialDrops | library/bignum_core.c:1165-1235 | with u > 0 every iteration lowers a potential made of the bit lengths of min(u, v-u) and abs(v-2u) |
| GcdSteps.StepGcd | library/bignum_core.c:1165-1195 | an iteration keeps u <= v and keeps their gcd, which is odd |
| GcdSteps.StepsKeepGcd | library/bignum_core.c:1148-1235 | so does any number of iterations |
| GcdSteps.EnoughSteps | library/bignum_core.c:1155-1235 | as many iterations as A and N have bits together end with u = 0 and v = gcd(A, N), whatever the two lengths |
| GcdSteps.StepMirrors | library/bignum_core.c:1148-1235 | an iteration keeps v = A*q and u = A*r modulo N with q and r in [0, N) |
| GcdSteps.SubModCong | library/bignum_core.c:1027-1035 | the subtraction modulo N follows the subtraction of the numbers it mirrors |
| GcdSteps.HalfModCong | library/bignum_core.c:1042-1051 | the halving modulo an odd N follows the exact halving it mirrors |
| GcdModinv.SubModN | library/bignum_core.c:1027-1035 | X is A - B, plus N when that is negative |
| GcdModinv.Div2ModOdd | library/bignum_core.c:1042-1051 | X is half of X or of X + N, the carry of the addition moved into the top bit |
| GcdModinv.UpdateUV | library/bignum_core.c:1191-1195 | the candidates are stored in order and the swap decision is reported |
| GcdModinv.SelectUV | library/bignum_core.c:1166-1189 | the two conditional assignments pick which of u, v, v-u is kept and which is halved |
| GcdModinv.SelectQR | library/bignum_core.c:1216-1228 | the same choice is made for q and r modulo N |
| GcdModinv.UpdateQR | library/bignum_core.c:1230-1233 | q and r follow the swap of u and v |
| GcdModinv.Iterate | library/bignum_core.c:1165-1235 | one pass through the buffers is exactly one abstract step, and q, r keep mirroring u, v |
| GcdModinv.GcdModinvOdd | library/bignum_core.c:1092-1238 | G = gcd(A, N) and, if asked, G = A*I mod N with I in [0, N), for all limb counts; limbs of A beyond those of N are not read |
| Montgomery.SeedRight | library/bignum_core.c:514-525 | the seed is an inverse of N modulo 2^4 for every odd N |
| Montgomery.Newton | library/bignum_core.c:514-525 | a Newton pass doubles the number of correct bits despite wrapping |
| Montgomery.MontmulInit | library/bignum_core.c:514-525 | the result is -1/N modulo 2^biL for every odd N |
| Montgomery.FoldedStep | library/bignum_core.c:538-547 | one pass keeps the work value times the radix power equal to A*B + k*N with k and the digits of A bounded |
| Montgomery.FoldedBound | library/bignum_core.c:538-547 | hence the work area stays below B + N between passes |
| Montgomery.Pass | library/bignum_core.c:543-544 | both multiply-adds fit, so the carries that are ignored are zero |
| Montgomery.FinalChoice | library/bignum_core.c:559-580 | carry 1 with borrow 0 cannot occur, and the selection gives the value reduced below N |
| Montgomery.Montmul | library/bignum_core.c:527-581 | X < N and X*2^(biL*n) = A*B modulo N for all lengths and every permitted aliasing, X being A or N included |
| MontForm.RepUnique | library/bignum_core.c:527-581 | a number has one Montgomery form below the modulus |
| MontForm.SameLimbs | library/bignum_core.c:527-581 | two runs of limbs of the same length that hold forms of the same number are equal limb by limb |
| MontForm.RepMul | library/bignum_core.c:527-581 | multiplying Montgomery forms multiplies the numbers |
| MontForm.RepFrom | library/bignum_core.c:1011-1021 | multiplying by 1 recovers the number modulo N |
| ExpMod.TableFits | library/bignum_core.c:710-721 | table, selection and multiplication area fit in the limbs the sizing function reports, for every exponent position |
| ExpMod.PrecomputeWindow | library/bignum_core.c:723-748 | entry j of the table is the Montgomery form of A^j |
| ExpMod.FirstBit | library/bignum_core.c:762-802 | on both paths no bit of E lies at or above the start position |
| ExpMod.TableLookup | library/bignum_core.c:809-833 | on both paths the entry of the window is copied out and the table is intact |
| ExpMod.ExpLoop | library/bignum_core.c:892-933 | square-and-multiply with windows reaches A^E from the first bit to the last |
| ExpMod.PrefixNext | library/bignum_core.c:908-918 | reading the next bit doubles the exponent prefix and adds the bit |
| ExpMod.ExpModOptionallySafe | library/bignum_core.c:850-934 | X is the Montgomery form of A^E for every E, limb count and window, on the public and the secret path |
| ExpMod.CoreExpMod | library/bignum_core.c:936-952 | the secret-exponent entry point gives the Montgomery form of A^E |
| ExpMod.CoreExpModUnsafe | library/bignum_core.c:954-970 | the public-exponent entry point gives the same form |
| Fermat.FermatLittle | library/bignum_mod_raw.c:157-177 | a*a^(p-2) = 1 modulo a prime p that does not divide a |
| ModRaw.RawSub | library/bignum_mod_raw.c:95-103 | X = A - B modulo N |
| ModRaw.FixQuasiReduction | library/bignum_mod_raw.c:106-112 | a value below 2N is reduced modulo N |
| ModRaw.RawAdd | library/bignum_mod_raw.c:179-188 | X = A + B modulo N, the carry out of the top limb included |
| ModRaw.RawNeg | library/bignum_mod_raw.c:264-274 | X = -A modulo N, zero included |
| ModRaw.ToMontRep | library/bignum_mod_raw.c:231-246 | X becomes the Montgomery form of A |
| ModRaw.FromMontRep | library/bignum_mod_raw.c:248-262 | X becomes the number A is the Montgomery form of |
| ModRaw.InvPrime | library/bignum_mod_raw.c:157-177 | for an odd prime N and nonzero A, X is the Montgomery form of A^(N-2), which is the inverse of A |
| Mpis.SintParts | library/bignum.c:358-368 | sign and magnitude of a machine integer put it together again, the most negative one included |
| Mpis.Grow | library/bignum.c:209-234 | sign and value are kept and the new limbs are zero |
| Mpis.MpiCopy | library/bignum.c:307-344 | X takes the value of Y and keeps its own higher limbs cleared; zero keeps the sign +1 if both objects had it so |
| Mpis.LSet | library/bignum.c:377-390 | X takes the value of a machine integer; zero has the sign +1 |
| Mpis.Bitlen | library/bignum.c:478-481 | the result is the bit length of the magnitude |
| Mpis.MpiShiftL | library/bignum.c:866-883 | X is multiplied by 2^count and grows so that no bit is lost; zero keeps the sign +1 |
| Mpis.MpiShiftR | library/bignum.c:888-894 | the magnitude is divided by 2^count and the sign is kept; zero has the sign +1 if and only if X was not negative or something remains |
| Mpis.MinusZero | library/bignum.c:888-894 | -1 shifted right by one bit is a zero with the sign -1 |
| Mpis.CmpAbs | library/bignum.c:899-935 | the sign of the difference of the magnitudes, leading zero limbs ignored |
| Mpis.CmpMpi | library/bignum.c:940-984 | the sign of the difference of the values, negative zero equal to zero |
| Mpis.CmpInt | library/bignum.c:989-1000 | the sign of the difference to a machine integer |
| MpiArith.AddAbs | library/bignum.c:1005-1061 | X is the sum of the magnitudes, the result aliasing either operand |
| MpiArith.SubAbs | library/bignum.c:1066-1112 | X is the difference of the magnitudes, or the error when it is negative |
| MpiArith.AddSub | library/bignum.c:1117-1145 | the sign rules give A + B or A - B; a zero result has the sign +1 if A keeps to that |
| MpiArith.AddMpi | library/bignum.c:1150-1153 | X = A + B for all integers and aliasing; a zero result has the sign +1 if A keeps to that |
| MpiArith.SubMpi | library/bignum.c:1158-1161 | X = A - B for all integers and aliasing; a zero result has the sign +1 if A keeps to that |
| MpiArith.AddInt | library/bignum.c:1166-1177 | X = A + b; a zero result has the sign +1 if A keeps to that |
| MpiArith.MpiSubInt | library/bignum.c:1182-1193 | X = A - b; a zero result has the sign +1 if A keeps to that |
| MpiArith.MulMpi | library/bignum.c:1198-1253 | X = A*B for all integers and aliasing; a zero result has the sign +1 |
| MpiArith.MulInt | library/bignum.c:1258-1289 | X = A*b; a zero result has the sign +1 |
| IntDiv.HalfDigit | library/bignum.c:1357-1383 | the estimated half-limb digit, corrected at most until the remainder outgrows half a limb, is the exact quotient digit, all of it in one-limb arithmetic |
| IntDiv.GuardIs | library/bignum.c:1363 | the products and the sum of the loop test do not wrap when they are reached |
| IntDiv.DivHalf | library/bignum.c:1334-1391 | the half-limb division gives floor((u1*2^biL + u0)/d) and the remainder |
| IntDiv.DivDouble | library/bignum.c:1321-1333 | the double-width division gives the same two numbers |
| IntDiv.IntDivInt | library/bignum.c:1295-1393 | both compiled paths agree, and out of range operands give all ones |
| Division.TruncatedDivision | library/bignum.c:1398-1516 | A = Q*B + R with abs(R) < abs(B) and R zero or signed like A holds of exactly one pair, the one computed |
| Division.AtMostOneOver | library/bignum.c:1460-1480 | a digit that passes the three-by-two-limb test is at most one too large |
| Division.TrialDigit | library/bignum.c:1461-1480 | the corrected trial digit is the true digit or one more |
| Division.DigitStep | library/bignum.c:1460-1492 | with at most one add-back the digit is exact and the remainder is below the shifted divisor |
| Division.DivLoop | library/bignum.c:1460-1492 | the loop turns the dividend into quotient and remainder without loss |
| Division.Normalise | library/bignum.c:1441-1451 | both operands are scaled by the same power of two, so that the divisor's top limb is at least half full or nearly |
| Division.DivMagnitudes | library/bignum.c:1433-1500 | quotient and remainder of the magnitudes |
| Division.DivMpi | library/bignum.c:1398-1516 | truncated quotient and remainder of any integers, and what comes out when results overwrite operands; a zero divisor is an error; a zero quotient has the sign +1, and a zero remainder if A and R keep to that |
| Division.OverwritingIsRightIff | library/bignum.c:1494-1497 | a quotient written over an operand is right if and only if that operand is not negative or the quotient is zero |
| Division.OverwrittenDividend | library/bignum.c:1494-1497 | -7 divided by 2 in place gives 3, not -3 |
| Division.RemainderIsRightIff | library/bignum.c:1494-1507 | with the quotient over the dividend, the remainder is right if and only if it is zero, or the quotient is not and the signs agree |
| MpiMod.DivInt | library/bignum.c:1521-1534 | truncated division by a machine integer, in place where mpi_write_hlp uses it; a zero quotient has the sign +1, and a zero remainder if A and R keep to that |
| MpiMod.ModMpi | library/bignum.c:1539-1560 | R, which may be A, is A modulo B in [0, B) for B > 0, and each bad B has its error; a zero result has the sign +1 if A and R keep to that |
| MpiMod.ResidueIffSeparate | library/bignum.c:1539-1560 | for B > 0 the residue is left if and only if R is not B; if it is, the call never succeeds, and fails if and only if the remainder is negative |
| MpiMod.DoublingRefused | library/bignum.c:1549-1551 | with R as B, a negative remainder is doubled until the addition is refused |
| MpiMod.DoublingNeverReturns | library/bignum.c:1549-1551 | and after any number of passes it is still negative or refused |
| MpiMod.SubtractingForever | library/bignum.c:1553-1555 | with R as B, a remainder that is not negative is still in the last loop after any number of passes |
| MpiMod.NegativeIntoModulus | library/bignum.c:1539-1560 | -1 modulo 3 into the modulus is refused |
| MpiMod.PositiveIntoModulus | library/bignum.c:1539-1560 | 1 modulo 3 into the modulus has not returned after any number of passes |
| MpiMod.ModInt | library/bignum.c:1565-1617 | r is below b and is what the half-limb loop yields with the sign of A, which is A mod b when the shift loses nothing |
| MpiMod.ModLoopExact | library/bignum.c:1594-1603 | when b <= 2^biH or b divides 2^biL the loop yields A mod b |
| MpiMod.ModLoopCorrectIff | library/bignum.c:1594-1603 | and only then does it for all A |
| MpiMod.LostCarry | library/bignum.c:1594-1603 | two limbs on which every larger b yields zero |
| MpiGcd.MpiGcdModinv | library/bignum.c:1752-1819 | the wrapper returns the gcd and the coefficient for the operands it accepts, and refuses exactly the others; a zero result has the sign +1 |
| MpiGcd.Lsb | library/bignum.c:462-473 | the exact number of trailing zero bits of a nonzero number |
| MpiGcd.Ctz | library/bignum.c:444-456 | the same for one limb |
| MpiGcd.GcdOddParts | library/bignum.c:1852-1866 | the gcd is the gcd of the odd parts times the smaller power of two |
| MpiGcd.MpiGcd | library/bignum.c:1825-1873 | G = gcd(abs(A), abs(B)) for all integers, zeros and aliasing included; a zero result has the sign +1 |
| MpiInverse.OtherCoefficient | library/bignum.c:1966-1999 | from an inverse of N modulo A, exact division gives an inverse of A modulo N |
| MpiInverse.InvModOdd | library/bignum.c:1927-1951 | for odd N, success exactly when gcd(A, N) = 1, and then the inverse |
| MpiInverse.InvModEvenInRange | library/bignum.c:1966-1999 | for odd A in (1, N), success exactly when gcd(A, N) = 1, and then the inverse |
| MpiInverse.InvModEven | library/bignum.c:2006-2035 | the same for even N and any odd A |
| MpiInverse.InvMod | library/bignum.c:2042-2058 | for any A and N > 1, success exactly when gcd(A, N) = 1, and then X in [1, N) with A*X = 1 modulo N |
| MpiInverse.InverseExistsIff | library/bignum.c:2042-2058 | an inverse exists if and only if the gcd is 1 |
| MpiInverse.InverseUnique | library/bignum.c:2042-2058 | there is at most one inverse in [1, N) |
| MpiExpMod.MpiExpMod | library/bignum.c:1623-1735 | the value of X for every A, E and odd N, each error case, and the cached square of the radix left usable; a zero result has the sign +1 |
| MpiExpMod.ResultCorrectIff | library/bignum.c:1623-1735 | that value is A^E mod N if and only if none of the three exceptional cases applies |
| MpiExpMod.RightWithoutSign | library/bignum.c:1716-1724 | with a non-negative base or an even exponent that has limbs the result is A^E mod N |
| MpiExpMod.RightForCoprimeIff | library/bignum.c:1716-1724 | for a negative base prime to N > 1 and an odd exponent it is right if and only if X is not A |
| MpiExpMod.RightForMultipleIff | library/bignum.c:1716-1724 | for a negative multiple of N and an odd exponent it is right if and only if X is A |
| MpiExpMod.ModulusForZero | library/bignum.c:1716-1724 | (-3)^1 mod 3 comes out as 3 |
| MpiExpMod.SignLost | library/bignum.c:1716-1724 | (-2)^1 mod 3 written over the base comes out as 2 |
| MpiExpMod.OneModuloOne | library/bignum.c:1623-1735 | an exponent without limbs and N = 1 give 1 |
| MpiExpMod.SignedPower | library/bignum.c:1716-1724 | the power of a signed number takes the sign exactly for odd exponents |
| MpiExpMod.GetMontR2Unsafe | library/bignum_core.c:583-595 | the helper value is the square of the radix power modulo N |
| MpiExpMod.Shrink | library/bignum.c:240-281 | shrinking keeps the value and drops only zero limbs |
| MpiStrings.GetDigit | library/bignum.c:494-513 | a character is accepted exactly when it is a digit of the radix, with its value |
| MpiStrings.PutDigit | library/bignum.c:554-557 | combining a hexadecimal digit into its place adds digit*16^j and touches no digit below |
| MpiStrings.ReadHex | library/bignum.c:544-557 | X is the number the hexadecimal numeral stands for |
| MpiStrings.ReadDigits | library/bignum.c:558-566 | X is the number the numeral stands for |
| MpiStrings.ReadString | library/bignum.c:518-577 | accepts exactly signed numerals of the radix and gives X their value; zero has the sign +1, even when written with a minus |
| MpiStrings.SetSign | library/bignum.c:568-570 | the sign is set on a nonzero number only |
| MpiStrings.CaseDoesNotMatter | library/bignum.c:494-515 | texts that differ in the case of letters only are the same numeral |
| MpiStrings.EstimateSuffices | library/bignum.c:632-654 | the size asked for holds sign, digits and final zero in every radix |
| MpiStrings.WriteHelper | library/bignum.c:582-615 | the numeral without leading zeros, written backwards and moved to the front, or the error exactly when it does not fit |
| MpiStrings.WriteHex | library/bignum.c:664-680 | two digits for each octet from the highest nonzero one |
| MpiStrings.WriteString | library/bignum.c:620-699 | the text and its final zero, written whenever the buffer has the estimated size; nothing written otherwise |
| MpiStrings.WrittenReadsBack | library/bignum.c:518-699 | reading what was written gives the number back, in every radix and for either sign |
| Xts.Gf128IsMulX | library/aes.c:1165-1178 | the two 64-bit shifts multiply the tweak by x in the byte order of IEEE Std 1619 |
| Xts.TweakBits | library/aes.c:1165-1178 | each tweak is the one before it times x modulo x^128 + x^7 + x^2 + x + 1, bit by bit |
| Xts.XtsEncryptBlock | library/aes.c:1235-1242 | every block that stealing leaves alone is encrypted with the tweak of its place added before and after |
| Xts.XtsEncryptStolen | library/aes.c:1252-1282 | the last full block is encrypted under its own tweak and gives the partial block; its rest completes the data, encrypted under the next tweak |
| Xts.XtsDecryptBlock | library/aes.c:1235-1242 | the same for decryption |
| Xts.XtsDecryptStolen | library/aes.c:1226-1282 | the same for decryption, with the last two tweaks exchanged |
| Xts.CryptBlocks | library/aes.c:1224-1249 | the block loop writes each whole block under its tweak, the last two swapped for decryption with a partial block |
| Xts.FinalRound | library/aes.c:1251-1282 | ciphertext stealing completes the partial block from the block before it; in place it reads what it has just copied there |
| Xts.CryptXts | library/aes.c:1189-1285 | every length from 16 octets to the limit gives XTS of the data unit, or in place of the data unit with its partial block overwritten, and other lengths are refused |
| Xts.WrittenIsBlocks | library/aes.c:1224-1249 | blocks written with the tweak exchange are those of the specification with the order restored |
| Xts.XtsRoundTrip | library/aes.c:1189-1285 | decryption undoes encryption for every length, the partial last block included |
| Xts.InPlaceRightIff | library/aes.c:1251-1282 | in place a data unit is processed right if and only if it is whole blocks or its partial block equals what is copied over it |
| Xts.InPlaceRightForLengthIff | library/aes.c:1251-1282 | in place every data unit of a length is processed right if and only if the length is whole blocks |
| CbcMode.CryptCbc | library/aes.c:1072-1147 | CBC of whole blocks and the next chaining value, in place or not |
| CbcMode.CbcSplit | library/aes.c:1072-1147 | CBC of a concatenation is CBC of the parts with the chaining value carried over |
| CbcMode.CbcIvIs | library/aes.c:1072-1147 | the next chaining value is the last ciphertext block, or the given one if there is none |
| CbcMode.CbcBlocks | library/aes.c:1104-1143 | each block is added to the ciphertext block before it, before the block function in encryption and after it in decryption |
| CbcMode.CbcInverse | library/aes.c:1072-1147 | CBC decryption undoes CBC encryption |
| Padding.PaddedOnce | library/cipher.c:831-971 | a block is padded in at most one way |
| Padding.PaddedIff | library/cipher.c:831-1003 | a block is padded if and only if its bytes from there on are those of the method: the length in all or in the last, 128 in the first, else zero |
| Padding.AddPkcsPadding | library/cipher.c:831-840 | the data followed by PKCS7 padding |
| Padding.GetPkcsPadding | library/cipher.c:847-878 | bad exactly when the block is not PKCS7 padded, else the length of the data |
| Padding.AddOneAndZerosPadding | library/cipher.c:885-895 | the data followed by 0x80 and zeros |
| Padding.GetOneAndZerosPadding | library/cipher.c:897-923 | bad exactly when there is no such padding, else the length of the data |
| Padding.AddZerosAndLenPadding | library/cipher.c:930-940 | the data followed by zeros and the length |
| Padding.GetZerosAndLenPadding | library/cipher.c:942-971 | bad exactly when there is no such padding, else the length of the data |
| Padding.AddZerosPadding | library/cipher.c:978-982 | the data followed by zeros |
| Padding.GetZerosPadding | library/cipher.c:984-1003 | the length up to the last nonzero octet, never bad |
| CbcStream.CipherContext.ProcessCached | library/cipher.c:669-693 | the completed cached block is processed as the next block of the stream |
| CbcStream.CipherContext.CacheTail | library/cipher.c:695-715 | what is kept back: the partial block, or a whole one when decrypting with padding |
| CbcStream.CipherContext.Update | library/cipher.c:644-734 | whatever the chunking, the input so far is the processed part and the cached part, and the output so far is CBC of the processed part |
| CbcStream.CipherContext.FinishPadded | library/cipher.c:1078-1126 | encryption ends with CBC of the padded input; decryption with CBC of all input and the padding check; incomplete input is refused |
| CbcStream.EmittedByInput | library/cipher.c:644-734 | the output so far depends on the concatenated input only |
| CbcStream.DecryptedPadding | library/cipher.c:1025-1132 | decrypting gives the padded message back, the padding within its last block |
| CbcStream.StreamRoundTrip | library/cipher.c:1025-1132 | the message comes back under PKCS7, one-and-zeros and zeros-and-length padding |
| CbcStream.ZerosRoundTripIff | library/cipher.c:978-1003 | under zero padding it comes back if and only if it has whole blocks or does not end in a zero octet |
| CbcStream.PiecesDoNotMatter | library/cipher.c:644-734 | two streams set up alike and fed the same octets in different pieces have output and hold the same |
| CbcStream.StreamsInverse | library/cipher.c:644-1126 | a decrypting stream fed, in any pieces, all that an encrypting one has output, both finished, gives the message back; under zero padding if and only if that padding can be told from the message |
| AriaTables.Is1UndoesSb1 | library/aria.c:167-243 | the first pair of tables, one direction |
| AriaTables.Sb1UndoesIs1 | library/aria.c:167-243 | the other direction |
| AriaTables.Is2UndoesSb2 | library/aria.c:193-269 | the second pair of tables, one direction |
| AriaTables.Sb2UndoesIs2 | library/aria.c:193-269 | the other direction |
| AriaDiffusion.ALinear | library/aria.c:109-131 | the diffusion layer distributes over exclusive or |
| AriaDiffusion.AInvolution | library/aria.c:109-131 | the diffusion layer undoes itself (RFC 5794, section 2.4.3) |
| Aria.AriaA | library/aria.c:109-131 | the word shuffles and exclusive ors are the 16 by 16 binary matrix of RFC 5794 |
| Aria.AriaSl | library/aria.c:141-162 | the word form substitutes each octet by its table |
| Aria.SlInverse | library/aria.c:141-162 | the two substitution layers undo each other |
| Aria.RoundsUndone | library/aria.c:441-490 | running with the decryption keys retraces the states of the encryption from the end |
| Aria.DecryptionUndoesEncryption | library/aria.c:441-490 | so the same routine with the derived keys undoes it for every even round count, whatever the keys |
| Aria.DecKeysTwice | library/aria.c:409-435 | deriving the decryption keys twice gives the encryption keys back |
| AriaKeys.Rot128 | library/aria.c:322-342 | the word loop gives the exclusive or with the shifted block, for every amount |
| AriaKeys.RotationBits | library/aria.c:322-342 | each bit of the shifted block is the one the rotation puts there, for every amount that is not a multiple of 32 |
| AriaKeys.RotatesIff | library/aria.c:322-342 | the rotation is right for every block if and only if the amount is not a multiple of 32 |
| AriaKeys.CombinesWords | library/aria.c:322-342 | for a multiple of 32, a block on which neighbouring words are combined |
| AriaKeys.FoXor | library/aria.c:274-291 | the odd round function with the final exclusive or |
| AriaKeys.FeXor | library/aria.c:296-313 | the even round function with the final exclusive or |
| AriaKeys.AriaContext.SetKeyEnc | library/aria.c:347-403 | the round keys of RFC 5794, section 2.2, and the round count; exactly three key sizes are accepted |
| AriaKeys.AriaContext.SetKeyDec | library/aria.c:409-435 | the reversed keys with the middle ones diffused |
| AriaKeys.AriaContext.CryptEcb | library/aria.c:441-490 | the in-place rounds compute the cipher of the keys held |
| AriaKeys.AriaRoundTrip | library/aria.c:347-490 | for every key size, key and block the decryption schedule inverts the encryption schedule |
| AriaKeys.Rounds | library/aria.c:381-382 | 12, 14 or 16 rounds for keys of 128, 192 or 256 bits |
| AriaLaws.KeyWordsAreStandard | library/aria.c:347-388 | W0 to W3 from the two halves of the key and the constants of RFC 5794 given octet by octet, in the order of each key size |
| AriaLaws.WordsDetermineKey | library/aria.c:384-388 | for one key size any two neighbouring key words determine the key |
| AriaLaws.RoundKeyBits | library/aria.c:390-397 | each bit of a round key is that of a key word plus that of the next one, 19 or 31 places to the left of it or 61, 31 or 19 to the right, going round |
| AriaLaws.ZerosSubstituted | library/aria.c:141-162 | which of the four tables serves which octet in the two layers |
| AriaLaws.CryptIsStandard | library/aria.c:441-490 | the ciphertext is that of the odd and even round functions in turn, with a substitution between two keys at the end |
| AriaLaws.EveryKeyMatters | library/aria.c:441-490 | for every message, changing exactly one round key changes the ciphertext |
| AriaLaws.RoundSpreads | library/aria.c:274-313 | through a round, one changed octet changes exactly the octets the diffusion sends it to |
| CcmSpec.AbsorbIsMac | library/ccm.c:315-346 | absorbing data piece by piece is CBC-MAC of the zero-padded data |
| CcmSpec.MacIsStandard | library/ccm.c:156-221 | the value reached is CBC-MAC of the formatted blocks of NIST SP 800-38C, appendix A.2 |
| CcmSpec.FlagFields | library/ccm.c:184-198 | presence of associated data, tag length and length of the length field can be read back from the flags |
| CcmSpec.EncodedLengthFirst | library/ccm.c:314-315 | associated data follows its length in two octets, most significant first |
| CcmSpec.FormatDetermines | library/ccm.c:156-346 | over all nonces, tag lengths, associated data and messages the authenticated string determines them, and none is a prefix of another |
| CcmSpec.BeDigit | library/ccm.c:200-202 | octet i from the end is digit i of the number to the base 256 |
| CcmSpec.MacLastBlock | library/ccm.c:315-346 | the last block is added to the value so far and encrypted |
| CcmSpec.DataIsMasked | library/ccm.c:391-465 | octet i of data block j is masked by octet i of the encrypted counter block for j + 1, given octet by octet |
| CcmSpec.TagIsMasked | library/ccm.c:473-508 | the tag is the CBC-MAC of the authenticated string under the mask of the counter block for zero |
| CcmSpec.CcmRoundTrip | library/ccm.c:586-607 | the masked data unmasks to the plaintext and gives the same tag |
| CcmSpec.CountersFresh | library/ccm.c:359-471 | within the length limit data counters are distinct and never the tag's counter 0 |
| CcmSpec.CountersDifferentIff | library/ccm.c:454-460 | n counters are distinct if and only if n is at most 2^(8q) |
| Ccm.FlagBitsAre | library/ccm.c:184-198 | the flag octet has the fields of NIST SP 800-38C |
| Ccm.IncrementCtr | library/ccm.c:454-460 | the carry loop counts the q-octet field up |
| Ccm.CcmContext.CalculateFirstBlockIfReady | library/ccm.c:156-221 | once both halves are set the state is that of the first block, or the operation is refused exactly when the length does not fit |
| Ccm.CcmContext.Starts | library/ccm.c:223-259 | a nonce of 7 to 13 octets is accepted, in either order with the lengths |
| Ccm.CcmContext.SetLengths | library/ccm.c:261-288 | exactly the permitted tag and data lengths are accepted |
| Ccm.CcmContext.UpdateAd | library/ccm.c:290-357 | any chunk of associated data extends what was absorbed, and too much is refused |
| Ccm.CcmContext.DataPiece | library/ccm.c:391-465 | up to a block of data is masked and absorbed, counter and offset kept, in its place or too early |
| Ccm.CcmContext.Update | library/ccm.c:359-471 | any chunk of data extends input and output, in place or not, and too much is refused; data that comes before all associated data is taken and leaves the operation early |
| Ccm.CcmContext.Finish | library/ccm.c:473-508 | the tag of the data so far, refused exactly when data is missing, announced associated data included; without a tag length, the masked working value |
| Ccm.CcmContext.AuthCrypt | library/ccm.c:513-544 | the one-shot call gives the same masked data and tag as the streamed one |
| Ccm.CcmContext.AuthDecrypt | library/ccm.c:586-607 | succeeds exactly when the tag is that of the recovered plaintext, else clears the output |
| Ccm.CcmContext.OutputAndTag | library/ccm.c:359-508 | in every running state the output is the counter-mode text, and with all the message in, masking the working value gives the tag of the specification |
| Ccm.PiecesDoNotMatter | library/ccm.c:290-508 | two contexts fed the same data in different pieces hold the same output and tag |
| Ccm.DecryptionRecovers | library/ccm.c:359-508 | decrypting that output in any pieces gives the plaintext and the same tag |
| AesCtr.IncrementCounter | library/ctr.h:21-33 | the counter block plus one modulo 2^128 |
| AesCtr.CryptCtr | library/aes.c:1437-1481 | the data masked by the key stream from the current offset, and the counter, offset and stream block for the next call |
| AesCtr.MaskedByte | library/aes.c:1437-1481 | octet i of block j is masked by octet i of an encrypted block that holds the counter plus j modulo 2^128 |
| AesCtr.MaskedSplit | library/aes.c:1437-1481 | masking in two calls is masking in one |
| AesCtr.MaskedTwice | library/aes.c:1437-1481 | masking twice gives the data back |
| Base64.EncCharIs | library/base64.c:27-39 | the masked selection is table 1 of RFC 4648 |
| Base64.DecValueIs | library/base64.c:42-57 | the value of a digit, and -1 for every other character |
| Base64.DigitsInverse | library/base64.c:27-57 | the two maps are inverse on the 64 digits |
| Base64.EncodeAll | library/base64.c:88-118 | the loop and the last group write the standard's text |
| Base64.EncodedGroup | library/base64.c:88-118 | each four characters are the 24-bit number of their three octets, missing octets counting as zero with one = for each |
| Base64.Encode | library/base64.c:62-124 | the text and its final zero with the rest of the buffer kept, or the size needed when it does not fit or would overflow |
| Base64.FirstPass | library/base64.c:140-195 | accepts exactly the well-formed texts and counts their digits and padding |
| Base64.SecondPass | library/base64.c:224-248 | writes exactly the octets the digits stand for |
| Base64.DecodedGroup | library/base64.c:224-248 | the octets of a group are those of the 24-bit number of its digits |
| Base64.Decode | library/base64.c:129-255 | each error in exactly its case, the length of the first pass written by the second, and corruption never reported |
| Base64.OutputLength | library/base64.c:197-209 | the length computed from the counts is the length of the output |
| Base64.DecodeEncoded | library/base64.c:62-255 | decoding undoes encoding for every octet string, and the decoder accepts what the encoder writes |
| Base64.EncodingUndoesDecodingIff | library/base64.c:129-255 | encoding gives a text's digits back if and only if the unused bits of the last digit are zero |

## Left out

- The unrolled multiply-add macros: `Mla` takes one limb at a time where the source takes eight; assembly, hardware drivers and processor-specific code.
- Constant time, volatile reads, zeroization: the `mbedtls_ct_` functions are plain conditionals with the same results; memory cleared before release is not modelled.
- Running out of memory and the limits on limb counts: growing succeeds. The size checks of `mbedtls_mpi_exp_mod` and the limit in the loops of `mbedtls_mpi_mod_mpi` are modelled.
- Random numbers, primality tests and prime generation: their results depend on an external generator.
- MpiMod.ModMpi: the result is not the modulus object unless the modulus is refused; for a positive modulus that call is modelled by its two loops on the shared value (`ResidueIffSeparate`), since a method has to end.
- MpiExpMod.MpiExpMod: a helper value passed in must be empty or hold what an earlier call left for the same N, as the header asks, and is an object of its own: not the base, the exponent or the modulus, and with limbs apart from those of X.
- MpiMod.ModInt: the plain residue is stated under the exact condition of `ModLoopCorrectIff`, because the code does not give it for other divisors.
- Reading and writing files, binary import and export, and bit get and set helpers: easier members. Strings are sequences without the final zero; a string read has no length beyond memory.
- Xts.CryptXts: buffers that overlap at different offsets; the same buffer is covered. The tweak encryption is a function argument.
- The AES rounds, tables and key schedule: the modes take any block function, and for round trips any pair of inverse ones.
- CbcStream.CipherContext.Update: CBC only; the other modes of `cipher.c`, its dispatch and key handling are pass-throughs. The output buffer is large enough, as the header asks, is not the context's own buffer, and does not overlap the input except as the same buffer.
- CFB, OFB, GCM, ChaCha20 and key wrapping modes.
- Ccm.CcmContext.Update: of data that comes too early, which octets come out is not stated; only that input and output grow by the piece, and that the operation stays refused by Finish while announced associated data is missing.
- Ccm.CcmContext.DataPiece: as for Update, whose loop it is.
- Ccm.CcmContext.UpdateAd: called after Starts and SetLengths and before message data, the order the header gives; associated data that follows early message data is not modelled.
- Ccm.CcmContext.Starts: called once for each operation; a second call would change the nonce under data already absorbed.
- Ccm.CcmContext.SetLengths: called once for each operation, for the same reason.
- Ccm.CcmContext.Finish: the tag is related to the specification when all announced associated data was given and the tag length is not zero; otherwise it is the masked working value.
- CCM and ARIA blocks of 16 octets held in local variables are values; aliasing inside one block is not modelled.
- ARIA CBC, CFB and CTR modes.
- Base64.Decode: the text is a value, so a source that overlaps the destination is not modelled.
- Base64.SecondPass: as for Decode.
- The PSA interface, ASN.1, TLS and X.509.

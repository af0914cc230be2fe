# Word arithmetic and byte transformers of MLDonkey

The project models the multi-precision arithmetic MLDonkey carries for RSA and
FastTrack, and the stateful byte transformers around it, and states what each
computes in terms that do not mention how.

Word arithmetic (`CryptoPP.cc`) runs over one flat `array<word>` in which every
operand is an offset: the original passes bare pointers into shared work space,
and so aliasing, overlap and the size of the work space are part of each
contract. `Words.V(m, p, n)` is the number in the n words at p. On it stand
Karatsuba multiplication, the upper half of a product found from its lower half,
Newton inversion modulo powers of two, Montgomery reduction with the ring built
on it, long division two quotient words at a time, the almost-inverse algorithm,
square roots, division by a word, and sliding-window multiplication in an
arbitrary group.

FastTrack's own bignum (`enc_type_1.c`) is a second, smaller arithmetic with an
estimated-quotient reduction. Around these are the splitter of a message into
first, middle and last blocks over a ring buffer, the base-2^k encoder and
decoder, FastTrack's 63-byte rotating stream cipher, the Tiger tree hash of a
file, UTF-8 validation, and the WinMX scrambler.

Objects that change in place are classes, buffers are arrays, loops are loops.
`dafny verify dfyconfig.toml` checks everything.

## Where the code does not do what one would expect

- `big_expmod` never looks at the exponent bits in its main loop. It computes
  num^(2^i - 1), i being the exponent's bit length, which is the cube for the
  only exponent in use, 3. `BigExponents.AllOnesOnly` says for which exponents
  this is the power asked for.
- The correction pass of `big_mod` loses a borrow when a word is zero and the
  borrow from below is one. `BigReduce.CorrectionPass` gives the exact condition
  under which the pass is right and what it leaves otherwise. `Clean`, a
  predicate on the two numbers alone, carries the condition through a whole
  reduction, `CleanRun` through a whole exponentiation, and `Forgotten` sums up
  what a reduction loses. With the program's modulus every reduction ends
  (`BigPasses.RankFalls`), and its result is the remainder exactly when the
  modulus divides that sum (`BigPasses.ResidueRight`). `EncType1.EncType` states
  the output for every key; it is the cube for the clean ones.
  `ForgottenBorrow.KeyForgetsBorrow` gives a key that is not clean. `enc_type_1`
  takes any 255 bytes; `pad_init` draws its bytes below 0xE0, and this key has a
  larger one.
- `Integer::Divide` by a word truncates instead of rounding down when the divisor
  is a power of two and the dividend is negative (`WordDivision.DivideByWord`);
  `Integer::Modulo` by a word does not have this flaw (`WordDivision.ModuloWord`).
- One-byte WinMX messages do not survive (`WinMx.Survives`). With a length of
  zero the original reads outside the string, so the length is at least one here.
- The comment on `RecursiveInverseModPower2` asks for 3N/2 words of work space,
  but for N = 2 the code uses four (`Inverse.WorkSpace`,
  `Inverse.FourthWordUsed`); `Inverse.WorkSize` follows the code.
- The tests for a negative `max_len` in `utf8_validate` never succeed, the
  parameter being unsigned: a length is always in force.

## Model

| member | source | states |
|---|---|---|
| LowLevel.Compare | mldonkey-3.0.7/src/utils/lib/CryptoPP.cc:1757-1766 | the sign of the difference of two N-word numbers |
| LowLevel.Increment | mldonkey-3.0.7/src/utils/lib/CryptoPP.cc:1768-1779 | new value plus carry * W^N is the old value plus B; nothing outside the N words changes, although the loop stops at the first word that does not wrap |
| LowLevel.Decrement | mldonkey-3.0.7/src/utils/lib/CryptoPP.cc:1781-1792 | the mirror image, with the borrow |
| LowLevel.TwosComplement | mldonkey-3.0.7/src/utils/lib/CryptoPP.cc:1794-1799 | the new value is W^N minus the old one, or zero for zero |
| LowLevel.SetWords | mldonkey-3.0.7/src/utils/lib/CryptoPP.cc:770-774 | n words become a, the rest stays |
| LowLevel.CopyWords | mldonkey-3.0.7/src/utils/lib/CryptoPP.cc:776-780 | the run keeps its contents at its new place |
| LowLevel.Add | mldonkey-3.0.7/src/utils/lib/CryptoPP.cc:2128-2141 | C + carry * W^N = A + B, also when C is A or B |
| LowLevel.Subtract | mldonkey-3.0.7/src/utils/lib/CryptoPP.cc:2143-2156 | C - borrow * W^N = A - B, also when C is A or B |
| Shifts.ShiftWordsLeftByBits | mldonkey-3.0.7/src/utils/lib/CryptoPP.cc:794-806 | the run times 2^s, split between the words and the carry out |
| Shifts.ShiftWordsRightByBits | mldonkey-3.0.7/src/utils/lib/CryptoPP.cc:808-820 | the run divided by 2^s exactly, the remainder returned in the top bits of the carry |
| Shifts.ShiftWordsLeftByWords | mldonkey-3.0.7/src/utils/lib/CryptoPP.cc:822-831 | for any number of words: the low words times W^shiftWords, zeros below, the top words lost |
| Shifts.ShiftWordsRightByWords | mldonkey-3.0.7/src/utils/lib/CryptoPP.cc:833-842 | for any number of words: the run divided by W^shiftWords, the low words lost, zeros above |
| Shifts.ShiftLeft | mldonkey-3.0.7/src/utils/lib/CryptoPP.cc:4771-4781 | operator<<=: the words in use times 2^n, in place, for every n; nothing is shifted out |
| Shifts.ShiftRight | mldonkey-3.0.7/src/utils/lib/CryptoPP.cc:4783-4795 | operator>>=: the floor of the magnitude divided by 2^n, for every n, also beyond its length |
| Multiply.CrossWords | mldonkey-3.0.7/src/utils/lib/CryptoPP.cc:2160-2169 | d - W * s is (a1 - a0) * (b0 - b1), whichever way the two comparisons select from the table of differences |
| Multiply.Multiply2 | mldonkey-3.0.7/src/utils/lib/CryptoPP.cc:2158-2180 | the four-word product of two pairs by three multiplications; no double-word column overflows |
| Multiply.Multiply2Add | mldonkey-3.0.7/src/utils/lib/CryptoPP.cc:2189-2214 | C[4] + carry * W^4 = C + A * B |
| Multiply.LinearMultiply | mldonkey-3.0.7/src/utils/lib/CryptoPP.cc:3468-3478 | A[N] * B in N words and a carry word |
| Multiply.MultiplyRows | mldonkey-3.0.7/src/utils/lib/CryptoPP.cc:2258-2290 | the exact product, for the unrolled four- and eight-word products |
| Karatsuba.RecursiveMultiply | mldonkey-3.0.7/src/utils/lib/CryptoPP.cc:3240-3303 | for every N = 2^k >= 2 the 2N result words hold exactly A * B; only result and work space change |
| Karatsuba.CrossProduct | mldonkey-3.0.7/src/utils/lib/CryptoPP.cc:3253-3289 | all comparison cases, wrapped negative differences included: the N words left in T plus carry * W^N are (A1 - A0) * (B0 - B1), with carry 0 or -1 |
| Karatsuba.SignedProduct | mldonkey-3.0.7/src/utils/lib/CryptoPP.cc:3258-3289 | why each case of the switch yields the signed product of the differences |
| Karatsuba.Combine | mldonkey-3.0.7/src/utils/lib/CryptoPP.cc:3294-3301 | the cross product folded in: the carry stays within 0..2 and the last Increment loses nothing |
| Karatsuba.Coefficients | mldonkey-3.0.7/src/utils/lib/CryptoPP.cc:3291-3294 | the three partial products make the whole product, which fits its words |
| Halves.RecursiveSquare | mldonkey-3.0.7/src/utils/lib/CryptoPP.cc:3309-3330 | the 2N result words hold A * A, hence the same as RecursiveMultiply |
| Halves.RecursiveMultiplyBottom | mldonkey-3.0.7/src/utils/lib/CryptoPP.cc:3337-3356 | the N result words are A * B modulo W^N |
| Halves.Multiply2Bottom | mldonkey-3.0.7/src/utils/lib/CryptoPP.cc:2182-2187 | the low two words of a two-word product |
| HighHalf.RecursiveMultiplyTop | mldonkey-3.0.7/src/utils/lib/CryptoPP.cc:3364-3436 | given the true low half in L, the N result words are the floor of A * B / W^N, although A0 * B0 is never computed |
| HighHalf.FoldBorrows | mldonkey-3.0.7/src/utils/lib/CryptoPP.cc:3423-3425 | the two borrows and the comparison that count the missing carry |
| HighHalf.RecoveredCarry | mldonkey-3.0.7/src/utils/lib/CryptoPP.cc:3423-3428 | the carry out of the lowest part, recovered from those borrows |
| HighHalf.TopCarry | mldonkey-3.0.7/src/utils/lib/CryptoPP.cc:3425-3434 | with that carry the folded words are the upper half of the product |
| Inverse.AtomicInverseModPower2 | mldonkey-3.0.7/src/utils/lib/CryptoPP.cc:1801-1812 | for every odd word R * A = 1 modulo W |
| Inverse.NewtonStep | mldonkey-3.0.7/src/utils/lib/CryptoPP.cc:1806-1810 | a pass turns an inverse modulo 2^i into one modulo 2^2i, or modulo W |
| Inverse.RecursiveInverseModPower2 | mldonkey-3.0.7/src/utils/lib/CryptoPP.cc:3542-3565 | for odd A and every N = 2^k >= 2, R * A = 1 modulo W^N |
| Inverse.WorkSpace | mldonkey-3.0.7/src/utils/lib/CryptoPP.cc:3539 | the 3N/2 words of work space the comment asks for are enough exactly for N > 2 |
| Inverse.FourthWordUsed | mldonkey-3.0.7/src/utils/lib/CryptoPP.cc:3544-3552 | for N = 2 a fourth word is written: for A = 1 + W it becomes W - 1 |
| Inverse.LiftMath | mldonkey-3.0.7/src/utils/lib/CryptoPP.cc:3555-3564 | the lifting step: the digit computed from the product of the error makes the inverse right modulo W^2h |
| Montgomery.MontgomeryReduce | mldonkey-3.0.7/src/utils/lib/CryptoPP.cc:3573-3582 | for odd M, U * M = 1 modulo W^N and X < M * W^N the result is below M and result * W^N = X modulo M |
| Representation.MontgomeryRepresentation.constructor | mldonkey-3.0.7/src/utils/lib/CryptoPP.cc:5279-5288 | for odd m the object holds m and its inverse modulo W^N |
| Representation.Represent | mldonkey-3.0.7/src/utils/lib/CryptoPP.cc:5284-5285 | exactly the even moduli are refused |
| AsymmetricProducts.AsymmetricMultiply | mldonkey-3.0.7/src/utils/lib/CryptoPP.cc:3485-3536 | the exact product of operands of different lengths, the longer an even multiple of the shorter: all three one-word cases and the interleaved blocks; only result and work space change |
| AsymmetricProducts.Interleaved | mldonkey-3.0.7/src/utils/lib/CryptoPP.cc:3529-3532 | the even and the odd blocks of an operand make the whole of it |
| AsymmetricProducts.FoldUp | mldonkey-3.0.7/src/utils/lib/CryptoPP.cc:3534-3535 | the even products added to the odd ones make the whole product; no carry leaves its top |
| AsymmetricProducts.SizesFit | mldonkey-3.0.7/src/utils/lib/CryptoPP.cc:3503-3504 | any two sizes numbers are kept in, being powers of two, meet the even-multiple assertion |
| Representation.MontgomeryRepresentation.Multiply | mldonkey-3.0.7/src/utils/lib/CryptoPP.cc:5290-5301 | result < M and result * W^N = a * b modulo M, for operands below M, each of its own length |
| Representation.MontgomeryRepresentation.ConvertOut | mldonkey-3.0.7/src/utils/lib/CryptoPP.cc:5316-5327 | result < M and result * W^N = a modulo M, for an operand of any length up to N words |
| Representation.MontgomeryRepresentation.MultiplicativeInverse | mldonkey-3.0.7/src/utils/lib/CryptoPP.cc:5329-5350 | the result is the inverse in Montgomery form (their product is W^2N modulo M), in both directions of the power-of-two correction; zero exactly when there is none |
| Representation.CancelPower | mldonkey-3.0.7/src/utils/lib/CryptoPP.cc:3567-3572 | W^N can be cancelled modulo M |
| Representation.RoundTrip | mldonkey-3.0.7/src/utils/lib/CryptoPP.cc:5290-5327 | converting in, multiplying and converting out gives a * b mod M |
| Representation.MontgomeryRepresentation.MultiplyModulo | mldonkey-3.0.7/src/utils/lib/CryptoPP.h:3742-3749 | the whole way through ConvertIn, Multiply and ConvertOut: (a * b) mod M for all integers a and b |
| Representation.InverseRoundTrip | mldonkey-3.0.7/src/utils/lib/CryptoPP.cc:5329-5350 | converting in, inverting and converting out gives the inverse of a modulo M, or zero |
| Representation.MontgomeryRepresentation.InverseModulo | mldonkey-3.0.7/src/utils/lib/CryptoPP.h:3742-3755 | the whole way through ConvertIn, MultiplicativeInverse and ConvertOut, for every integer |
| SmallDivision.DivideThreeWordsByTwo | mldonkey-3.0.7/src/utils/lib/CryptoPP.cc:2017-2050 | A[3] = Q * B + rest with rest < B, after the under-estimate from the top words and its corrections; Q never wraps |
| SmallDivision.DivideFourWordsByTwo | mldonkey-3.0.7/src/utils/lib/CryptoPP.cc:2052-2069 | the two-word quotient of four words; divisor 0 stands for W^2 |
| Division.EstimateProduct | mldonkey-3.0.7/src/utils/lib/CryptoPP.cc:3667-3681 | T is Q times the whole divisor, from overlapping two-word blocks |
| Division.CarryStops | mldonkey-3.0.7/src/utils/lib/CryptoPP.cc:3673-3675 | the carry added to the next block cannot run out of it |
| Division.LastOddBlock | mldonkey-3.0.7/src/utils/lib/CryptoPP.cc:3673-3675 | the last block of all leaves no carry, which would go beyond T |
| Division.CorrectQuotientEstimate | mldonkey-3.0.7/src/utils/lib/CryptoPP.cc:3663-3692 | from any under-estimate whose rest fits N+1 words: Q and R become quotient and remainder; neither the subtraction borrows nor Q wraps |
| LongDivision.BitPrecision | mldonkey-3.0.7/src/utils/lib/CryptoPP.h:1874-1893 | the position of the highest set bit, by bisection |
| LongDivision.EstimateGood | mldonkey-3.0.7/src/utils/lib/CryptoPP.cc:3739-3747 | dividing by the top pair plus one never over-estimates, and leaves a rest that fits one word more than the divisor |
| LongDivision.EstimateClose | mldonkey-3.0.7/src/utils/lib/CryptoPP.cc:3739-3747 | with the top bit of the divisor set, at most two corrections follow an estimate |
| LongDivision.ReduceTop | mldonkey-3.0.7/src/utils/lib/CryptoPP.cc:3746-3747 | one round: quotient pair and remainder of NB+2 words, after at most two corrections for a normalised divisor |
| LongDivision.AtomicDivide | mldonkey-3.0.7/src/utils/lib/CryptoPP.cc:3654-3660 | the quotient pair of four words by two |
| LongDivision.NormalizeDivisor | mldonkey-3.0.7/src/utils/lib/CryptoPP.cc:3711-3717 | the divisor shifted until its top bit is set |
| LongDivision.ReduceAll | mldonkey-3.0.7/src/utils/lib/CryptoPP.cc:3743-3748 | each round keeps the dividend equal to quotient * divisor + rest, with the rest below the divisor |
| LongDivision.Divide | mldonkey-3.0.7/src/utils/lib/CryptoPP.cc:3700-3753 | A = Q * B + R with R < B for every A and every non-zero B that uses its last pair of words |
| Integers.PositiveDivide | mldonkey-3.0.7/src/utils/lib/CryptoPP.cc:4824-4851 | a = q * b + r with r < b, or the division-by-zero error exactly for b = 0 |
| Integers.Divide | mldonkey-3.0.7/src/utils/lib/CryptoPP.cc:4853-4869 | dividend = q * divisor + r with 0 <= r < |divisor| for all four sign combinations, or the error |
| Integers.DivideIsEuclidean | mldonkey-3.0.7/src/utils/lib/CryptoPP.cc:4853-4869 | those bounds determine q and r, so this is Euclidean division |
| WordDivision.DivideByWord | mldonkey-3.0.7/src/utils/lib/CryptoPP.cc:4913-4947 | division by a word is Euclidean if and only if not: power-of-two divisor, negative dividend, non-zero residue; for a power of two, what is returned instead |
| WordDivision.ModuloWord | mldonkey-3.0.7/src/utils/lib/CryptoPP.cc:4957-4991 | the remainder alone is Euclidean for every dividend, on all three paths |
| WordDivision.SumOfWords | mldonkey-3.0.7/src/utils/lib/CryptoPP.cc:4972-4978 | modulo 3 and 5 the plain sum of the words has the residue of the number, and it fits a double word |
| WordDivision.LowWordResidue | mldonkey-3.0.7/src/utils/lib/CryptoPP.cc:4966-4967 | for a power of two the lowest word decides the residue |
| Integers.WordCount | mldonkey-3.0.7/src/utils/lib/CryptoPP.cc:4184-4187 | the least n with x < W^n |
| Integers.BitCount | mldonkey-3.0.7/src/utils/lib/CryptoPP.cc:4198-4205 | the least n with x < 2^n |
| Integers.SquareRoot | mldonkey-3.0.7/src/utils/lib/CryptoPP.cc:5027-5043 | the floor of the square root for every n > 0, and 0 otherwise |
| Integers.MeanBound | mldonkey-3.0.7/src/utils/lib/CryptoPP.cc:5038-5040 | a Newton iterate never falls below the root, whatever it starts from |
| Integers.StopsBelow | mldonkey-3.0.7/src/utils/lib/CryptoPP.cc:5036-5042 | where the iterates stop falling, the last one is not above the root |
| AlmostInversion.AlmostInverse | mldonkey-3.0.7/src/utils/lib/CryptoPP.cc:3768-3848 | for every A that fits the words of an odd M: R * A = 2^k modulo M with 0 < R < M (R = 1 for M = 1 and A > 0), or R = 0 and k = 0 and A has no inverse (or M = 1); it terminates |
| AlmostInversion.NumbersShift | mldonkey-3.0.7/src/utils/lib/CryptoPP.cc:3795-3827 | dividing f by 2^i while multiplying c by it keeps b*g + c*f = M and both congruences |
| AlmostInversion.NumbersSubtract | mldonkey-3.0.7/src/utils/lib/CryptoPP.cc:3839-3846 | so does the subtract-and-add step |
| AlmostInversion.NumbersSwap | mldonkey-3.0.7/src/utils/lib/CryptoPP.cc:3832-3837 | so does the swap, with the sign turned over |
| AlmostInversion.SizeBounds | mldonkey-3.0.7/src/utils/lib/CryptoPP.cc:3768-3848 | from b*g + c*f = M: none of the four numbers outgrows N words |
| AlmostInversion.NoInverse | mldonkey-3.0.7/src/utils/lib/CryptoPP.cc:3789-3793 | when f becomes zero with g > 1, A and M share a factor |
| Modular.DivideByPower2Mod | mldonkey-3.0.7/src/utils/lib/CryptoPP.cc:3854-3869 | R * 2^k = A modulo M with R < M |
| Modular.MultiplyByPower2Mod | mldonkey-3.0.7/src/utils/lib/CryptoPP.cc:3875-3882 | R = A * 2^k modulo M with R < M |
| Modular.Corrected | mldonkey-3.0.7/src/utils/lib/CryptoPP.cc:5340-5347 | either correction of the almost inverse yields A * V = 2^e |
| Modular.InverseOdd | mldonkey-3.0.7/src/utils/lib/CryptoPP.cc:5095-5099 | the inverse modulo an odd M, or zero if and only if there is none |
| Inverses.InverseMod | mldonkey-3.0.7/src/utils/lib/CryptoPP.cc:5077-5100 | the inverse modulo any m, even ones by way of the inverse the other way round; zero when there is none, the error exactly when a zero modulus is divided by |
| Inverses.FromMutual | mldonkey-3.0.7/src/utils/lib/CryptoPP.cc:5091-5092 | an inverse of m modulo a gives (m * (a - u) + 1) / a, an inverse of a modulo m |
| Inverses.InverseModWord | mldonkey-3.0.7/src/utils/lib/CryptoPP.cc:5102-5125 | the same for a one-word modulus in unsigned words only, the error exactly for zero; no intermediate value leaves the word |
| Inverses.RowsStep | mldonkey-3.0.7/src/utils/lib/CryptoPP.cc:5112-5122 | v0*g1 + v1*g0 = mod and both congruences survive a step |
| SlidingWindow.FindNextWindow | mldonkey-3.0.7/src/utils/lib/CryptoPP.cc:5520-5547 | the rest of the exponent is 2^skip * (digit + 2^w * new rest) with an odd, possibly negative digit and a smaller rest; or nothing is left; the scan ends |
| SlidingWindow.Recombine | mldonkey-3.0.7/src/utils/lib/CryptoPP.cc:5598-5612 | suffix sums of the buckets give the sum of (2j+1) * bucket j |
| SlidingWindow.WeightBySums | mldonkey-3.0.7/src/utils/lib/CryptoPP.cc:5598-5612 | the odd-weighted sum as a sum of suffix sums |
| SlidingWindow.SimultaneousMultiply | mldonkey-3.0.7/src/utils/lib/CryptoPP.cc:5555-5613 | in any group every result is exponent * base, for any exponents and window sizes, with and without negated windows |
| Groups.TimesAdd | mldonkey-3.0.7/src/utils/lib/CryptoPP.h:3429-3452 | multiples of one element add up |
| BigMultiply.BigMul | mldonkey-3.0.7/src/networks/fasttrack/enc_type_1.c:139-156 | the exact double-length product |
| BigMultiply.BigRow | mldonkey-3.0.7/src/networks/fasttrack/enc_type_1.c:146-155 | one row; the double-word accumulator never exceeds W^2 - 1 |
| BigPasses.RankFalls | mldonkey-3.0.7/src/networks/fasttrack/enc_type_1.c:193-202 | with a modulus whose top bit is set and whose top word is not all ones, a correction pass never wraps and the loop ends, whatever borrows are forgotten |
| BigPasses.DropsLose | mldonkey-3.0.7/src/networks/fasttrack/enc_type_1.c:195-201 | a pass forgets a borrow if and only if a true borrow meets a zero word |
| BigPasses.CleanForgets | mldonkey-3.0.7/src/networks/fasttrack/enc_type_1.c:177-203 | a clean reduction forgets nothing |
| BigPasses.ResidueRight | mldonkey-3.0.7/src/networks/fasttrack/enc_type_1.c:171-206 | a reduction gives the remainder if and only if the modulus divides the sum of all it forgets |
| BigPasses.OneBorrowSpoils | mldonkey-3.0.7/src/networks/fasttrack/enc_type_1.c:193-202 | for an odd modulus a single forgotten borrow always spoils the remainder |
| BigReduce.BigIsLess | mldonkey-3.0.7/src/networks/fasttrack/enc_type_1.c:158-169 | exactly the numeric comparison |
| BigReduce.SubtractMultiple | mldonkey-3.0.7/src/networks/fasttrack/enc_type_1.c:182-191 | k times the modulus comes off the window exactly; the running borrow stays a word |
| BigReduce.PassWord | mldonkey-3.0.7/src/networks/fasttrack/enc_type_1.c:197-199 | one word of the correction, and exactly when it forgets a borrow |
| BigReduce.CorrectionPass | mldonkey-3.0.7/src/networks/fasttrack/enc_type_1.c:195-201 | the pass subtracts the modulus modulo W^(n+1) if and only if no word is zero where a borrow reaches it; otherwise the result is too large by the forgotten borrows, whose sum is a function of the two numbers |
| BigReduce.GuessLow | mldonkey-3.0.7/src/networks/fasttrack/enc_type_1.c:179-180 | the guessed digit is a word, never above the true digit, and leaves less than three times a modulus whose top bit is set |
| BigReduce.ReduceDigit | mldonkey-3.0.7/src/networks/fasttrack/enc_type_1.c:177-202 | one digit: the window becomes the residue of itself plus what its passes forget, which is nothing exactly for clean passes; then at most two passes when the top bit of the modulus is set |
| BigReduce.BigMod | mldonkey-3.0.7/src/networks/fasttrack/enc_type_1.c:171-206 | the residue of the dividend plus all that is forgotten, which is nothing exactly for a clean run: then it is the remainder |
| ForgottenBorrow.KeyForgetsBorrow | mldonkey-3.0.7/src/networks/fasttrack/enc_type_1.c:63-76 | a 255-byte key, under the program's own modulus, whose first squaring forgets a borrow |
| BigPower.BigMulMod | mldonkey-3.0.7/src/networks/fasttrack/enc_type_1.c:130-137 | num1 * num2 mod mod in place, also for num1 = num2, when nothing is forgotten; otherwise the residue of the product plus what is |
| BigPower.BitLength | mldonkey-3.0.7/src/networks/fasttrack/enc_type_1.c:115-117 | the bit length of the exponent |
| BigPower.BigExpMod | mldonkey-3.0.7/src/networks/fasttrack/enc_type_1.c:110-128 | num^(2^i - 1) mod mod for every clean run, i being the bit length of the exponent; for every run the iterated residues |
| BigPower.CleanRunPower | mldonkey-3.0.7/src/networks/fasttrack/enc_type_1.c:121-125 | from any round on, a clean run is repeated squaring |
| BigExponents.AllOnesOnly | mldonkey-3.0.7/src/networks/fasttrack/enc_type_1.c:121-125 | this is num^exp for every base and every modulus the function takes if and only if exp = 2^i - 1, for exponents of up to 2048 bits |
| BigExponents.WholeNumbers | mldonkey-3.0.7/src/networks/fasttrack/enc_type_1.c:133 | a modulus of which every significant word is used, and any number below it, is taken whole by the choice between 64 and 32 words |
| EncType1.BigLetoh | mldonkey-3.0.7/src/networks/fasttrack/enc_type_1.c:84-95 | the number in 256 little-endian bytes |
| EncType1.BigHtole | mldonkey-3.0.7/src/networks/fasttrack/enc_type_1.c:97-103 | the lowest bytes of a number, little-endian |
| EncType1.EncType | mldonkey-3.0.7/src/networks/fasttrack/enc_type_1.c:63-76 | for every key it ends with the bytes of the iterated residues modulo the 2048-bit number written out; those are K^3 modulo that number for every clean run, K being the key with a one on top, below it |
| EncModulus.ModulusLiteral | mldonkey-3.0.7/src/networks/fasttrack/enc_type_1.c:34-48 | the 64 words of the modulus make the 2048-bit number written out |
| EncType1.ModulusTame | mldonkey-3.0.7/src/networks/fasttrack/enc_type_1.c:34-48 | the program's modulus is one with which every reduction ends |
| BlockQueues.BlockQueue.constructor | mldonkey-3.0.7/src/utils/lib/CryptoPP.cc:6617-6625 | an empty queue of one-byte blocks |
| BlockQueues.BlockQueue.ResetQueue | mldonkey-3.0.7/src/utils/lib/CryptoPP.cc:6556-6563 | an empty queue of the given shape |
| BlockQueues.BlockQueue.GetBlock | mldonkey-3.0.7/src/utils/lib/CryptoPP.cc:6565-6577 | the oldest block, contiguous in the buffer, leaves the front; none if less is queued |
| BlockQueues.BlockQueue.GetContigousBlocks | mldonkey-3.0.7/src/utils/lib/CryptoPP.cc:6579-6588 | as many bytes from the front as lie in one piece, at most those wanted |
| BlockQueues.BlockQueue.GetAll | mldonkey-3.0.7/src/utils/lib/CryptoPP.cc:6590-6599 | everything queued, in order, and an empty queue |
| BlockQueues.BlockQueue.Put | mldonkey-3.0.7/src/utils/lib/CryptoPP.cc:6601-6610 | the input is appended, around the end of the buffer if need be |
| BufferedFilter.Capacity | mldonkey-3.0.7/src/utils/lib/CryptoPP.cc:6663 | the ring has room for everything that can be left between two calls, and for a block |
| BufferedFilter.DispatchedUnique | mldonkey-3.0.7/src/utils/lib/CryptoPP.cc:6674-6718 | how many bytes the middle takes is determined by the length alone |
| BufferedFilter.NewFilter | mldonkey-3.0.7/src/utils/lib/CryptoPP.cc:6617-6625 | a filter ready for a message, or the error exactly for a block size of zero |
| BufferedFilter.FilterWithBufferedInput.PutBytes | mldonkey-3.0.7/src/utils/lib/CryptoPP.cc:6648-6719 | after any call: the first piece, the bytes of the middle and the queue are those of the message so far |
| BufferedFilter.FilterWithBufferedInput.SendFirst | mldonkey-3.0.7/src/utils/lib/CryptoPP.cc:6657-6668 | the first firstSize bytes go out in one piece; the queue never wraps before |
| BufferedFilter.FilterWithBufferedInput.SendBytes | mldonkey-3.0.7/src/utils/lib/CryptoPP.cc:6672-6689 | all but the last lastSize bytes go out, in order |
| BufferedFilter.FilterWithBufferedInput.SendBlocks | mldonkey-3.0.7/src/utils/lib/CryptoPP.cc:6690-6715 | whole blocks go out from the queue, across its end and from the input, in order |
| BufferedFilter.FilterWithBufferedInput.MessageEnd | mldonkey-3.0.7/src/utils/lib/CryptoPP.cc:6721-6734 | the calls of a message: nothing lost or reordered, whole blocks in the middle, the documented length of the last piece |
| BufferedFilter.LastBounds | mldonkey-3.0.7/src/utils/lib/CryptoPP.h:4581-4584 | the documented bounds follow from the number dispatched |
| BufferedFilter.PutMessage | mldonkey-3.0.7/src/utils/lib/CryptoPP.cc:6648-6736 | the same for a message in any number of pieces |
| BufferedFilter.OneDelivery | mldonkey-3.0.7/src/utils/lib/CryptoPP.h:4570-4584 | first piece, middle bytes and last piece depend on the message alone |
| BaseNEncoder.NewEncoder | mldonkey-3.0.7/src/utils/lib/CryptoPP.cc:8062-8064 | exactly 1 to 7 bits per character are accepted |
| BaseNEncoder.Encoder.constructor | mldonkey-3.0.7/src/utils/lib/CryptoPP.cc:8058-8082 | the block is the smallest of whole bytes and whole characters |
| BaseNEncoder.OutputBlockSize | mldonkey-3.0.7/src/utils/lib/CryptoPP.cc:8076-8079 | the least common multiple of 8 and the bits per character |
| BaseNEncoder.Encoder.PutByte | mldonkey-3.0.7/src/utils/lib/CryptoPP.cc:8093-8115 | the eight bits of a byte follow those already in the block, highest first; no place overflows |
| BaseNEncoder.Encoder.Put | mldonkey-3.0.7/src/utils/lib/CryptoPP.cc:8084-8130 | characters sent and block in work carry the bits of the message so far |
| BaseNEncoder.Encoder.MessageEnd | mldonkey-3.0.7/src/utils/lib/CryptoPP.cc:8131-8147 | the text spells the message's bits filled with zeros to a whole character, then padding to a whole block: section 4 of RFC 4648 for six bits and = |
| BaseNDecoder.NewDecoder | mldonkey-3.0.7/src/utils/lib/CryptoPP.cc:8155-8157 | exactly 1 to 7 bits per character are accepted |
| BaseNDecoder.Decoder.constructor | mldonkey-3.0.7/src/utils/lib/CryptoPP.cc:8151-8167 | the block is the smallest of whole characters and whole bytes |
| BaseNDecoder.DecodedBlockSize | mldonkey-3.0.7/src/utils/lib/CryptoPP.cc:8161-8164 | the least common multiple of the bits per character and 8 |
| BaseNDecoder.Decoder.PutValue | mldonkey-3.0.7/src/utils/lib/CryptoPP.cc:8182-8198 | the bits of a value follow those already in the block, across a byte boundary too |
| BaseNDecoder.Decoder.Put | mldonkey-3.0.7/src/utils/lib/CryptoPP.cc:8169-8205 | bytes sent and block in work carry the bits of the characters so far; others are passed over |
| BaseNDecoder.Decoder.MessageEnd | mldonkey-3.0.7/src/utils/lib/CryptoPP.cc:8206-8210 | the bytes are the whole bytes in the bits of the text |
| BaseNDecoder.InitializeDecodingLookupArray | mldonkey-3.0.7/src/utils/lib/CryptoPP.cc:8214-8233 | a character's entry is its place in the alphabet, in either case of letters if so wanted; -1 for all others |
| BaseNDecoder.TableInverts | mldonkey-3.0.7/src/utils/lib/CryptoPP.cc:8214-8233 | the table of a full alphabet leads every value back |
| BaseNDecoder.RoundTrip | mldonkey-3.0.7/src/utils/lib/CryptoPP.cc:8084-8212 | decoding an encoding of a message gives the message |
| BaseNDecoder.TextValues | mldonkey-3.0.7/src/utils/lib/CryptoPP.cc:8140-8144 | padding outside the alphabet adds no values |
| BaseNDecoder.Ignored | mldonkey-3.0.7/src/utils/lib/CryptoPP.cc:8175-8177 | a character without a value makes no difference wherever it stands |
| BaseNDecoder.EncodeThenDecode | mldonkey-3.0.7/src/utils/lib/CryptoPP.cc:8084-8212 | both filters one after the other, each fed in any pieces, return the message |
| Bits.SameStream | mldonkey-3.0.7/src/utils/lib/CryptoPP.cc:8084-8212 | values of n bits are determined by their bit stream |
| Bits.StreamAt | mldonkey-3.0.7/src/utils/lib/CryptoPP.cc:8093-8115 | bit i of a stream is bit i % n, counted from the top, of value i / n |
| BaseNEncoder.ThreeBytes | mldonkey-3.0.7/src/utils/lib/CryptoPP.cc:8093-8115 | three bytes in four values of six bits, as section 4 of RFC 4648 has it |
| FstSort.AnySort | mldonkey-3.0.7/src/networks/fasttrack/fst_crypt.c:443-455 | every arrangement ordered by the comparison function is the one modelled |
| FstCipher.NextSound | mldonkey-3.0.7/src/networks/fasttrack/fst_crypt.c:313-406 | a clock keeps: position in range, lookup a permutation, add_to_lookup tied to wrapcount, and an odd pad byte without bit 0x10 |
| FstCipher.RunInvariant | mldonkey-3.0.7/src/networks/fasttrack/fst_crypt.c:313-406 | after n clocks: that, the same key, pos = (pos0 + n) mod 63 and wrapcount = (wrapcount0 + (pos0 + n) / 63) mod 2^32 |
| FstCipher.KeystreamAdd | mldonkey-3.0.7/src/networks/fasttrack/fst_crypt.c:88-94 | a keystream does not depend on how it is drawn |
| FstCipher.MaskTwice | mldonkey-3.0.7/src/networks/fasttrack/fst_crypt.c:88-94 | masking twice with one keystream undoes itself |
| FstCipher.SortPosition | mldonkey-3.0.7/src/networks/fasttrack/fst_crypt.c:342-347 | the five-byte window lies within the pad |
| FstClock.RunningTotals | mldonkey-3.0.7/src/networks/fasttrack/fst_crypt.c:319-405 | up to the end of the pad and clear of position 7 except as the last, byte i put out is the table entry at the table offset plus the byte before the position plus the pad bytes from the position to place i, added as integers |
| FstClock.OneByte | mldonkey-3.0.7/src/networks/fasttrack/fst_crypt.c:403-405 | any one byte put out, one place further in the table for the clock that wraps with bit 3 |
| FstClock.PlainClock | mldonkey-3.0.7/src/networks/fasttrack/fst_crypt.c:319-358 | a clock below position 62, where nothing is rearranged, changes the position and one byte of the pad |
| FstClock.Rearranges | mldonkey-3.0.7/src/networks/fasttrack/fst_crypt.c:338-357 | at position 7, when the total has none of the bits 0x70: five bytes in the order of their values with bit 5 inverted, and every third byte from the fifth on becomes -b - 1 + i with bit 0 set |
| FstClock.Wraps | mldonkey-3.0.7/src/networks/fasttrack/fst_crypt.c:358-401 | the wrap: counts, table offset, and a second pad drawn anew by the plain recurrence at every sixteenth wrap |
| FstClock.Merges | mldonkey-3.0.7/src/networks/fasttrack/fst_crypt.c:373-385 | the wrap with bit 4, byte by byte of the pad |
| FstCipher.Merged | mldonkey-3.0.7/src/networks/fasttrack/fst_crypt.c:376-385 | the six-byte merge stays within the pad |
| FstSetup.Scaled | mldonkey-3.0.7/src/networks/fasttrack/fst_crypt.c:409-427 | the number derived from a seed is below its bound |
| FstSetup.ShuffleKeeps | mldonkey-3.0.7/src/networks/fasttrack/fst_crypt.c:126-155 | the shuffled table is a permutation |
| FstSetup.InitialSound | mldonkey-3.0.7/src/networks/fasttrack/fst_crypt.c:99-191 | every cipher that could be set up starts sound |
| FstCrypt.RunFromStart | mldonkey-3.0.7/src/networks/fasttrack/fst_crypt.c:99-191 | position and wrap count after n clocks from set-up |
| FstStart.StartPad | mldonkey-3.0.7/src/networks/fasttrack/fst_crypt.c:215-306 | byte i of the start pad is byte i of the cube xor-ed with byte i % 4 of mixed word i / 4, each as far as used, over any sequence w that follows the recurrence 0x10dcd * x + 0x4271 |
| FstStart.StartPosition | mldonkey-3.0.7/src/networks/fasttrack/fst_crypt.c:121-124 | the position is w[d] / 2^16 * 63 / 2^16, d counting the draws of the kinds of mixing used |
| FstStart.StartState | mldonkey-3.0.7/src/networks/fasttrack/fst_crypt.c:99-191 | the whole start state from w: pad made odd, five bytes ordered, thirds changed; table exchanged place by place from the digest; second pad drawn from the position |
| FstCrypt.FSTCipher.Init | mldonkey-3.0.7/src/networks/fasttrack/fst_crypt.c:99-191 | succeeds exactly without bits 0x04 and 0x100, and then leaves the state defined for the seed and the kind, at the position the draws give |
| FstCrypt.FSTCipher.InitPad | mldonkey-3.0.7/src/networks/fasttrack/fst_crypt.c:215-306 | the pad the draws give, the generator after them, and exactly which kinds are unsupported |
| FstCrypt.FSTCipher.Clock | mldonkey-3.0.7/src/networks/fasttrack/fst_crypt.c:313-406 | one step of the state, and the byte put out: the table entry at offset plus previous byte plus current byte |
| FstCrypt.FSTCipher.SortBytes | mldonkey-3.0.7/src/networks/fasttrack/fst_crypt.c:347 | five bytes put in order in place |
| FstCrypt.FSTCipher.MergePads | mldonkey-3.0.7/src/networks/fasttrack/fst_crypt.c:374-385 | the merge, in place |
| FstCrypt.FSTCipher.Crypt | mldonkey-3.0.7/src/networks/fasttrack/fst_crypt.c:88-94 | the data masked by the keystream of its length, the state that many clocks on; within a stretch without rearrangement, masked by the table entries at the running totals |
| FstCrypt.CutAnywhere | mldonkey-3.0.7/src/networks/fasttrack/fst_crypt.c:88-94 | cutting the data into calls makes no difference |
| FstCrypt.CryptUndoes | mldonkey-3.0.7/src/networks/fasttrack/fst_crypt.c:88-94 | a cipher set up alike undoes the masking, whatever its unused second pad held |
| FstCrypt.MangleEncType | mldonkey-3.0.7/src/networks/fasttrack/fst_crypt.c:196-211 | the kind of encryption masked by word 7 of 20 draws mixed with the next |
| FstCrypt.MangleUndoes | mldonkey-3.0.7/src/networks/fasttrack/fst_crypt.c:195-211 | mangling a mangled kind with the same seed gives it back |
| TigerTree.DownIsRoot | mldonkey-3.0.7/src/daemon/common/commonHasher_c.c:112-122 | going down by halves gives the root of the level-by-level tree with an odd last digest promoted |
| TigerTree.TreeIsRoot | mldonkey-3.0.7/src/daemon/common/commonHasher_c.c:87-123 | so the recursive hash of any data in any sufficient power-of-two block is that root over its blocks |
| TigerTree.ReadBlock | mldonkey-3.0.7/src/daemon/common/commonHasher_c.c:98-109 | the buffer holds the next bytes of the file however the reads are cut; fails exactly when the file ends before |
| TigerTree.TigerTreeFd | mldonkey-3.0.7/src/daemon/common/commonHasher_c.c:87-123 | a call at pos consumes exactly [pos, min(pos + block_size, len)) and writes the digest of those bytes, nothing else |
| TigerTree.TigerBlockSize | mldonkey-3.0.7/src/utils/lib/tiger.c:821-826 | the smallest doubling of 1024 that holds len |
| TigerTree.LeavesAt | mldonkey-3.0.7/src/daemon/common/commonHasher_c.c:90-111 | one leaf at least and one for every 1024 bytes begun; leaf i is the hash of the bytes from 1024 * i on |
| TigerTree.RootOfRows | mldonkey-3.0.7/src/daemon/common/commonHasher_c.c:112-122 | the root is what stands on top of any rows built from those leaves by pairing, prefix 1 and the left digest first |
| TigerTree.HashPart | mldonkey-3.0.7/src/daemon/common/commonHasher_c.c:233-239 | the digest of a part of a file is the root over its blocks, and exactly the part was read; one hash with prefix 0 up to 1024 bytes, three hashes up to 2048 |
| Utf8.Gather | mldonkey-3.0.7/src/utils/lib/charsetstubs.c:146-157 | the gathered bits, or the bad value at the first byte that does not continue; they fit a 32-bit word |
| Utf8.NextLeads | mldonkey-3.0.7/src/utils/lib/charsetstubs.c:192-220 | what a turn of the loop accepts is the shortest form of a good code point |
| Utf8.LeadsNext | mldonkey-3.0.7/src/utils/lib/charsetstubs.c:192-220 | and every shortest form of a good code point is accepted |
| Utf8.NothingFurther | mldonkey-3.0.7/src/utils/lib/charsetstubs.c:192-220 | where the loop stops, no well-formed prefix goes further |
| Utf8.ValidExactly | mldonkey-3.0.7/src/utils/lib/charsetstubs.c:159-163 | the test passes exactly the code points up to 0x10FFFF that are no surrogates and not among the non-characters |
| Utf8.SixtySix | mldonkey-3.0.7/src/utils/lib/charsetstubs.c:162-163 | the non-characters, a block of 32 and two in each of 17 planes, are 66 |
| Utf8.Utf8Validate | mldonkey-3.0.7/src/utils/lib/charsetstubs.c:176-236 | accepted are exactly the concatenations of shortest forms of code points that are not NUL, no surrogates and no non-characters; end marks the longest well-formed prefix |
| WinMx.Encode | mldonkey-3.0.7/src/networks/opennap/winmx_xor_c.c:3-18 | the five in-place rounds compute the encoding of the first length bytes |
| WinMx.Decode | mldonkey-3.0.7/src/networks/opennap/winmx_xor_c.c:21-37 | the five in-place rounds compute the decoding |
| WinMx.RoundTrip | mldonkey-3.0.7/src/networks/opennap/winmx_xor_c.c:3-37 | for two bytes or more each undoes the other |
| WinMx.EncodedByRounds | mldonkey-3.0.7/src/networks/opennap/winmx_xor_c.c:10-16 | the encoding is five rounds, in each of which place i gets the xor of all bytes up to it and of the last byte, in round 4 of the length |
| WinMx.DecodedByRounds | mldonkey-3.0.7/src/networks/opennap/winmx_xor_c.c:28-35 | the decoding is five rounds back, byte by byte |
| WinMx.ZerosRound | mldonkey-3.0.7/src/networks/opennap/winmx_xor_c.c:13-15 | round 4 turns n zero bytes into n copies of n modulo 256 |
| WinMx.SweepIsXor | mldonkey-3.0.7/src/networks/opennap/winmx_xor_c.c:15 | a sweep leaves in each place the xor of everything up to it |
| WinMx.Survives | mldonkey-3.0.7/src/networks/opennap/winmx_xor_c.c:3-37 | a message comes back if and only if it has two bytes or more, or is the single byte 1 |
| WinMx.OneByte | mldonkey-3.0.7/src/networks/opennap/winmx_xor_c.c:12-13 | what becomes of single bytes |

## Left out

- Multiply.MultiplyRows: the unrolled `Multiply4`, `Multiply8`, `Square4` and their bottom halves are not modelled line by line; one product by rows with the same contract stands for all of them, and the x86 and SSE2 versions have no model.
- Words.W: words have 32 bits, as on the platforms where the double word is a native type (`CryptoPP.h:213-221`); the emulated double word of other platforms is not modelled.
- BigReduce.BigMod: with a modulus outside `Tame` (top bit clear, or top word all ones) the correction loop need not end once a borrow is forgotten; the model stops there and reports it, so nothing is stated about the words after that point. The program's one modulus is tame.
- BigPower.BigExpMod: likewise stops, for such a modulus, at the first reduction that is not clean.
- EncType1.EncType: whether a particular key meets a forgotten borrow is a predicate on that key, and one that does is given; how many of the keys that `pad_init` draws do is not counted.
- Representation.MontgomeryRepresentation.Multiply: `HalfMontgomeryReduce` is not modelled; `Square` is the case of two equal operands.
- AlmostInversion.AlmostInverse: an A with more pairs of words than M has in use would be cut off to M's words; no caller passes one, all of them reducing A modulo M before.
- BaseNEncoder.Or: a bitwise or is modelled as a sum where its precondition shows the operands to have no bit in common; the other places where the original or-s or shifts are modelled by the corresponding sums, products and quotients in the same way.
- BaseNDecoder.Decoder.constructor: lookup entries are values of the given number of bits or marks to pass over; what an entry between 2^k and 255 would do is not modelled.
- WordDivision.IsPower: the original recognises powers of two by `d & (d - 1)`, the model by the bit length.
- WordDivision.ModuloWord: the number of words is below W, as the original's 32-bit count of them is.
- SlidingWindow.SimultaneousMultiply: the bit scans read the exponent as a number, not from its words.
- FstCipher.Mixers: `enc_type_1`, `enc_type_2`, `enc_type_20`, `enc_type_80` and MD5 are parameters here, of which only the sizes of the results matter; word order is that of a little-endian machine.
- FstSort.Sort: stands for the C library's `qsort`; `FstSort.AnySort` is why the choice does not matter.
- TigerTree.File.Read: a read returns any number of the bytes asked for; errors other than the end of the file are not modelled, and the Tiger function itself is a parameter.
- BufferedFilter.FilterWithBufferedInput.MessageEnd: the calls received by a derived filter are recorded, not their effects; a derived filter that writes into the bytes it is handed, hard flushes, and non-blocking re-entry are not modelled.
- Sizes of buffers and streams are unbounded; the original's 32-bit lengths can wrap.
- `Integer` objects are values with a sign; their copy-on-resize buffers are not modelled.
- Primality tests, key generation, `RandomPool`, the remaining Crypto++ classes, the hasher thread, and the OCaml stubs have no model.

# Verified models of the self-contained algorithms

This project models five pieces of the repository in Dafny and proves what they
are for.  `dafny verify dfyconfig.toml` checks all of it.

| files | models |
|---|---|
| `Words`, `Ieee`, `Double` | 32-bit words and their operators; binary formats, their exact values and roundTiesToEven; doubles as two words with +, - and * |
| `Sqrt`, `Integral`, `Rint`, `Scalbn` | the software floating point of the polybench library |
| `Register`, `Random`, `Swizzle`, `Hash`, `NumberName`, `NumberBuffer` | generators, hash and number printer of the SQLite workload |
| `Leb128`, `CustomSection` | appending an aligned custom section to a wasm file |
| `Packets`, `Transactions` | packets and transaction table of the AssemblyScript application library |
| `PerfMap` | sorting AOT functions and deriving their sizes |

**Numbers.**  A double is a pair of 32-bit words; `Mag` is the pattern without its
sign, and `Units(D, b)` the exact value of pattern b in units of the least
subnormal, for a format whose exponent field steps by D.  No reals are needed:
"r is nearer to the root than y" is the sign of `(y + r)^2 - 4 X`, and x * 2^n is
a fraction of naturals.  Results are stated against these values.  Where
the sources add or multiply doubles (`huge + x`, `one - tiny`, `TWO52[sx] + x`,
`x * two54`) the model computes the exact result and rounds it once; that the
probes behave as expected is proved.  Signed 32-bit variables have the type
`int32`, so that every assignment carries a proof that it does not overflow; the
intended wraps are written `ToWord`.  The shift register of the random generator
is a 32-bit vector: its states are polynomials over the two-element field, and its
period is computed there.

**State.**  `Global`, `HashContext` and `Client` are classes with the fields of
the originals; number names are written into an array; packers fill an array byte
by byte.  Each method is tied to a function on values, and the lemmas about runs
are about those functions.  In `Transactions` a `Sweep` carries the clock as a
function from the reading's number, because `timer.now()` is read anew for each
entry of each filter; the log records timer calls, host calls and callbacks in
order, and `TimersAfter` reads the contents of `timer_list` off it as `timer.ts`
would leave them.  A run is `Possible` when sweeps happen only through a timer that
is in `timer_list`.

**Where the code does not do what its names or comments say.**

- `not_expire` makes the same test as `is_expire`, so a sweep drops the entries
  that have not expired without a callback (`FixedClockSweep`, `SurvivesIff`).
- `on_response` never removes its transaction: it is called back again with
  null (`AnsweredStillTimesOut`).  A response to the only entry cancels the timer
  and leaves the entry; the list is then never empty again, so no request starts a
  new timer, and `timer_restart` does not put the old one back into `timer_list`.
  From then on no request ever times out (`LossIsPermanent`, `StuckIff`,
  `WaitingWithoutTimer`).  What does hold on every run is that null comes last
  (`NullIsLast`).
- `transaction_remove` of an absent entry removes the last one, since
  `splice(-1, 1)` counts from the end (`RemoveExactIff`).  A sweep does this when an
  entry expired for the first filter is no longer expired for the second while
  another entry expires in between.  A clock that moves forward by one tick is
  enough, where an entry's elapsed time wraps to zero (`RemovedForAnother`); the
  exact condition is in `SurvivorsExactIff`.
- `leb128_encode_uint(0)` is empty, so decoding needs n >= 1 (`DecodeEncodeIff`).
- `calc_padding` can fail from alignment 256 on (`PaddingMissing`): the position
  skips the wanted residue twice, once where the padding's own prefix grows and
  once where the section length's encoding grows.  A content of less than
  512 alignments plus 128 name lengths is enough, and 128 is the exact
  limit (`AlwaysFoundIff`).  The script itself passes 4.
- `is_aligned` masks with alignment - 1, which is divisibility only for powers of
  two (`AlignedIff`).
- `unpack_request` accepts a packet whose url field has no zero byte at its end;
  such a packet does not repack to the same bytes (`PacketRoundTrip`,
  `UnterminatedPacket`).
- The shift by 32 at line 713 of `math.c` is not defined in C; `shiftKeeps` is
  its outcome, and the result does not depend on it.

## Model

| member | source | states |
|---|---|---|
| `Sqrt.SqrtDouble` | benchmarks/polybench/polybench-tee/ta/lib/math.c:681-786 | freebsd_sqrt on every bit pattern: NaN for NaNs and negative numbers, zeros and +infinity unchanged, and for every positive finite x (subnormals included) the one double strictly nearer to the true root than any other, whichever way the undefined shift by 32 goes |
| `Sqrt.SqrtPositive` | benchmarks/polybench/polybench-tee/ta/lib/math.c:702-785 | the positive finite case: normalisation, halved exponent, 54 digits, rounding and packing together give the nearest root |
| `Sqrt.NearestRootUnique` | benchmarks/polybench/polybench-tee/ta/lib/math.c:681-786 | the nearest-root relation admits one result, so SqrtDouble pins its output down completely |
| `Sqrt.ExactRoot` | benchmarks/polybench/polybench-tee/ta/lib/math.c:761-776 | an argument whose root is representable gets exactly that root |
| `Sqrt.DigitStep` | benchmarks/polybench/polybench-tee/ta/lib/math.c:730-759 | the one-integer digit recurrence: the next bit is set exactly when 2Q + r does not exceed the remainder, and both outcomes keep Q as the truncated root with its scaled remainder |
| `Sqrt.DigitBound` | benchmarks/polybench/polybench-tee/ta/lib/math.c:730-759 | every remainder is below 4Q + 2r, so none leaves its 32-bit high word |
| `Sqrt.HighDigits` | benchmarks/polybench/polybench-tee/ta/lib/math.c:728-740 | the first loop, on ix0:ix1, s0 and q with hand-made carries, refines the digit recurrence; all signed variables stay in 32 bits |
| `Sqrt.LowAccept` | benchmarks/polybench/polybench-tee/ta/lib/math.c:744-754 | carry into s0 and borrow from ix0 are computed correctly although s1 and ix1 wrap modulo 2^32 |
| `Sqrt.LowDigit` | benchmarks/polybench/polybench-tee/ta/lib/math.c:744-755 | one digit of the second loop on five words: comparison, subtraction and both carries equal the one-integer step |
| `Sqrt.LowStep` | benchmarks/polybench/polybench-tee/ta/lib/math.c:743-759 | one whole pass of the second loop keeps the digit invariant and the relation s0:s1 = 2 * q:q1 |
| `Sqrt.LowDigits` | benchmarks/polybench/polybench-tee/ta/lib/math.c:742-759 | the second loop terminates with the digit invariant at its last bit: q:q1 is the integer root of the radicand and ix0:ix1 twice what is left |
| `Sqrt.RootDigits` | benchmarks/polybench/polybench-tee/ta/lib/math.c:724-759 | both loops together: the digits of the root of the radicand, down to the last, with the leftover recorded |
| `Sqrt.RootDigitsOf` | benchmarks/polybench/polybench-tee/ta/lib/math.c:724-762 | the final Q brackets the root, a nonzero leftover means inexact, and an odd Q with zero leftover is impossible |
| `Sqrt.SkipZeroWord` | benchmarks/polybench/polybench-tee/ta/lib/math.c:705-709 | moving up whole words of leading zeros multiplies the mantissa by a power of two that m records |
| `Sqrt.AlignMantissa` | benchmarks/polybench/polybench-tee/ta/lib/math.c:710-714 | shifting until bit 52 leads keeps the value; for i = 0 both outcomes of the undefined shift give the same mantissa |
| `Sqrt.NormalizeSubnormal` | benchmarks/polybench/polybench-tee/ta/lib/math.c:703-715 | a subnormal x becomes a 53-bit mantissa with a matching exponent |
| `Sqrt.Normalize` | benchmarks/polybench/polybench-tee/ta/lib/math.c:703-717 | every positive finite x is M * 2^(m-52) with M of 53 bits |
| `Sqrt.EvenExponent` | benchmarks/polybench/polybench-tee/ta/lib/math.c:718-721 | an odd exponent moves one factor of two into the mantissa |
| `Sqrt.RoundRoot` | benchmarks/polybench/polybench-tee/ta/lib/math.c:761-776 | with the two probes evaluated by the modelled addition, an inexact root is incremented exactly when its last digit is set, across the word boundary |
| `Sqrt.PackRoot` | benchmarks/polybench/polybench-tee/ta/lib/math.c:777-783 | the halved root plus the biased exponent is the bit pattern, also when the leading bit carries into the exponent field |
| `Sqrt.RootFromDigits` | benchmarks/polybench/polybench-tee/ta/lib/math.c:724-785 | from the truncated root and its last digit to the nearest pattern, for any binary format |
| `Sqrt.ScaleLink` | benchmarks/polybench/polybench-tee/ta/lib/math.c:716-722 | the exponents of argument, radicand and root fit together |
| `Sqrt.SqrtFloat` | benchmarks/polybench/polybench-tee/ta/lib/math.c:613-677 | freebsd_sqrtf on every bit pattern: same classes, and the nearest float for every positive finite argument |
| `Sqrt.NormalizeFloat` | benchmarks/polybench/polybench-tee/ta/lib/math.c:633-641 | the normalising loop terminates and keeps the value |
| `Sqrt.FloatDigits` | benchmarks/polybench/polybench-tee/ta/lib/math.c:646-660 | the one-word digit loop computes the integer root; no signed variable overflows |
| `Sqrt.RoundFloatRoot` | benchmarks/polybench/polybench-tee/ta/lib/math.c:662-672 | an inexact float root is incremented exactly when its last digit is set |
| `Doubles.InexactProbe` | benchmarks/polybench/polybench-tee/ta/lib/math.c:761-776 | one - tiny and one + tiny are 1.0 under exact sum and roundTiesToEven |
| `Doubles.HugeProbe` | benchmarks/polybench/polybench-tee/ta/lib/math.c:798-826 | huge + x > 0.0 for every x the tests at 798, 810 and 826 can see |
| `Doubles.AddRounds` | benchmarks/polybench/polybench-tee/ta/lib/math.c:915-957 | the addition used by the probes and by rint is the exact sum rounded once to nearest even, with the sign of the sum, an exact zero excepted |
| `Doubles.MulRounds` | benchmarks/polybench/polybench-tee/ta/lib/math.c:1200-1224 | the multiplication used by scalbn is the exact product rounded once to nearest even |
| `Ieee.RoundMagNearest` | benchmarks/polybench/polybench-tee/ta/lib/math.c:1193-1225 | the rounding used for +, - and * picks a nearest pattern, the even one on a tie (section 4.3.1 of IEEE 754-2019), subnormals included |
| `Ieee.NearestEvenUnique` | benchmarks/polybench/polybench-tee/ta/lib/math.c:1193-1225 | roundTiesToEven leaves one possible pattern |
| `Integral.FloorDouble` | benchmarks/polybench/polybench-tee/ta/lib/math.c:789-844 | freebsd_floor returns exactly the floor of every finite double with its sign, infinities unchanged, NaN for NaN |
| `Integral.CeilDouble` | benchmarks/polybench/polybench-tee/ta/lib/math.c:846-898 | freebsd_ceil returns exactly the ceiling of every finite double with its sign |
| `Integral.TruncDouble` | benchmarks/polybench/polybench-tee/ta/lib/math.c:1498 | trunc rounds every finite double toward zero, keeps its sign and never increases its magnitude |
| `Integral.FractionBits` | benchmarks/polybench/polybench-tee/ta/lib/math.c:807-815 | clearing the fraction bits of a pattern truncates its value and adding one above them gives the next integer, also when the carry reaches the exponent field |
| `Integral.EditHigh` | benchmarks/polybench/polybench-tee/ta/lib/math.c:807-815 | the edit for j0 < 20 clears or steps the 64-bit magnitude as one integer and never disturbs the sign |
| `Integral.EditLow` | benchmarks/polybench/polybench-tee/ta/lib/math.c:823-838 | the edit for j0 >= 20, with its carry from the low to the high word, does the same |
| `Integral.FloorGreatest` | benchmarks/polybench/polybench-tee/ta/lib/math.c:789-898 | Floor is the greatest integral value not above v and Ceil the least not below |
| `Integral.FloorCeilMirror` | benchmarks/polybench/polybench-tee/ta/lib/math.c:789-898 | the greatest integral value not above v is minus the least not below -v, from these descriptions alone |
| `Integral.FloorIsMinusCeil` | benchmarks/polybench/polybench-tee/ta/lib/math.c:789-898 | the two routines agree bit by bit: floor(x) is -ceil(-x) for every finite double |
| `Rint.RintDouble` | benchmarks/polybench/polybench-tee/ta/lib/math.c:900-958 | freebsd_rint returns the nearest integer, ties to even, for every finite double and keeps the sign, also of zero |
| `Rint.RintSmall` | benchmarks/polybench/polybench-tee/ta/lib/math.c:908-919 | the case abs(x) < 1, with its collected bits and the sign put back |
| `Rint.RintMiddle` | benchmarks/polybench/polybench-tee/ta/lib/math.c:921-957 | the case 1 <= abs(x) < 2^52: guard-bit edit, addition and subtraction of 2^52 |
| `Rint.AddSubTwo52` | benchmarks/polybench/polybench-tee/ta/lib/math.c:956-957 | adding TWO52 rounds to a whole number and subtracting it again is exact |
| `Rint.SameRint` | benchmarks/polybench/polybench-tee/ta/lib/math.c:925-940 | replacing the bits below the half bit by other bits, not all zero, never changes the rounded integer |
| `Rint.GuardHigh` | benchmarks/polybench/polybench-tee/ta/lib/math.c:925-940 | the guard-bit edits for j0 = 19, j0 = 18 and below are such replacements, across the word boundary |
| `Rint.GuardLow` | benchmarks/polybench/polybench-tee/ta/lib/math.c:951-953 | the guard-bit edit for j0 >= 20 is such a replacement |
| `Rint.CollectBits` | benchmarks/polybench/polybench-tee/ta/lib/math.c:911-914 | for abs(x) < 1 sign and exponent stay and the fraction stays zero or nonzero |
| `Ieee.RneDivSpec` | benchmarks/polybench/polybench-tee/ta/lib/math.c:900-958 | NearestWhole's division is to nearest with ties to even |
| `Ieee.RneDivUnique` | benchmarks/polybench/polybench-tee/ta/lib/math.c:900-958 | and nothing else is |
| `Scalbn.ScalbnDouble` | benchmarks/polybench/polybench-tee/ta/lib/math.c:1193-1225 | for every finite x and every 32-bit n, freebsd_scalbn is x * 2^n rounded once (section 5.3.3 of IEEE 754-2019), with subnormal arguments and results and a wrapped k + n |
| `Scalbn.ScaleBNearest` | benchmarks/polybench/polybench-tee/ta/lib/math.c:1193-1225 | that specification is the nearest pattern with ties to even, infinity beyond the finite range, and the sign of x |
| `Scalbn.ScaleNormal` | benchmarks/polybench/polybench-tee/ta/lib/math.c:1208-1224 | the four result branches on a normal operand |
| `Scalbn.WrapSum` | benchmarks/polybench/polybench-tee/ta/lib/math.c:1208-1221 | k + n overflows only upwards, lands at or below -54 and is then told apart by n > 50000 |
| `Scalbn.TimesTwo54` | benchmarks/polybench/polybench-tee/ta/lib/math.c:1200-1202 | x * two54 is exact and normal for every subnormal x |
| `Scalbn.ScaledNormal` | benchmarks/polybench/polybench-tee/ta/lib/math.c:1211-1215 | a result in the normal range is exact |
| `Scalbn.ScaledOverflow` | benchmarks/polybench/polybench-tee/ta/lib/math.c:1209-1210 | k > 0x7fe means that the rounded product is not finite |
| `Scalbn.ScaledUnderflow` | benchmarks/polybench/polybench-tee/ta/lib/math.c:1216-1220 | k <= -54 means that the product rounds to zero |
| `Scalbn.ScaledSubnormal` | benchmarks/polybench/polybench-tee/ta/lib/math.c:1222-1224 | multiplying by twom54 is the only rounding of a subnormal result |
| `Scalbn.DeepUnderflow` | benchmarks/polybench/polybench-tee/ta/lib/math.c:1203-1204 | for n < -50000 a subnormal x gives the correctly signed zero |
| `Scalbn.CopySign` | benchmarks/polybench/polybench-tee/ta/lib/math.c:1185-1191 | freebsd_copysign: magnitude of x, sign of y |
| `Random.Global.constructor` | benchmarks/speedtest1/app/speedtest1.c:424-425 | the seeds |
| `Random.Global.Next` | benchmarks/speedtest1/app/speedtest1.c:308-312 | both halves advance by the source's formulas, written out, and the draw is their exclusive or |
| `Register.RegisterBijection` | benchmarks/speedtest1/app/speedtest1.c:309 | the shift register step has a two-sided inverse on all 32-bit words |
| `Register.RegisterNonzero` | benchmarks/speedtest1/app/speedtest1.c:309 | it gives zero exactly from zero |
| `Register.RegisterAlive` | benchmarks/speedtest1/app/speedtest1.c:309 | hence from a nonzero seed it never dies, after any number of draws |
| `Random.GeometricDivides` | benchmarks/speedtest1/app/speedtest1.c:310 | 1 + A + ... + A^(n-1) and n contain the same power of two |
| `Random.SameDraw` | benchmarks/speedtest1/app/speedtest1.c:310 | two draws give the same y exactly when 2^32 divides their distance |
| `Random.FullPeriod` | benchmarks/speedtest1/app/speedtest1.c:310 | from any y, 2^32 draws take every 32-bit value exactly once and then start over |
| `Register.RegisterPeriod` | benchmarks/speedtest1/app/speedtest1.c:309 | a nonzero register comes back after n draws exactly when 2^32 - 1 divides n: the longest possible period |
| `Register.DrawIsAct` | benchmarks/speedtest1/app/speedtest1.c:309 | n draws multiply the state, as a polynomial over the two-element field, by x^n modulo x^32 + x^31 + x^3 + x + 1 |
| `Register.ActCommutes` | benchmarks/speedtest1/app/speedtest1.c:309 | polynomials in the step commute, whatever they are applied to |
| `Register.ReturnsAfterN` | benchmarks/speedtest1/app/speedtest1.c:309 | 2^32 - 1 draws bring every state back |
| `Register.FactorDivides` | benchmarks/speedtest1/app/speedtest1.c:309 | each of 3, 5, 17, 257 and 65537 divides every period of a nonzero state |
| `Random.GeneratorPeriod` | benchmarks/speedtest1/app/speedtest1.c:308-312 | from a nonzero x, two draws leave the same state exactly when their distance is a multiple of 2^32 * (2^32 - 1) |
| `Swizzle.Swizzle` | benchmarks/speedtest1/app/speedtest1.c:317-325 | swizzle reverses the low bitlength(limit) bits |
| `Swizzle.ReversedTwice` | benchmarks/speedtest1/app/speedtest1.c:317-325 | reversing twice changes nothing, for every width |
| `Swizzle.ReversedBits` | benchmarks/speedtest1/app/speedtest1.c:317-325 | bit k of the result is bit n - 1 - k of the input, for every width |
| `Swizzle.SwizzleTwice` | benchmarks/speedtest1/app/speedtest1.c:314-325 | swizzle is its own inverse below 2^bitlength(limit) |
| `Swizzle.RoundupAllOnes` | benchmarks/speedtest1/app/speedtest1.c:329-333 | roundup_allones is the least 2^k - 1, k >= 1, that is not below limit, for every 32-bit limit |
| `Swizzle.InsertKeys` | benchmarks/speedtest1/app/speedtest1.c:772-786 | for every table size the key loop binds the swizzled numbers from 1 on, with maxb (line 2493) the least all-ones number that is large enough; they are pairwise distinct and lie between 1 and maxb |
| `Hash.HashContext.constructor` | benchmarks/speedtest1/app/speedtest1.c:166-171 | HashInit: both indices zero and the identity permutation |
| `Hash.HashContext.Update` | benchmarks/speedtest1/app/speedtest1.c:177-195 | HashUpdate takes the context to the byte-by-byte specification Absorb |
| `Hash.HashContext.UpdateByte` | benchmarks/speedtest1/app/speedtest1.c:187-191 | one byte, with wrapping unsigned char arithmetic |
| `Hash.HashContext.Final` | benchmarks/speedtest1/app/speedtest1.c:201-215 | HashFinal leaves the stored indices alone and writes to r[k] the byte emitted from the state after k steps, for each of the 32 |
| `Hash.HashContext.EmitByte` | benchmarks/speedtest1/app/speedtest1.c:207-213 | one output byte and the exchange before it |
| `Hash.AbsorbPermutation` | benchmarks/speedtest1/app/speedtest1.c:177-195 | over any input the 256-byte table stays a permutation |
| `Hash.EmittedPermutation` | benchmarks/speedtest1/app/speedtest1.c:201-215 | also through the output stage |
| `Hash.AbsorbConcat` | benchmarks/speedtest1/app/speedtest1.c:177-195 | an update with a + b is an update with a and then b |
| `Hash.ChunksDoNotMatter` | benchmarks/speedtest1/app/speedtest1.c:174-195 | over any run of updates the state depends only on the concatenated input |
| `Hash.StepReversible` | benchmarks/speedtest1/app/speedtest1.c:187-191 | every byte step can be undone |
| `Hash.AbsorbInjective` | benchmarks/speedtest1/app/speedtest1.c:177-195 | different states stay different under the same input |
| `Hash.OneByteMatters` | benchmarks/speedtest1/app/speedtest1.c:177-195 | inputs of equal length that differ in one byte give different states |
| `Hash.EmitReversible` | benchmarks/speedtest1/app/speedtest1.c:207-213 | every output step can be undone |
| `Hash.EmittedInjective` | benchmarks/speedtest1/app/speedtest1.c:201-215 | states that agree after n output bytes agreed before |
| `Hash.EmittedByte` | benchmarks/speedtest1/app/speedtest1.c:206-213 | byte k of the output is the one emitted from the state after k output steps, however many follow |
| `NumberBuffer.PrintName` | benchmarks/speedtest1/app/speedtest1.c:343-394 | for every n and nOut >= 1 the buffer holds exactly the first min(length, nOut-1) characters of the name, terminated; that length is returned and no byte outside is written, through all recursive calls |
| `NumberBuffer.EmitScaled` | benchmarks/speedtest1/app/speedtest1.c:358-371 | one billion, million or thousand block: space, recursive call and unit extend the text written so far, truncated or not |
| `NumberBuffer.EmitPart` | benchmarks/speedtest1/app/speedtest1.c:352-371 | such a block with its guard |
| `NumberBuffer.EmitTens` | benchmarks/speedtest1/app/speedtest1.c:378-388 | tens and ones |
| `NumberBuffer.EmitGroup` | benchmarks/speedtest1/app/speedtest1.c:372-388 | hundreds, tens and ones of the last group |
| `NumberBuffer.Separate` | benchmarks/speedtest1/app/speedtest1.c:373 | the guarded space never changes what the full text's prefix would be |
| `NumberBuffer.Append` | benchmarks/speedtest1/app/speedtest1.c:354-355 | snprintf at i followed by i += strlen extends the truncated text correctly, also when it no longer fits |
| `NumberBuffer.AppendName` | benchmarks/speedtest1/app/speedtest1.c:353 | the recursive call at an offset |
| `NumberName.ParseName` | benchmarks/speedtest1/app/speedtest1.c:343-394 | an explicit word parser recovers n from the name of every 32-bit n |
| `NumberName.NameInjective` | benchmarks/speedtest1/app/speedtest1.c:343-394 | hence no two numbers have the same name |
| `NumberName.Name123` | benchmarks/speedtest1/app/speedtest1.c:336-342 | the source's example: 123 is one hundred twenty three |
| `NumberName.SmallNames` | benchmarks/speedtest1/app/speedtest1.c:344-347 | the names of 0 to 19 |
| `NumberName.TensNames` | benchmarks/speedtest1/app/speedtest1.c:348-349 | the names of 20, 30, ..., 90 |
| `NumberName.LargestName` | benchmarks/speedtest1/app/speedtest1.c:352-388 | the words of 4294967295, with all units |
| `NumberName.NameLength` | benchmarks/speedtest1/app/speedtest1.c:343-394 | no name has more than 114 characters |
| `NumberBuffer.PrintWholeName` | benchmarks/speedtest1/app/speedtest1.c:731-741 | 115 bytes are enough: the text in zNum is the whole name and n can be read back from it |
| `Leb128.EncodeUint` | wamr/2.4.1/test-tools/append-aot-to-wasm/append_aot_to_wasm.py:18-34 | the encoding loop produces the seven-bit groups of the specification, for every n |
| `Leb128.DecodeUint` | wamr/2.4.1/test-tools/append-aot-to-wasm/append_aot_to_wasm.py:37-54 | the decoding loop gives length and value of the leading number, takes a cut-off number as it is, and fails on empty input |
| `Leb128.EncodeByte` | wamr/2.4.1/test-tools/append-aot-to-wasm/append_aot_to_wasm.py:22-34 | byte k is the k-th group of seven bits, with the top bit set in all bytes but the last, which is not zero |
| `Leb128.DecodeEnd` | wamr/2.4.1/test-tools/append-aot-to-wasm/append_aot_to_wasm.py:44-54 | a number ends at the first byte below 128, or where the bytes end |
| `Leb128.DecodeByte` | wamr/2.4.1/test-tools/append-aot-to-wasm/append_aot_to_wasm.py:42-54 | group k of the value is the low seven bits of byte k, and there are no others |
| `Leb128.DecodeEncode` | wamr/2.4.1/test-tools/append-aot-to-wasm/append_aot_to_wasm.py:18-54 | decode(encode(n) + rest) = (len(encode(n)), n) for every n >= 1 |
| `Leb128.DecodeEncodeIff` | wamr/2.4.1/test-tools/append-aot-to-wasm/append_aot_to_wasm.py:18-54 | decoding what starts with encode(n) gives n back if and only if n >= 1: zero is encoded as nothing, and with nothing behind it there is nothing to decode |
| `Leb128.LengthBounds` | wamr/2.4.1/test-tools/append-aot-to-wasm/append_aot_to_wasm.py:22-34 | an encoding has k bytes exactly between 128^(k-1) and 128^k |
| `CustomSection.CalcPadding` | wamr/2.4.1/test-tools/append-aot-to-wasm/append_aot_to_wasm.py:71-81 | calc_padding returns the first padding below 2 * alignment that aligns the content, and nothing only if none does |
| `CustomSection.AlignedIff` | wamr/2.4.1/test-tools/append-aot-to-wasm/append_aot_to_wasm.py:57-58 | is_aligned is divisibility if and only if the alignment is a power of two |
| `CustomSection.PaddingFound` | wamr/2.4.1/test-tools/append-aot-to-wasm/append_aot_to_wasm.py:71-81 | for alignment 2^k, k <= 7, every start, name length and content length has such a padding |
| `CustomSection.PaddingMissing` | wamr/2.4.1/test-tools/append-aot-to-wasm/append_aot_to_wasm.py:71-81 | for every alignment 2^k, k >= 8, and every name some start below the alignment and some content of less than 512 alignments plus 128 name lengths have none |
| `CustomSection.AlwaysFoundIff` | wamr/2.4.1/test-tools/append-aot-to-wasm/append_aot_to_wasm.py:71-81 | with any name, a power-of-two alignment succeeds for all layouts, and for all layouts within those bounds, if and only if it is at most 128 |
| `CustomSection.GrowsOnce` | wamr/2.4.1/test-tools/append-aot-to-wasm/append_aot_to_wasm.py:76-77 | the section length's encoding grows at most once in the searched range |
| `CustomSection.CreateAligned` | wamr/2.4.1/test-tools/append-aot-to-wasm/append_aot_to_wasm.py:88-125 | create_custom_section_aligned succeeds exactly when name is ASCII and a padding exists; the result is the section laid out with it, a reader finds in it id 0, the name letter by letter, zero padding and the content, the content is aligned, and line 120 never fails |
| `CustomSection.CreateAlignedSmall` | wamr/2.4.1/test-tools/append-aot-to-wasm/append_aot_to_wasm.py:88-125 | with alignment 2^k, k <= 7, and an ASCII name it always succeeds, with the same promises |
| `CustomSection.ContentOffset` | wamr/2.4.1/test-tools/append-aot-to-wasm/append_aot_to_wasm.py:79-120 | the position calc_padding computes is where the built section's content starts |
| `CustomSection.ReadVectorBack` | wamr/2.4.1/test-tools/append-aot-to-wasm/append_aot_to_wasm.py:65-68 | a vector reads back, whatever follows it, the empty one included |
| `CustomSection.ReadBack` | wamr/2.4.1/test-tools/append-aot-to-wasm/append_aot_to_wasm.py:88-125 | reading a built section per sections 5.2.2, 5.5.2 and 5.5.3 of the WebAssembly Core Specification gives id 0, the number of remaining bytes, the name, the zero padding and the content |
| `Packets.PackRequest` | wamr/2021/assembly-script/wamr_app_lib/request.ts:214-241 | pack_request succeeds exactly when the payload covers payload_len and the buffer is not too large, and then yields the specified bytes |
| `Packets.FieldBytes` | wamr/2021/assembly-script/wamr_app_lib/request.ts:222-227 | the bytes of a 16-bit and a 32-bit field by division, most significant first, as DataView writes them by default |
| `Packets.UrlByte` | wamr/2021/assembly-script/wamr_app_lib/request.ts:230-232 | each code unit of the url gives its low byte, the first of a surrogate pair that of the second |
| `Packets.RequestAccepted` | wamr/2021/assembly-script/wamr_app_lib/request.ts:243-268 | which packets unpack_request accepts and which error every other one gets, a sum of lengths that wraps included |
| `Packets.RequestRead` | wamr/2021/assembly-script/wamr_app_lib/request.ts:258-267 | the fields of an accepted request, each from its offset |
| `Packets.PutUrl` | wamr/2021/assembly-script/wamr_app_lib/request.ts:229-232 | the url loop writes the low byte of each code point at its place |
| `Packets.PutPayload` | wamr/2021/assembly-script/wamr_app_lib/request.ts:235-238 | the payload loop copies payload_len bytes behind the url |
| `Packets.UnpackPacked` | wamr/2021/assembly-script/wamr_app_lib/request.ts:214-270 | what unpacking a packed request gives: fields cut to their widths, payload to its declared length |
| `Packets.RequestRoundTrip` | wamr/2021/assembly-script/wamr_app_lib/request.ts:214-270 | unpack(pack(r)) = r for an ASCII url if and only if action and fmt fit, the url is shorter than 65535 and payload_len is the payload's length |
| `Packets.PacketRoundTrip` | wamr/2021/assembly-script/wamr_app_lib/request.ts:214-270 | an accepted packet with an ASCII url repacks to the same bytes if and only if its url field ends in a zero byte |
| `Packets.UnterminatedPacket` | wamr/2021/assembly-script/wamr_app_lib/request.ts:243-270 | such a packet without the zero byte: 18 bytes with an empty url field are accepted and do not repack to themselves |
| `Packets.PackResponse` | wamr/2021/assembly-script/wamr_app_lib/request.ts:272-293 | pack_response, with a null payload left as zeros |
| `Packets.ResponseAccepted` | wamr/2021/assembly-script/wamr_app_lib/request.ts:295-306 | which packets unpack_response accepts and which error every other one gets |
| `Packets.ResponsePacketRoundTrip` | wamr/2021/assembly-script/wamr_app_lib/request.ts:272-319 | a packet is accepted if and only if it has version 1, at least 16 bytes and the declared length, and every accepted one packs to the same bytes again |
| `Packets.UnpackPackedResponse` | wamr/2021/assembly-script/wamr_app_lib/request.ts:272-319 | what unpacking a packed response gives: fields cut to their widths, a null payload as zeros, else the declared bytes |
| `Packets.ResponseRoundTrip` | wamr/2021/assembly-script/wamr_app_lib/request.ts:272-319 | a response survives if and only if status and fmt fit and its payload is present with the declared length |
| `Transactions.Client.constructor` | wamr/2021/assembly-script/wamr_app_lib/request.ts:193 | empty list; g_mid = 0 from line 63 |
| `Transactions.Client.Add` | wamr/2021/assembly-script/wamr_app_lib/request.ts:177-186 | push, and the timer is started on a list that was empty |
| `Transactions.Client.DoRequest` | wamr/2021/assembly-script/wamr_app_lib/request.ts:321-328 | a request takes the next mid even if packing throws, and joins the list and is posted only if it does not |
| `Transactions.Client.PublishEvent` | wamr/2021/assembly-script/wamr_app_lib/request.ts:409-416 | an event takes a mid, posted or not, and leaves the list and the count of transactions as they are |
| `Transactions.Client.Find` | wamr/2021/assembly-script/wamr_app_lib/request.ts:169-175 | the first entry with the mid |
| `Transactions.Client.OnResponse` | wamr/2021/assembly-script/wamr_app_lib/request.ts:473-494 | on_response after unpacking: timer step and callback; nothing leaves the list |
| `Transactions.Client.OnTimeout` | wamr/2021/assembly-script/wamr_app_lib/request.ts:143-167 | the sweep with a clock read anew at each test: two filters, callbacks with removal, timer step |
| `Transactions.ElapsedIs` | wamr/2021/assembly-script/wamr_app_lib/request.ts:125-132 | elapsed time is (now - time) mod 2^32 |
| `Transactions.ExpireIs` | wamr/2021/assembly-script/wamr_app_lib/request.ts:125-141 | an entry is expired once (now - time) mod 2^32 has reached 5000; not_expire is the same test |
| `Transactions.StepExact` | wamr/2021/assembly-script/wamr_app_lib/request.ts:321-416 | what every entry but a sweep does to list, count, mid and log: only a request that packs adds a transaction, with its mid and time; requests and events use up a mid even when they do not pack |
| `Transactions.SweepTimer` | wamr/2021/assembly-script/wamr_app_lib/request.ts:154-166 | a sweep cancels the timer on an empty list and else restarts it with what is left of the first entry's 5000 milliseconds |
| `Transactions.StepOrdered` | wamr/2021/assembly-script/wamr_app_lib/request.ts:143-191 | every step under every clock keeps mids increasing and below g_mid until it wraps |
| `Transactions.RunOrdered` | wamr/2021/assembly-script/wamr_app_lib/request.ts:143-191 | so they strictly increase along the list over every run of fewer than 2^31 - 1 steps |
| `Transactions.MidsNeverRepeat` | wamr/2021/assembly-script/wamr_app_lib/request.ts:365-416 | over every such run no two messages posted carry the same mid |
| `Transactions.StepSends` | wamr/2021/assembly-script/wamr_app_lib/request.ts:321-328 | each step posts nothing, or one message with the current g_mid |
| `Transactions.ResponseReachesOne` | wamr/2021/assembly-script/wamr_app_lib/request.ts:473-494 | a response calls back the one transaction with its mid, leaves the list as it is, and does nothing without one |
| `Transactions.FiltersAgree` | wamr/2021/assembly-script/wamr_app_lib/request.ts:125-141 | not_expire keeps the same entries as is_expire |
| `Transactions.SweepCallbacks` | wamr/2021/assembly-script/wamr_app_lib/request.ts:143-152 | a sweep gives null, one after the other in list order and once each, to exactly the entries expired at their first reading |
| `Transactions.SweepSurvivors` | wamr/2021/assembly-script/wamr_app_lib/request.ts:143-152 | under any clock the list afterwards is the entries that expired between their two readings, less as many from the end as callbacks did not find their entry |
| `Transactions.SurvivorsExactIff` | wamr/2021/assembly-script/wamr_app_lib/request.ts:143-152 | all those entries stay if and only if no entry stops being expired between the two filters, or none starts |
| `Transactions.SurvivesIff` | wamr/2021/assembly-script/wamr_app_lib/request.ts:143-152 | an entry stays only if it expired between its readings, and that is enough for every entry under exactly the same condition |
| `Transactions.LostEntry` | wamr/2021/assembly-script/wamr_app_lib/request.ts:143-152 | otherwise some entry that expired between its readings is dropped without a callback |
| `Transactions.RemovedForAnother` | wamr/2021/assembly-script/wamr_app_lib/request.ts:143-152 | a run in which that happens, on a clock that moves forward by one tick |
| `Transactions.RemoveExactIff` | wamr/2021/assembly-script/wamr_app_lib/request.ts:188-191 | transaction_remove takes out its argument and nothing else if and only if the argument is there or the list is empty; otherwise it takes out the last entry |
| `Transactions.RemoveAllIs` | wamr/2021/assembly-script/wamr_app_lib/request.ts:149-152 | what any run of removals leaves, absent entries included |
| `Transactions.FixedClockSweep` | wamr/2021/assembly-script/wamr_app_lib/request.ts:143-167 | with a fixed clock the list ends empty and the timer is cancelled: unexpired entries are dropped without a callback |
| `Transactions.AnsweredStillTimesOut` | wamr/2021/assembly-script/wamr_app_lib/request.ts:143-152 | an answered transaction is called back again, with null, by the sweep that finds it expired |
| `Transactions.NullIsLast` | wamr/2021/assembly-script/wamr_app_lib/request.ts:143-191 | over every run, of any length and under any clock, null is given to a transaction at most once and no callback follows it |
| `Transactions.SweepGone` | wamr/2021/assembly-script/wamr_app_lib/request.ts:147-152 | under any clock whoever a sweep calls back has left the list |
| `Transactions.RemoveGone` | wamr/2021/assembly-script/wamr_app_lib/request.ts:188-191 | transaction_remove never leaves its argument in the list and adds nothing |
| `Transactions.TimersStep` | wamr/2021/assembly-script/wamr_app_lib/timer.ts:38-66 | what each step does to timer_list: setTimeout adds a timer on an empty list only, timer_cancel takes it out after a response to the only entry or a sweep that empties the list, timer_restart never changes it |
| `Transactions.TimerAfter` | wamr/2021/assembly-script/wamr_app_lib/timer.ts:52-80 | when on_timer_callback can still reach the sweep after a step; a timer that was cancelled is not brought back by timer_restart |
| `Transactions.OneTimer` | wamr/2021/assembly-script/wamr_app_lib/timer.ts:18-62 | over every run timer_list holds the sweep timer that g_trans_timer refers to, or none |
| `Transactions.ArmedMeansWaiting` | wamr/2021/assembly-script/wamr_app_lib/request.ts:143-191 | over every run a timer in timer_list means that the list is not empty |
| `Transactions.TimerLostIff` | wamr/2021/assembly-script/wamr_app_lib/request.ts:473-494 | a step leaves a waiting list without its timer exactly when it is a response to the only entry |
| `Transactions.LossIsPermanent` | wamr/2021/assembly-script/wamr_app_lib/request.ts:143-191 | afterwards, in every continuation, the timer does not come back, every waiting request stays in the list and none is called back with null |
| `Transactions.StuckIff` | wamr/2021/assembly-script/wamr_app_lib/request.ts:143-191 | over every run in which sweeps happen only through a timer in timer_list, requests wait without a timer if and only if some response met a list with no other entry |
| `Transactions.WaitingWithoutTimer` | wamr/2021/assembly-script/wamr_app_lib/request.ts:473-494 | such a run, ending with a restart of the timer that is gone |
| `PerfMap.SortFuncPtrs` | wamr/2.4.1/core/iwasm/aot/aot_perf_map.c:45-69 | null exactly when allocation fails, else the functions sorted by address, each once |
| `PerfMap.Compare` | wamr/2.4.1/core/iwasm/aot/aot_perf_map.c:31-43 | compare_func_ptrs orders by address |
| `PerfMap.EveryFunctionOnce` | wamr/2.4.1/core/iwasm/aot/aot_perf_map.c:60-66 | the sorted entries are a permutation of all function indices with their pointers |
| `PerfMap.SizeExactIff` | wamr/2.4.1/core/iwasm/aot/aot_perf_map.c:15-29 | a size is the true distance if and only if that is not negative and fits 32 bits |
| `PerfMap.RangesTile` | wamr/2.4.1/core/iwasm/aot/aot_perf_map.c:15-29 | with pointers in the code region each range ends where the next begins, the last at the code end |
| `PerfMap.SizesSum` | wamr/2.4.1/core/iwasm/aot/aot_perf_map.c:97-112 | the sizes sum to the span from the lowest pointer to the code end |
| `PerfMap.CoveredOnce` | wamr/2.4.1/core/iwasm/aot/aot_perf_map.c:97-112 | every address of that span lies in exactly one range |

## Left out

- `freebsd_atan`, the commented-out `atan2` and `pow`: polynomial error analysis.
- `fminf`, `fmaxf`, `fabs`, `isnan`, `signbit` and the float versions of floor, ceil, rint and trunc: easy or repeated members.
- Sqrt.SqrtDouble: on infinities and NaNs `x * x + x` and `(x - x) / (x - x)` are given by their class, so NaN payloads and exception flags are not modelled.
- Sqrt.SqrtFloat: likewise for NaN payloads; the probes are evaluated in double as the constants are declared.
- Integral.FloorDouble: `x + x` on a NaN gives a quiet NaN without its payload, here and in ceil, rint, trunc and scalbn.
- Scalbn.ScalbnDouble: `k + n` beyond 32 bits is undefined in C; it is modelled as the two's-complement wrap that line 1217 expects.
- SQLite calls, SQL text, option parsing, timing and the other test sets of `speedtest1.c`; writing hash input to a file.
- NumberBuffer.Append: `sqlite3_snprintf` and `strlen` are modelled by small methods of their own, not by their library code.
- CustomSection.AlwaysFoundIff: speaks of powers of two only; for other alignments CreateAligned still states exactly when it succeeds.
- CustomSection.CreateAligned: the 32-bit limit that WebAssembly puts on a section size is not checked by the script and not modelled; printing and file access are left out.
- Packets.PackRequest: urls have fewer than 2^30 code units and the largest buffer is a parameter, as AssemblyScript's runtime has such limits.
- Packets.RequestRoundTrip: the UTF-8 decoder is a parameter of which only its behaviour on ASCII is used.
- Transactions.Client.OnTimeout: callbacks do not call back into the module; the conversion of timer intervals to i32 is outside, timer calls being recorded as events.
- Transactions.TimersStep: `timer_list` is modelled for the sweep's own timers, which the host is taken to give different ids; other timers of the application, and when the host fires, are outside.
- `on_request` dispatch, `registe_url_handler` and the resource list: a linear search with easy properties.
- PerfMap.SortFuncPtrs: an insertion sort stands for `qsort`; the lemmas hold for any result that is sorted and has the same entries.
- PerfMap.RangesTile: addresses are unbounded naturals, so a code region that wraps around the address space is not modelled; formatting and writing the map lines are left out.
- TEE hosts, attestation, ONNX drivers, compiler options, build scripts: thin wrappers and configuration.

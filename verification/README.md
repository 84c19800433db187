# Verified kernels of Midnight-ZK

A Dafny model of the arithmetic and protocol kernels of Midnight-ZK, with proofs that each one computes
what its specification says, for all inputs:

- **Multi-scalar multiplication** (`Booth`, `CurveModel`, `CurveLaw`, `BatchAddition`, `Scheduler`, `MsmSpec`,
  `Msm`): Booth recoding, the law of chord-and-tangent addition, Montgomery-trick batch addition of affine points,
  the batching scheduler, summation by parts, window and chunk splitting. The result is the naive sum of scalar
  times base.
- **Fast Fourier transform** (`FftSpec`, `FftInverse`, `Fft`): in-place bit reversal and both butterfly
  branches equal the discrete Fourier transform, which the inverse root undoes.
- **Foreign-field parameters** (`LimbSums`, `LimbExtremes`, `Divisibility`, `RangeCost`, `ForeignParams`,
  `ParamsExample`): the ranges that the generator script computes make equations modulo the native prime
  equivalent to an equation modulo the emulated prime, and its bounds and thresholds are exact.
- **Foreign-field curve chip** (`EccGates`): the slope, lambda-squared and tangent gates with such parameters
  can be satisfied exactly by the sum of two points.
- **Big-integer gadget** (`BigNat`, `LimbBounds`, `ProductBounds`, `Circuits`, `BigUint`, `BigUintMul`,
  `BigUintDiv`, `BigUintExp`, `BigUintExamples`): every satisfying assignment of a gadget has the integer result,
  and the honest assignment satisfies it.
- **Inner product argument and batch verification** (`IpaSpec`, `Ipa`, `IpaTranscript`, `IpaSoundness`,
  `IpaBinding`, `Polynomials`, `BatchVerify`): folding algebra over a transcript, what its challenges are bound
  to, extraction of a witness from accepting transcripts, and a random linear combination with a root-counting
  argument.
- **Incrementally verifiable computation** (`Accumulators`, `Ivc`, `IvcGenesis`): safety of acceptance and liveness of
  honest runs in a symbolic model of proofs.
- **Hash to curve** (`ExpandMessage`, `Sswu`, `Svdw`): message expansion, the simplified SWU map and the
  Shallue-van de Woestijne map against RFC 9380.

`Algebra` and `Numbers` hold the shared algebra: groups, fields and vector spaces are records of operations,
their laws are hypotheses (`IsGroup`, `IsField`, `IsSpace`), and a law is used only where a lemma names it.
`Consistency` and `SmallField` show that the hypotheses on fields, spaces, curves, roots of unity, hash-to-curve
settings, reductions modulo q and the symbolic proof system can be met.

Run `dafny verify dfyconfig.toml` to check everything.

## Reading guide

- **Curve points** are elements of an abstract abelian group with coordinates; addition in coordinates is the
  chord and tangent rule for `y^2 = x^3 + b` (`CurveModel.IsCurve`). Associativity is a hypothesis. What the rule
  computes is proved from the field laws alone: `CurveLaw.IsSum` says it without a slope.
- **Circuits.** A `Circuit` object is one assignment of the circuit's cells. Cells that a gate computes hold
  the value the gate forces; free cells hold what the assignment says (any function of the cell), or, when
  the assignment is honest, what the prover code computes. `sat` records whether all constraints hold. A
  gadget is one method; its contract says what `sat` implies about the result for every assignment, and that
  an honest assignment keeps `sat`. A result `None` is a panic of the code, and contracts say when it occurs.
- **Symbolic proofs.** A proof is a finite term that carries the key and the witness it was made from.
  `Ivc.Sound` idealises knowledge soundness and Fiat-Shamir challenges, `Ivc.Complete` idealises completeness;
  both are explicit hypotheses. `Accumulators.AtMostOneBadChallenge` proves how little the challenge
  hypothesis asks for.

## Results where the code and its description differ

- `msm_serial` is documented to panic on inputs of different lengths; it zips them. `Msm.MsmSerial` states the
  sum over the shorter length, the exact result for an accumulator that is not the identity on entry, and that
  the documented outcome is met if and only if the lengths agree; `Msm.SerialOfUnequalLengths` is a failing
  input.
- `mul` of the big-integer gadget squares its first operand when the operands compare equal, and that
  comparison zips the limb cells. `BigUintMul.Mul` states what is returned, `BigUintMul.MulIsProduct` proves
  exactly when that is the product, and `BigUintExamples.MulOfSharedConstants` builds two constants for which
  it is not: equal constant limbs share a cell.
- `mod_exp` is documented to return `x^n % m`; for `n == 0` and `n == 1` it returns `1` and `x` unreduced. The
  last clause of `BigUintExp.ModExp` says exactly when the result is the power modulo m, and
  `BigUintExamples.ModExpUnreduced` is an input for each failing case.
- `expand_message` lacks the aborts of section 5.3.1 of RFC 9380 for more than 255 blocks and for more than
  65535 bytes. A build with overflow checks panics on more than 255 blocks (the block index overflows a byte)
  and on an empty output (`ell - 1` underflows); a build without them wraps around. The last clause of
  `ExpandMessage.Expand` says, for both builds, exactly when the outcome is that of the standard, and
  `ExpandMessage.ExpandDifferences` is an input for each failing case.
- The IVC prover recognises genesis by its empty proof, the circuit by its state. After a transition back to
  genesis the next step satisfies the circuit only under the condition of `IvcGenesis.AfterReturn`;
  `Consistency.ReturnToGenesisStalls` is a run in which it does not.
- The curve chip argues that doubling is sound because there are no points of order three; `EccGates.AssertDouble`
  does not need that. It does need that 2, 3 and b are not zero in the field.
- The foreign-field theorem does not need the native prime to be among the moduli; `ForeignParams.GateTheorem`
  holds for every list of positive moduli.

## Model

| member | source | states |
|---|---|---|
| `Booth.GetBoothIndex` | curves/src/msm.rs:13-55 | the bit manipulation on a 32-bit word returns the signed digit of the scalar's window, within plus or minus 2^(c-1), bytes past the end counting as zero |
| `Booth.RecodingTheorem` | curves/src/msm.rs:13-22 | the digits weighted by 2^(c*i) sum to the scalar once the windows exceed its bits |
| `Booth.WindowCountSuffices` | curves/src/msm.rs:363-363 | the window count bits / c + 1 that both callers use is enough |
| `Booth.DigitsPastTheTop` | curves/src/msm.rs:27-31 | windows above the scalar have digit zero |
| `Numbers.FromLeDigits` | curves/src/msm.rs:27-31 | a byte stands for itself, and appending a byte adds it times 256 to the length |
| `CurveLaw.LineMeetsCurve` | curves/src/msm.rs:134-141 | the line of the slope meets the curve exactly at the two operands and at x_result: x^3 + b - line(x)^2 = (x - x1)(x - x2)(x - x3) for every x |
| `CurveLaw.ChordTangentIsSum` | curves/src/msm.rs:88-141 | from the field laws alone, chord-and-tangent addition of points of the curve gives a point of the curve whose reflection is on the line through the operands, the tangent if they agree, with the right sum of abscissas; opposite points cancel |
| `CurveLaw.SumIsUnique` | curves/src/msm.rs:88-141 | these equations determine the result |
| `SmallField.SixPointsAreACurve` | curves/src/msm.rs:58-144 | the six points of y^2 = x^3 + 1 over the field of five elements meet all hypotheses on curves |
| `BatchAddition.BatchAdd` | curves/src/msm.rs:58-144 | every scheduled bucket that is not empty becomes the sum of the bucket and plus or minus the base, in the slope-free sense of CurveLaw.IsSum, doubling and cancellation included; other buckets are untouched, and the single inversion fails exactly when an entry doubles a point of order two |
| `BatchAddition.PrefixZero` | curves/src/msm.rs:93-115 | the running product of denominators is zero only through a doubling of a two-torsion point |
| `Scheduler.Schedule.constructor` | curves/src/msm.rs:296-308 | empty buckets, an empty schedule |
| `Scheduler.Schedule.Contains` | curves/src/msm.rs:311-313 | whether a bucket has a scheduled point |
| `Scheduler.Schedule.Execute` | curves/src/msm.rs:315-321 | a flush moves every pending point into its bucket, losing none, and restores the invariant that scheduled buckets are distinct and non-empty |
| `Scheduler.Schedule.Add` | curves/src/msm.rs:323-332 | bucket plus pending points grows by exactly the signed point at its index, also across a flush |
| `Scheduler.FlushKeepsTotals` | curves/src/msm.rs:314-332 | batch addition turns pending totals into bucket values for every bucket |
| `Msm.RouteWindow` | curves/src/msm.rs:489-517 | after a window, affine bucket plus Jacobian bucket is the signed sum of the points routed to that index |
| `Msm.BestWindow` | curves/src/msm.rs:488-529 | one window's accumulator is its digit sum shifted to its position |
| `MsmSpec.PartsOfRouted` | curves/src/msm.rs:412-421 | summation by parts over buckets equals the digit-weighted sum of the points |
| `MsmSpec.WindowsReassemble` | curves/src/msm.rs:525-530 | shifted window sums add up to the naive sum |
| `MsmSpec.HornerIsShifted` | curves/src/msm.rs:366-371 | doubling between windows is the same as shifting each window |
| `Msm.MaxByteSize` | curves/src/msm.rs:349-359 | the or-mask finds the highest byte in use among all scalars |
| `Numbers.OrBit` | curves/src/msm.rs:349-356 | a bit of the mask is set exactly when it is set in an operand |
| `Msm.MsmSerial` | curves/src/msm.rs:335-423 | naive sum over the shorter length plus a power of two times the initial accumulator, its exponent given by the window size and the least byte count of the scalars; the power is one exactly when all scalars are zero, and the documented outcome is met exactly when the lengths agree |
| `Msm.SerialOfUnequalLengths` | curves/src/msm.rs:335-423 | one scalar against two bases returns the first base where a panic is documented |
| `Msm.MsmParallel` | curves/src/msm.rs:430-456 | naive sum, for every thread count and chunking |
| `Msm.FilterIdentities` | curves/src/msm.rs:478-483 | dropping identity bases keeps the naive sum |
| `Msm.MsmBest` | curves/src/msm.rs:460-532 | naive sum, for every window size from 1 to 24 and every thread count |
| `Fft.BitReverse` | curves/src/fft.rs:32-39 | reverses the low bits of an index |
| `FftSpec.ReverseReverse` | curves/src/fft.rs:32-39 | bit reversal is an involution |
| `Fft.BitReversal` | curves/src/fft.rs:46-51 | the array is permuted by bit reversal, each pair swapped once |
| `Fft.Twiddles` | curves/src/fft.rs:54-60 | the table holds the powers of omega |
| `Fft.CombineLayer` | curves/src/fft.rs:66-84 | one butterfly layer on a block, every twiddle index in bounds |
| `Fft.IterativeButterfly` | curves/src/fft.rs:63-87 | the iterative branch computes the recursive butterfly specification |
| `Fft.RecursiveButterfly` | curves/src/fft.rs:94-128 | the in-place recursion on slices computes the same specification |
| `FftSpec.FlyIsEval` | curves/src/fft.rs:21-31 | butterflies on bit-reversed coefficients evaluate the polynomial at each power of omega |
| `Fft.BestFft` | curves/src/fft.rs:31-91 | the array becomes its discrete Fourier transform, in both branches |
| `FftInverse.InverseDft` | curves/src/fft.rs:24-28 | transforming with omega and then its inverse multiplies by n |
| `FftInverse.SizeInvertible` | curves/src/fft.rs:26-28 | n is invertible in a field with a root of unity of order n = 2^k |
| `SmallField.TwoHasOrderFour` | curves/src/fft.rs:24-28 | a root of unity of order 4 exists in the field of five elements |
| `Fft.RoundTrip` | curves/src/fft.rs:21-31 | forward, inverse and division by n restore every array |
| `Divisibility.Lcm` | circuits/scripts/foreign_params_gen.py:31-35 | the loop computes the prefix least common multiple |
| `Divisibility.LcmIsLeast` | circuits/scripts/foreign_params_gen.py:31-35 | a number is a multiple of the result exactly when every member divides it |
| `RangeCost.CostTable.CostRangeCheck` | circuits/scripts/foreign_params_gen.py:300-326 | the memoised recursion computes the cost and keeps the table right |
| `RangeCost.CostIsLowerBound` | circuits/scripts/foreign_params_gen.py:298-326 | no decomposition into supported rows uses fewer rows than the cost |
| `RangeCost.CostIsAttained` | circuits/scripts/foreign_params_gen.py:298-326 | some decomposition uses exactly that many rows |
| `RangeCost.OneRowWhen` | circuits/scripts/foreign_params_gen.py:23-23 | one row suffices exactly for one to four lookups of equal width |
| `RangeCost.CostOfNoLookups` | circuits/scripts/foreign_params_gen.py:314-326 | without any lookup the cost is one more than the number of bits |
| `RangeCost.BinLengthMeaning` | circuits/scripts/foreign_params_gen.py:44-44 | the first exponent is the length of bin(x - 1) without its prefix, exactly, sign included |
| `RangeCost.PickLogIsGreedy` | circuits/scripts/foreign_params_gen.py:46-50 | what the search keeps is no more expensive than any candidate, and it moves only to a strictly cheaper one |
| `RangeCost.NextCheapestPowerOf2` | circuits/scripts/foreign_params_gen.py:43-51 | the loop returns the power of two that the moving search picks |
| `RangeCost.NextCheapestCovers` | circuits/scripts/foreign_params_gen.py:43-51 | that power is at least x and its range check is no more expensive than that of the tightest one |
| `LimbSums.ExprInBounds` | circuits/scripts/foreign_params_gen.py:53-188 | the four bound pairs contain the expression for all limbs in range |
| `LimbExtremes.BoundsAttained` | circuits/scripts/foreign_params_gen.py:53-188 | for every gate, limbs in range reach the lower and the upper bound, so no bound can be tightened |
| `LimbSums.ExprIsMeaning` | circuits/scripts/foreign_params_gen.py:53-188 | with unreduced powers the expression is the intended identity between the represented numbers |
| `LimbSums.ExprCong` | circuits/scripts/foreign_params_gen.py:53-188 | reducing the coefficients keeps the expression modulo m |
| `ForeignParams.AuxSound` | circuits/scripts/foreign_params_gen.py:247-282 | an auxiliary equation modulo p is an integer equation, so its modulus divides the main value |
| `ForeignParams.AuxComplete` | circuits/scripts/foreign_params_gen.py:247-271 | a zero main value has a quotient in the auxiliary range |
| `ForeignParams.Sound` | circuits/scripts/foreign_params_gen.py:223-242 | in-range solutions of all equations force the expression to be a multiple of q |
| `ForeignParams.Complete` | circuits/scripts/foreign_params_gen.py:208-221 | a multiple of q has in-range solutions of all equations |
| `ForeignParams.GateTheorem` | circuits/scripts/foreign_params_gen.py:193-273 | for valid parameters and limbs in range, the checked equations are satisfiable if and only if the intended identity holds modulo q, for each of the four gates |
| `ForeignParams.MainRangeMeaning` | circuits/scripts/foreign_params_gen.py:213-222 | the n integers from k_min on are exactly the quotients that can occur, and u_max is the power chosen for n |
| `ForeignParams.AuxRangeMeaning` | circuits/scripts/foreign_params_gen.py:262-268 | the n integers from l_min on contain every quotient of an auxiliary expression, v_max is the power chosen for n, and they are exactly the quotients if and only if the expression can be zero or less |
| `ForeignParams.LcmFitsExactly` | circuits/scripts/foreign_params_gen.py:224-231 | the main threshold holds if and only if no limbs and no u up to u_max give the main value lcm or more, either way |
| `ForeignParams.AuxFitsExactly` | circuits/scripts/foreign_params_gen.py:273-282 | an auxiliary threshold holds if and only if no limbs, u up to u_max and v up to v_max reach p, either way |
| `ForeignParams.Params.Init` | circuits/scripts/foreign_params_gen.py:195-287 | fails exactly when no limbs make the expression negative; otherwise the ranges are as specified, the three reports are exactly whether some main value reaches the lcm and some auxiliary value reaches p, and a valid report gives the equivalence for all limbs |
| `ParamsExample.SmallParameters` | circuits/scripts/foreign_params_gen.py:195-287 | multiplication modulo 2 with one one-bit limb over the native prime 7 is reported valid with k_min 0 and u_max 2 |
| `EccGates.AddEquations` | circuits/src/ecc/foreign/ecc_chip.rs:1308-1374 | slope, lambda-squared and negated-slope equations force the sum of two different points |
| `EccGates.DoubleEquations` | circuits/src/ecc/foreign/ecc_chip.rs:1226-1279 | tangent, lambda-squared and negated-slope equations force twice the point |
| `EccGates.AssertAdd` | circuits/src/ecc/foreign/ecc_chip.rs:1281-1374 | for limbs of different affine points and gates with valid parameters, the constraints can be met if and only if r is the sum, so never for opposite points |
| `EccGates.AssertDouble` | circuits/src/ecc/foreign/ecc_chip.rs:1213-1279 | the constraints can be met if and only if r is twice p |
| `SmallField.RemIsReduction` | circuits/src/ecc/foreign/ecc_chip.rs:1281-1374 | the hypothesis on reductions modulo q can be met |
| `BigNat.BoundIsLeast` | circuits/src/biguint/types.rs:138-152 | the tracked bound of a sum is the least sound one |
| `BigNat.BaseValue` | circuits/src/biguint/types.rs:39-39 | the base is 2^96, as a literal |
| `BigNat.NbBitsIsLeast` | circuits/src/biguint/types.rs:114-129 | the derived bit count is the least one that holds every number within the limb bounds |
| `BigNat.OutLimbsIsLeast` | circuits/src/biguint/biguint_gadget.rs:732-736 | normalization produces the least number of limbs that holds every number within the bounds |
| `BigNat.ValueFits` | circuits/src/biguint/types.rs:114-129 | every number within its limb bounds fits the derived bit count |
| `BigNat.OutLimbsEnough` | circuits/src/biguint/biguint_gadget.rs:732-736 | with non-zero bounds the resizing inside normalization cannot panic |
| `BigNat.FromLimbsIsValue` | circuits/src/field/foreign/util.rs:130-132 | the fold from the top limb is the weighted sum of limbs |
| `LimbBounds.BigToLimbs` | circuits/src/field/foreign/util.rs:111-126 | base-2^96 digits of the value; panics exactly when it does not fit |
| `LimbBounds.BitsBoundsMeaning` | circuits/src/biguint/biguint_gadget.rs:694-698 | limbs are within the bounds of nbBits bits exactly when the number is below 2^nbBits |
| `LimbBounds.CarryRecurrence` | circuits/src/biguint/biguint_gadget.rs:740-757 | the tracked payload and carry bounds are the least sound ones at every limb |
| `LimbBounds.NormalizedMeaning` | circuits/src/biguint/biguint_gadget.rs:722-731 | bounds count as normalized exactly when all limbs within them are below the base |
| `LimbBounds.NormBoundsMeaning` | circuits/src/biguint/biguint_gadget.rs:722-767 | normalized bounds are kept; otherwise the least sufficient number of limbs is bounded by 96 bits each |
| `LimbBounds.PaddedMeaning` | circuits/src/biguint/biguint_gadget.rs:775-789 | the bounds of a resized number admit exactly its limbs followed by zeros |
| `LimbBounds.NormFitsWhen` | circuits/src/biguint/biguint_gadget.rs:744-747 | bounds two bits under the native size never overflow, a bound of the native size always does |
| `BigUint.DivRemNativeByBase` | circuits/src/biguint/biguint_gadget.rs:865-898 | the field equation is the integer division by 2^96 |
| `BigUint.Resize` | circuits/src/biguint/biguint_gadget.rs:775-789 | zero padding keeps the value; panics exactly on too many limbs |
| `BigUint.Normalize` | circuits/src/biguint/biguint_gadget.rs:722-767 | same value, limbs below the base, panic exactly on overflow, honest assignment satisfies it |
| `BigUint.ChainEnd` | circuits/src/biguint/biguint_gadget.rs:759-766 | the final carry of the chain is zero and the value is kept |
| `BigUint.AddBoundsIsLeast` | circuits/src/biguint/biguint_gadget.rs:341-375 | each bound of a sum is the least one for its two limbs |
| `BigUint.Add` | circuits/src/biguint/biguint_gadget.rs:341-375 | the result is the integer sum without wraparound |
| `BigUintMul.Square` | circuits/src/biguint/biguint_gadget.rs:449-503 | the result is the integer square |
| `BigUintMul.Mul` | circuits/src/biguint/biguint_gadget.rs:401-446 | the integer product, or the square of x when the operands compare equal |
| `BigUintMul.MulIsProduct` | circuits/src/biguint/types.rs:96-101 | that is the product unless one operand is a proper cell prefix of the other with a non-zero excess and x is not zero |
| `BigUintMul.MulPrefixExample` | circuits/src/biguint/types.rs:96-101 | operands of one circuit for which it is not the product |
| `BigUintExamples.MulOfSharedConstants` | circuits/src/biguint/biguint_gadget.rs:401-412 | multiplying the constants 3 and 3 + 2^96 does not panic and returns 9 |
| `ProductBounds.ProductColumn` | circuits/src/biguint/biguint_gadget.rs:423-438 | the bound of a product column is the sum, in the tracked sense, of the bounds of its terms |
| `ProductBounds.SquareColumn` | circuits/src/biguint/biguint_gadget.rs:463-495 | the same for a square column, terms off the diagonal counted twice |
| `ProductBounds.ProductSmall` | circuits/src/biguint/biguint_gadget.rs:423-438 | a product column grows by at most one bit per term |
| `ProductBounds.SquareSmall` | circuits/src/biguint/biguint_gadget.rs:463-495 | a square column grows by at most one bit per row |
| `BigUintDiv.AssertEqual` | circuits/src/biguint/biguint_gadget.rs:84-103 | satisfied exactly when the values are equal; panics exactly on operands that are not normalized |
| `BigUintDiv.GeqFoldIsOrder` | circuits/src/biguint/biguint_gadget.rs:831-842 | the fold from the least significant limb decides integer order |
| `BigUintDiv.Geq` | circuits/src/biguint/biguint_gadget.rs:817-843 | the bit is x >= y over the integers |
| `BigUintDiv.AssertLowerThan` | circuits/src/biguint/biguint_gadget.rs:846-854 | satisfied exactly when x < y |
| `BigUintDiv.AssignBounded` | circuits/src/biguint/biguint_gadget.rs:688-718 | a free number below 2^nbBits; the honest one is the given value, satisfiable exactly when it fits |
| `BigUintDiv.Sub` | circuits/src/biguint/biguint_gadget.rs:382-398 | the result is x - y, the constraints are satisfiable exactly when y <= x, and the panic condition is exact |
| `BigUintDiv.SubFitsWhen` | circuits/src/biguint/biguint_gadget.rs:382-398 | normalized operands never make it panic |
| `BigUintDiv.CheckEuclid` | circuits/src/biguint/biguint_gadget.rs:520-524 | the constraints are x = q * y + r and r < y over the integers |
| `BigUintDiv.DivRem` | circuits/src/biguint/biguint_gadget.rs:509-527 | the unique quotient and remainder, unsatisfiable for y = 0 |
| `BigUintExp.DivRemFitsWhen` | circuits/src/biguint/biguint_gadget.rs:509-527 | division does not overflow when the divisor has at most NUM_BITS - 194 limbs |
| `BigUintExp.AssignFixedBigUint` | circuits/src/biguint/biguint_gadget.rs:286-309 | a constant has its own value and bounds |
| `BigUintExp.ModMul` | circuits/src/biguint/biguint_gadget.rs:792-801 | the product modulo m (the square if the operands compare equal), with the exact panic condition |
| `BigUintExp.ModSquare` | circuits/src/biguint/biguint_gadget.rs:805-813 | the square modulo m, with the exact panic condition |
| `BigUintExp.ModExp` | circuits/src/biguint/biguint_gadget.rs:530-562 | x^n mod m for n >= 2, one for n = 0, x itself for n = 1, exactly when that is x^n mod m, and exactly when it panics |
| `BigUintExp.IsPowerWhen` | circuits/src/biguint/biguint_gadget.rs:529-562 | a result of those three cases is x^n mod m if and only if n >= 2, or n = 0 and m > 1, or n = 1 and x < m |
| `BigUintExp.ExpFitsWhen` | circuits/src/biguint/biguint_gadget.rs:530-562 | operands of at most NUM_BITS - 194 limbs never make it panic |
| `BigUintExamples.ModExpUnreduced` | circuits/src/biguint/biguint_gadget.rs:537-554 | 5^1 modulo 3 returns 5 and 5^0 modulo 1 returns 1 |
| `IpaSpec.FoldRound` | aggregation/src/light_aggregator/inner_product_argument.rs:68-81 | folding both vectors changes their inner product by u^2 L + u^-2 R only |
| `IpaSpec.HonestInner` | aggregation/src/light_aggregator/inner_product_argument.rs:65-82 | the same over all rounds, for vectors of any power-of-two length |
| `IpaSpec.ExpandInner` | aggregation/src/light_aggregator/inner_product_argument.rs:152-159 | the verifier's expanded scalars on the bases equal the scalar on the folded base |
| `Ipa.Log2Complete` | aggregation/src/light_aggregator/inner_product_argument.rs:55-56 | every power of two passes the length check with its exponent |
| `Ipa.AbsorbStatement` | aggregation/src/light_aggregator/inner_product_argument.rs:115-122 | the batching challenge is drawn from a log that extends the earlier one by exactly the points of both base vectors, res1 and res2 |
| `IpaTranscript.StatementIsBound` | aggregation/src/light_aggregator/inner_product_argument.rs:115-122 | equal logs force equal statements, for base vectors of equal length |
| `IpaTranscript.ChallengeIsBound` | aggregation/src/light_aggregator/inner_product_argument.rs:135-141 | the challenge of a round is drawn after the statement, all earlier rounds and exactly its own two cross terms |
| `Ipa.IpaProve` | aggregation/src/light_aggregator/inner_product_argument.rs:40-90 | what an honest run writes; fails exactly on bad lengths or a zero challenge |
| `Ipa.FinalSum` | aggregation/src/light_aggregator/inner_product_argument.rs:163-177 | the verifier's multi-scalar multiplication vanishes exactly when its documented equation holds |
| `Ipa.IpaVerify` | aggregation/src/light_aggregator/inner_product_argument.rs:99-180 | for every proof: the outcome that its messages determine, acceptance being that equation |
| `IpaTranscript.AcceptedExactly` | aggregation/src/light_aggregator/inner_product_argument.rs:99-180 | a proof is accepted if and only if it consists of k rounds with challenges from the transcript, none zero, and a scalar, and the equation holds |
| `IpaTranscript.ProofOutcome` | aggregation/src/light_aggregator/inner_product_argument.rs:135-180 | a proof that breaks off is a read error, a zero challenge panics, and otherwise the equation decides |
| `IpaTranscript.BadLengths` | aggregation/src/light_aggregator/inner_product_argument.rs:111-113 | lengths that differ or are not a power of two panic |
| `Ipa.ParseWritten` | aggregation/src/light_aggregator/inner_product_argument.rs:135-148 | the verifier reads back the rounds written and derives the same challenges |
| `Ipa.HonestVerdict` | aggregation/src/light_aggregator/inner_product_argument.rs:123-129 | for honest rounds the verifier's equation is the batched claim |
| `Ipa.ProveThenVerify` | aggregation/src/light_aggregator/inner_product_argument.rs:40-180 | an honest proof is accepted exactly when res1 + r res2 = <s,b1> + r <s,b2>, so always for true claims |
| `IpaSoundness.ThreeOpen` | aggregation/src/light_aggregator/inner_product_argument.rs:71-83 | openings of the folded statement at three challenges with distinct squares give an opening of the statement |
| `IpaSoundness.Extraction` | aggregation/src/light_aggregator/inner_product_argument.rs:1-16 | a tree of transcripts, three challenges per round, that all pass the verifier's check determines scalars whose inner product with the bases is the claim |
| `IpaSoundness.AcceptedTreeHasWitness` | aggregation/src/light_aggregator/inner_product_argument.rs:92-180 | the same for transcripts that IpaVerify accepts: the extracted scalars satisfy the batched claim |
| `IpaSoundness.SeparateClaims` | aggregation/src/light_aggregator/inner_product_argument.rs:63-66 | scalars that satisfy the batched claim at two batching challenges satisfy both claims |
| `IpaBinding.ReplayedIsAccepted` | aggregation/src/light_aggregator/inner_product_argument.rs:99-180 | transcripts that the verifier accepts satisfy its equation |
| `IpaBinding.ThreeBatches` | aggregation/src/light_aggregator/inner_product_argument.rs:63-66 | openings of the batched claim at three challenges satisfy both claims with the same scalars, or give an explicit non-trivial relation among the bases |
| `IpaBinding.AcceptedAtThreeChallenges` | aggregation/src/light_aggregator/inner_product_argument.rs:1-16 | trees of accepted transcripts at three batching challenges determine scalars that satisfy both claims, or such a relation |
| `IpaBinding.IndependentBases` | aggregation/src/light_aggregator/inner_product_argument.rs:1-16 | for independent bases such trees determine scalars that satisfy both claims |
| `Polynomials.RootCounting` | zk_stdlib/src/lib.rs:1892-1903 | a polynomial with as many distinct roots as coefficients is zero |
| `BatchVerify.FailureCases` | zk_stdlib/src/lib.rs:1862-1881 | a wrong number of public inputs is InvalidInstances, a proof that does not prepare its error, bytes left over Opening |
| `BatchVerify.PrepareAll` | zk_stdlib/src/lib.rs:1858-1882 | guards and summaries of all proofs, or a failure that some proof causes |
| `BatchVerify.Combine` | zk_stdlib/src/lib.rs:1892-1903 | scaling, popping and adding yields the guards' polynomial at the challenge |
| `BatchVerify.BatchVerify` | zk_stdlib/src/lib.rs:1837-1906 | all outcomes; nothing is accepted with a wrong number of public inputs or bytes left over; acceptance is the combined check at the challenge derived from the summaries, and holds if every guard holds |
| `Consistency.RealGuardsAreLinear` | zk_stdlib/src/lib.rs:1892-1905 | the hypothesis that checking a guard is linear can be met |
| `BatchVerify.EnoughChallenges` | zk_stdlib/src/lib.rs:1892-1905 | if n guards pass combined for n distinct challenges, each of them holds |
| `BatchVerify.FewBadChallenges` | zk_stdlib/src/lib.rs:1892-1905 | a batch with a failing guard passes for fewer than n challenges |
| `Accumulators.EvalAccumulate` | circuits/src/verifier/msm.rs:163-181 | accumulation evaluates to self + r * other, fixed bases included |
| `Accumulators.EvalCollapse` | circuits/src/verifier/msm.rs:131-137 | collapsing keeps the evaluation |
| `Accumulators.EvalScale` | circuits/src/verifier/accumulator.rs:330-343 | scaling multiplies the evaluation, fixed bases included |
| `Accumulators.ScaleByBit` | circuits/src/verifier/accumulator.rs:330-343 | scaling by one is the identity, by zero leaves zero scalars |
| `Accumulators.AccumulateValid` | circuits/src/verifier/accumulator.rs:221-239 | valid accumulators accumulate to a valid one |
| `Accumulators.AtMostOneBadChallenge` | circuits/src/verifier/accumulator.rs:221-239 | two distinct challenges that accept prove both accumulators valid |
| `Accumulators.TrivialValid` | circuits/src/verifier/accumulator.rs:175-188 | the trivial accumulator satisfies the invariant |
| `Ivc.VerifyOutcome` | aggregation/src/ivc/verifier.rs:55-97 | the outcome in every case; bytes left over are never accepted, and acceptance is the proof's pairing value plus the challenge times the accumulator's being zero |
| `Ivc.NextWeight` | circuits/src/verifier/accumulator.rs:221-239 | the pairing value of the next accumulator is that of the first plus the derived challenge times that of the second |
| `Ivc.ProofIsChain` | aggregation/src/ivc/circuit.rs:134-214 | a valid proof with a valid accumulator carries a chain of transitions from genesis, all under the key |
| `Ivc.AcceptedIsReachable` | aggregation/src/ivc/verifier.rs:55-97 | an accepted instance has a state reachable from genesis by steps proved under the verifier's own key |
| `Ivc.GenesisAgrees` | aggregation/src/ivc/prover.rs:73-89 | at genesis the off-circuit and in-circuit accumulators coincide although their challenges differ |
| `Ivc.StepSatisfies` | aggregation/src/ivc/prover.rs:70-132 | from a ready state the prover's instance satisfies the circuit |
| `Ivc.IvcProver.constructor` | aggregation/src/ivc/setup.rs:44-51 | genesis state, empty proof, trivial accumulator |
| `Ivc.IvcProver.ResumeFrom` | aggregation/src/ivc/prover.rs:47-51 | the three fields are replaced |
| `Ivc.IvcProver.ProveStep` | aggregation/src/ivc/prover.rs:60-142 | a failure changes nothing; a ready prover succeeds, its new instance satisfies the circuit, and it is ready again unless it returned to genesis |
| `Ivc.ProvedIsAccepted` | aggregation/src/ivc/verifier.rs:55-97 | a proved state, genesis or not, is accepted if its decider accepts |
| `Ivc.Run` | aggregation/src/ivc/prover.rs:60-156 | every list of steps that does not pass through genesis again is proved to its end and accepted, also when it ends there |
| `IvcGenesis.AfterReturn` | aggregation/src/ivc/prover.rs:60-117 | after a return to genesis the prover's next instance satisfies the circuit if and only if the prepared proof is the difference of the two challenges times the stored accumulator |
| `Consistency.ReturnToGenesisStalls` | aggregation/src/ivc/circuit.rs:184-207 | a step that stays at genesis verifies and no step after it satisfies the circuit |
| `ExpandMessage.XorBit` | curves/src/hash_to_curve.rs:65-65 | each bit of the exclusive or is the sum of the operands' bits modulo two |
| `ExpandMessage.OutputIsChained` | curves/src/hash_to_curve.rs:31-85 | the first block is the digest of b_0, 1 and the tag, and each further whole block the digest of the bitwise sum of b_0 and the block before it, its index and the tag |
| `ExpandMessage.CopyAt` | curves/src/hash_to_curve.rs:71-74 | overwrites the output with as much of a block as fits |
| `ExpandMessage.ExpansionIsXmd` | curves/src/hash_to_curve.rs:42-66 | up to 255 blocks and 65535 bytes the code's blocks are those of expand_message_xmd |
| `ExpandMessage.DigestsExist` | curves/src/hash_to_curve.rs:31-41 | digests of every positive output size exist |
| `ExpandMessage.Expand` | curves/src/hash_to_curve.rs:31-85 | for builds with and without overflow checks: the exact panic condition, the bytes returned, chained block by block as above, and exactly when the outcome is that of expand_message_xmd |
| `ExpandMessage.ExpandDifferences` | curves/src/hash_to_curve.rs:31-85 | 256 blocks, an empty output and 65536 bytes as inputs where it is not |
| `Sswu.RhsMeaning` | curves/src/hash_to_curve.rs:325-333 | the right-hand side is x^3 + A x + B |
| `Sswu.SqrtRatioMeaning` | curves/src/hash_to_curve.rs:193-226 | the selection never fails and returns a root of the ratio or of z times it, with the right flag |
| `Sswu.SecondRhs` | curves/src/hash_to_curve.rs:261-273 | g(Z u^2 x1) = (Z u^2)^3 g(x1) |
| `Sswu.MapToCurveMeaning` | curves/src/hash_to_curve.rs:182-286 | never fails; x is the candidate of section 6.6.2 of RFC 9380, y^2 = g(x), y has the sign of u unless it is zero, and the third coordinate is not zero |
| `Sswu.MapToCurveOnCurve` | curves/src/hash_to_curve.rs:276-286 | the homogeneous coordinates satisfy the curve equation |
| `Svdw.SlopeMeaning` | curves/src/hash_to_curve.rs:157-178 | the constant under the square root is Z^2 + Z^2 + Z^2 + A + A + A + A |
| `Svdw.PrecomputedMeaning` | curves/src/hash_to_curve.rs:157-178 | the constants exist and are those of section 6.6.1 of RFC 9380, c3 of even sign |
| `Svdw.OneIsSquare` | curves/src/hash_to_curve.rs:323-357 | the three right-hand sides multiply to a square, so one of them is a square |
| `Svdw.SomeCandidate` | curves/src/hash_to_curve.rs:305-357 | for every u some candidate is on the curve, exceptional inputs included |
| `Svdw.CandidatesMeaning` | curves/src/hash_to_curve.rs:305-357 | with t = u^2 g(Z), d = 1 - t, n = 1 + t: (c2 - x1) d n = (x2 - c2) d n = u d c3 and (x3 - Z)(d n)^2 = n^4 c4; if d n = 0 then x1 = x2 = c2 and x3 = Z |
| `Svdw.CandidatesAreUnique` | curves/src/hash_to_curve.rs:305-357 | these equations determine the candidates |
| `Svdw.MapToCurveSvdwMeaning` | curves/src/hash_to_curve.rs:289-377 | never fails; x is x1, x2 or x3 of those equations, the first whose right-hand side is a square, with y of the sign of u unless it is zero |
| `SmallField.SmallSswu` | curves/src/hash_to_curve.rs:182-286 | the requirements of the simplified SWU map can be met |
| `SmallField.SmallSvdw` | curves/src/hash_to_curve.rs:289-377 | the requirements of the Shallue-van de Woestijne map can be met |
| `Consistency.IdealSystem` | aggregation/src/ivc/circuit.rs:134-214 | the symbolic hypotheses Sound and Complete hold together of a concrete system |

## Left out

- Elliptic-curve associativity, primality and existence of roots of unity are hypotheses.
- Rayon concurrency: chunks, windows, recursive halves and proofs are processed one after another; of several
  failing proofs in a batch the first one is reported.
- Float logarithms: the window size is any value from 1 to 24 for 32 bases or more, and the limb count of the
  parameter script is an argument.
- The widths of `usize`, `u32` bounds and `u64` exponents: unbounded naturals, except the 32-bit word of the
  Booth index and the byte truncations of message expansion.
- The parameter script's command line, debug output, cost formulas, search over parameters and the custom
  list of double base powers.
- The other parts of the foreign-field curve chip: its condition bits, the identity flag of a point, multi-scalar
  multiplication; the proof covers an addition whose condition is one.
- Halo2 layouter, columns, chips and lookup tables: a native instruction of the big-integer gadget is its
  effect on cell values, and a bit is its boolean value.
- Big-integer conversions to and from bits, bytes and public inputs, selection, and equality with constants.
- Curve arithmetic in projective coordinates: the group operation stands for it. The inner product argument
  uses the plain sum that `Msm.MsmBest` computes.
- Pairings, KZG and the internals of proof preparation: a linear check on guards or accumulators.
- Encoding of statements and accumulators as field elements: instances are compared as structured values, and
  a state is its in-circuit form.
- The probability with which a cheating prover can be rewound to a tree of accepting transcripts, and hash
  collisions: extraction starts from such a tree.
- `prove_final_step` and `verify_final`: the same logic with another transcript hash.
- Isogeny maps, `hash_to_field` and the final addition of hash to curve.

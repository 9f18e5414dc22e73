# Cryptographic examples of the repository, verified

The repository holds programs that serve as targets for a verification tool. This project models the
hardest of them in Dafny and proves what they compute, for all inputs:

- **P-384 ECDSA** (Java, the 64-bit back-end): multi-limb arithmetic, Solinas and group reduction, binary
  division, Jacobian point formulas, three scalar multipliers with different recodings, signing and
  verification. The layers build on each other up to the round trip of `signHash` and `verifySignature`.
- **GF(2^64)** multiplication and power (Rust).
- **SHA-512** streaming and block function (C).
- **A pooled hash table** with chains inside an array (C).
- **Speck**, in Java for all word sizes and in C, and **Salsa20** in a seekable and a counter form (C).
- **ZUC**, its LFSR modulo 2^31 - 1, key stream and freedom from nonce collisions (C).
- **The fresh-name generator** of the Python client.

## How it is modelled

One module per file. Code that changes state is a method or a class on arrays and fields, proved against
specification functions; the laws are lemmas about those functions.

- Java `int` limbs are kept as the unsigned number of their 32 bits, and a `long` as the unsigned or signed
  number the line at hand needs; casts, wrap-around and shifts are written out (`Words.ToLong`,
  `Words.Low`, `Words.Asr32`, `Words.Lsr32`). `|` is `WordBits.Or`, or a sum where its operands have no
  common bit.
- Arrays may alias wherever the callers of the original alias them. Where they must differ, the
  precondition says so; `Provider.ProviderHome` numbers the provider's buffers, so differently numbered
  buffers are different arrays. A caller's arrays have numbers from 100 on (`Signing.Outside`).
- The field prime and the order are the values of their limb tables.
- The points are those of `y^2 = x^3 - 3x + b` for any `b`: the code has no `b`. The chord and tangent law
  is defined in `Curves`; closure, commutativity, the neutral element and opposites are proved.
- Taken as hypotheses, in `Multiples.IsGroup` and `Ecdsa.IsSetting`: the field prime and the order are
  prime, the law is associative, and the order times the base point is infinity. Where ZUC's S-boxes
  matter, `ZucNonces.OneToOne` says that they are permutations.
- Words of SHA-512 are bit-vectors in a wrapper. Published examples are computed in proofs: the digest of
  "abc", Speck32/64 from key to block, the double round of Salsa20, ZUC's loaded states.
- Words of GF(2^64) are their 64 bits, polynomials are bit sequences of any length.
- A pointer that is only read and moved on is a sequence and its remainder.

An exercise that the ZUC package leaves to the reader, that the later build has no nonce collision after
all 32 rounds (examples/zuc/README.md:435-505), is done in `ZucNonces.RoundsApart`;
`ZucNonces.CollisionsOf14` gives exactly the colliding nonces of version 1.4.

To verify: `dafny verify dfyconfig.toml`.

## Where code and documentation differ

- `NIST64.sq` asks for a nonempty operand, but reads `x[1]` (NISTCurveFactory.java:525-552): the width is
  at least 2 here.
- `NIST64.group_red` subtracts up to twice (NISTCurveFactory.java:592-605): the second subtraction is
  never reached (`GroupArith.FirstPass`).
- `verifySignature` compares the abscissa with `r` and with `r + n` modulo the prime
  (ECCProvider.java:1150-1165), where the standard compares modulo the order. The two agree for all
  abscissae if and only if not `p <= r + n < 2^384` (`Ecdsa.ComparisonIsStandard`), which a caller can
  check on `r`; `Ecdsa.WrapExists` gives such an `r`. `Ecdsa.VerifyIsStandard` lifts this to verification:
  no signature of the standard is refused, and none else is accepted outside that family.
  `Ecdsa.AcceptedBeyondStandard` gives hash, key and signature inside it on which the two differ, for
  every point of the group with a small abscissa.
- `ec_twin_mul` is documented as `d0 s + d1 t` (ECCProvider.java:865-939). When `s` and `t` share their
  abscissa, it adds or subtracts the scalars with one conditional correction, which is not enough for all
  384-bit scalars: `TwinScalar.EcTwinMul` gives the exact condition, a comparison of the scalars, and
  `TwinScalar.SumTooLarge` an input outside it. Reduced scalars always meet it.
- `Contract.fresh_var` promises the suggested name if available (crucible.py:508-518), but asks for a fresh
  name twice, so the variable never gets it (`FreshNames.Contract.NewFreshVar`).
- The header of salsa20.c declares `s20_crypt` with a key length; the code has `s20_crypt32` for 256-bit
  keys only.

## Model

| member | source | states |
|---|---|---|
| Limbs.IsZero | examples/ecdsa/src/com/galois/ecc/ECCProvider.java:157-162 | true exactly when the number is 0 |
| Limbs.IsEqual | examples/ecdsa/src/com/galois/ecc/ECCProvider.java:167-172 | true exactly when the numbers, and then all limbs, are equal |
| Limbs.Assign | examples/ecdsa/src/com/galois/ecc/ECCProvider.java:177-179 | all limbs copied, also onto itself |
| Limbs.Leq | examples/ecdsa/src/com/galois/ecc/ECCProvider.java:184-197 | `x <= y` as unsigned numbers, limbs compared from the top |
| Limbs.SetZero | examples/ecdsa/src/com/galois/ecc/ECCProvider.java:202-204 | the number becomes 0 |
| Limbs.SetUnit | examples/ecdsa/src/com/galois/ecc/ECCProvider.java:209-212 | the number becomes 1 |
| Limbs.Shr | examples/ecdsa/src/com/galois/ecc/ECCProvider.java:217-223 | half the number with the bit `c` shifted in on top, also in place |
| Limbs.Add | examples/ecdsa/src/com/galois/ecc/NISTCurveFactory.java:416-423 | sum and carry out, for every width and any aliasing of the three arrays |
| Limbs.Dbl | examples/ecdsa/src/com/galois/ecc/NISTCurveFactory.java:425-432 | double and carry out |
| Limbs.Sub | examples/ecdsa/src/com/galois/ecc/NISTCurveFactory.java:557-565 | difference and borrow out, for every width and any aliasing |
| Limbs.MulInner | examples/ecdsa/src/com/galois/ecc/NISTCurveFactory.java:447-458 | one limb of a row: accumulator, product and carry stay below 2^64 and keep their sum |
| Limbs.MulRow | examples/ecdsa/src/com/galois/ecc/NISTCurveFactory.java:468-488 | one inner loop: the row gains `x_i` times `y`, nothing else changes |
| Limbs.Mul | examples/ecdsa/src/com/galois/ecc/NISTCurveFactory.java:468-488 | the exact product, for every width from 1 on |
| Squaring.SqInner1 | examples/ecdsa/src/com/galois/ecc/NISTCurveFactory.java:490-495 | one limb doubled with its carry |
| Squaring.SqInner2 | examples/ecdsa/src/com/galois/ecc/NISTCurveFactory.java:497-505 | one limb doubled and a limb of the squares added; the carry is exact |
| Squaring.SqLoop | examples/ecdsa/src/com/galois/ecc/NISTCurveFactory.java:507-517 | the products of different limbs accumulate, row by row |
| Squaring.SquareSplit | examples/ecdsa/src/com/galois/ecc/NISTCurveFactory.java:507-552 | a square is twice its products of different limbs plus the squares of the limbs |
| Squaring.Sq | examples/ecdsa/src/com/galois/ecc/NISTCurveFactory.java:525-552 | the exact square for every width from 2 on, so what `mul` gives for equal operands |
| Karatsuba.IAdd | examples/ecdsa/src/com/galois/ecc/NISTCurveFactory.java:100-112 | sum of slices and the carry |
| Karatsuba.IDec | examples/ecdsa/src/com/galois/ecc/NISTCurveFactory.java:117-128 | a slice subtracted in place and the borrow |
| Karatsuba.IInc | examples/ecdsa/src/com/galois/ecc/NISTCurveFactory.java:133-144 | a slice added in place and the carry |
| Karatsuba.IIncC | examples/ecdsa/src/com/galois/ecc/NISTCurveFactory.java:149-158 | any signed 32-bit carry carried on through a slice, what falls off the top returned |
| Karatsuba.IMul | examples/ecdsa/src/com/galois/ecc/NISTCurveFactory.java:163-194 | schoolbook product of slices by 16-bit halves, exact, in place at an offset |
| Karatsuba.KaratsubaIdentity | examples/ecdsa/src/com/galois/ecc/NISTCurveFactory.java:199-227 | the three half products recombine to the whole product |
| Karatsuba.TopIsExact | examples/ecdsa/src/com/galois/ecc/NISTCurveFactory.java:199-227 | the carries and borrows collected in `a[w+l]` add up to the true top limb |
| Karatsuba.KMul | examples/ecdsa/src/com/galois/ecc/NISTCurveFactory.java:199-227 | the exact product for every even width |
| Karatsuba.NoFinalCarry | examples/ecdsa/src/com/galois/ecc/NISTCurveFactory.java:199-227 | no carry leaves the top of the product |
| GroupArith.GroupRedAux | examples/ecdsa/src/com/galois/ecc/NISTCurveFactory.java:581-587 | one limb of the row `r - c * order`, with its signed borrow |
| GroupArith.FirstPass | examples/ecdsa/src/com/galois/ecc/NISTCurveFactory.java:592-605 | after one row the overflow is 0 or 1 and one subtraction finishes; the second is never reached |
| GroupArith.GroupRed | examples/ecdsa/src/com/galois/ecc/NISTCurveFactory.java:592-605 | `r + c 2^(32w)` modulo the order, for every 32-bit `c` |
| GroupArith.ArrayShift | examples/ecdsa/src/com/galois/ecc/NISTCurveFactory.java:607-615 | limbs moved up by one, the top limb returned |
| GroupArith.GroupMulAux | examples/ecdsa/src/com/galois/ecc/NISTCurveFactory.java:617-623 | one limb of a row of the product, carry exact |
| GroupArith.HornerStep | examples/ecdsa/src/com/galois/ecc/NISTCurveFactory.java:628-645 | one round: shift, reduce, add a row, reduce keeps the Horner congruence |
| GroupArith.GroupMul | examples/ecdsa/src/com/galois/ecc/NISTCurveFactory.java:628-645 | `x y mod order`, fully reduced, for all operands of the width |
| P384Field.DecFieldPrime | examples/ecdsa/src/com/galois/ecc/NISTCurveFactory.java:898-927 | the prime subtracted by its five nonzero digits, and the borrow |
| P384Field.IncFieldPrime | examples/ecdsa/src/com/galois/ecc/NISTCurveFactory.java:929-957 | the prime added, and the carry |
| P384Field.ColumnsAreFips | examples/ecdsa/src/com/galois/ecc/NISTCurveFactory.java:959-1011 | the column sums are those of the fast reduction of appendix D.2.4 of FIPS 186-4 |
| P384Field.ColumnsCongruent | examples/ecdsa/src/com/galois/ecc/NISTCurveFactory.java:959-1011 | the column sums are congruent to the 768-bit number modulo the prime |
| P384Field.FoldRange | examples/ecdsa/src/com/galois/ecc/NISTCurveFactory.java:959-1011 | the folded sum is above -p and below a small multiple of 2^384 |
| P384Field.FieldRed | examples/ecdsa/src/com/galois/ecc/NISTCurveFactory.java:959-1011 | `z = a mod p` for every 768-bit `a` |
| ModDiv.ModSub | examples/ecdsa/src/com/galois/ecc/ECCProvider.java:388-390 | the difference with one correction, in place, for operands of any size |
| ModDiv.ReducedDifference | examples/ecdsa/src/com/galois/ecc/ECCProvider.java:388-390 | for reduced operands that is `x - y` modulo the modulus |
| ModDiv.ModHalf | examples/ecdsa/src/com/galois/ecc/ECCProvider.java:393-401 | half of `x` modulo the odd modulus, the carry shifted in |
| ModDiv.DividingSub | examples/ecdsa/src/com/galois/ecc/ECCProvider.java:409-443 | a subtraction step keeps both congruences and the greatest common divisor |
| ModDiv.DividingHalf | examples/ecdsa/src/com/galois/ecc/ECCProvider.java:409-443 | a halving step keeps them too |
| ModDiv.ModDivide | examples/ecdsa/src/com/galois/ecc/ECCProvider.java:409-443 | ends for all `x, y < p`, odd `p`, through the swaps; `ra y = g x (mod p)` with `g = gcd(p, y)`, so `ra = x / y` when coprime |
| Provider.ECCProvider.FieldAdd | examples/ecdsa/src/com/galois/ecc/ECCProvider.java:286-288 | sum in the field, reduced |
| Provider.ECCProvider.FieldDbl | examples/ecdsa/src/com/galois/ecc/ECCProvider.java:293-295 | double in the field, reduced |
| Provider.ECCProvider.FieldDblDec | examples/ecdsa/src/com/galois/ecc/ECCProvider.java:300-309 | `z - 2 x` in the field, reduced |
| Provider.ECCProvider.FieldMul3 | examples/ecdsa/src/com/galois/ecc/ECCProvider.java:314-325 | triple in the field, reduced |
| Provider.ECCProvider.FieldMul4 | examples/ecdsa/src/com/galois/ecc/ECCProvider.java:330-339 | four times in the field, reduced |
| Provider.ECCProvider.FieldMul8 | examples/ecdsa/src/com/galois/ecc/ECCProvider.java:344-358 | eight times in the field, reduced |
| Provider.ECCProvider.NormalizeSum | examples/ecdsa/src/com/galois/ecc/ECCProvider.java:363-365 | one conditional subtraction, from the carry or the comparison, reduced |
| Provider.ECCProvider.FieldSub | examples/ecdsa/src/com/galois/ecc/ECCProvider.java:370-373 | difference in the field, reduced |
| Provider.ECCProvider.FieldMul | examples/ecdsa/src/com/galois/ecc/NISTCurveFactory.java:569-572 | product in the field, operands and result in any aliasing |
| Provider.ECCProvider.FieldSq | examples/ecdsa/src/com/galois/ecc/NISTCurveFactory.java:574-577 | square in the field |
| Provider.ECCProvider.constructor | examples/ecdsa/src/com/galois/ecc/ECCProvider.java:80-104 | the constants are taken over; every other buffer is new, zero and apart from all others |
| Precomputation.Create | examples/ecdsa/src/com/galois/ecc/NISTCurveFactory.java:888-896 | from the tables of the curve: a valid provider with buffers of its own and `3 G`, `5 G` in place |
| Provider.ECCProvider.ConstantsAreValid | examples/ecdsa/src/com/galois/ecc/NISTCurveFactory.java:653-670 | the tables of the curve are the field prime, the order and one |
| BasePoint.PrimeAndOrder | examples/ecdsa/src/com/galois/ecc/NISTCurveFactory.java:653-658 | the prime is 2^384 - 2^128 - 2^96 + 2^32 - 1, and the order meets Hasse's bound |
| BasePoint.BaseIsOnCurve | examples/ecdsa/src/com/galois/ecc/NISTCurveFactory.java:662-669 | the base point of the tables satisfies the curve equation with the b of FIPS 186-4 |
| Curves.PlusClosed | examples/ecdsa/src/com/galois/ecc/ECCProvider.java:518-563 | the chord and tangent law stays on `y^2 = x^3 - 3x + b` |
| Curves.PlusCommutes | examples/ecdsa/src/com/galois/ecc/ECCProvider.java:518-563 | it commutes |
| Curves.PlusNeg | examples/ecdsa/src/com/galois/ecc/ECCProvider.java:518-563 | a point and its opposite add up to infinity |
| Curves.NegByPrime | examples/ecdsa/src/com/galois/ecc/ECCProvider.java:574-579 | negating the ordinate as `p - y` gives the opposite point |
| Jacobians.DoubleCorrect | examples/ecdsa/src/com/galois/ecc/ECCProvider.java:482-508 | the doubling formulas represent the doubled point, infinity included |
| Jacobians.GenericCorrect | examples/ecdsa/src/com/galois/ecc/ECCProvider.java:535-563 | the addition formulas represent the sum when the abscissae differ |
| Jacobians.RepresentedIsOn | examples/ecdsa/src/com/galois/ecc/ECCProvider.java:454-460 | what represents a finite point of the curve satisfies `Y^2 = X^3 - 3 X Z^4 + b Z^6` |
| Jacobians.OnIsRepresented | examples/ecdsa/src/com/galois/ecc/ECCProvider.java:454-460 | and every reduced solution with `Z` nonzero represents a point of the curve |
| Jacobians.DoubleStaysOn | examples/ecdsa/src/com/galois/ecc/ECCProvider.java:482-508 | the doubling formulas keep the Jacobian equation, points of order two and infinity included |
| Jacobians.FullAddStaysOn | examples/ecdsa/src/com/galois/ecc/ECCProvider.java:518-563 | so does every branch of the full addition |
| Jacobians.FullAddCorrect | examples/ecdsa/src/com/galois/ecc/ECCProvider.java:518-563 | every branch of the full addition represents the sum |
| Provider.ECCProvider.EcDouble | examples/ecdsa/src/com/galois/ecc/ECCProvider.java:482-508 | the in-place code computes the doubling formulas |
| Provider.ECCProvider.EcAddGeneric | examples/ecdsa/src/com/galois/ecc/ECCProvider.java:535-563 | the in-place code computes the addition formulas |
| Provider.ECCProvider.EcFullAdd | examples/ecdsa/src/com/galois/ecc/ECCProvider.java:518-563 | with the branches for infinity, equal and opposite points |
| Provider.ECCProvider.EcFullSub | examples/ecdsa/src/com/galois/ecc/ECCProvider.java:574-579 | adds the opposite and leaves the operand as it was |
| AffineForm.EcAffinify | examples/ecdsa/src/com/galois/ecc/ECCProvider.java:454-460 | the affine point that a finite Jacobian point represents |
| AffineForm.EcProjectify | examples/ecdsa/src/com/galois/ecc/ECCProvider.java:468-472 | the same point with `z = 1` |
| Multiples.TimesPlus | examples/ecdsa/src/com/galois/ecc/ECCProvider.java:596-603 | multiples add up: `(j + k) q = j q + k q` for integers of either sign |
| Multiples.TimesTimes | examples/ecdsa/src/com/galois/ecc/ECCProvider.java:596-603 | `j (k q) = (j k) q` |
| Multiples.CombinationAdd | examples/ecdsa/src/com/galois/ecc/ECCProvider.java:865-939 | combinations `j q + k r` add coefficient by coefficient |
| Recoding.DigitFromLimbs | examples/ecdsa/src/com/galois/ecc/ECCProvider.java:605-633 | the bits tested in `h` and `d` are digit `j` of `d + d/2` less that of `d/2` |
| Recoding.PrefixStep | examples/ecdsa/src/com/galois/ecc/ECCProvider.java:605-633 | doubling and adding a digit collects the next prefix of the scalar |
| Recoding.PrefixDone | examples/ecdsa/src/com/galois/ecc/ECCProvider.java:605-633 | all digits together are the scalar |
| Recoding.NonAdjacent | examples/ecdsa/src/com/galois/ecc/ECCProvider.java:663-714 | digits are -1, 0 or 1, and no two neighbours are nonzero |
| ScalarMultiplication.EcMulInit | examples/ecdsa/src/com/galois/ecc/ECCProvider.java:605-619 | `h = d + d/2`, and the point starts with its carry |
| ScalarMultiplication.EcMulAux | examples/ecdsa/src/com/galois/ecc/ECCProvider.java:621-633 | one digit: double, then add, subtract or leave |
| ScalarMultiplication.EcMul | examples/ecdsa/src/com/galois/ecc/ECCProvider.java:596-603 | `r = d s` for every 384-bit `d` and every finite point `s` |
| WindowMultiplication.PrefixThree | examples/ecdsa/src/com/galois/ecc/ECCProvider.java:663-714 | three digits with a zero in the middle at once |
| WindowMultiplication.EcMulWindowAux | examples/ecdsa/src/com/galois/ecc/ECCProvider.java:663-714 | one round consumes one digit or three, with 3s or 5s |
| WindowMultiplication.EcMulWindowFinish | examples/ecdsa/src/com/galois/ecc/ECCProvider.java:635-661 | the digits that are left |
| WindowMultiplication.EcMulWindow | examples/ecdsa/src/com/galois/ecc/ECCProvider.java:727-744 | `r = d s` as `ec_mul` has it; the second guard never ends the loop early |
| Precomputation.CopyPoint | examples/ecdsa/src/com/galois/ecc/ECCProvider.java:581-585 | the same Jacobian point in other buffers |
| Precomputation.Init | examples/ecdsa/src/com/galois/ecc/ECCProvider.java:111-127 | `3 G` and `5 G` as affine points, as the window multiplier wants them; `G` as before |
| TwinMultiplication.ThresholdRange | examples/ecdsa/src/com/galois/ecc/ECCProvider.java:749-755 | thresholds lie in 9..14 |
| TwinMultiplication.WindowStep | examples/ecdsa/src/com/galois/ecc/ECCProvider.java:757-789 | one window: `w' = 2 (w - 16 u) + bit` exactly, and -32 is not reached |
| TwinMultiplication.TwinAdvances | examples/ecdsa/src/com/galois/ecc/ECCProvider.java:757-789 | one call takes both windows on by one bit, fetching limbs as needed |
| TwinMultiplication.TwinDone | examples/ecdsa/src/com/galois/ecc/ECCProvider.java:865-939 | after all steps the windows are empty and the digits sum to the scalars |
| TwinScalar.GroupAdd | examples/ecdsa/src/com/galois/ecc/ECCProvider.java:378-381 | the sum of two 384-bit scalars with one conditional subtraction, in place |
| TwinScalar.ReducedSum | examples/ecdsa/src/com/galois/ecc/ECCProvider.java:378-381 | for reduced scalars that is the sum modulo the order |
| TwinScalar.TwinPoints | examples/ecdsa/src/com/galois/ecc/ECCProvider.java:796-850 | `s + t` and `s - t` as affine points by one shared inversion |
| TwinScalar.TwinSame | examples/ecdsa/src/com/galois/ecc/ECCProvider.java:796-850 | for equal or opposite points one multiplication; right exactly when the sum or difference of the scalars needs one correction at most |
| TwinScalar.EcTwinMulAux1 | examples/ecdsa/src/com/galois/ecc/ECCProvider.java:941-972 | the pair of digits picks the right one of eight additions |
| TwinScalar.TwinLoop | examples/ecdsa/src/com/galois/ecc/ECCProvider.java:865-939 | the loop gives `d0 s + d1 t` for all 384-bit scalars |
| TwinScalar.EcTwinMul | examples/ecdsa/src/com/galois/ecc/ECCProvider.java:865-939 | `r = d0 s + d1 t` for all 384-bit scalars when the abscissae differ; exactly under a comparison of the scalars when they agree |
| TwinScalar.CorrectedDecides | examples/ecdsa/src/com/galois/ecc/ECCProvider.java:796-850 | for equal or opposite points: right exactly when one correction of the scalar is enough |
| TwinScalar.SumTooLarge | examples/ecdsa/src/com/galois/ecc/ECCProvider.java:796-850 | scalars for which it is not |
| TwinScalar.ReducedIsEnough | examples/ecdsa/src/com/galois/ecc/ECCProvider.java:796-850 | for reduced scalars it always is |
| Ecdsa.Completeness | examples/ecdsa/src/com/galois/ecc/ECCProvider.java:992-1169 | section 6.4 of FIPS 186-4: what is signed is accepted under the matching key, for every 384-bit hash |
| Ecdsa.SignMeans | examples/ecdsa/src/com/galois/ecc/ECCProvider.java:992-1050 | the result is the one `(r, s)` with `r = x(k G) mod n`, `s k = e + d r` and both in range; failure exactly when there is none |
| Ecdsa.VerifyMeans | examples/ecdsa/src/com/galois/ecc/ECCProvider.java:1111-1169 | the standard's predicate with the scalars given by `u1 s = e` and `u2 s = r` |
| Ecdsa.AcceptsIsStandard | examples/ecdsa/src/com/galois/ecc/ECCProvider.java:1150-1165 | the comparison is `x mod n = r` except for one exact family, where `r + n` passes the prime |
| Ecdsa.ComparisonIsStandard | examples/ecdsa/src/com/galois/ecc/ECCProvider.java:1150-1165 | the comparison is the standard's for every abscissa if and only if `r + n` does not lie in `p..2^384-1` |
| Ecdsa.WrapExists | examples/ecdsa/src/com/galois/ecc/ECCProvider.java:1150-1165 | the least `r` of that family, where abscissa 0 is accepted |
| Ecdsa.VerifyIsStandard | examples/ecdsa/src/com/galois/ecc/ECCProvider.java:1111-1169 | what FIPS 186-4 accepts is accepted; the converse holds unless `r + n` lies in that range |
| Ecdsa.AcceptedBeyondStandard | examples/ecdsa/src/com/galois/ecc/ECCProvider.java:1111-1169 | a key and a signature of hash 0 that are accepted against the standard, from any group point of abscissa below `2^384 - p` |
| Ecdsa.ScalarsAgree | examples/ecdsa/src/com/galois/ecc/ECCProvider.java:1127-1137 | `e/s + (r/s) d = k` modulo the order |
| TwinScalar.SmallMultipleFinite | examples/ecdsa/src/com/galois/ecc/ECCProvider.java:1021-1030 | a nonzero multiple below the order is a finite point |
| Signing.NormalizeHash | examples/ecdsa/src/com/galois/ecc/ECCProvider.java:1017-1019 | the hash modulo the order by one subtraction |
| Signing.GroupMul | examples/ecdsa/src/com/galois/ecc/NISTCurveFactory.java:628-645 | the product modulo the order of P-384 |
| Signing.GroupDiv | examples/ecdsa/src/com/galois/ecc/ECCProvider.java:409-443 | the quotient modulo the order of P-384 |
| Signing.BaseAbscissa | examples/ecdsa/src/com/galois/ecc/ECCProvider.java:1021-1030 | `r` is the abscissa of `k G` |
| Signing.SignScalar | examples/ecdsa/src/com/galois/ecc/ECCProvider.java:1041-1049 | `s = (e + d r) / k`; on zero both parts are zero |
| Signing.SignHash | examples/ecdsa/src/com/galois/ecc/ECCProvider.java:992-1050 | keys out of range are refused; success leaves `0 < r, s < n` with `x(k G) mod n = r` and `s k = e + d r`; failure two zeros |
| Signing.InRange | examples/ecdsa/src/com/galois/ecc/ECCProvider.java:1001-1014 | true exactly for `0 < d < n` |
| Signing.InitializePublicKey | examples/ecdsa/src/com/galois/ecc/ECCProvider.java:1075-1097 | refused out of range, else exactly `d G` in affine form |
| Verifying.VerifyScalars | examples/ecdsa/src/com/galois/ecc/ECCProvider.java:1132-1137 | `u1 = e / s` and `u2 = r / s` |
| Verifying.ScaledAbscissa | examples/ecdsa/src/com/galois/ecc/ECCProvider.java:1150-1165 | comparing with `k z^2` compares the affine abscissa with `k` |
| Verifying.CheckAbscissa | examples/ecdsa/src/com/galois/ecc/ECCProvider.java:1144-1168 | finite point, and one of the two comparisons |
| Verifying.VerifySignature | examples/ecdsa/src/com/galois/ecc/ECCProvider.java:1111-1169 | true exactly when the specification accepts, for every key on the curve |
| Verifying.SignThenVerify | examples/ecdsa/src/com/galois/ecc/ECCProvider.java:992-1169 | after a successful `signHash`, `verifySignature` returns true |
| GF64.Mult | crux-mir-comp/test/symb_eval/cryptol/uninterp.rs:6-23 | the loop gives the specified product |
| GF64.MultIsRemainder | crux-mir-comp/test/symb_eval/cryptol/uninterp.rs:6-23 | the product is the one remainder of the polynomial product modulo x^64 + x^4 + x^3 + x + 1 |
| GF64.ModulusTerms | crux-mir-comp/test/symb_eval/cryptol/uninterp.rs:15-19 | the terms of that polynomial, which the code holds as 0x1b and a carry |
| GF64.Division | crux-mir-comp/test/symb_eval/cryptol/uninterp.rs:6-23 | `x y = q M + mult(x, y)`, coefficient by coefficient |
| GF64.RemainderUnique | crux-mir-comp/test/symb_eval/cryptol/uninterp.rs:6-23 | there is no other remainder |
| GF64.Commutative | crux-mir-comp/test/symb_eval/cryptol/uninterp.rs:6-23 | `mult` commutes |
| GF64.Associative | crux-mir-comp/test/symb_eval/cryptol/uninterp.rs:6-23 | `mult` is associative |
| GF64.Distributive | crux-mir-comp/test/symb_eval/cryptol/uninterp.rs:6-23 | `mult` distributes over xor on both sides |
| GF64.Unit | crux-mir-comp/test/symb_eval/cryptol/uninterp.rs:25-36 | 1 is neutral |
| GF64.PowerAdd | crux-mir-comp/test/symb_eval/cryptol/uninterp.rs:25-36 | `b^(m+n) = b^m b^n` |
| GF64.Pow | crux-mir-comp/test/symb_eval/cryptol/uninterp.rs:25-36 | `base` multiplied as often as the exponent says, for every 64-bit exponent |
| Sha512Block.StoredBytes | exercises/sha512/sha512.c:78-87 | byte j of a stored word holds its bits from 8 (7 - j) on; loading and storing undo each other |
| Sha512Words.RotatedRight | exercises/sha512/sha512.c:89-91 | rotation to the right: a shift where no bit moves round, and the bit-vector rotation at all ten amounts in use |
| Sha512Words.T1InOrder | exercises/sha512/sha512.c:275-281 | the sum of a round in the order in which the code adds |
| Sha512Block.Round | exercises/sha512/sha512.c:275-281 | with the registers renamed, one round of section 6.4.2 of FIPS 180-4 |
| Sha512Block.ScheduleStep | exercises/sha512/sha512.c:283-291 | the rolling slot receives the next word of the 80-word schedule |
| Sha512Block.FirstRounds | exercises/sha512/sha512.c:310-341 | the first sixteen rounds on the words of the block |
| Sha512Block.ScheduledRounds | exercises/sha512/sha512.c:343-360 | sixteen rounds from any multiple of 16 on |
| Sha512Block.OneBlock | exercises/sha512/sha512.c:299-371 | one block is the compression function of FIPS 180-4 |
| Sha512Block.BlockDataOrder | exercises/sha512/sha512.c:293-373 | any number of blocks, in order |
| Sha512Block.BlocksAppend | exercises/sha512/sha512.c:293-373 | full blocks may be hashed ahead of the rest |
| Sha512.SHA512_CTX.Init | exercises/sha512/sha512.c:94-109 | the context of the empty message |
| Sha512.SHA512_CTX.Count | exercises/sha512/sha512.c:122-129 | `Nh:Nl` counts bits modulo 2^128 |
| Sha512.CountStep | exercises/sha512/sha512.c:122-129 | the carry and the high bits of the length make the 128-bit sum |
| Sha512.SHA512_CTX.Update | exercises/sha512/sha512.c:114-160 | whatever was absorbed, the data is appended: hash of full blocks, leftover, count |
| Sha512.SHA512_CTX.Extend | exercises/sha512/sha512.c:131-138 | data that does not fill the buffer |
| Sha512.SHA512_CTX.Fill | exercises/sha512/sha512.c:139-145 | data that fills it: the block is hashed |
| Sha512.SHA512_CTX.TakeAligned | exercises/sha512/sha512.c:148-157 | full blocks straight from the data, the rest to the buffer |
| Sha512.SHA512_CTX.FinishPadding | exercises/sha512/sha512.c:164-180 | the padding of section 5.1.2 of FIPS 180-4 in one block or two |
| Sha512.SHA512_CTX.Final | exercises/sha512/sha512.c:162-195 | the digest of everything absorbed; false and no output for a null buffer |
| Sha512.Hash | exercises/sha512/sha512.c:197-205 | the digest of one message |
| Sha512.HashInPieces | exercises/sha512/sha512.c:114-195 | the same digest however the message was split |
| Sha512.PadMeans | exercises/sha512/sha512.c:164-180 | a one bit, fewer zeros than a block, and the last 16 bytes are the length in bits modulo 2^128 |
| Sha512Example.DigestOfABC | exercises/sha512/sha512.c:197-205 | the digest of the bytes of abc is the published one |
| PooledHashTable.Hash | intTests/test_hash_table/ht_simplified.c:62-70 | djb2 of the eight key bytes modulo 2^32 |
| PooledHashTable.HashIsWeighted | intTests/test_hash_table/ht_simplified.c:62-70 | `5381 * 33^8` and each byte times a power of 33, the lowest byte most, modulo 2^32 |
| PooledHashTable.PooledTable.GetBucket | intTests/test_hash_table/ht_simplified.c:72-74 | the bucket of a key |
| PooledHashTable.PooledTable.InitTable | intTests/test_hash_table/ht_simplified.c:52-57 | the table after no calls |
| PooledHashTable.PooledTable.Lookup | intTests/test_hash_table/ht_simplified.c:76-94 | the slot of the key, or the end of its chain and no slot |
| PooledHashTable.PooledTable.Bump | intTests/test_hash_table/ht_simplified.c:84-89 | the count goes up to the cap, nothing else changes |
| PooledHashTable.PooledTable.Append | intTests/test_hash_table/ht_simplified.c:96-113 | a new slot at the end of its chain |
| PooledHashTable.PooledTable.IncrementValue | intTests/test_hash_table/ht_simplified.c:76-116 | min(calls, cap) for the first POOLSIZE distinct keys, 0 for others |
| PooledHashTable.ChainsPartition | intTests/test_hash_table/ht_simplified.c:76-94 | chains hold exactly the slots of their bucket, in increasing order |
| PooledHashTable.ChainedInsert | intTests/test_hash_table/ht_simplified.c:96-113 | insertion keeps all chains |
| PooledHashTable.NextInSnoc | intTests/test_hash_table/ht_simplified.c:96-113 | a new key extends the chain of its bucket only |
| PooledHashTable.SlotsStep | intTests/test_hash_table/ht_simplified.c:76-116 | who has a slot: a new key while slots are free, and for good |
| PooledHashTable.Run | intTests/test_hash_table/ht_simplified.c:52-116 | every answer of every run after the initialization |
| WordBits.BitOfXor | examples/simon-speck/SpeckEngine.java:799-802 | every bit of an exclusive or |
| WordBits.BitRotated | examples/simon-speck/SpeckEngine.java:471-488 | where a rotation moves every bit |
| WordBits.RotationMultiplies | examples/salsa20/salsa20.c:6-9 | rotation to the left by k multiplies by 2^k modulo 2^w - 1 |
| WordBits.OrDisjoint | examples/simon-speck/SpeckEngine.java:471-488 | an inclusive or without a common bit is a sum |
| WordBits.WideRotations | examples/simon-speck/SpeckEngine.java:471-488 | rotations in a wider integer, masked, are those of the word |
| WordBits.RotLOfRotR | examples/simon-speck/SpeckEngine.java:471-488 | rotating left undoes rotating right |
| WordBits.XorMasked | examples/simon-speck/SpeckEngine.java:799-802 | masking after an exclusive or is masking before it |
| Speck.UnroundRound | examples/simon-speck/speck.c:75-76 | the inverse round undoes the round |
| Speck.RoundUnround | examples/simon-speck/speck.c:75-76 | and the other way round |
| Speck.DecryptEncrypt | examples/simon-speck/speck.c:96-111 | decryption undoes encryption, for any round keys |
| Speck.EncryptDecrypt | examples/simon-speck/speck.c:96-111 | encryption undoes decryption |
| Speck.ScheduleIsRound | examples/simon-speck/speck.c:82-93 | the recurrence of the key words is the round with its number as the key |
| SpeckEngine.NewEngine | examples/simon-speck/SpeckEngine.java:101-122 | a cipher of the block size asked for, uninitialised; other block sizes are refused |
| SpeckEngine.FamilyParameters | examples/simon-speck/SpeckEngine.java:101-122 | rotation amounts and number of rounds of every block and key size are the published ones |
| SpeckEngine.MaskedRound | examples/simon-speck/SpeckEngine.java:414-437 | masking at the end of each line is computing in words of the cipher |
| SpeckEngine.MaskedUnround | examples/simon-speck/SpeckEngine.java:440-453 | the same for the inverse round |
| SpeckEngine.BytesToWord | examples/simon-speck/SpeckEngine.java:514-537 | the big-endian number in the bytes of a word |
| SpeckEngine.WordToBytes | examples/simon-speck/SpeckEngine.java:545-565 | its bytes, and no other byte changes |
| SpeckEngine.SpeckCipher.Init | examples/simon-speck/SpeckEngine.java:247-253 | direction set, key size checked, round keys of the recurrence; a bad key keeps the old ones |
| SpeckEngine.SpeckCipher.LoadKey | examples/simon-speck/SpeckEngine.java:390-402 | key words from the last bytes to the first |
| SpeckEngine.SpeckCipher.ExpandStep | examples/simon-speck/SpeckEngine.java:405-410 | one step of the circular buffer is one step of the recurrence |
| SpeckEngine.SpeckCipher.SetKey | examples/simon-speck/SpeckEngine.java:385-411 | the buffer of m slots yields the round keys of the unbounded recurrence |
| SpeckEngine.SpeckCipher.EncryptBlock | examples/simon-speck/SpeckEngine.java:414-437 | all rounds in order |
| SpeckEngine.SpeckCipher.DecryptBlock | examples/simon-speck/SpeckEngine.java:440-453 | all rounds undone in reverse |
| SpeckEngine.SpeckCipher.ProcessBlock | examples/simon-speck/SpeckEngine.java:265-292 | the errors, and the block transformed with nothing else written, also in place |
| SpeckEngine.RoundTrip | examples/simon-speck/SpeckEngine.java:265-292 | processing in one direction undoes the other, for every word size |
| SpeckExample.Speck32Vector | examples/simon-speck/SpeckEngine.java:247-292 | the published vector of Speck32/64, from key bytes to block bytes, in both directions |
| SpeckC.CRotations | examples/simon-speck/speck.c:72-73 | the macros rotate words |
| SpeckC.RoundMacro | examples/simon-speck/speck.c:75 | `ROUND` is the round |
| SpeckC.InvRoundMacro | examples/simon-speck/speck.c:76 | `INV_ROUND` is its inverse |
| SpeckC.KeyExpand | examples/simon-speck/speck.c:82-93 | the buffer of m - 1 slots yields the same recurrence, in place |
| SpeckC.SpeckEncrypt | examples/simon-speck/speck.c:96-102 | the block encrypted, the key expanded |
| SpeckC.SpeckDecrypt | examples/simon-speck/speck.c:105-111 | the block decrypted, the key expanded |
| SpeckC.SchedulesAgree | examples/simon-speck/speck.c:40-50 | at the shared sizes the C code and the Java engine have the same round keys |
| Salsa20.QuarterRound | examples/salsa20/salsa20.c:11-17 | four lines, each on the result of the one before |
| Salsa20.MixedMeans | examples/salsa20/salsa20.c:6-17 | every bit of a line of the quarter round, and its rotation as multiplication by 2^n modulo 2^32 - 1 |
| Salsa20.QuarterOne | examples/salsa20/salsa20.c:11-17 | the quarter round of (1, 0, 0, 0) is the published one |
| Salsa20.DoubleRoundExample | examples/salsa20/salsa20.c:19-39 | column and double round of the single word 1 are the published ones |
| Salsa20.RowRoundInPlace | examples/salsa20/salsa20.c:19-25 | the row round of the specification |
| Salsa20.ColumnRoundInPlace | examples/salsa20/salsa20.c:27-33 | the column round |
| Salsa20.FromToLittle | examples/salsa20/salsa20.c:42-57 | little-endian loads and stores undo each other |
| Salsa20.LittleBytes | examples/salsa20/salsa20.c:51-57 | byte j of a word holds its bits from 8 j on |
| Salsa20.SigmaIsText | examples/salsa20/salsa20.c:119-125 | the constants spell the text |
| Salsa20.Hash | examples/salsa20/salsa20.c:60-79 | in place, the hash of the 64 bytes |
| Salsa20.Expand32 | examples/salsa20/salsa20.c:113-140 | constants, key halves and nonce laid out and hashed |
| Salsa20.MakeBlock | examples/salsa20/salsa20.c:172-184 | the block for a counter of 32 bits |
| Salsa20.NextIndex | examples/salsa20/salsa20.c:178-187 | the index wraps at a block boundary |
| Salsa20.Crypt32 | examples/salsa20/salsa20.c:144-190 | byte i is xored with byte p mod 64 of block p / 64, p = (si + i) mod 2^32; null arguments fail |
| Salsa20.CryptTwice | examples/salsa20/salsa20.c:144-190 | encrypting twice gives the plaintext |
| Salsa20.CryptSplit | examples/salsa20/salsa20.c:144-190 | two parts with the index moved on are the whole |
| Ecrypt.TauIsText | examples/salsa20/djb/salsa20.c:63-64 | the constants for short keys spell their text |
| Ecrypt.Columns | examples/salsa20/djb/salsa20.c:21-36 | sixteen written-out lines are the column round |
| Ecrypt.Rows | examples/salsa20/djb/salsa20.c:37-52 | the other sixteen are the row round |
| Ecrypt.WordToByte | examples/salsa20/djb/salsa20.c:14-56 | the same core on words |
| Ecrypt.AdvancedOnce | examples/salsa20/djb/salsa20.c:106-110 | the two-word increment counts modulo 2^64 |
| Ecrypt.ECRYPT_ctx.KeySetup | examples/salsa20/djb/salsa20.c:66-88 | key and constants in their places, for both key sizes |
| Ecrypt.ECRYPT_ctx.IvSetup | examples/salsa20/djb/salsa20.c:90-96 | nonce in place and counter zero |
| Ecrypt.ECRYPT_ctx.EncryptBytes | examples/salsa20/djb/salsa20.c:98-120 | the counter stream over any length, also in place, and the context moved on |
| Ecrypt.SameWords | examples/salsa20/djb/salsa20.c:66-96 | the bytes one lays out are the words the other sets up |
| Ecrypt.SameStream | examples/salsa20/djb/salsa20.c:98-120 | from index 0 the two ciphers give the same bytes |
| Ecrypt.BothAgree | examples/salsa20/djb/salsa20.c:66-120 | the two programs over one message |
| Zuc.AddMCorrect | examples/zuc/zuc.c:47-55 | the sum modulo 2^31 - 1, again in 1..2^31-1 |
| Zuc.MulByPow2Correct | examples/zuc/zuc.c:58-61 | multiplication by 2^k modulo 2^31 - 1, again a cell |
| Zuc.FeedbackCorrect | examples/zuc/zuc.c:106-122 | the linear combination of section 3.2 of the ZUC specification |
| Zuc.WorkStepInjective | examples/zuc/zuc.c:106-137 | the work step is injective on cells, 257 being invertible |
| Zuc.WorkStepKeeps | examples/zuc/zuc.c:106-137 | cells stay cells in work mode |
| Zuc.InitStepKeeps | examples/zuc/zuc.c:63-103 | and in the initialization mode of both builds |
| Zuc.ZucState.LFSRWithInitialisationMode | examples/zuc/zuc.c:63-103 | the step of the initialization mode, in both builds |
| Zuc.ZucState.LFSRWithWorkMode | examples/zuc/zuc.c:106-137 | the work step |
| Zuc.ZucState.BitReorganization | examples/zuc/zuc.c:140-146 | the four words of the bit reorganization |
| Zuc.ZucState.F | examples/zuc/zuc.c:165-178 | output and registers of F |
| Zuc.OutputMeans | examples/zuc/zuc.c:168-168 | taking `r2` off and `x0` out of the output leaves `r1` |
| Zuc.RegistersMean | examples/zuc/zuc.c:169-176 | the transforms get the middle of `w1 w2` and of `w2 w1` |
| Zuc.SubstitutedBytes | examples/zuc/zuc.c:173-176 | each byte through its box, in place |
| Zuc.ReorganizedMeans | examples/zuc/zuc.c:140-146 | the masks and shifts of the code on cells of 31 bits |
| Zuc.ZucState.Initialization | examples/zuc/zuc.c:183-217 | 32 initialization steps from key and nonce, all cells in range |
| Zuc.LoadVectors | examples/zuc/zuc.cry:307-347 | two of the published states right after loading |
| Zuc.ZucState.GenerateKeystream | examples/zuc/zuc.c:250-263 | the stream words after one dropped step, and the state they leave |
| Zuc.ReachedCells | examples/zuc/zuc.c:183-263 | every cell of every reached state lies in 1..2^31-1, in both builds |
| ZucNonces.TransformBits | examples/zuc/zuc.c:151-160 | which five bits make each bit of `L1` and of `L2` |
| ZucNonces.L1Injective | examples/zuc/zuc.c:151-154 | `L1` loses nothing: applied four times it is a rotation by 8 |
| ZucNonces.L2Injective | examples/zuc/zuc.c:157-160 | nor does `L2`: a rotation by 24 |
| ZucNonces.RegistersInjective | examples/zuc/zuc.c:165-178 | F keeps different registers different, the reorganized words being the same |
| ZucNonces.InitializingInjective | examples/zuc/zuc.c:202-217 | later build: no two machines have the same successor in the initialization mode |
| ZucNonces.LoadedInjective | examples/zuc/zuc.c:183-201 | key and nonce can be read off the loaded cells |
| ZucNonces.FirstRoundApart | examples/zuc/README.md:435-505 | later build: different nonces, or keys, differ after the first round, whatever the S-boxes |
| ZucNonces.RoundsApart | examples/zuc/README.md:435-505 | later build: and after any number of rounds, so after all 32, when the S-boxes are permutations |
| ZucNonces.CollisionsOf14 | examples/zuc/README.md:435-505 | version 1.4: nonces collide in the first round exactly when they differ in byte 0 alone and the two sums, combined with the first word, are 0 and 2^31-1 |
| ZucNonces.MetForGood | examples/zuc/zuc.c:202-217 | machines that met stay the same |
| ZucNonces.ExampleCollision | examples/zuc/README.md:460-485 | version 1.4: the published key and nonces do collide, whatever the S-boxes, and for good |
| FreshNames.Reparse | saw-python/saw_client/crucible.py:313-327 | a printed `prefix+number` parses back, and its successor counts on |
| FreshNames.NextOfName | saw-python/saw_client/crucible.py:315-327 | the successor of every name on one line: its prefix, or `x`, and the number after its own, or 0 |
| FreshNames.NameParts | saw-python/saw_client/crucible.py:313 | every name on one line is such a prefix and such digits |
| FreshNames.ParseNumbered | saw-python/saw_client/crucible.py:313 | the expression takes a name apart in just that way |
| FreshNames.SearchFindsPrefix | saw-python/saw_client/crucible.py:313 | what the expression can find as a prefix |
| FreshNames.NextIsPrinted | saw-python/saw_client/crucible.py:315-327 | every successor is a prefix with a number, or `x` |
| FreshNames.ValueOfDecimal | saw-python/saw_client/crucible.py:315-327 | reading a printed number gives it back |
| FreshNames.Uniquify | saw-python/saw_client/crucible.py:330-333 | ends for every string and finite set, with the first unused successor |
| FreshNames.Contract.ExecuteFunc | saw-python/saw_client/crucible.py:491-501 | once, and only before the postcondition |
| FreshNames.Contract.GetFreshName | saw-python/saw_client/crucible.py:503-506 | an unused name, the hint itself if unused |
| FreshNames.Contract.NewFreshVar | saw-python/saw_client/crucible.py:508-518 | a new name in the current part of the contract; never the suggested one |
| FreshNames.Run | saw-python/saw_client/crucible.py:470-518 | all names of a run are different |

## Left out

- The 32-bit back-end beyond its multiplication: `NIST32.group_red` subtracts from a carry that a borrow
  moves away from zero (NISTCurveFactory.java:323-342), so no reduction theorem holds of it; `NIST32.sq`
  and `P384ECC32.field_red` are the 64-bit ones with other carries.
- `dbl_dec` and `field_red_aux`: unused, or used by tests of the original only.
- Timing, secrecy and the clearing of buffers (`cleanup`), which would overwrite what the contracts state.
- Exceptions for null arguments and wrong array lengths in ECDSA and Speck: preconditions on lengths. Keys
  out of range are modelled, as a result.
- The record in which `ec_twin_mul_aux2` returns its results is a value, `TwinMultiplication.TwinStep`.
- Some inner loops and runs of statements are methods of their own (`Limbs.MulRow`, `Signing.InRange`,
  `Sha512.SHA512_CTX.Take`, `PooledHashTable.PooledTable.Lookup`, `Zuc.ZucState.WorkOnce` and others).
- Verifying.VerifySignature: says nothing of public keys off the curve, which the code does not check for.
- Multiples.TimesPlus: rests on the associativity of the point addition, which is assumed.
- GF64.Mult: words are bit sequences, so the machine's 64-bit integer type itself is not modelled.
- Sha512Block.Round: loads and stores are big-endian outright; the byte swap of the original on a
  little-endian machine is not modelled.
- Zuc.ZucState.F: the two S-boxes are parameters, their contents are not part of this model.
- Zuc.ZucState.LFSRWithWorkMode: the sixteen cells are one array, shifted by one parallel assignment.
- `InitializationOne` of zuc.c and `s20_expand16` of salsa20.c: a shortened and an unused variant.
- FreshNames.Uniquify: Python's limit on the digits `int` reads from a string is not modelled.
- Published vectors of a whole Salsa20 block, of ZUC's key stream and of the other Speck sizes.
- Offsets and lengths that do not fit Java's or C's index types.
- SimonEngine.java, the Simon and ChaCha20 programs: the shape of Speck and Salsa20 with easier proofs.
- The LLVM passes under saw-tools, the Python server connection, dashboard and solver cache: input and
  output, or wrappers over libraries that are not part of this model.

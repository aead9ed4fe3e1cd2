# Radii of complex balls (GNU MPC, `src/radius.c`)

GNU MPC's ball arithmetic bounds the error of a complex number by a
*radius*. A radius is a non-negative real bound, or infinity, stored as two
64-bit integers `mant` and `exp`:

- infinite: `mant == -1`, and the exponent is whatever it was before;
- zero: `mant == 0`, normalised with `exp == 0`;
- positive: the value `mant * 2^exp`, normalised when `2^30 <= mant < 2^31`.

The operations take normalised radii, except `mpcr_add_rnd`: it also accepts
unnormalised mantissas below 2^62, such as the product of two normalised
mantissas. They return normalised radii, with two exceptions:

- `mpcr_sqrt_rnd` as written (see "Findings");
- `mpcr_add_rnd` when one operand is zero and the other is unnormalised: it
  returns that other operand as it is.

How they round:

- `mpcr_div_2ui` is exact.
- `mpcr_div` takes no rounding mode and always rounds up.
- `mpcr_mul_rnd`, `mpcr_sqr_rnd`, `mpcr_add_rnd` and `mpcr_sqrt_rnd` round up
  or down, as the MPFR rounding mode `RNDU` or `RNDD` asks. Rounding up gives
  an upper bound on the exact result, and rounding down a lower bound.

The model has two layers.

- **Value layer.** Each routine is a Dafny function from the old destination
  and the operands to the new destination, on `datatype Rad = Rad(mant, exp)`.
  The soundness lemmas are stated against the ghost real value
  `Value(r) = Scaled(r.mant, r.exp)`, which is `mant * 2^exp`.
- **Imperative layer.** The class `MpcrOps.Mpcr` has the two fields. Each C
  routine is a method that writes those fields in the order the C code does.
  Each method's postcondition says that the new contents equal the value-layer
  function applied to the *old* operands. Results may share an object with an
  operand, as in `mpcr_add_rnd (r, r, u, rnd)` inside `mpcr_mpc_abs`.
  Because the postconditions are stated on the old operands, they hold for
  such calls too, and `MpcrOps.MpcAbsCombine` makes them.

Modules:

- `Powers` (`powers.dfy`):
  - `Pow2`. A left shift `x << n` is `x * Pow2(n)`. A right shift of a
    non-negative `x` is `x / Pow2(n)`.
  - `Scaled(m, e)`, which is `m * 2^e` as a real. It is defined by halving and
    doubling, so the proofs use only linear real arithmetic.
  - The facts about exact left shifts, and about right shifts that truncate.
- `Radius` (`radius.dfy`):
  - the representation, with its predicates, accessors and setters;
  - `leading_bit`, `mpcr_add_one_ulp` and `mpcr_normalise_rnd`;
  - `RoundsTo`, the meaning of a rounding that is directed and costs at most
    one unit in the last place.
- `IntSqrt` (`isqrt.dfy`):
  - the ceiling square root as a reference definition;
  - `sqrt_int64`, whose five rounded-up Babylonian steps are proved to reach
    that root. The proof bounds the error after each step by the ceiling of
    e²/2³¹: 2^30, 2^29, 2^27, 2^23, 2^15, then 1. It does not rely on an
    exhaustive search.
- `RadiusArith` (`arith.dfy`): multiplication, addition, division, division by
  2^e, the square root, and the combining step of `mpcr_mpc_abs`. Each comes
  with its soundness lemma.
- `MpcrOps` (`mpcr.dfy`): the in-place routines.

Notes on how C's semantics are captured:

- C's `%` and `/` on the exponent in `mpcr_sqrt_rnd` agree with Dafny's
  Euclidean operators there. The test `exp % 2 == 0` means the same for a
  negative exponent. In both branches the halved quantity is even, so
  truncation and floor coincide.
- The `int64` mantissa never overflows in the model:
  - the product of two mantissas is below 2^62;
  - the aligned sum is below 2^63 - 1;
  - the shifted dividend is below 2^63.
  The unsigned arithmetic of `sqrt_int64` never wraps: each step's numerator
  is below 2^64.
- Under `RNDU`, the truncating right shift of `mpcr_normalise_rnd` is
  followed by `mpcr_add_one_ulp`. The result is then an upper bound. The
  rounding error is at most one unit in the last place of the result, and
  strictly less under `RNDD`. Under `RNDU` it can be exactly one unit, when
  the shifted-out bits are all zero: (2^31, 0) becomes (2^30 + 1, 1).

## Model

| member | source | states |
|---|---|---|
| Powers.Pow2Values | src/radius.c:28-29 | the shifted constants `1 << 30`, `1 << 31`, `1 << 32`, `1 << 60`, `1 << 61`, `1 << 62`, `1 << 63` and `1 << 64` equal their literal values |
| Powers.ScaledShl | src/radius.c:80-81 | shifting a mantissa left by j bits while lowering the exponent by j leaves the value unchanged |
| Powers.ScaledShr | src/radius.c:84-85 | shifting a mantissa right by j bits (truncating) while raising the exponent by j gives q with q*2^hi <= m*2^lo < (q+1)*2^hi: it rounds down by less than one new unit |
| Radius.IsNormalised | src/radius.c:31-41 | the representation invariant: infinite (mantissa -1, any exponent), the zero pair (0, 0), or a mantissa in [2^30, 2^31) |
| Radius.InfP | src/radius.c:100-103 | `mpcr_inf_p`: the mantissa is -1 |
| Radius.ZeroP | src/radius.c:106-109 | `mpcr_zero_p`: the mantissa is 0 |
| Radius.LtHalfP | src/radius.c:112-116 | `mpcr_lt_half_p` as written: the exponent is below -31, whatever the mantissa |
| Radius.GetExp | src/radius.c:145-150 | `mpcr_get_exp`: the stored exponent plus 31 |
| Radius.SetInf | src/radius.c:119-122 | `mpcr_set_inf`: the mantissa becomes -1, the exponent is kept |
| Radius.Classify | src/radius.c:31-41 | a normalised radius is exactly one of infinite, zero or positive; zero is the pair (0, 0) and has value 0; a positive radius has a positive value |
| Radius.GetExpBrackets | src/radius.c:145-150 | for a positive radius, 2^(get_exp-1) <= r < 2^get_exp, that is r = f * 2^get_exp with 1/2 <= f < 1 |
| Radius.LtHalfMeaning | src/radius.c:112-116 | on positive radii `mpcr_lt_half_p` holds exactly when the value is below 1/2; on zero it is false; on an infinite radius it holds exactly when the kept exponent is below -31; it is the test get_exp < 0 |
| Radius.LtHalfOnInfinite | src/radius.c:112-122 | `mpcr_set_inf` applied to (2^30, -40) gives a normalised infinite radius for which `mpcr_lt_half_p` is true |
| Radius.LtHalfOnZero | src/radius.c:112-116 | the normalised zero has value 0, below 1/2, yet `mpcr_lt_half_p` answers false on it |
| Radius.LtHalf | src/radius.c:112-116 | the corrected test: zero, or finite with exponent below -31 |
| Radius.LtHalfSound | src/radius.c:112-116 | on every finite normalised radius the corrected test holds exactly when the value is below 1/2 (so it is true on zero); it is false on infinity; whenever it holds the radius is finite and below 1/2 |
| Radius.OneValue | src/radius.c:132-136 | `mpcr_set_one` gives a normalised radius whose value is exactly 1 (get_exp 1, not below 1/2) |
| Radius.SettersNormalised | src/radius.c:119-129 | `mpcr_set_zero` gives the normalised zero of value 0; `mpcr_set_inf` gives an infinite radius and keeps the old exponent |
| Radius.Log2 | src/radius.c:55-65 | the leading-bit position k of n >= 1 satisfies 2^k <= n < 2^(k+1) |
| Radius.Log2Unique | src/radius.c:55-65 | that k is the only one with 2^k <= n < 2^(k+1) |
| Radius.AddOneUlp | src/radius.c:44-52 | adding one unit to a normalised positive radius gives a normalised positive radius: a carry to 2^31 is shifted back with the exponent raised |
| Radius.AddOneUlpValue | src/radius.c:44-52 | the value grows by exactly one unit in the last place of the input, carry or not; the exponent stays or grows by one |
| Radius.ShiftIntoRange | src/radius.c:79-85 | with k the leading bit, shifting by 30 - k (left when k <= 30, right otherwise) puts the mantissa in [2^30, 2^31) |
| Radius.NormaliseRnd | src/radius.c:68-90 | the result is normalised; an infinite radius is returned unchanged; a zero becomes (0, 0); a positive mantissa stays positive |
| Radius.NormaliseRndExact | src/radius.c:79-82 | a mantissa below 2^31 is only shifted left, so the value is unchanged |
| Radius.NormaliseRndSound | src/radius.c:68-90 | for a positive mantissa below 2^63, the result rounds the value: at most it under RNDD, at least it under RNDU, and within one unit in the result's last place either way |
| Radius.ShiftLeftSound | src/radius.c:79-82 | the left-shift branch is exact, so it rounds correctly in both directions |
| Radius.ShiftRightSound | src/radius.c:83-88 | the right-shift branch truncates to a lower bound, and under RNDU the added unit makes it an upper bound; both are within one unit |
| Radius.RoundUpOneUlp | src/radius.c:44-52 | after truncation, adding one unit gives exactly the truncated value plus one unit, and one unit below the new radius is still at most the truncated value |
| IntSqrt.FloorSqrt | src/radius.c:283-284 | the reference floor square root: r*r <= n < (r+1)*(r+1) |
| IntSqrt.CeilSqrt | src/radius.c:283-284 | the reference ceiling square root c of N >= 1: (c-1)*(c-1) < N <= c*c |
| IntSqrt.CeilSqrtUnique | src/radius.c:283-284 | any c with (c-1)*(c-1) < N <= c*c is that ceiling root |
| IntSqrt.CeilSqrtRange | src/radius.c:283-284 | for 2^60 <= N < 2^62 the ceiling root lies in [2^30, 2^31] |
| IntSqrt.Step | src/radius.c:296-297 | one loop step: (s*s + N + 2s - 1) / (2s), the arithmetic mean of s and N/s rounded up |
| IntSqrt.StepBounds | src/radius.c:296-297 | one rounded-up Babylonian step from an upper bound s stays at or above the ceiling root, does not increase s, and squares the error (scaled by 2s) |
| IntSqrt.StepShrinks | src/radius.c:296-297 | for s >= 2^30 the error after a step is at most ceil(e^2 / 2^31), with e the error before it |
| IntSqrt.ErrBoundShrinks | src/radius.c:295-298 | the error bounds 2^30, 2^29, 2^27, 2^23, 2^15, 1 follow one from the other under that shrinking |
| IntSqrt.SqrtInt64 | src/radius.c:283-309 | for 2^30 <= n < 2^32 the five steps and the final check of s - 1 return exactly ceil(sqrt(n * 2^30)), which lies in [2^30, 2^31]; assertions in its loop show that the unsigned arithmetic never wraps |
| RadiusArith.MantProductBound | src/radius.c:175 | the product of two mantissas below 2^31 is below 2^62, so it neither overflows nor reaches the sign bit |
| RadiusArith.MulRnd | src/radius.c:165-179 | the product is normalised, and infinite exactly when an operand is infinite |
| RadiusArith.MulRndSound | src/radius.c:165-179 | under RNDU the result is at least the exact product and under RNDD at most it; a zero operand gives zero |
| RadiusArith.MulRndTight | src/radius.c:174-178 | for positive operands the rounded product is within one unit in its last place of the exact product |
| RadiusArith.AddOperand | src/radius.c:206-211 | what `mpcr_add_rnd` accepts of an operand: infinite, or a non-negative mantissa below 2^62, normalised or not |
| RadiusArith.Align | src/radius.c:223-239 | the sum before rounding has the larger exponent, is at least the larger operand's mantissa and stays below 2^63 - 1, so the `++` that follows cannot overflow |
| RadiusArith.AddFarGap | src/radius.c:225-228 | with an exponent gap of 64 or more, keeping the larger mantissa alone is what the shift would have given |
| RadiusArith.AlignSound | src/radius.c:223-239 | the aligned sum is at most the exact sum and less than one unit (at the larger exponent) below it |
| RadiusArith.AddRnd | src/radius.c:202-244 | infinite exactly when an operand is infinite; normalised for normalised operands; positive for positive operands |
| RadiusArith.AddRndSound | src/radius.c:202-244 | under RNDU the result is at least the exact sum and under RNDD at most it; a zero operand returns the other operand unchanged |
| RadiusArith.AlignRoundSound | src/radius.c:240-242 | the aligned sum, plus one unit under RNDU, normalised in the same direction, bounds the exact sum on the requested side |
| RadiusArith.DivAsWritten | src/radius.c:253-267 | `mpcr_div` as written: normalised where defined; a positive radius divided by zero is a division by zero (None) |
| RadiusArith.DivQuotientBound | src/radius.c:263 | the mantissa shifted left by 32 stays below 2^63, and the quotient by a mantissa of at least 2^30 is below 2^33 |
| RadiusArith.DivPos | src/radius.c:263-265 | the quotient of two positive radii (floor plus one, normalised upward) is positive and normalised |
| RadiusArith.DivUnrounded | src/radius.c:263-264 | before normalisation, the quotient mantissa times the divisor exceeds the dividend, at the exponents `mpcr_div` uses |
| RadiusArith.Div | src/radius.c:253-267 | corrected division: normalised, and infinite exactly when an operand is infinite or the divisor is zero |
| RadiusArith.DivAgrees | src/radius.c:253-267 | the code as written is undefined exactly for a positive radius over zero, and agrees with the corrected division everywhere else |
| RadiusArith.DivByZeroUndefined | src/radius.c:262-264 | 1 / 0 reaches the division by a zero mantissa |
| RadiusArith.DivSound | src/radius.c:253-267 | for finite s and finite non-zero t the quotient r is finite with r * t >= s (an upper bound on s / t), and r is zero exactly when s is |
| RadiusArith.DivPosSound | src/radius.c:263-265 | for positive radii the rounded-up quotient times the divisor is at least the dividend |
| RadiusArith.Div2ui | src/radius.c:270-280 | the result is normalised and infinite exactly when the operand is |
| RadiusArith.Div2uiExact | src/radius.c:270-280 | division by 2^e is exact: the result times 2^e is the operand, and zero stays zero |
| RadiusArith.SqrtArg | src/radius.c:321-328 | the argument of `sqrt_int64` is in [2^30, 2^32): the mantissa for an even exponent, twice it for an odd one; the root's exponent e satisfies 2e + 30 = exp (even) or exp - 1 (odd) |
| RadiusArith.SqrtRadicand | src/radius.c:321-328 | the operand's value is exactly (n * 2^30) * 2^(2e) for that argument n and exponent e |
| RadiusArith.RootMant | src/radius.c:321-334 | the root mantissa (the ceiling root, decremented under RNDD unless it is 2^30) lies in [2^30, 2^31] |
| RadiusArith.RootMantBounds | src/radius.c:329-334 | squared, the root mantissa is at least n * 2^30 under RNDU and at most it under RNDD, including when the decrement is skipped at 2^30 |
| RadiusArith.SqrtRndAsWritten | src/radius.c:312-336 | `mpcr_sqrt_rnd` as written: infinite exactly when the operand is; for a positive operand the mantissa is in [2^30, 2^31], with 2^31 possible |
| RadiusArith.SqrtRndAsWrittenSound | src/radius.c:312-336 | the square of the root is at least the operand under RNDU and at most it under RNDD |
| RadiusArith.SqrtRnd | src/radius.c:312-336 | the corrected square root is normalised, infinite exactly when the operand is, and zero exactly when it is |
| RadiusArith.SqrtRndSound | src/radius.c:312-336 | for a finite operand, the square of the corrected root is at least the operand under RNDU and at most it under RNDD |
| RadiusArith.SquareRenormalised | src/radius.c:329-332 | renormalising 2^31 * 2^e to 2^30 * 2^(e+1) does not change the square |
| RadiusArith.SqrtRndAgrees | src/radius.c:312-336 | the corrected root equals the code as written whenever that result is normalised, and can differ only under RNDU for a positive operand |
| RadiusArith.SqrtRndUnnormalised | src/radius.c:326-329 | for (2^31 - 1) * 2^1 under RNDU the code as written returns the unnormalised mantissa 2^31, and the corrected root returns 2^30 * 2^-14 |
| RadiusArith.SqrtOne | src/radius.c:329-334 | the square root of 1 is 1 in both directions: the root mantissa 2^30 is exact and is not decremented |
| RadiusArith.MpcAbsCombine | src/radius.c:392-405 | from finite normalised bounds on the two parts, the combiner, with the corrected root, returns a finite normalised radius |
| RadiusArith.MpcAbsCombineSound | src/radius.c:392-405 | under RNDU, r^2 >= re^2 + im^2 and under RNDD r^2 <= re^2 + im^2; a zero real bound returns the imaginary bound, and otherwise a zero imaginary bound returns the real bound |
| RadiusArith.CombinePosSound | src/radius.c:397-404 | the unnormalised squares have positive mantissas below 2^62, as `mpcr_add_rnd` requires, and adding then taking the root in one direction bounds the sum of squares on that side |
| RadiusArith.SmallValues | src/radius.c:31-38 | the normalised radii chosen for 3, 4 and 5 have exactly those values |
| RadiusArith.PythagoreanSum | src/radius.c:240-242 | for the squares of 3 and 4, the rounded sum is 25 under RNDD and 25 + 2^-26 under RNDU |
| RadiusArith.PythagoreanRoot | src/radius.c:321-334 | the root of 25 + 2^-26 rounded up is 5 + 2^-28, and the root of 25 rounded down is 5 - 2^-28 |
| RadiusArith.PythagoreanBounds | src/radius.c:392-405 | for bounds 3 and 4 the combiner returns 5 + 2^-28 under RNDU and 5 - 2^-28 under RNDD, which bracket 5 strictly |
| MpcrOps.Mpcr.constructor | src/radius.c:26-27 | a fresh radius object holds the given mantissa and exponent |
| MpcrOps.LeadingBit | src/radius.c:55-65 | the halving loop returns the leading-bit position: 2^k <= n < 2^(k+1) |
| MpcrOps.AddOneUlp | src/radius.c:44-52 | the fields become `Radius.AddOneUlp` of their old contents |
| MpcrOps.NormaliseRnd | src/radius.c:68-90 | the fields become `Radius.NormaliseRnd` of their old contents; this is the step-by-step shift and the add-one-ulp compensation |
| MpcrOps.Normalise | src/radius.c:93-97 | normalisation rounding up |
| MpcrOps.SetInf | src/radius.c:119-122 | the mantissa becomes -1 and the exponent is left as it was |
| MpcrOps.SetZero | src/radius.c:125-129 | the radius becomes (0, 0) |
| MpcrOps.SetOne | src/radius.c:132-136 | the radius becomes (2^30, -30), that is 1 |
| MpcrOps.Set | src/radius.c:139-142 | the radius becomes a copy of the source |
| MpcrOps.MulRnd | src/radius.c:165-179 | the fields become `RadiusArith.MulRnd` of the old operands, also when r is s or t |
| MpcrOps.Mul | src/radius.c:182-185 | multiplication rounding up |
| MpcrOps.SqrRnd | src/radius.c:188-193 | squaring is multiplication of s by itself |
| MpcrOps.Sqr | src/radius.c:196-199 | squaring rounding up |
| MpcrOps.AddRnd | src/radius.c:202-244 | the fields become `RadiusArith.AddRnd` of the old operands, also when r is s or t |
| MpcrOps.Add | src/radius.c:247-250 | addition rounding up |
| MpcrOps.Div | src/radius.c:253-267 | the fields become the corrected `RadiusArith.Div` of the old operands (infinity for a positive radius over zero) |
| MpcrOps.Div2ui | src/radius.c:270-280 | the fields become `RadiusArith.Div2ui` of the old operand |
| MpcrOps.SqrtRnd | src/radius.c:312-336 | the fields become the corrected `RadiusArith.SqrtRnd` of the old operand, also when r is s |
| MpcrOps.Sqrt | src/radius.c:339-342 | square root rounding up |
| MpcrOps.MpcAbsCombine | src/radius.c:392-405 | the fields become `RadiusArith.MpcAbsCombine` of the two part bounds; the addition and the root are done in place on r |

## Left out

- `mpcr_out` (src/radius.c:152-162) is left out: it prints through `printf` and converts through `ldexp` and doubles.
- `mpcr_set_d_rnd` (src/radius.c:345-356) is left out: it relies on `frexp` and a cast from double to `int64_t`, which is floating point. Its last step is `mpcr_normalise_rnd`, which is modelled.
- `mpcr_mpfr_abs_rnd` (src/radius.c:359-378) and the first part of `mpcr_mpc_abs` (src/radius.c:389-390) are left out: they call into MPFR (`mpfr_cmp_ui`, `mpfr_get_d`), which is not part of this model. The two part bounds are inputs of `MpcAbsCombine` instead.
- MpcAbsCombine: infinite part bounds are excluded by its precondition, because the C code never tests for them, so nothing is claimed about infinity in the combiner.
- Overflow of the 64-bit exponent field is not modelled: exponents are unbounded integers, and the C code does not guard them either.
- Div2ui: `e` is a natural number, so the `(int64_t)` cast of an `unsigned long` above 2^63 is not modelled.
- Product and Square are the exact real product, written as `Scaled(s.mant * t.mant, s.exp + t.exp)` (the mantissa product at the summed exponent). The identity with `Value(s) * Value(t)` is taken as the meaning of that expression and not proved.
- The test programs under `tests/` drive the ball layer through MPFR with random inputs and data files; they are not part of this model.

## Findings

| source | as written | input that shows it | evidently intended | confidence | as-written member | corrected member |
|---|---|---|---|---|---|---|
| src/radius.c:262-264 | for a non-zero finite `s` and a zero `t`, the else branch divides `mant(s) << 32` by `mant(t) == 0` | s = 1 (2^30, -30), t = 0 (0, 0) | an infinite radius, as for 0 / 0 and for infinite operands | not executed | RadiusArith.DivByZeroUndefined | RadiusArith.DivSound |
| src/radius.c:112-116 | the test reads only the exponent, which `mpcr_set_inf` leaves as it was, so an infinite radius can pass as below 1/2 | `mpcr_set_inf` applied to (2^30, -40) | false for an infinite radius, as the comment at line 113 says | not executed | Radius.LtHalfOnInfinite | Radius.LtHalfSound |
| src/radius.c:112-116 | zero is stored with exponent 0, so the test answers false on it | the zero radius (0, 0) | true, since 0 < 1/2, as the comment at line 113 says | not executed | Radius.LtHalfOnZero | Radius.LtHalfSound |
| src/radius.c:326-335 | for an odd exponent, `sqrt_int64 (2 * mant)` can return 2^31, and under RNDU it is kept as the mantissa, so the result is not normalised | s = (2^31 - 1) * 2^1 with RNDU: ceil(sqrt((2^32 - 2) * 2^30)) = 2^31, giving (2^31, -15) | the same value renormalised as (2^30, -14), as the comment at lines 329-332 assumes | not executed | RadiusArith.SqrtRndUnnormalised | RadiusArith.SqrtRndSound |

The corrected division `RadiusArith.Div` and the corrected square root
`RadiusArith.SqrtRnd` are what the rest of the model uses, including the
in-place `MpcrOps.Div`, `MpcrOps.SqrtRnd` and `MpcrOps.MpcAbsCombine`. The
versions as written are `RadiusArith.DivAsWritten` and
`RadiusArith.SqrtRndAsWritten`. `RadiusArith.DivAgrees` and
`RadiusArith.SqrtRndAgrees` prove that each correction changes only the case
shown above. Nothing else in the model calls `Radius.LtHalfP`. Its
corrected form `Radius.LtHalf` fixes both rows for `mpcr_lt_half_p`: it is
false on an infinite radius and true on zero.

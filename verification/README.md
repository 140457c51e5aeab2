# Shamir secret sharing over GF(32749), modelled in Dafny

The library splits an integer secret into `n` shares so that any `t` of them
give the secret back, and fewer do not. It works in the prime field of
integers modulo `SSS_P = 32749`.

- `get_shares` picks a random polynomial of degree `t - 1` whose constant
  term is the secret, normalised into `[0, P)`. It hands out the points
  `(x, f(x) mod P)` for `x = 1 .. n`.
- `combine_shares` evaluates the Lagrange interpolation formula at `x = 0`.
  Division in the formula is multiplication by an inverse. `mult_inverse`
  computes that inverse with the extended Euclidean algorithm.

The model follows the C code loop by loop:

- Every C `/` and `%` is written with `CArith.CDiv` and `CArith.CRem`, which
  truncate toward zero as C does. Negative operands therefore behave as in
  the source. Dafny's own `%` appears only in contracts and proofs.
- `NEG_MOD` is `FieldArithmetic.NegMod`.
- The C's `res += (prod_res * y) % SSS_P; res %= SSS_P;` in `combine_shares`
  is one assignment in `Reconstructor.CombineShares`, computing the same
  value.
- `power`, `evaluate_poly`, `mult_inverse`, `get_shares` and
  `combine_shares` are Dafny methods with the same loops.
- The inner loop of `combine_shares` is the separate method
  `Reconstructor.RowProduct`.

The reference definitions the methods are checked against are:

- `Pow`: the integer power.
- `PolyValue`: the exact polynomial sum.
- `Cong`: congruence mod P.
- `InterpolationSum`: the Lagrange sum.
- `NonzeroResidues`: the values the rejection loop keeps.

Modules:

- `CArith`: C's truncating division and remainder, and the 32-bit `int` range.
- `Modular`: `P`, congruence and divisibility. It also proves that 32749 is
  prime, by trial division up to 181.
- `FieldArithmetic`: `NEG_MOD`, `power`, `mult_inverse`.
- `Polynomial`: `evaluate_poly`, coefficient algebra, synthetic division. Its
  main theorem is that a polynomial with at most `m` coefficients that
  vanishes at `m` points distinct in the field vanishes everywhere.
- `Lagrange`: the interpolation theorem. The sum that `combine_shares`
  computes is the value at 0 of every polynomial of low enough degree through
  the points.
- `ShareTypes`: `share_t` and the result type of `get_shares`.
- `ShareGenerator`: `get_shares`.
- `Reconstructor`: `combine_shares`.
- `EndToEnd`: the round trip, share and then reconstruct.

Behaviour worth knowing, all stated in the contracts:

- `mult_inverse` of a multiple of P, 0 and P included, is 0 rather than an
  error.
- When two shares have x values that agree mod P, each of the two gets a 0
  factor in its own row: row i at column j and row j at column i. Both
  terms then vanish, so the result is silently wrong. When every share has
  such a twin, the result is 0.
- `NEG_MOD(v)` for `v <= 0` lies in `[1, P]`. It equals P, not 0, for
  multiples of P.
- The result of `combine_shares` lies in `(-P, P)`. It lies in `[0, P)` when
  no `y` is negative. A negative `y` can make it negative, because C's `%`
  keeps the sign of the dividend.
- `get_shares` falls off its end on success. The model returns `Ok(shares)`,
  or `Err(TooFewShares)` where the C returns -1.

## Model

| member | source | states |
|---|---|---|
| CArith.CDiv | sss.c:61 | C's `/` for the Euclid quotient: the quotient has the sign of the exact quotient, is 0 when the dividend is smaller in size than the divisor, and is the ordinary quotient for non-negative operands |
| CArith.CDivTruncates | sss.c:61 | C's `/` rounds toward zero: `(a / b) * b` is at most `a` in size and short of it by less than one divisor, whatever the signs |
| CArith.CRem | sss.c:17 | C's `%`: `(a / b) * b + a % b == a`, the remainder is smaller than the divisor in size and has the dividend's sign, and it is the ordinary residue for a non-negative dividend and positive divisor |
| Modular.CRemCong | sss.c:29-30 | reducing with C's `%` by P never changes the field element |
| Modular.PrimeModulus | sss.h:4 | the only positive divisors of SSS_P = 32749 are 1 and 32749, so the integers mod SSS_P form a field |
| FieldArithmetic.NegMod | sss.c:11 | `NEG_MOD(v)` is congruent to v; for v <= 0 it is P - ((-v) mod P), in [1, P]; for v >= 0 it is in [P, 2P); it equals P exactly when v is a multiple of P |
| FieldArithmetic.Power | sss.c:13-21 | `power(b, p)` is 1 for every p <= 0 and every b, 0 included; it is congruent to b^p; for b >= 0 it is b^p mod P, in [0, P) |
| FieldArithmetic.MultInverse | sss.c:50-77 | the result is in [0, P); it is 0 for a multiple of P; otherwise it is nonzero and inverts x or -x; for x >= 0 it is the inverse of x, including the unreduced arguments in [1, 2P) that combine_shares passes |
| FieldArithmetic.EuclidStep | sss.c:60-74 | one round of the loop keeps both Bezout equations `old_s*x + old_t*P == old_r` and `s*x + t*P == r`, keeps the common divisors of the remainder pair equal to those of (x, P), and strictly shrinks the remainder |
| FieldArithmetic.GcdIsUnit | sss.c:36-49 | when x is not a multiple of P, the last nonzero remainder is 1 or -1, because P is prime |
| FieldArithmetic.InverseFromBezout | sss.c:76 | the sign fix-up `old_s >= 0 ? old_s % P : NEG_MOD(old_s)` gives a nonzero element in (0, P) whose product with x is the final remainder (+-1) in the field |
| Polynomial.EvaluatePoly | sss.c:23-34 | `evaluate_poly(x, c, d)` is congruent to the sum of c[i]*x^i over i = 0 .. d and lies in (-P, P); for x >= 0 and non-negative coefficients it is that sum mod P |
| Polynomial.EvaluateStep | sss.c:29-30 | one loop round adds the term c[i]*x^i to the accumulated field value; for a reduced coefficient `c[i] * power(x, i)` and the running sum fit in a 32-bit int |
| Polynomial.ValueAtZero | sss.c:108 | a polynomial's value at 0 is its constant coefficient, which get_shares sets to the secret |
| Polynomial.QuotientValue | sss.c:126-127 | synthetic division: C(X) = C(a) + (X - a) * Q(X), with Q one coefficient shorter |
| Polynomial.VanishingPolynomial | sss.c:126-127 | a polynomial with at most n coefficients that is 0 in the field at n points, pairwise distinct in the field, is 0 in the field at every point |
| Lagrange.LagrangeSumInterpolates | sss.c:126-127 | the interpolating polynomial built from the inverses of the differences takes the value y_q at every x_q |
| Lagrange.LagrangeSumIsValue | sss.c:126-127 | the interpolating polynomial agrees in the field, at every point, with any polynomial of at most m coefficients through the m points |
| Lagrange.InterpolationSumIsLagrangeSum | sss.c:133-144 | the sum of y_i times the product of the factors -x_j / (x_i - x_j) equals, in the field, the interpolating polynomial at 0 |
| Lagrange.LagrangeAtZero | sss.c:122-128 | Lagrange's formula at 0 gives, in the field, the constant term of every polynomial with at most m coefficients through m points distinct in the field |
| ShareGenerator.NormaliseSecret | sss.c:97-99 | the normalised secret is the secret's residue mod P in [0, P); a negative secret -k with k < P becomes P - k |
| ShareGenerator.NonzeroResidues | sss.c:110 | every value the rejection loop keeps is a nonzero field element in [1, P - 1], and at most one is kept per draw |
| ShareGenerator.DrawCoefficients | sss.c:108-111 | the coefficients are the secret followed by the first t - 1 nonzero residues of random()'s outputs, in order; there are t of them and the last t - 1 are in [1, P - 1] |
| ShareGenerator.NonzeroResiduesPrefix | sss.c:109-111 | drawing fewer values keeps a prefix of the same accepted coefficients, so the loop's coefficients do not depend on how many more draws follow |
| ShareGenerator.CoefficientsShape | sss.c:108-111 | the polynomial has t coefficients; coefficient 0 is secret mod P and coefficients 1 .. t-1 are in [1, P - 1] |
| ShareGenerator.SameResidueSamePolynomial | sss.c:97-99 | secrets congruent mod P, such as -5 and P - 5, are shared with the same polynomial on the same random draws |
| ShareGenerator.GetShares | sss.c:87-120 | the call fails with TooFewShares exactly when num_shares < min_reconstruction_shares, and then produces nothing; otherwise share i is (i + 1, f(i + 1) mod P) for the polynomial of the secret and the draws |
| ShareGenerator.GeneratedSharesArePoints | sss.c:116-119 | generated share i has x = i + 1, so all x are nonzero and pairwise distinct, and distinct mod P when n <= P; every y is in [0, P) and lies on the polynomial |
| Reconstructor.CombineShares | sss.c:129-147 | the result is in (-P, P), and in [0, P) when no y is negative; with non-negative x's distinct in the field it is, in the field, the constant term of every polynomial with at most num_shares coefficients through the shares, and exactly that term mod P when the y's are non-negative; when every share has a twin x in the field the result is 0 |
| Reconstructor.RowProduct | sss.c:135-141 | the inner loop's product is in [0, P) and congruent to the product of its factors; each factor stands for -x_j * inverse, and for x_i >= 0 each inverse inverts x_i - x_j whenever the two x's differ in the field; the product is 0 when some other share has the same x in the field |
| Reconstructor.CombineIsInterpolation | sss.c:122-147 | the rows computed for non-negative x's distinct in the field make the running sum equal, in the field, to the constant term of any polynomial of low enough degree through the shares |
| Reconstructor.TablesFromRows | sss.c:139 | for non-negative x's distinct in the field, the factors and inverses computed row by row form a complete factor table and inverse table for all ordered pairs i != j |
| Reconstructor.FactorStep | sss.c:139 | one factor is in [0, P) and stands for -x_j times an inverse of x_i - x_j when x_i >= 0 and the points differ; it is 0 when x_i and x_j agree mod P |
| Reconstructor.InverseArgument | sss.c:139 | `x_i % P + NEG_MOD(-x_j)` is congruent to x_i - x_j, is positive for x_i >= 0, and fits in an int; the negation `-x_j` fits for every int x_j except INT_MIN, where it overflows |
| Reconstructor.FactorValue | sss.c:139 | `(NEG_MOD(-x_j) * inverse) % P` is a reduced representative of -x_j * inverse; the product stays below 2P^2 < 2^31 |
| Reconstructor.MultiplyStep | sss.c:139-140 | multiplying the running product by a factor and reducing keeps a reduced representative of the exact product; it is absorbing at 0; the product fits in an int |
| Reconstructor.AccumulateRow | sss.c:134-145 | one pass of the outer loop keeps its state: the factor rows so far are correct, the sum is the interpolation sum over one more share in the field, stays in (-P, P) and non-negative for non-negative y, and stays 0 while every share seen has a twin |
| Reconstructor.AccumulateStep | sss.c:142-143 | adding `(prod_res * y) % P` and reducing adds the share's term to the interpolation sum in the field, keeps the sum in (-P, P), keeps it non-negative for non-negative y, and overflows nothing while |y| <= 65576 |
| Reconstructor.MaximalRowProduct | sss.c:135-142 | for the shares (1, y1), (2, y2) the second row's product is P - 1, and then any |y2| > 65576 makes `prod_res * shares[i].y` overflow a 32-bit int |
| Reconstructor.OverflowBeyondMaxSafeY | sss.c:142 | the bound 65576 on |y| is tight: above it, a row product of P - 1 makes `prod_res * y` overflow a 32-bit int |
| EndToEnd.ShareAndReconstruct | sss.c:87-147 | get_shares followed by combine_shares on any t or more distinct shares of the n <= P generated returns the secret mod P, in [0, P) |
| EndToEnd.PickedSharesDetermineSecret | sss.c:116-119 | any selection of distinct shares among the n <= P generated has non-negative coordinates, x's distinct in the field, and lies on the secret polynomial |
| EndToEnd.SecretIsConstantTerm | sss.c:108 | the secret polynomial's value at 0 is the normalised secret |

## Left out

- Entropy. `clock_gettime`, `srandom` and `random()` (sss.c:101-103, 110) become the parameter `draws`, the successive outputs of `random()`. These are non-negative. Randomness quality is not modelled.
- ShareGenerator.GetShares: requires that `draws` holds at least t - 1 values that are nonzero mod P. The C loop draws for as long as it needs to. A finite list cannot stand for an endless stream, so the precondition stands for "random() eventually gives enough nonzero residues".
- ShareGenerator.GetShares: requires `min_reconstruction_shares >= 1`. For t <= 0 the C array `poly_coeffs[t]` has no valid size, so the C behaviour is undefined.
- The secrecy guarantee, that fewer than t shares reveal nothing. It is an information-theoretic, probabilistic property, not a functional contract.
- The caller-supplied `shares[]` array and `num_shares`. `get_shares` returns the shares as a sequence. `combine_shares` takes a sequence and uses its length as `num_shares`, so out-of-bounds accesses are not modelled.
- FieldArithmetic.MultInverse: for a negative argument that is not a multiple of P, it only guarantees a nonzero result that inverts x or -x. C's truncating division can end the Euclid loop at remainder -1, and the model does not decide which case occurs.
- Reconstructor.CombineShares: the interpolation result is stated for non-negative x coordinates, because of the MultInverse limitation above. `get_shares` only produces x = 1 .. n.
- Reconstructor.CombineShares: when only some shares have a twin x, the contract does not give the result. It only says that their terms vanish (via RowProduct); the all-twins case is stated.
- FieldArithmetic.Power: 32-bit overflow of `n * base` is not tracked. Dafny integers are unbounded. The product fits in an int while |base| <= 65576, and the callers pass x <= num_shares.
- ShareGenerator.GetShares: for num_shares >= 65577 the C `power(x, i)` can overflow `n * base` at x >= 65577. The model computes with unbounded integers, so its shares describe the C only for num_shares <= 65576.
- Reconstructor.CombineShares: for a share with |y| >= 65577 the C product `prod_res * shares[i].y` can overflow an `int`, since `prod_res` reaches P - 1 (OverflowBeyondMaxSafeY). The model computes with unbounded integers, so its range and interpolation results describe the C only when every |y| <= 65576 and no x equals INT_MIN (-2^31), whose negation inside `NEG_MOD(-shares[j].x)` overflows (InverseArgument). Shares from get_shares have 1 <= x <= n and y < P.
- FieldArithmetic.MultInverse: the Euclid loop's intermediate products are not checked against the int range either. Overflow freedom is proved only for evaluate_poly (EvaluateStep) and for combine_shares (FactorValue, MultiplyStep, AccumulateStep, AccumulateRow, InverseArgument), the latter only while every |y| <= 65576 and no x equals INT_MIN. Share coordinates are unbounded integers in the model, while the C's `share_t` fields are 32-bit ints; the int range of x and y is not a precondition of CombineShares.
- `test.c`, the command-line driver: argument parsing, printing and exit codes.

# algnuth in Dafny

A verified model of the arithmetic core of algnuth, a Python library of
algebraic number theory algorithms:

- `algnuth/polynom.py`:
  - `ModInt`, residues modulo n;
  - `Polynomial` over Z/pZ: trimming, ring operations, Euclidean division, gcd, powers;
  - Berlekamp's factorisation (`gaussianElimKer`, `computeQ`, `factor_unit`, `factor`);
  - real polynomials: Sturm sequences, `r1`, `r2`.
- `algnuth/jacobi.py`: `expsign`, the Jacobi symbol `jacobi`, the sieve of
  Eratosthenes `sieve`, and the deterministic Miller-Rabin test `isprimerm`.
- `algnuth/quadratic.py`: binary quadratic forms of negative discriminant:
  - `Cl`, `Prim`, `h`;
  - `reduced`;
  - `is_ambiguous`, `ambiguous_classes`, `a`;
  - `func`, `genus`, `genera`.

## Representation

- A polynomial over Z/pZ is a `seq<int>` of residues in `[0, p)`, lowest
  degree first, with a nonzero last entry (`ModPoly.IsPoly`).
- A source `ModInt` is a value `ModArith.ModInt(v, n)`. Objects of both
  classes are never mutated, so they are datatypes and their operations are
  functions.
- The source's loops become methods proved against those functions:
  - `trim`, `**`, `extended_euclid`, `euclidean_division`, `gcd`;
  - `eval`, `sturm`, `r1`;
  - `jacobi`, `sieve`, `isprimerm`;
  - `Cl`, `reduced`, `genera`.
- Loops over data the source updates in place keep an `array`:
  - `gaussianElimKer` changes its list of rows (`PolyKernel.GaussianElimKer`);
  - `sieve` slice-assigns its flags (`Sieve.CrossOut`).
- An assertion of the source that can fail becomes an `Option` result with
  `None` for the failure:
  - `expsign` with a sign other than plus or minus one;
  - `jacobi` with an even n;
  - `Cl` with D >= 0 or D = 2, 3 mod 4;
  - `r2` with an odd difference;
  - `sieve` with n <= 0, where `n ** .5` of the negative n - 1 is a complex
    number and `round` raises a TypeError.
- `None` as a pivot is `-1`.
- Factorisations are `map<seq<int>, int>`, from factor to multiplicity.
- Real polynomials (`RealPoly`) have exact `real` coefficients. Their
  values at plus and minus infinity are `Sturm.Ext`, an extended real with
  the IEEE rules for infinite operands.

## Model

| member | source | states |
|---|---|---|
| `CoefficientLists.Trim` | algnuth/polynom.py:111-115 | the result is a prefix of C whose last entry is nonzero, and every dropped entry is zero |
| `CoefficientLists.TrimLoop` | algnuth/polynom.py:111-115 | the backwards loop of `trim` returns exactly Trim(C) |
| `CoefficientLists.TrimTrimmed` | algnuth/polynom.py:117-120 | a list with a nonzero last entry is left unchanged by the constructor |
| `CoefficientLists.TrimIdempotent` | algnuth/polynom.py:117-120 | trimming twice is trimming once |
| `ModArith.Of` | algnuth/polynom.py:12-14 | `ModInt(a, n)` stores a mod n, a residue in [0, n), with modulus n |
| `ModArith.EqualIsIdentity` | algnuth/polynom.py:16-20 | `a == b`, defined as `not bool(a - b)`, holds exactly when the two values are identical |
| `ModArith.Add` | algnuth/polynom.py:28-31 | the sum is a valid residue with the same modulus |
| `ModArith.AddInt` | algnuth/polynom.py:33-35 | adding a Python int gives a valid residue with the same modulus; its value is stated by `ModArith.OfIntHomomorphism` |
| `ModArith.Neg` | algnuth/polynom.py:37 | the negation is a valid residue with the same modulus |
| `ModArith.Sub` | algnuth/polynom.py:39 | the difference is a valid residue with the same modulus |
| `ModArith.Mul` | algnuth/polynom.py:41-46 | the product is a valid residue with the same modulus |
| `ModArith.MulInt` | algnuth/polynom.py:41-43 | multiplying by a Python int gives a valid residue with the same modulus; its value is stated by `ModArith.OfIntHomomorphism` |
| `ModArith.OfHomomorphism` | algnuth/polynom.py:28-46 | residue of a+b, a-b, a*b and -a equals the ModInt sum, difference, product and negation of the residues |
| `ModArith.OfIntHomomorphism` | algnuth/polynom.py:33-43 | adding a Python int k to the residue of a gives the residue of a + k, and multiplying by k gives the residue of k a |
| `ModArith.EuclidStepsBezout` | algnuth/polynom.py:80-87 | if (up, vp) and (u, v) express rp and r as combinations of a and b, the finished loop's pair expresses gcd(rp, r) |
| `ModArith.Bezout` | algnuth/polynom.py:76-88 | the pair `extended_euclid` returns, as the loop's value from its starting state; `ModArith.BezoutIdentity` states its Bezout property |
| `ModArith.BezoutIdentity` | algnuth/polynom.py:76-88 | for any signs of a and b, a x + b y = gcd(abs a, abs b) for the pair `extended_euclid` returns |
| `ModArith.ExtendedEuclid` | algnuth/polynom.py:76-88 | the loop returns the Bezout pair: a x + b y = gcd(abs a, abs b) |
| `ModArith.Div` | algnuth/polynom.py:65-69 | `a / b` (a times the Bezout coefficient of b) is a valid residue modulo n |
| `ModArith.DivInt` | algnuth/polynom.py:71-73 | `k / a` is a valid residue modulo n |
| `ModArith.DivMulCancel` | algnuth/polynom.py:65-69 | (x / y) * y == x whenever y is invertible, gcd(y, n) = 1 |
| `ModArith.DivMulCancelPrime` | algnuth/polynom.py:65-69 | modulo a prime, (x / y) * y == x for every nonzero y |
| `ModArith.PowerValue` | algnuth/polynom.py:52-63 | x to the k has value x.v^k mod n |
| `ModArith.Power` | algnuth/polynom.py:52-63 | x^k as repeated products is a valid residue with the modulus of x; `ModArith.PowerValue` gives its value |
| `ModArith.Pow` | algnuth/polynom.py:52-63 | the square-and-multiply loop computes x^k: value x.v^k mod n |
| `ModPoly.Poly` | algnuth/polynom.py:117-120 | the constructor gives a trimmed polynomial with the same coefficients as the list |
| `ModPoly.Ext` | algnuth/polynom.py:140-141 | two polynomials with the same coefficients are equal |
| `ModPoly.Add` | algnuth/polynom.py:152-155 | coefficient d of P + Q is the residue of P_d + Q_d; the length is at most the longer one |
| `ModPoly.Neg` | algnuth/polynom.py:150 | coefficient d of -P is the residue of -P_d |
| `ModPoly.Sub` | algnuth/polynom.py:157 | coefficient d of P - Q is the residue of P_d - Q_d |
| `ModPoly.ScalarMul` | algnuth/polynom.py:166-167 | coefficient d of k P is k P_d mod p |
| `ModPoly.Shift` | algnuth/polynom.py:137-138 | `shift(d)` multiplies by x^d: d zero coefficients, then those of P, length |P| + d |
| `ModPoly.Monomial` | algnuth/polynom.py:233 | `Polynomial([zero] * k + [c])` has coefficient c at k and 0 elsewhere |
| `ModPoly.ConvListCoef` | algnuth/polynom.py:161-164 | the list `_mulpoly` builds holds at d the residue of the convolution sum over all k |
| `ModPoly.Mul` | algnuth/polynom.py:159-164 | coefficient d of P Q is the residue of sum over k of P_k Q_(d-k) |
| `ModPoly.Derivative` | algnuth/polynom.py:126-127 | coefficient i of P' is (i + 1) P_(i+1) mod p, and P' is shorter than a nonzero P |
| `ModPoly.ReduceP` | algnuth/polynom.py:327-328 | coefficient i of `reduceP` is C_i mod p |
| `ModPoly.ReducePIdempotent` | algnuth/polynom.py:327-328 | reducing a polynomial already over Z/pZ changes nothing |
| `ModPoly.HornerIsPowerSum` | algnuth/polynom.py:129-135 | the Horner recursion equals the sum of c_i x^i |
| `ModPoly.Eval` | algnuth/polynom.py:129-135 | the loop of `eval` returns the residue of the sum of P_i x^i, and 0 for the zero polynomial |
| `PolyRing.AddComm` | algnuth/polynom.py:152-155 | P + Q == Q + P |
| `PolyRing.AddAssoc` | algnuth/polynom.py:152-155 | (P + Q) + S == P + (Q + S) |
| `PolyRing.AddZero` | algnuth/polynom.py:152-155 | the zero polynomial is neutral on both sides |
| `PolyRing.SubSelf` | algnuth/polynom.py:157 | P - P is the zero polynomial |
| `PolyRing.SubAdd` | algnuth/polynom.py:157 | (A - X) + X == A |
| `PolyRing.AddSubIff` | algnuth/polynom.py:152-157 | A + B == C exactly when A == C - B |
| `PolyRing.ScalarMulZero` | algnuth/polynom.py:166-167 | 0 P is the zero polynomial |
| `PolyRing.ScalarMulOne` | algnuth/polynom.py:166-167 | 1 P == P |
| `PolyRing.ScalarMulScalarMul` | algnuth/polynom.py:166-167 | a (b P) == (a b) P |
| `PolyRing.NegIsScalarMul` | algnuth/polynom.py:150 | -P == (-1) P |
| `PolyRing.ShiftZero` | algnuth/polynom.py:137-138 | shifting by 0 changes nothing |
| `PolyRing.MulCons` | algnuth/polynom.py:159-164 | P Q == P_0 Q + x (P[1:] Q) |
| `PolyRing.MulZeroLeft` | algnuth/polynom.py:159-164 | 0 Q == 0 |
| `PolyRing.MulZeroRight` | algnuth/polynom.py:159-164 | P 0 == 0 |
| `PolyRing.MulAddLeft` | algnuth/polynom.py:159-164 | (X + Y) C == X C + Y C |
| `PolyRing.MulScalarLeft` | algnuth/polynom.py:159-167 | (c B) C == c (B C) |
| `PolyRing.MulShiftLeft` | algnuth/polynom.py:137-164 | (x X) C == x (X C) |
| `PolyRing.MulAssoc` | algnuth/polynom.py:159-164 | (A B) C == A (B C) |
| `PolyRing.MulMonomial` | algnuth/polynom.py:159-164 | (c x^k) B == c (x^k B) |
| `PolyRing.MulOne` | algnuth/polynom.py:159-164 | 1 is neutral for the product on both sides |
| `PolyRing.MulConstant` | algnuth/polynom.py:169-172 | the product with a constant polynomial is the scalar product |
| `PolyRing.MulSubLeft` | algnuth/polynom.py:157-164 | (X - Z) H == X H - Z H |
| `PolyRing.MulDeg` | algnuth/polynom.py:159-164 | modulo a prime, deg(P Q) = deg P + deg Q and the leading coefficient is the product of the leading ones |
| `PolyRing.MulComm` | algnuth/polynom.py:159-164 | P Q == Q P |
| `PolyRing.MulAddRight` | algnuth/polynom.py:152-164 | C (X + Y) == C X + C Y |
| `PolyRing.MulScalarRight` | algnuth/polynom.py:159-167 | B (c C) == c (B C) |
| `PolyDivision.ResDiv` | algnuth/polynom.py:196 | `A[-1] / B[-1]` is a residue in [0, p) |
| `PolyDivision.ResDivMul` | algnuth/polynom.py:196 | (a / b) b == a modulo p for an invertible b |
| `PolyDivision.PrimeUnitLead` | algnuth/polynom.py:196 | modulo a prime every nonzero polynomial has an invertible leading coefficient |
| `PolyDivision.DivStep` | algnuth/polynom.py:197 | one step `A -= B.shift(|A| - |B|) * (A[-1] / B[-1])` gives a shorter polynomial |
| `PolyDivision.DivStepIs` | algnuth/polynom.py:197 | that step is A minus the shifted, scaled B |
| `PolyDivision.DivMod` | algnuth/polynom.py:193-198 | quotient and remainder are polynomials with deg R < deg B |
| `PolyDivision.DivModIdentity` | algnuth/polynom.py:193-198 | Q B + R == A |
| `PolyDivision.DivModUnique` | algnuth/polynom.py:193-198 | any Q, R with Q B + R == A and deg R < deg B are the quotient and remainder |
| `PolyDivision.DivLoopIsDivMod` | algnuth/polynom.py:194-197 | the loop that writes quotient coefficients into the list Q accumulates the quotient and leaves the remainder |
| `PolyDivision.EuclideanDivision` | algnuth/polynom.py:193-198 | `euclidean_division` returns exactly (quotient, remainder) |
| `PolyDivision.PolyMod` | algnuth/polynom.py:204-210 | A % B is a polynomial of degree below deg B |
| `PolyDivision.FloorDiv` | algnuth/polynom.py:200-202 | A // B is a polynomial Q with Q B + A % B == A |
| `PolyDivision.Monic` | algnuth/polynom.py:223 | `A * (1 / A[-1])` is monic of the same degree |
| `PolyDivision.MonicScale` | algnuth/polynom.py:223 | the leading coefficient times the monic polynomial gives A back |
| `PolyDivision.MonicDivides` | algnuth/polynom.py:223 | the monic polynomial divides A, and every divisor of A divides it |
| `PolyDivision.DividesRemainder` | algnuth/polynom.py:221-222 | a common divisor of A and B divides A % B |
| `PolyDivision.DividesFromRemainder` | algnuth/polynom.py:221-222 | a common divisor of B and A % B divides A |
| `PolyDivision.PolyGcd` | algnuth/polynom.py:220-223 | the gcd is monic |
| `PolyDivision.GcdDivides` | algnuth/polynom.py:220-223 | the gcd divides A and B, and every common divisor of A and B divides the gcd |
| `PolyDivision.EuclidGcd` | algnuth/polynom.py:220-223 | the loop `A, B = B, A % B` returns that gcd |
| `PolyPower.Power` | algnuth/polynom.py:177-188 | P^k is a polynomial, and P^0 is the constant 1 |
| `PolyPower.PowerAdd` | algnuth/polynom.py:177-188 | P^(i+j) == P^i P^j |
| `PolyPower.PowerSquare` | algnuth/polynom.py:181-187 | (A A)^j == A^(2j), the squaring step of the loop |
| `PolyPower.PowStep` | algnuth/polynom.py:181-187 | one iteration keeps V A^e unchanged |
| `PolyPower.Pow` | algnuth/polynom.py:177-188 | the square-and-multiply loop returns P^k |
| `PolyKernel.LinComb` | algnuth/polynom.py:231-232 | the combination of rows M_0 by a vector V is a polynomial (the invariant M = V M_0) |
| `PolyKernel.LinCombStep` | algnuth/polynom.py:243-244 | subtracting c V_j from V_l subtracts c M_j from M_l |
| `PolyKernel.LinCombUnit` | algnuth/polynom.py:233 | the unit vector x^i combines the rows to row i |
| `PolyKernel.LinCombShift` | algnuth/polynom.py:253-262 | combining all rows by x v is combining the rows after the first by v |
| `PolyKernel.ShiftMonic` | algnuth/polynom.py:262 | `pQ.shift(1)` of a monic pQ is monic, one longer, with constant term 0 |
| `PolyKernel.UnitVectors` | algnuth/polynom.py:233 | V starts as the list of unit vectors x^i |
| `PolyKernel.Nones` | algnuth/polynom.py:234 | `pivots` starts with n + 1 empty entries |
| `PolyKernel.EchelonStart` | algnuth/polynom.py:233-235 | the starting state satisfies the elimination invariant with no rows placed |
| `PolyKernel.UnitStep` | algnuth/polynom.py:244 | V_l - c V_j still has its leading unit at l when j < l |
| `PolyKernel.ReduceOnce` | algnuth/polynom.py:242-244 | one reduction keeps M_l = V_l M_0 and lowers the degree of M_l |
| `PolyKernel.ReduceStep` | algnuth/polynom.py:241-244 | the reduction keeps the elimination invariant, and the pivot row has the same degree |
| `PolyKernel.ReplaceRow` | algnuth/polynom.py:243-244 | replacing the current row by another valid row keeps the invariant |
| `PolyKernel.PivotStep` | algnuth/polynom.py:238-240 | `pivots[idp] = l` places row l and keeps the invariant |
| `PolyKernel.PivotPlaced` | algnuth/polynom.py:238-240 | after that assignment each pivot points at a placed row of its degree |
| `PolyKernel.PlacedDistinct` | algnuth/polynom.py:235-240 | once every row is placed, all rows are nonzero with pairwise distinct degrees |
| `PolyKernel.EchelonEnd` | algnuth/polynom.py:248 | when the loop ends without a zero row, the rows are in echelon form and still satisfy M = V M_0 |
| `PolyKernel.KernelFromRow` | algnuth/polynom.py:245-247 | a row reduced to zero gives V[l], a monic vector that combines the rows to zero |
| `PolyKernel.ReduceRow` | algnuth/polynom.py:236-244 | the `while` loop on row l ends with row l zero, or placed as a pivot, keeping the invariant |
| `PolyKernel.GaussianElimKer` | algnuth/polynom.py:225-248 | a returned vector is a monic kernel vector of the original rows; None leaves rows nonzero with distinct degrees; M = V M_0 always holds |
| `PolyKernel.XpMod` | algnuth/polynom.py:254-255 | x^(ip) mod P is a polynomial of degree below deg P |
| `PolyKernel.FrobeniusRow` | algnuth/polynom.py:254-258 | x^(ip) mod P - x^i is a polynomial |
| `PolyKernel.FrobeniusRows` | algnuth/polynom.py:254-258 | row i of the list is x^(ip) mod P - x^i |
| `PolyKernel.FrobeniusRowZero` | algnuth/polynom.py:253 | (F - Id)(1) = 0 for deg P >= 1, so row 0 may be dropped |
| `PolyKernel.XpRows` | algnuth/polynom.py:254-255 | the comprehension holds x^((k+1) p) mod P at index k |
| `PolyKernel.SubtractUnit` | algnuth/polynom.py:258 | `M[i - 1] -= x^i` turns entry k into row k + 1 of F - Id |
| `PolyKernel.FrobeniusMatrix` | algnuth/polynom.py:254-258 | the list holds rows 1, ..., deg P - 1 of F - Id |
| `PolyKernel.ComputeQ` | algnuth/polynom.py:250-262 | a returned Q is monic, 1 <= deg Q < deg P, has constant term 0, and its coefficients combine the rows of F - Id to zero; None means rows 1, ..., deg P - 1 of F - Id reduce to echelon form (`PolyKernel.Independent`) |
| `Berlekamp.GcdDerivative` | algnuth/polynom.py:276-277 | deg gcd(P, P') == deg P exactly when P' == 0 |
| `Berlekamp.SquareFreePart` | algnuth/polynom.py:285-288 | P // S has degree deg P - deg S and is monic when P is |
| `Berlekamp.ExactQuotient` | algnuth/polynom.py:288 | S divides P exactly: (P // S) S == P |
| `Berlekamp.DerivativeZero` | algnuth/polynom.py:277-279 | P' == 0 means every coefficient at a degree not divisible by p is zero |
| `Berlekamp.EveryPth` | algnuth/polynom.py:279 | `P.C[::p]` holds C[j p] at j, with ceil(|C| / p) entries |
| `Berlekamp.PthRoot` | algnuth/polynom.py:277-279 | when P' == 0, P(x) = R(x^p) for R = P.C[::p], with 1 <= deg R < deg P and R monic when P is |
| `Berlekamp.RootSpread` | algnuth/polynom.py:277-279 | when P' == 0, P(x) = R(x^p) for R = P.C[::p] |
| `Berlekamp.RootPower` | algnuth/polynom.py:277-279 | when P' == 0, P is the p-th power of R = P.C[::p], so R divides P |
| `Berlekamp.Merge` | algnuth/polynom.py:286-287 | `factors[D] += v` over G: keys are the union, each count is the sum |
| `Berlekamp.LinearFactor` | algnuth/polynom.py:271-272 | a degree-one P is its own single factor |
| `Berlekamp.ScaledFactors` | algnuth/polynom.py:280-282 | multiplying every multiplicity by p keeps a valid factorisation whose multiplicities are multiples of p |
| `Berlekamp.SubConstant` | algnuth/polynom.py:299 | Q - i keeps the degree of a nonconstant Q |
| `Berlekamp.DividesDeg` | algnuth/polynom.py:299-300 | a divisor of a nonzero polynomial is nonzero and no longer than it |
| `Berlekamp.DividesTrans` | algnuth/polynom.py:299-301 | a divisor of a divisor of A divides A |
| `Berlekamp.QuotientDivides` | algnuth/polynom.py:288 | for S dividing A, the quotient A // S divides A too |
| `Berlekamp.KeysDivideTrans` | algnuth/polynom.py:286-302 | factors that divide S divide every multiple A of S |
| `Berlekamp.MergeDivides` | algnuth/polynom.py:286-287 | merging two factorisations whose keys divide A keeps every key a divisor of A |
| `Berlekamp.AddDivisor` | algnuth/polynom.py:294 | `factors[P] += 1` for a divisor P of A keeps every key a divisor of A |
| `Berlekamp.RootFactors` | algnuth/polynom.py:277-282 | the factors of R with multiplicities times p are a valid factorisation of P whose keys divide P |
| `Berlekamp.SquareFreeQuotient` | algnuth/polynom.py:285-288 | for 1 <= deg S < deg P, P // S divides P, is nonconstant, and is monic when P is |
| `Berlekamp.GcdDivisors` | algnuth/polynom.py:285-287 | factors whose keys divide S = gcd(P, P') have keys that divide P |
| `Berlekamp.GcdFactors` | algnuth/polynom.py:285-288 | the factors of S = gcd(P, P') are a valid factorisation for P with keys dividing P, and P // S divides P |
| `Berlekamp.FactorUnit` | algnuth/polynom.py:264-303 | every factor divides P, is nonconstant, of degree <= deg P, multiplicity >= 1, monic for monic P; degree one gives {P: 1}; P' == 0 gives multiplicities divisible by p |
| `Berlekamp.FactorCoprime` | algnuth/polynom.py:283-303 | the branch with deg gcd(P, P') < deg P yields such a factorisation, every factor dividing P |
| `Berlekamp.SplitSquareFree` | algnuth/polynom.py:296-302 | factoring each nonconstant gcd(P, Q - i) keeps the factorisation valid, and keeps every factor a divisor of the original polynomial |
| `Berlekamp.Factor` | algnuth/polynom.py:305-315 | c is the leading coefficient, P == c Monic(P), a constant has no factors, and every factor is monic, nonconstant and divides P |
| `Frobenius.PowerMul` | algnuth/polynom.py:159-188 | (A B)^n == A^n B^n |
| `Frobenius.PowerX` | algnuth/polynom.py:177-188 | x^n is the monomial x^n |
| `Frobenius.LinearFrobenius` | algnuth/polynom.py:278 | modulo a prime, (x + c)^p == x^p + c |
| `Frobenius.FreshmanConstant` | algnuth/polynom.py:278 | modulo a prime, (c + Y)^p == c + Y^p for every polynomial Y |
| `Frobenius.Spread` | algnuth/polynom.py:278-279 | R(x^p), the polynomial whose coefficients are those of R at the multiples of p |
| `Frobenius.SpreadCoef` | algnuth/polynom.py:278-279 | coefficient i of R(x^p) is R_(i/p) when p divides i, else 0 |
| `Frobenius.FrobeniusIdentity` | algnuth/polynom.py:278-279 | modulo a prime, R^p == R(x^p), the identity behind `P = R^p` |
| `RealPoly.RPoly` | algnuth/polynom.py:117-120 | the constructor trims a real coefficient list without changing coefficients |
| `RealPoly.RNeg` | algnuth/polynom.py:150 | every coefficient of -P is negated |
| `RealPoly.RNegNeg` | algnuth/polynom.py:150 | -(-P) == P |
| `RealPoly.RDeriv` | algnuth/polynom.py:126-127 | coefficient i of P' is (i + 1) P_(i+1), and deg P' = deg P - 1 |
| `RealPoly.RDerivNeg` | algnuth/polynom.py:126-150 | (-P)' == -(P') |
| `RealPoly.RMonic` | algnuth/polynom.py:223 | `A * (1 / A[-1])` has leading coefficient 1 and coefficients A_i / lead A |
| `RealPoly.RDivStep` | algnuth/polynom.py:197 | the division step lowers the degree and subtracts (lead A / lead B) x^k B |
| `RealPoly.RMod` | algnuth/polynom.py:204-210 | A % B has degree below deg B; with the quotient it satisfies the division identity `RealPoly.RDivision` |
| `RealPoly.RQuot` | algnuth/polynom.py:193-198 | the quotient list Q of `euclidean_division`: deg A - deg B + 1 entries, none when deg A < deg B |
| `RealPoly.RQuotStep` | algnuth/polynom.py:195-197 | one step writes lead A / lead B at index deg A - deg B and continues with the reduced A |
| `RealPoly.RDivision` | algnuth/polynom.py:193-210 | A == Q B + A % B coefficient by coefficient, for the quotient Q = RQuot(A, B) |

| `RealPoly.RModNeg` | algnuth/polynom.py:204-210 | (-A) % (-B) == -(A % B) |
| `RealPoly.RGcd` | algnuth/polynom.py:220-223 | the gcd is monic, nonzero, and no longer than B (or as long as A when B = 0) |
| `RealPoly.RGcdNeg` | algnuth/polynom.py:220-223 | gcd(-A, -B) == gcd(A, B) |
| `RealPoly.RRemainder` | algnuth/polynom.py:193-198 | the division loop leaves A % B |
| `RealPoly.REuclidGcd` | algnuth/polynom.py:220-223 | the gcd loop returns RGcd(A, B) |
| `Sturm.ExtMulNeg` | algnuth/polynom.py:355 | IEEE products: (-a)(-b) = a b and (-a) b = -(a b) |
| `Sturm.SignChanges` | algnuth/polynom.py:331-332 | a list of fewer than two values has no sign change; otherwise at most one per adjacent pair |
| `Sturm.SignChangesNeg` | algnuth/polynom.py:331-332 | negating every value keeps the number of sign changes |
| `Sturm.Eval` | algnuth/polynom.py:129-135 | Horner's loop on extended reals gives EvalExt(P, x) |
| `Sturm.EvalAtInfinity` | algnuth/polynom.py:350-354 | P(+inf) has the sign of the leading coefficient, and P(-inf) that sign times (-1)^deg P |
| `Sturm.EvalNeg` | algnuth/polynom.py:350-354 | (-P)(x) == -(P(x)) at every extended x |
| `Sturm.SturmValues` | algnuth/polynom.py:348-355 | l1 and l2 of `sturm` are nonempty with at most |P| entries |
| `Sturm.SturmCount` | algnuth/polynom.py:340-357 | the value of `sturm`: sign changes at -inf minus those at +inf; `Sturm.SturmBound` bounds it |
| `Sturm.Sturm` | algnuth/polynom.py:340-357 | the loop returns sign changes at -inf minus sign changes at +inf of the sequence P, P', -P % P', ... |
| `Sturm.SturmConstant` | algnuth/polynom.py:340-357 | a constant polynomial has Sturm count 0 |
| `Sturm.SturmLinear` | algnuth/polynom.py:340-357 | a polynomial of degree one has Sturm count 1 |
| `Sturm.SturmBound` | algnuth/polynom.py:340-357 | the Sturm count lies within plus or minus deg P |
| `Sturm.SturmNeg` | algnuth/polynom.py:340-357 | sturm(-P) == sturm(P) |
| `Sturm.NonzeroSturm` | algnuth/polynom.py:366-369 | a nonzero count implies deg P >= 1, so gcd(P, P') is shorter and the loop of `r1` ends |
| `Sturm.R1Of` | algnuth/polynom.py:359-371 | the value of `r1`, summing Sturm counts down the chain of gcd(P, P'); it terminates because each gcd is shorter |
| `Sturm.R1` | algnuth/polynom.py:359-371 | the loop of `r1` sums the Sturm counts of P, gcd(P, P'), ... until one is zero |
| `Sturm.R1Small` | algnuth/polynom.py:359-371 | r1 is 0 for a constant and 1 for a polynomial of degree one |
| `Sturm.R1Neg` | algnuth/polynom.py:359-371 | r1(-P) == r1(P) |
| `Sturm.Half` | algnuth/polynom.py:375-376 | `assert ans % 2 == 0; ans // 2`: a result exactly for even d, and twice it is d |
| `Sturm.R2Of` | algnuth/polynom.py:373-376 | the value of `r2`: (deg P - r1) // 2, None where the parity assertion fails |
| `Sturm.R2Small` | algnuth/polynom.py:373-376 | r2 is 0 for a nonzero polynomial of degree <= 1; the zero polynomial fails the assertion |
| `Sturm.R2Neg` | algnuth/polynom.py:373-376 | r2(-P) == r2(P) |
| `Jacobi.ExpSign` | algnuth/jacobi.py:9-16 | a result exactly when sign is 1 or -1, and it is 1 or -1 |
| `Jacobi.ExpSignPower` | algnuth/jacobi.py:9-16 | expsign(sign, exp) equals sign ** exp |
| `Jacobi.OddPart` | algnuth/jacobi.py:30-33 | the halving loop leaves an odd m' and a count q with m == m' 2^q |
| `Jacobi.DomainStep` | algnuth/jacobi.py:29-38 | m mod n is positive, and the recursive call jacobi(n, m') is again in the terminating domain |
| `Jacobi.JacobiDomain` | algnuth/jacobi.py:19-38 | the inputs on which `jacobi` passes its assertion and halts: odd n, and m = 2 or m mod n coprime to n >= 3 |
| `Jacobi.JacobiOf` | algnuth/jacobi.py:19-38 | the symbol is 1 or -1 |
| `Jacobi.Jacobi` | algnuth/jacobi.py:19-38 | None for even n (the failed assertion); otherwise the value JacobiOf(m, n) |
| `Jacobi.JacobiTwo` | algnuth/jacobi.py:25-28 | (2/n) == (-1)^((n^2 - 1) / 8) |
| `Jacobi.JacobiOne` | algnuth/jacobi.py:34-35 | (1/n) == 1 |
| `Jacobi.JacobiPeriodic` | algnuth/jacobi.py:29 | (m + k n / n) == (m / n) |
| `Jacobi.JacobiFactorTwo` | algnuth/jacobi.py:31-36 | (2h / n) == (2 / n)(h / n) |
| `Jacobi.JacobiOddBelow` | algnuth/jacobi.py:36-38 | for odd 3 <= m < n, (m / n) == (-1 if both are 3 mod 4 else 1) (n / m) |
| `Jacobi.JacobiReciprocity` | algnuth/jacobi.py:36-38 | for distinct odd coprime m, n >= 3, (m / n)(n / m) == -1 exactly when both are 3 mod 4 |
| `Sieve.RoundSqrt` | algnuth/jacobi.py:67 | round(sqrt n) is within one half of the square root, and at least its floor |
| `Sieve.SieveRound` | algnuth/jacobi.py:67-73 | one round keeps "no divisor below x" true of each flag, for x + 1 |
| `Sieve.SieveComplete` | algnuth/jacobi.py:67-68 | once x^2 > n, "no divisor below x" means i is prime |
| `Sieve.CrossOut` | algnuth/jacobi.py:70-73 | the slice assignment clears exactly the multiples of x from 2x on, and there are n // x - 1 of them |
| `Sieve.Flagged` | algnuth/jacobi.py:74 | the comprehension lists exactly the flagged indices from lo on, increasing |
| `Sieve.Sieve` | algnuth/jacobi.py:58-74 | the primes below n0 in increasing order; None exactly when n0 <= 0 |
| `MillerRabin.PowMod` | algnuth/jacobi.py:89 | `pow(a, e, n)` is in [0, n) |
| `MillerRabin.Halving` | algnuth/jacobi.py:92-96 | the halving loop leaves a positive b |
| `MillerRabin.WitnessLoop` | algnuth/jacobi.py:88-98 | the value of the loop over the witnesses; `MillerRabin.WitnessLoopFermat` and `MillerRabin.WitnessLoopPrime` state what it checks |
| `MillerRabin.IsPrimeRMOf` | algnuth/jacobi.py:77-99 | the value of `isprimerm`: 1 rejected, a listed n accepted, other evens rejected, else the witness loop |
| `MillerRabin.IsPrimeRM` | algnuth/jacobi.py:77-99 | the loops return the value of the recursive definition IsPrimeRMOf |
| `MillerRabin.EarlyAnswers` | algnuth/jacobi.py:81-86 | 1 is rejected, a listed n is accepted, another even n is rejected |
| `MillerRabin.WitnessLoopFermat` | algnuth/jacobi.py:88-90 | an accepting witness loop passed Fermat's test for every remaining witness |
| `MillerRabin.AcceptedPassesFermat` | algnuth/jacobi.py:88-90 | an accepted odd n passes a^(n-1) = 1 mod n for every witness a |
| `MillerRabin.SmallPrimesRejected` | algnuth/jacobi.py:77-99 | as written, the default list rejects the primes 3 and 5 |
| `MillerRabin.PowModSquare` | algnuth/jacobi.py:95 | (a^b mod n)^2 mod n == a^(2b) mod n |
| `MillerRabin.HalvingPrime` | algnuth/jacobi.py:92-97 | modulo a prime the halving loop stops at 1 or n - 1 |
| `MillerRabin.WitnessLoopPrime` | algnuth/jacobi.py:88-98 | with multiples of n skipped, a prime passes every witness |
| `MillerRabin.PrimesPassSkipping` | algnuth/jacobi.py:77-99 | with multiples of n skipped, every odd prime and every listed prime is accepted |
| `Fermat.FermatLittle` | algnuth/jacobi.py:89 | a^(p-1) = 1 mod p for a prime p not dividing a |
| `Fermat.SqrtOfOne` | algnuth/jacobi.py:97 | the only square roots of 1 modulo a prime are 1 and p - 1 |
| `Quadratic.ABound` | algnuth/quadratic.py:18 | `int(sqrt(-D / 3))`, exactly: s with 3 s^2 <= -D < 3 (s+1)^2 |
| `Quadratic.ClPair` | algnuth/quadratic.py:20-24 | the nested tests return the one form (a, b, c) when it is reduced of discriminant D, else nothing |
| `Quadratic.CandidateExact` | algnuth/quadratic.py:20-24 | a form is produced for (a, b) exactly when it is reduced, has these a and b, and discriminant D |
| `Quadratic.RowFrom` | algnuth/quadratic.py:19-24 | the forms the inner loop appends from b on; `Quadratic.RowExact` characterises them |
| `Quadratic.ClRow` | algnuth/quadratic.py:19-24 | the inner loop over b returns the row RowFrom(D, a, -a) |
| `Quadratic.RowExact` | algnuth/quadratic.py:19-24 | a form is in the row from b exactly when it is reduced of discriminant D, with this a and b' >= b |
| `Quadratic.RowSorted` | algnuth/quadratic.py:19-24 | a row is sorted, with constant a and b' >= b |
| `Quadratic.RowsExact` | algnuth/quadratic.py:18-24 | the rows for a..A hold exactly the reduced forms of discriminant D with a <= f.a <= A |
| `Quadratic.ClassesOf` | algnuth/quadratic.py:17-25 | the list `Cl(D)` builds; `Quadratic.ClassesExact` characterises it |
| `Quadratic.ReducedBound` | algnuth/quadratic.py:18 | every reduced form has 3 a^2 <= -D, so the bound on a loses none |
| `Quadratic.ClassesExact` | algnuth/quadratic.py:11-25 | `Cl(D)` holds exactly the reduced forms of discriminant D, sorted and so without repetition |
| `Quadratic.Cl` | algnuth/quadratic.py:11-25 | None when an assertion fails (D >= 0 or D = 2, 3 mod 4), else the list ClassesOf(D) |
| `Quadratic.Content` | algnuth/quadratic.py:32 | gcd(a, b, c) as `gcdl`, a reduce of `math.gcd` over the triple |
| `Quadratic.Primitives` | algnuth/quadratic.py:32 | the filter keeps exactly the forms with gcd(a, b, c) = 1, in order |
| `Quadratic.PrimOf` | algnuth/quadratic.py:28-32 | `Prim(D)`, None where `Cl` fails an assertion; `Quadratic.PrimExact` characterises it |
| `Quadratic.ClassNumber` | algnuth/quadratic.py:84-88 | `h(D)`, the length of `Prim(D)`; `Quadratic.PrincipalForm` shows it is at least 1 |
| `Quadratic.PrimExact` | algnuth/quadratic.py:28-32 | `Prim(D)` holds exactly the primitive reduced forms of discriminant D; h(D) is their number |
| `Quadratic.SortedDistinct` | algnuth/quadratic.py:84-88 | a sorted list of forms has no repetition, so its length counts distinct forms |
| `Quadratic.PrincipalForm` | algnuth/quadratic.py:84-88 | the principal form (1, 0, -D/4) or (1, 1, (1-D)/4) is in Prim(D), so h(D) >= 1 |
| `Quadratic.IsAmbiguous` | algnuth/quadratic.py:91-92 | `is_ambiguous`: b = 0, b = a or c = a |
| `Quadratic.Ambiguous` | algnuth/quadratic.py:91-96 | the filter keeps exactly the forms with b = 0, b = a or c = a, in order |
| `Quadratic.AmbiguousClassesOf` | algnuth/quadratic.py:95-96 | `ambiguous_classes(D)`; `Quadratic.AmbiguousExact` characterises it |
| `Quadratic.AmbiguousCount` | algnuth/quadratic.py:104-108 | `a(D)`, the length of that list |
| `Quadratic.AmbiguousExact` | algnuth/quadratic.py:95-108 | `ambiguous_classes` holds exactly the ambiguous reduced forms; a(D) counts them and is at most the number of classes |
| `Quadratic.Reduced` | algnuth/quadratic.py:61-71 | for negative discriminant the loop ends with -abs a < b <= abs a <= abs c, same discriminant, same sign of a |
| `Quadratic.DefiniteSigns` | algnuth/quadratic.py:65-68 | a definite form has a, c nonzero and of one sign |
| `Quadratic.SwapDisc` | algnuth/quadratic.py:66-67 | (c, -b, a) has the discriminant of (a, b, c) |
| `Quadratic.StepDisc` | algnuth/quadratic.py:68-70 | the translation step keeps the discriminant |
| `Quadratic.StepShrinks` | algnuth/quadratic.py:68-70 | the translation step shrinks abs b, or stops at b = abs a |
| `Quadratic.Value` | algnuth/quadratic.py:111-115 | `func(a, b, c)(x, y)` = a x^2 + b x y + c y^2 |
| `Quadratic.CompleteSquare` | algnuth/quadratic.py:111-115 | 4 a f(x, y) == (2 a x + b y)^2 - D y^2 |
| `Quadratic.PositiveDefinite` | algnuth/quadratic.py:111-115 | a form with a > 0 and D < 0 takes no negative value |
| `Quadratic.Ascending` | algnuth/quadratic.py:121 | `tuple(sorted(set(...)))` lists the set's members in [lo, hi) increasingly |
| `Quadratic.CoprimeResidue` | algnuth/quadratic.py:121 | a value coprime to m has a residue coprime to m |
| `Quadratic.GenusSet` | algnuth/quadratic.py:118-121 | the set comprehension of `genus` |
| `Quadratic.Genus` | algnuth/quadratic.py:118-121 | `genus(a, b, c)`, that set sorted; `Quadratic.GenusExact` characterises it |
| `Quadratic.GenusExact` | algnuth/quadratic.py:118-121 | the genus lists increasingly the residues mod -D of the values f(x, y) coprime to -D, with 0 <= x, y < -D |
| `Quadratic.Genera` | algnuth/quadratic.py:124-129 | the loop collects the genus of every primitive form; None when `Prim` fails its assertion |

## Left out

- `PolyKernel.GaussianElimKer`: a None result is stated as echelon form (nonzero rows of distinct degrees that still combine the original rows). The model does not prove that this means the kernel is trivial.
- `PolyKernel.ComputeQ`: the result is characterised by its coefficients combining the rows of F - Id to zero. The Frobenius identity R(x)^p = R(x^p) is proved (`Frobenius.FrobeniusIdentity`), but it is not applied to derive the equivalent statement Q^p = Q mod P.
- `Berlekamp.FactorUnit`: every factor is proved to divide P, but the product of the factors raised to their multiplicities is not proved to equal P, the degrees weighted by multiplicity are not proved to sum to deg P, and the factors are not proved irreducible. That needs Berlekamp's theorem: P is the product of the gcd(P, Q - i).
- `Berlekamp.FactorCoprime`: for the same reason, only divisibility of each factor is proved, not the product, the degree sum or irreducibility.
- `Berlekamp.SplitSquareFree`: for the same reason, only divisibility of each factor is proved, not the product, the degree sum or irreducibility.
- `Berlekamp.Factor`: for the same reason, c times the product of the factors is not proved to be P; each factor is proved to divide P.
- `Berlekamp.Factor`: the precondition P != [] excludes the zero polynomial, on which the source raises an IndexError at `P[-1]`.
- `ModArith.Pow`: the exponent is a `nat`. For a negative k the source loop never ends, since `k >>= 1` keeps -1 at -1; the same holds for `ModArith.Power`.
- `PolyPower.Pow`: the exponent is a `nat`, for the same reason (a negative k never ends the loop); the same holds for `PolyPower.Power`.
- `PolyDivision.DivMod`: the precondition UnitLead(B) excludes B = 0, where the source raises an IndexError at `B[0]`, and a leading coefficient not invertible modulo p, where its quotient step need not shrink A. `PolyDivision.EuclideanDivision`, `PolyDivision.PolyMod` and `PolyDivision.FloorDiv` share it.
- `RealPoly.RMod`: the precondition B != [] excludes B = 0, where the source raises an IndexError at `B[0]`.
- `PolyDivision.PolyGcd`: the precondition A != 0 or B != 0 excludes gcd(0, 0), where the source raises an IndexError at `A[-1]`; `PolyDivision.EuclidGcd` shares it.
- `ModArith.Power`: the source's `**` with k = 0 returns the Python int 1, not a ModInt. This is modelled as the residue of 1; in the same way `PolyPower.Power` gives the constant polynomial 1.
- `ModArith.Add`: the assertions on the type and the modulus (`isinstance`, `a.n == b.n`) are preconditions, and the other binary operations are modelled the same way. The values are stated by `ModArith.OfHomomorphism`.
- Dispatch on operand types (`isinstance`), `__hash__`, `__repr__`, `__str__`, `_formatmonomial`, `ppfactors`, `__len__`, `__iter__`, `__getitem__`, `__call__`, `__bool__` and `__lt__` are presentation or plumbing over the sequence representation.
- `sylvester`, `resultant` and `disc` are left out: they rely on numpy matrices and floating-point determinants.
- `isreal` and `isinteger` are left out: they are type tests.
- `RealPoly`, `Sturm`: coefficients are exact reals. Floating-point rounding of Python floats is not modelled; only the IEEE rules for infinite operands in `sturm` are.
- `Sturm.Sturm`: Sturm's theorem, that the count is the number of distinct real roots, is not proved. Nor is the claim that `r1` counts real roots with multiplicity.
- `RealPoly.RRemainder`: like `%`, the loop returns the remainder only; the quotient list of `euclidean_division` for real polynomials is the function `RealPoly.RQuot`, without a loop of its own.
- `RealPoly.RGcd`: over the reals the gcd is specified by its shape (monic, degree bound), not by divisibility.
- `Sturm.R2Small`: r2 is not proved even or non-negative in general; the parity assertion of `r2` is modelled as a None result.
- `Jacobi.Jacobi`: the precondition requires m mod n to be coprime to n with n >= 3, or m = 2. For a common factor, or for n = 1, the source's halving loop meets 0 and never ends.
- `Jacobi.JacobiReciprocity`: it states the law the algorithm's own recursion satisfies. The symbol is not related to the Legendre symbol or to quadratic residues.
- `solovay_strassen` is left out: it draws random witnesses.
- The test functions and the `__main__` block of `algnuth/jacobi.py` are left out: they are test drivers.
- `MillerRabin.IsPrimeRM`: a negative odd n is excluded. There Python's `pow` with a negative modulus is outside the model.
- `Sieve.RoundSqrt`: `round(n ** .5)` is the exact nearest integer to the square root; float error is not modelled.
- `Quadratic.ABound`: `int(sqrt(-D / 3))` is computed exactly in integers; float error for very large D is not modelled.
- `Quadratic.Reduced`: only negative discriminants are covered (the precondition Disc < 0), where termination is proved. For indefinite forms the loop need not end.
- `Quadratic.Reduced`: the loop's exit test admits (a, b, a) with b < 0, which `Cl` lists as (a, -b, a). The model keeps the source's exit test.
- `display`, `display_classes`, `display_primitive_forms` and `display_ambiguous_classes` are left out: they print.
- `index` is left out: its assertion that the number of genera divides the number of classes is a theorem of genus theory, not proved here.
- `algnuth/ideals.py` and `setup.py` are not part of this model.

## Findings

| source | as written | input that shows it | evidently intended | confidence | as-written member | corrected member |
|---|---|---|---|---|---|---|
| algnuth/jacobi.py:77-99 | `isprimerm` requires pow(a, n - 1, n) == 1 for every witness a, including multiples of n | n = 3 (the witness 9375 is a multiple of 3) and n = 5 (325 is a multiple of 5): both primes are rejected | a witness a with a % n == 0 says nothing about n and is skipped, so every prime is accepted | not executed | `MillerRabin.SmallPrimesRejected` | `MillerRabin.PrimesPassSkipping` |

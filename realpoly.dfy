/** Polynomials with real coefficients (algnuth/polynom.py, class Polynomial
    with int or float coefficients, as `sturm`, `r1` and `r2` use it).
    Coefficients are exact reals, lowest degree first, trimmed; evaluation
    at the infinities follows the IEEE rules for infinite operands. */
module RealPoly {
  import opened CoefficientLists

  /** The invariant of a Polynomial object: no trailing zero. */
  predicate IsRPoly(P: seq<real>) {
    P == [] || P[|P| - 1] != 0.0
  }

  /** Coefficient of x^i, zero outside the stored list. */
  function RCoef(P: seq<real>, i: int): real {
    if 0 <= i < |P| then P[i] else 0.0
  }

  function RLead(P: seq<real>): real
    requires P != []
  {
    P[|P| - 1]
  }

  /** `Polynomial(C)` for real coefficient lists. */
  function RPoly(C: seq<real>): (P: seq<real>)
    ensures IsRPoly(P) && |P| <= |C|
    ensures forall i {:trigger RCoef(P, i)} :: RCoef(P, i) == RCoef(C, i)
  {
    Trim(C, 0.0)
  }

  /** Two polynomials with the same coefficients are the same list. */
  lemma RExt(P: seq<real>, Q: seq<real>)
    requires IsRPoly(P) && IsRPoly(Q)
    requires forall i {:trigger RCoef(P, i)} :: 0 <= i ==> RCoef(P, i) == RCoef(Q, i)
    ensures P == Q
  {
    if P != [] || Q != [] {
      var n := if |P| >= |Q| then |P| else |Q|;
      assert RCoef(P, n - 1) == RCoef(Q, n - 1);
    }
    forall i | 0 <= i < |P| ensures P[i] == Q[i] {
      assert RCoef(P, i) == RCoef(Q, i);
    }
  }

  // ---------------------------------------------------------------------
  // negation, scaling, derivative

  /** `[-c for c in C]`, entry by entry. */
  function NegAll(C: seq<real>): (D: seq<real>)
    ensures |D| == |C|
    ensures forall i {:trigger D[i]} :: 0 <= i < |C| ==> D[i] == -C[i]
  {
    if C == [] then [] else NegAll(C[..|C| - 1]) + [-C[|C| - 1]]
  }

  /** `-P`: every coefficient negated. */
  function RNeg(P: seq<real>): (R: seq<real>)
    requires IsRPoly(P)
    ensures IsRPoly(R) && |R| == |P|
    ensures forall i {:trigger RCoef(R, i)} :: RCoef(R, i) == -RCoef(P, i)
  {
    var D := NegAll(P);
    TrimTrimmed(D, 0.0);
    RPoly(D)
  }

  /** Negating twice gives P back. */
  lemma RNegNeg(P: seq<real>)
    requires IsRPoly(P)
    ensures RNeg(RNeg(P)) == P
  {
    RExt(RNeg(RNeg(P)), P);
  }

  /** `[k * c for c in C]`, entry by entry. */
  function ScaleAll(k: real, C: seq<real>): (D: seq<real>)
    ensures |D| == |C|
    ensures forall i {:trigger D[i]} :: 0 <= i < |C| ==> D[i] == k * C[i]
  {
    if C == [] then [] else ScaleAll(k, C[..|C| - 1]) + [k * C[|C| - 1]]
  }

  /** `A * (1 / A[-1])`: the monic associate of a nonzero polynomial. */
  function RMonic(A: seq<real>): (G: seq<real>)
    requires IsRPoly(A) && A != []
    ensures IsRPoly(G) && |G| == |A| && RLead(G) == 1.0
    ensures forall i {:trigger RCoef(G, i)} :: RCoef(G, i) == RCoef(A, i) / RLead(A)
  {
    var u := 1.0 / RLead(A);
    var D := ScaleAll(u, A);
    assert D[|A| - 1] == 1.0;
    TrimTrimmed(D, 0.0);
    assert forall i {:trigger RCoef(D, i)} :: RCoef(D, i) == RCoef(A, i) / RLead(A) by {
      forall i ensures RCoef(D, i) == RCoef(A, i) / RLead(A) {
        if 0 <= i < |A| {
          assert D[i] == u * A[i];
        }
      }
    }
    RPoly(D)
  }

  /** The monic associate of -A is that of A. */
  lemma RMonicNeg(A: seq<real>)
    requires IsRPoly(A) && A != []
    ensures RMonic(RNeg(A)) == RMonic(A)
  {
    var N := RNeg(A);
    assert RLead(N) == RCoef(N, |A| - 1) == -RLead(A);
    forall i | 0 <= i ensures RCoef(RMonic(N), i) == RCoef(RMonic(A), i) {
      assert RCoef(N, i) == -RCoef(A, i);
      assert (-RCoef(A, i)) / (-RLead(A)) == RCoef(A, i) / RLead(A);
    }
    RExt(RMonic(N), RMonic(A));
  }

  /** R has the coefficients of P': coefficient i is (i + 1) P[i + 1]. */
  ghost predicate IsDeriv(R: seq<real>, P: seq<real>) {
    forall i {:trigger RCoef(R, i)} :: 0 <= i ==> RCoef(R, i) == (i + 1) as real * RCoef(P, i + 1)
  }

  /** The first n entries of `[i * P[i] for i in range(1, len(P))]`. */
  function DerivAll(P: seq<real>, n: nat): (C: seq<real>)
    requires n < |P|
    ensures |C| == n
    ensures forall i {:trigger C[i]} :: 0 <= i < n ==> C[i] == (i + 1) as real * P[i + 1]
  {
    if n == 0 then [] else DerivAll(P, n - 1) + [n as real * P[n]]
  }

  /** `prime()`: coefficient i - 1 is i P[i]; over the reals the degree drops
      by exactly one. */
  function RDeriv(P: seq<real>): (R: seq<real>)
    requires IsRPoly(P)
    ensures IsRPoly(R) && |R| == if P == [] then 0 else |P| - 1
    ensures IsDeriv(R, P)
  {
    if P == [] then []
    else
      var C := DerivAll(P, |P| - 1);
      assert |P| >= 2 ==> C[|P| - 2] == (|P| - 1) as real * P[|P| - 1];
      TrimTrimmed(C, 0.0);
      RPoly(C)
  }

  /** The derivative of -P is -P'. */
  lemma RDerivNeg(P: seq<real>)
    requires IsRPoly(P)
    ensures RDeriv(RNeg(P)) == RNeg(RDeriv(P))
  {
    var D, ND := RDeriv(P), RDeriv(RNeg(P));
    DerivNegLaw(P, RNeg(P), D, ND);
    RExt(ND, RNeg(D));
  }

  /** The coefficient identity behind RDerivNeg, over lists given by their
      coefficients. */
  lemma DerivNegLaw(P: seq<real>, NP: seq<real>, D: seq<real>, ND: seq<real>)
    requires forall i {:trigger RCoef(NP, i)} :: RCoef(NP, i) == -RCoef(P, i)
    requires IsDeriv(D, P) && IsDeriv(ND, NP)
    ensures forall i {:trigger RCoef(ND, i)} :: 0 <= i ==> RCoef(ND, i) == -RCoef(D, i)
  {
    forall i | 0 <= i ensures RCoef(ND, i) == -RCoef(D, i) {
      MulNeg((i + 1) as real, RCoef(P, i + 1));
    }
  }

  lemma MulNeg(a: real, x: real)
    ensures a * -x == -(a * x)
  {
  }

  // ---------------------------------------------------------------------
  // Euclidean division and the gcd

  /** Entries 0 .. n - 1 of A - c x^k B. */
  function StepAll(A: seq<real>, B: seq<real>, c: real, k: nat, n: nat): (C: seq<real>)
    requires n <= |A|
    ensures |C| == n
    ensures forall i {:trigger C[i]} :: 0 <= i < n ==> C[i] == A[i] - c * RCoef(B, i - k)
  {
    if n == 0 then [] else StepAll(A, B, c, k, n - 1) + [A[n - 1] - c * RCoef(B, n - 1 - k)]
  }

  /** D has the coefficients of A - c x^k B. */
  ghost predicate IsSubShift(D: seq<real>, A: seq<real>, B: seq<real>, c: real, k: nat) {
    forall i {:trigger RCoef(D, i)} :: 0 <= i ==> RCoef(D, i) == RCoef(A, i) - c * RCoef(B, i - k)
  }

  /** A - c x^k B, trimmed. */
  function RSubShift(A: seq<real>, B: seq<real>, c: real, k: nat): (D: seq<real>)
    requires IsRPoly(A) && IsRPoly(B) && |B| + k <= |A|
    ensures IsRPoly(D) && |D| <= |A|
    ensures IsSubShift(D, A, B, c, k)
  {
    var C := StepAll(A, B, c, k, |A|);
    var D := RPoly(C);
    assert forall i {:trigger RCoef(D, i)} :: 0 <= i ==> RCoef(D, i) == RCoef(A, i) - c * RCoef(B, i - k) by {
      forall i | 0 <= i ensures RCoef(D, i) == RCoef(A, i) - c * RCoef(B, i - k) {
        if i >= |A| {
          assert RCoef(B, i - k) == 0.0;
        }
      }
    }
    D
  }

  /** One pass of the loop of `euclidean_division`: A - c x^k B with
      c = lead A / lead B and k = deg A - deg B; the leading coefficient
      cancels, so the degree drops. */
  function RDivStep(A: seq<real>, B: seq<real>): (D: seq<real>)
    requires IsRPoly(A) && IsRPoly(B) && B != [] && |A| >= |B|
    ensures IsRPoly(D) && |D| < |A|
    ensures IsSubShift(D, A, B, RLead(A) / RLead(B), |A| - |B|)
  {
    var D := RSubShift(A, B, RLead(A) / RLead(B), |A| - |B|);
    assert RCoef(D, |A| - 1) == 0.0 by {
      assert RCoef(B, |A| - 1 - (|A| - |B|)) == RLead(B);
      LeadCancel(RLead(A), RLead(B));
    }
    D
  }

  /** a - (a / b) b = 0. */
  lemma LeadCancel(a: real, b: real)
    requires b != 0.0
    ensures a - (a / b) * b == 0.0
  {
  }

  /** `A % B` over the reals, by the recursion of `euclidean_division` on
      the degree of A. */
  function RMod(A: seq<real>, B: seq<real>): (R: seq<real>)
    requires IsRPoly(A) && IsRPoly(B) && B != []
    ensures IsRPoly(R) && |R| < |B|
    decreases |A|
  {
    if |A| < |B| then A else RMod(RDivStep(A, B), B)
  }

  /** q extended with zero coefficients to length m. */
  function RPad(q: seq<real>, m: nat): (r: seq<real>)
    requires |q| <= m
    ensures |r| == m && forall i {:trigger RCoef(r, i)} :: RCoef(r, i) == RCoef(q, i)
  {
    q + seq(m - |q|, i => 0.0)
  }

  /** The quotient of A by B that `RMod` computes along the way, lowest
      degree first: each step removes (lead A / lead B) x^(deg A - deg B). */
  function RQuot(A: seq<real>, B: seq<real>): (Q: seq<real>)
    requires IsRPoly(A) && IsRPoly(B) && B != []
    ensures |Q| == if |A| < |B| then 0 else |A| - |B| + 1
    decreases |A|
  {
    if |A| < |B| then []
    else RPad(RQuot(RDivStep(A, B), B), |A| - |B|) + [RLead(A) / RLead(B)]
  }

  lemma RQuotStep(A: seq<real>, B: seq<real>)
    requires IsRPoly(A) && IsRPoly(B) && B != [] && |A| >= |B|
    ensures RQuot(A, B) == RPad(RQuot(RDivStep(A, B), B), |A| - |B|) + [RLead(A) / RLead(B)]
  {
  }

  /** q[0] B[d] + ... + q[n - 1] B[d - n + 1]: the terms k < n of the
      coefficient of x^d in the product q B. */
  function QSum(q: seq<real>, B: seq<real>, d: int, n: nat): real {
    if n == 0 then 0.0 else QSum(q, B, d, n - 1) + RCoef(q, n - 1) * RCoef(B, d - (n - 1))
  }

  lemma SumStepArith(xn: real, xk: real, yn: real, yk: real, qa: real, qd: real, b: real,
                     c: real, e: real, here: bool, before: bool)
    requires xn == xk + qa * b && yn == yk + qd * b
    requires xk == yk + (if before then c * e else 0.0)
    requires here ==> qa == c && qd == 0.0 && b == e && !before
    requires !here ==> qa == qd
    ensures xn == yn + (if before || here then c * e else 0.0)
  {
  }

  /** A new leading quotient coefficient c at degree |q| adds c B[d - |q|]. */
  lemma {:induction false} QSumAppend(q: seq<real>, c: real, B: seq<real>, d: int, n: nat)
    ensures QSum(q + [c], B, d, n) ==
      QSum(q, B, d, n) + (if |q| < n then c * RCoef(B, d - |q|) else 0.0)
  {
    if n > 0 {
      var k := n - 1;
      QSumAppend(q, c, B, d, k);
      SumStepArith(QSum(q + [c], B, d, n), QSum(q + [c], B, d, k), QSum(q, B, d, n), QSum(q, B, d, k),
                   RCoef(q + [c], k), RCoef(q, k), RCoef(B, d - k), c, RCoef(B, d - |q|), k == |q|, |q| < k);
    }
  }

  /** Padding with zeros does not change the sum. */
  lemma {:induction false} QSumPad(q: seq<real>, m: nat, B: seq<real>, d: int, n: nat)
    requires |q| <= m
    ensures QSum(RPad(q, m), B, d, n) == QSum(q, B, d, n)
  {
    if n > 0 {
      QSumPad(q, m, B, d, n - 1);
    }
  }

  lemma AddBack(a: real, x: real, s: real, t: real, r: real, u: real)
    requires x == a - u && s == t + u && x == t + r
    ensures a == s + r
  {
  }

  /** The coefficient relation of one division step. */
  lemma DivStepCoef(A: seq<real>, B: seq<real>, d: int, D: seq<real>, m: nat, c: real)
    requires IsRPoly(A) && IsRPoly(B) && B != [] && |A| >= |B| && 0 <= d
    requires D == RDivStep(A, B) && m == |A| - |B| && c == RLead(A) / RLead(B)
    ensures RCoef(D, d) == RCoef(A, d) - c * RCoef(B, d - m)
  {
  }

  /** One step of the division adds (lead A / lead B) x^(deg A - deg B)
      to the quotient. */
  lemma QuotStepSum(A: seq<real>, B: seq<real>, d: int, n: nat, q: seq<real>, m: nat, c: real)
    requires IsRPoly(A) && IsRPoly(B) && B != [] && |A| >= |B| && n >= |A|
    requires q == RQuot(RDivStep(A, B), B) && m == |A| - |B| && c == RLead(A) / RLead(B)
    ensures QSum(RQuot(A, B), B, d, n) == QSum(q, B, d, n) + c * RCoef(B, d - m)
  {
    RQuotStep(A, B);
    assert RQuot(A, B) == RPad(q, m) + [c];
    QSumExtend(q, m, c, B, d, n);
  }

  lemma QSumExtend(q: seq<real>, m: nat, c: real, B: seq<real>, d: int, n: nat)
    requires |q| <= m < n
    ensures QSum(RPad(q, m) + [c], B, d, n) == QSum(q, B, d, n) + c * RCoef(B, d - m)
  {
    QSumAppend(RPad(q, m), c, B, d, n);
    QSumPad(q, m, B, d, n);
  }

  /** One coefficient of the identity, from the one for A's division step. */
  lemma RDivisionAt(A: seq<real>, B: seq<real>, d: int, n: nat, D: seq<real>, q: seq<real>, R: seq<real>)
    requires IsRPoly(A) && IsRPoly(B) && B != [] && |A| >= |B| && n >= |A| && 0 <= d
    requires D == RDivStep(A, B) && q == RQuot(D, B) && R == RMod(A, B)
    requires RCoef(D, d) == QSum(q, B, d, n) + RCoef(R, d)
    ensures RCoef(A, d) == QSum(RQuot(A, B), B, d, n) + RCoef(R, d)
  {
    var m: nat, c := |A| - |B|, RLead(A) / RLead(B);
    DivStepCoef(A, B, d, D, m, c);
    QuotStepSum(A, B, d, n, q, m, c);
    AddBack(RCoef(A, d), RCoef(D, d), QSum(RQuot(A, B), B, d, n), QSum(q, B, d, n), RCoef(R, d), c * RCoef(B, d - m));
  }

  /** The division identity A = Q B + RMod(A, B), coefficient by
      coefficient, with Q = RQuot(A, B) of degree deg A - deg B (none
      when deg A < deg B). */
  lemma {:induction false} RDivision(A: seq<real>, B: seq<real>, n: nat)
    requires IsRPoly(A) && IsRPoly(B) && B != [] && n >= |A|
    ensures forall d {:trigger RCoef(A, d)} :: 0 <= d ==>
      RCoef(A, d) == QSum(RQuot(A, B), B, d, n) + RCoef(RMod(A, B), d)
    decreases |A|
  {
    if |A| < |B| {
      forall d | 0 <= d ensures RCoef(A, d) == QSum(RQuot(A, B), B, d, n) + RCoef(RMod(A, B), d) {
        QSumEmpty(B, d, n);
      }
    } else {
      var D := RDivStep(A, B);
      RDivision(D, B, n);
      assert RMod(A, B) == RMod(D, B);
      forall d | 0 <= d ensures RCoef(A, d) == QSum(RQuot(A, B), B, d, n) + RCoef(RMod(A, B), d) {
        RDivisionAt(A, B, d, n, D, RQuot(D, B), RMod(A, B));
      }
    }
  }

  lemma {:induction false} QSumEmpty(B: seq<real>, d: int, n: nat)
    ensures QSum([], B, d, n) == 0.0
  {
    if n > 0 {
      QSumEmpty(B, d, n - 1);
    }
  }

  /** A - c x^k B commutes with negating A and B. */
  lemma RSubShiftNeg(A: seq<real>, B: seq<real>, c: real, k: nat)
    requires IsRPoly(A) && IsRPoly(B) && |B| + k <= |A|
    ensures RSubShift(RNeg(A), RNeg(B), c, k) == RNeg(RSubShift(A, B, c, k))
  {
    var NA, NB := RNeg(A), RNeg(B);
    var D, E := RSubShift(NA, NB, c, k), RSubShift(A, B, c, k);
    SubShiftNegLaw(A, B, NA, NB, D, E, c, k);
    RExt(D, RNeg(E));
  }

  /** The coefficient identity behind RSubShiftNeg, over lists given by
      their coefficients. */
  lemma SubShiftNegLaw(A: seq<real>, B: seq<real>, NA: seq<real>, NB: seq<real>, D: seq<real>, E: seq<real>, c: real, k: nat)
    requires forall i {:trigger RCoef(NA, i)} :: RCoef(NA, i) == -RCoef(A, i)
    requires forall i {:trigger RCoef(NB, i)} :: RCoef(NB, i) == -RCoef(B, i)
    requires IsSubShift(D, NA, NB, c, k) && IsSubShift(E, A, B, c, k)
    ensures forall i {:trigger RCoef(D, i)} :: 0 <= i ==> RCoef(D, i) == -RCoef(E, i)
  {
    forall i | 0 <= i ensures RCoef(D, i) == -RCoef(E, i) {
      NegLinear(RCoef(A, i), RCoef(B, i - k), c);
    }
  }

  lemma NegLinear(a: real, b: real, c: real)
    ensures -a - c * -b == -(a - c * b)
  {
  }

  /** One division step commutes with negating both operands: the quotient
      of the leading coefficients and the degree gap are unchanged. */
  lemma RDivStepNeg(A: seq<real>, B: seq<real>)
    requires IsRPoly(A) && IsRPoly(B) && B != [] && |A| >= |B|
    ensures RDivStep(RNeg(A), RNeg(B)) == RNeg(RDivStep(A, B))
  {
    var NA, NB := RNeg(A), RNeg(B);
    assert RLead(NA) == RCoef(NA, |A| - 1) == -RLead(A);
    assert RLead(NB) == RCoef(NB, |B| - 1) == -RLead(B);
    NegQuotient(RLead(A), RLead(B));
    RDivStepAs(NA, NB, RLead(A) / RLead(B), |A| - |B|);
    RSubShiftNeg(A, B, RLead(A) / RLead(B), |A| - |B|);
  }

  /** RDivStep is RSubShift with any names for its quotient and gap. */
  lemma RDivStepAs(A: seq<real>, B: seq<real>, c: real, k: nat)
    requires IsRPoly(A) && IsRPoly(B) && B != [] && |A| >= |B|
    requires c == RLead(A) / RLead(B) && k == |A| - |B|
    ensures RDivStep(A, B) == RSubShift(A, B, c, k)
  {
  }

  lemma NegQuotient(a: real, b: real)
    requires b != 0.0
    ensures (-a) / (-b) == a / b
  {
  }

  /** (-A) % (-B) = -(A % B). */
  lemma {:induction false} RModNeg(A: seq<real>, B: seq<real>)
    requires IsRPoly(A) && IsRPoly(B) && B != []
    ensures RMod(RNeg(A), RNeg(B)) == RNeg(RMod(A, B))
    decreases |A|
  {
    if |A| >= |B| {
      RDivStepNeg(A, B);
      RModNeg(RDivStep(A, B), B);
    }
  }

  /** `gcd`: Euclid's loop A, B = B, A % B, then the monic associate of A.
      The gcd has the degree of A when B is zero and no more than the degree
      of B otherwise. */
  function RGcd(A: seq<real>, B: seq<real>): (G: seq<real>)
    requires IsRPoly(A) && IsRPoly(B) && (A != [] || B != [])
    ensures IsRPoly(G) && G != [] && RLead(G) == 1.0
    ensures B == [] ==> |G| == |A|
    ensures B != [] ==> |G| <= |B|
    decreases |B|
  {
    if B == [] then RMonic(A) else RGcd(B, RMod(A, B))
  }

  /** gcd(-A, -B) = gcd(A, B): the gcd is monic. */
  lemma {:induction false} RGcdNeg(A: seq<real>, B: seq<real>)
    requires IsRPoly(A) && IsRPoly(B) && (A != [] || B != [])
    ensures RGcd(RNeg(A), RNeg(B)) == RGcd(A, B)
    decreases |B|
  {
    if B == [] {
      RMonicNeg(A);
    } else {
      RModNeg(A, B);
      RGcdNeg(B, RMod(A, B));
    }
  }

  // ---------------------------------------------------------------------
  // the loops of `euclidean_division` and `gcd`

  /** `A % B`: subtract c x^k B while deg A >= deg B. */
  method RRemainder(A0: seq<real>, B: seq<real>) returns (R: seq<real>)
    requires IsRPoly(A0) && IsRPoly(B) && B != []
    ensures R == RMod(A0, B)
  {
    R := A0;
    while |R| >= |B|
      invariant IsRPoly(R) && RMod(R, B) == RMod(A0, B)
      decreases |R|
    {
      R := RDivStep(R, B);
    }
  }

  /** `gcd`: A, B = B, A % B while B is nonzero, then the monic associate of A. */
  method REuclidGcd(A0: seq<real>, B0: seq<real>) returns (G: seq<real>)
    requires IsRPoly(A0) && IsRPoly(B0) && (A0 != [] || B0 != [])
    ensures G == RGcd(A0, B0)
  {
    var A, B := A0, B0;
    while B != []
      invariant IsRPoly(A) && IsRPoly(B) && (A != [] || B != [])
      invariant RGcd(A, B) == RGcd(A0, B0)
      decreases |B|
    {
      var R := RRemainder(A, B);
      A, B := B, R;
    }
    G := RMonic(A);
  }
}

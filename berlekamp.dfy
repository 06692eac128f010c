/** `Polynomial.factor_unit` and `Polynomial.factor` (algnuth/polynom.py):
    Berlekamp's factorisation over Z/pZ. A factorisation is a map from
    factors to multiplicities; a key absent from the map has multiplicity
    zero, as in the source's `defaultdict(int)`. */
module Berlekamp {
  import opened NumberTheory
  import opened ModPoly
  import opened PolyRing
  import opened PolyDivision
  import opened PolyKernel
  import opened Wrappers
  import opened CoefficientLists
  import M = ModArith
  import Fr = Frobenius
  import PolyPower

  // ---------------------------------------------------------------------
  // divisibility and degrees

  /** A divisor of a nonzero polynomial is nonzero and of no larger degree. */
  lemma DividesDeg(D: seq<int>, A: seq<int>, p: int)
    requires IsPrime(p) && IsPoly(D, p) && IsPoly(A, p) && A != []
    requires PolyDivision.Divides(D, A, p)
    ensures D != [] && |D| <= |A|
  {
    var X :| IsPoly(X, p) && Mul(X, D, p) == A;
    if D == [] {
      MulZeroRight(X, p);
    }
    if X == [] {
      MulZeroLeft(D, p);
    }
    PrimeUnit(Lead(D), p);
    MulDeg(X, D, p);
  }

  /** A polynomial divides itself. */
  lemma DividesSelf(A: seq<int>, p: int)
    requires IsPoly(A, p)
    ensures PolyDivision.Divides(A, A, p)
  {
    MulOne(A, p);
  }

  /** When S divides A, A % S is zero. */
  lemma ExactRemainder(A: seq<int>, S: seq<int>, p: int)
    requires IsPrime(p) && IsPoly(A, p) && IsPoly(S, p) && S != []
    requires PolyDivision.Divides(S, A, p)
    ensures UnitLead(S, p) && PolyMod(A, S, p) == []
  {
    PrimeUnitLead(S, p);
    var R := PolyMod(A, S, p);
    DividesSelf(S, p);
    DividesRemainder(A, S, S, p);
    if R != [] {
      DividesDeg(S, R, p);
      assert false;
    }
  }

  /** When S divides A, the division A // S is exact: the quotient times S
      gives A back, deg (A // S) = deg A - deg S, and the quotient of two
      monic polynomials is monic. */
  lemma ExactQuotient(A: seq<int>, S: seq<int>, p: int)
    requires IsPrime(p) && IsPoly(A, p) && IsPoly(S, p) && S != [] && A != []
    requires PolyDivision.Divides(S, A, p)
    ensures UnitLead(S, p)
    ensures Mul(FloorDiv(A, S, p), S, p) == A
    ensures |FloorDiv(A, S, p)| == |A| - |S| + 1
    ensures IsMonic(A) && IsMonic(S) ==> IsMonic(FloorDiv(A, S, p))
  {
    ExactRemainder(A, S, p);
    var Q := FloorDiv(A, S, p);
    AddZero(Mul(Q, S, p), p);
    QuotientDeg(A, S, Q, p);
  }

  /** Degree and leading coefficient of an exact quotient. */
  lemma QuotientDeg(A: seq<int>, S: seq<int>, Q: seq<int>, p: int)
    requires IsPrime(p) && IsPoly(A, p) && IsPoly(S, p) && IsPoly(Q, p) && S != [] && A != []
    requires Mul(Q, S, p) == A
    ensures |Q| == |A| - |S| + 1
    ensures IsMonic(A) && IsMonic(S) ==> IsMonic(Q)
  {
    if Q == [] {
      MulZeroLeft(S, p);
    }
    PrimeUnit(Lead(S), p);
    MulDeg(Q, S, p);
    if IsMonic(A) && IsMonic(S) {
      ModSmall(Lead(Q), p);
    }
  }

  /** Divisibility is transitive. */
  lemma DividesTrans(D: seq<int>, S: seq<int>, A: seq<int>, p: int)
    requires IsPoly(D, p) && IsPoly(S, p) && IsPoly(A, p)
    requires PolyDivision.Divides(D, S, p) && PolyDivision.Divides(S, A, p)
    ensures PolyDivision.Divides(D, A, p)
  {
    var X :| IsPoly(X, p) && Mul(X, D, p) == S;
    var Y :| IsPoly(Y, p) && Mul(Y, S, p) == A;
    MulAssoc(Y, X, D, p);
  }

  /** The exact quotient A // S divides A. */
  lemma QuotientDivides(A: seq<int>, S: seq<int>, p: int)
    requires IsPrime(p) && IsPoly(A, p) && IsPoly(S, p) && S != [] && A != []
    requires PolyDivision.Divides(S, A, p)
    ensures UnitLead(S, p) && PolyDivision.Divides(FloorDiv(A, S, p), A, p)
  {
    ExactQuotient(A, S, p);
    MulComm(FloorDiv(A, S, p), S, p);
  }

  // ---------------------------------------------------------------------
  // the derivative test and p-th roots

  /** gcd(P, P') has the degree of P exactly when P' is zero; otherwise it
      is a divisor of P of lower degree. */
  lemma GcdDerivative(P: seq<int>, p: int)
    requires IsPrime(p) && IsPoly(P, p) && P != []
    ensures |PolyGcd(P, Derivative(P, p), p)| == |P| <==> Derivative(P, p) == []
    ensures |PolyGcd(P, Derivative(P, p), p)| <= |P|
  {
    var D, S := Derivative(P, p), PolyGcd(P, Derivative(P, p), p);
    PolyDivision.GcdDivides(P, D, S, p);
    DividesDeg(S, P, p);
    if D != [] {
      DividesDeg(S, D, p);
    }
  }

  /** `P //= S` for S = gcd(P, P') of lower degree: the quotient is exact,
      of degree deg P - deg S, and monic when P is. */
  lemma SquareFreePart(P: seq<int>, p: int)
    requires IsPrime(p) && IsPoly(P, p) && P != []
    ensures UnitLead(PolyGcd(P, Derivative(P, p), p), p)
    ensures |FloorDiv(P, PolyGcd(P, Derivative(P, p), p), p)| == |P| - |PolyGcd(P, Derivative(P, p), p)| + 1
    ensures IsMonic(P) ==> IsMonic(FloorDiv(P, PolyGcd(P, Derivative(P, p), p), p))
  {
    var D, S := Derivative(P, p), PolyGcd(P, Derivative(P, p), p);
    PolyDivision.GcdDivides(P, D, S, p);
    ExactQuotient(P, S, p);
  }

  /** When P' = 0 only the coefficients of x^(j p) can be nonzero: i c = 0
      mod p with c a nonzero residue forces p | i. */
  lemma DerivativeZero(P: seq<int>, p: int)
    requires IsPrime(p) && IsPoly(P, p) && Derivative(P, p) == []
    ensures forall i {:trigger Coef(P, i)} :: 0 <= i && i % p != 0 ==> Coef(P, i) == 0
  {
    forall i | 0 <= i && i % p != 0 ensures Coef(P, i) == 0 {
      DerivativeCoefZero(P, p, i);
    }
  }

  lemma DerivativeCoefZero(P: seq<int>, p: int, i: int)
    requires IsPrime(p) && IsPoly(P, p) && Derivative(P, p) == []
    requires 0 <= i && i % p != 0
    ensures Coef(P, i) == 0
  {
    assert i != 0 by {
      if i == 0 { ModSmall(0, p); }
    }
    var c := Coef(P, i);
    assert Coef(Derivative(P, p), i - 1) == Mod(i * c, p);
    CoefRange(P, p, i);
    NoZeroDivisor(i, c, p);
  }

  /** i c = 0 mod p with p prime, p not dividing i and 0 <= c < p forces c = 0. */
  lemma NoZeroDivisor(i: int, c: int, p: int)
    requires IsPrime(p) && i % p != 0 && 0 <= c < p && Mod(i * c, p) == 0
    ensures c == 0
  {
    if c != 0 {
      M.EuclidLemma(i, c, p);
      ModSmall(c, p);
    }
  }

  /** The first n of the entries 0, p, 2 p, ... of C. */
  function Strided(C: seq<int>, p: nat, n: nat): (E: seq<int>)
    requires forall j: nat {:trigger j * p} :: j < n ==> j * p < |C|
    ensures |E| == n
    ensures forall j {:trigger E[j]} :: 0 <= j < n ==> E[j] == C[j * p]
  {
    if n == 0 then [] else Strided(C, p, n - 1) + [C[(n - 1) * p]]
  }

  /** The multiples j p with j < (n + p - 1) / p are the ones below n. */
  lemma StrideBound(n: nat, p: nat)
    requires p >= 1
    ensures forall j: nat {:trigger j * p} :: j < (n + p - 1) / p ==> 0 <= j * p < n
  {
    var q, r := (n + p - 1) / p, (n + p - 1) % p;
    forall j: nat | j < q ensures 0 <= j * p < n {
      MulDistInt(j, q - 1 - j, p);
      assert (q - 1 - j) * p >= 0;
      MulDistInt(q - 1, 1, p);
    }
  }

  /** `C[::p]`: entries 0, p, 2 p, ... of C. */
  function EveryPth(C: seq<int>, p: nat): (E: seq<int>)
    requires p >= 1
    ensures |E| == (|C| + p - 1) / p
    ensures forall j {:trigger E[j]} :: 0 <= j < |E| ==> 0 <= j * p < |C| && E[j] == C[j * p]
  {
    StrideBound(|C|, p);
    Strided(C, p, (|C| + p - 1) / p)
  }

  /** A multiple x = m p of p with m >= 1: x + p = (m + 1) p and m + 1 <= x. */
  lemma StrideCount(x: int, p: int)
    requires p >= 2 && x >= 1 && x % p == 0
    ensures (x / p) * p == x && (x + p) / p == x / p + 1
    ensures 1 <= x / p && x / p + 1 <= x
  {
    var m := x / p;
    assert x == m * p;
    PositiveFactor(m, p);
    MulDistInt(m, 1, p);
    NumberTheory.DivModUnique(x + p, p, m + 1, 0);
    MulDistInt(p - 1, 1, m);
    MulMono(m, p - 1);
  }

  /** A positive multiple m p of a positive p has m >= 1. */
  lemma PositiveFactor(m: int, p: int)
    requires p >= 1 && m * p >= 1
    ensures m >= 1
  {
  }

  /** Multiples of p ordered by their quotients: i / p > x / p gives i > x. */
  lemma StrideBeyond(i: int, x: int, p: int)
    requires p >= 1 && i % p == 0 && x % p == 0 && i / p > x / p
    ensures i > x
  {
    var a, b := i / p, x / p;
    assert i == a * p && x == b * p;
    MulDistInt(a - b, b, p);
    MulMono(a - b, p);
  }

  /** When P' = 0, P = R(x^p) for the polynomial R built from `P.C[::p]`:
      that list is already trimmed, R has degree deg P / p (so it is
      nonconstant and of lower degree than P), and it is monic with P. */
  lemma PthRoot(P: seq<int>, p: int)
    requires IsPrime(p) && IsPoly(P, p) && |P| >= 2 && Derivative(P, p) == []
    ensures Residues(EveryPth(P, p), p)
    ensures Poly(EveryPth(P, p), p) == EveryPth(P, p)
    ensures 2 <= |EveryPth(P, p)| < |P|
    ensures IsMonic(P) ==> IsMonic(EveryPth(P, p))
    ensures forall i {:trigger Coef(P, i)} :: 0 <= i ==>
      Coef(P, i) == if i % p == 0 then Coef(EveryPth(P, p), i / p) else 0
  {
    var E := EveryPth(P, p);
    PthResidues(P, p);
    DerivativeZero(P, p);
    assert Coef(P, |P| - 1) != 0;
    PthLength(P, p);
    TrimTrimmed(E, 0);
    PthRootCoef(P, E, p);
  }

  lemma PthResidues(P: seq<int>, p: int)
    requires IsPoly(P, p)
    ensures Residues(EveryPth(P, p), p)
  {
    StrideBound(|P|, p);
    StridedResidues(P, p, (|P| + p - 1) / p);
  }

  lemma {:induction false} StridedResidues(C: seq<int>, p: nat, n: nat)
    requires forall j: nat {:trigger j * p} :: j < n ==> j * p < |C|
    requires forall i :: 0 <= i < |C| ==> 0 <= C[i] < p
    ensures forall i :: 0 <= i < |Strided(C, p, n)| ==> 0 <= Strided(C, p, n)[i] < p
  {
    if n > 0 {
      StridedResidues(C, p, n - 1);
      var S := Strided(C, p, n - 1);
      var x := C[(n - 1) * p];
      assert Strided(C, p, n) == S + [x];
      forall i | 0 <= i < n ensures 0 <= (S + [x])[i] < p {
        if i < n - 1 { assert (S + [x])[i] == S[i]; }
      }
    }
  }

  /** With deg P a multiple of p, `P.C[::p]` has deg P / p + 1 entries
      and ends with the leading coefficient of P. */
  lemma PthLength(P: seq<int>, p: int)
    requires p >= 2 && |P| >= 2 && (|P| - 1) % p == 0
    ensures |EveryPth(P, p)| == (|P| - 1) / p + 1
    ensures 2 <= |EveryPth(P, p)| < |P|
    ensures EveryPth(P, p)[|EveryPth(P, p)| - 1] == P[|P| - 1]
  {
    var E := EveryPth(P, p);
    StrideCount(|P| - 1, p);
    assert |P| + p - 1 == (|P| - 1) + p;
    var m := (|P| - 1) / p;
    assert |E| == m + 1;
    assert E[m] == P[m * p];
  }

  /** What `factor_unit` needs of the p-th root R = Polynomial(P.C[::p]):
      a nonconstant polynomial of lower degree, monic when P is. */
  lemma PthRootShape(P: seq<int>, p: int)
    requires IsPrime(p) && IsPoly(P, p) && |P| >= 2 && Derivative(P, p) == []
    ensures Residues(EveryPth(P, p), p)
    ensures IsPoly(Poly(EveryPth(P, p), p), p)
    ensures 2 <= |Poly(EveryPth(P, p), p)| < |P|
    ensures IsMonic(P) ==> IsMonic(Poly(EveryPth(P, p), p))
  {
    PthRoot(P, p);
  }

  /** The coefficient relation P = R(x^p) of PthRoot. */
  lemma PthRootCoef(P: seq<int>, E: seq<int>, p: int)
    requires IsPrime(p) && IsPoly(P, p) && |P| >= 2 && E == EveryPth(P, p)
    requires forall i {:trigger Coef(P, i)} :: 0 <= i && i % p != 0 ==> Coef(P, i) == 0
    requires (|P| - 1) % p == 0 && |E| == (|P| - 1) / p + 1
    ensures forall i {:trigger Coef(P, i)} :: 0 <= i ==>
      Coef(P, i) == if i % p == 0 then Coef(E, i / p) else 0
  {
    forall i | 0 <= i && i % p == 0 ensures Coef(P, i) == Coef(E, i / p) {
      var q := i / p;
      assert q * p == i;
      if q >= |E| {
        StrideBeyond(i, |P| - 1, p);
      }
    }
  }

  /** When P' = 0, P is the p-th power of its root R = Polynomial(P.C[::p])
      (the Frobenius identity R^p = R(x^p)), so R divides P. */
  lemma RootPower(P: seq<int>, p: int)
    requires IsPrime(p) && IsPoly(P, p) && |P| >= 2 && Derivative(P, p) == []
    ensures Residues(EveryPth(P, p), p)
    ensures P == PolyPower.Power(Poly(EveryPth(P, p), p), p, p)
    ensures PolyDivision.Divides(Poly(EveryPth(P, p), p), P, p)
  {
    RootSpread(P, p);
    var R := Poly(EveryPth(P, p), p);
    Fr.FrobeniusIdentity(R, p);
    MulComm(R, PolyPower.Power(R, p - 1, p), p);
  }

  /** When P' = 0, P(x) = R(x^p) for its root R. */
  lemma RootSpread(P: seq<int>, p: int)
    requires IsPrime(p) && IsPoly(P, p) && |P| >= 2 && Derivative(P, p) == []
    ensures Residues(EveryPth(P, p), p)
    ensures P == Fr.Spread(Poly(EveryPth(P, p), p), p)
  {
    PthRoot(P, p);
    var R := Poly(EveryPth(P, p), p);
    Fr.SpreadCoef(R, p);
    var S := Fr.Spread(R, p);
    forall i | 0 <= i < Max(|P|, |S|) ensures Coef(P, i) == Coef(S, i) {
      assert Coef(S, i) == Fr.AtMultiple(R, p, i);
    }
    Ext(P, S, p);
  }

  // ---------------------------------------------------------------------
  // factorisations as multiplicity maps

  /** `factors[D]` of a `defaultdict(int)`: zero for an absent key. */
  function Count(F: map<seq<int>, int>, D: seq<int>): int {
    if D in F then F[D] else 0
  }

  /** Every key is a nonconstant polynomial of degree below n (monic when
      asked) with a positive multiplicity. */
  predicate Factors(F: map<seq<int>, int>, n: nat, monic: bool, p: int) {
    forall D :: D in F ==> IsPoly(D, p) && 2 <= |D| <= n && F[D] >= 1 && (monic ==> IsMonic(D))
  }

  /** Every key divides A. */
  ghost predicate KeysDivide(F: map<seq<int>, int>, A: seq<int>, p: int) {
    forall D :: D in F ==> IsPoly(D, p) && PolyDivision.Divides(D, A, p)
  }

  /** Keys dividing a divisor S of A divide A. */
  lemma KeysDivideTrans(F: map<seq<int>, int>, S: seq<int>, A: seq<int>, p: int)
    requires IsPoly(S, p) && IsPoly(A, p) && PolyDivision.Divides(S, A, p)
    requires KeysDivide(F, S, p)
    ensures KeysDivide(F, A, p)
  {
    forall D | D in F ensures PolyDivision.Divides(D, A, p) {
      DividesTrans(D, S, A, p);
    }
  }

  /** `for D, v in G.items(): factors[D] += v`. */
  method Merge(F: map<seq<int>, int>, G: map<seq<int>, int>) returns (H: map<seq<int>, int>)
    ensures forall D {:trigger D in H} :: D in H <==> D in F || D in G
    ensures forall D {:trigger Count(H, D)} :: Count(H, D) == Count(F, D) + Count(G, D)
  {
    H := F;
    var rest := G.Keys;
    forall E ensures Count(H, E) == Count(F, E) + (if E in rest then 0 else Count(G, E)) {
      assert E !in rest ==> E !in G;
    }
    while rest != {}
      invariant forall D {:trigger D in rest} :: D in rest ==> D in G
      invariant forall D {:trigger D in H} :: D in H <==> D in F || (D in G && D !in rest)
      invariant forall D {:trigger Count(H, D)} ::
        Count(H, D) == Count(F, D) + (if D in rest then 0 else Count(G, D))
      decreases |rest|
    {
      var D :| D in rest;
      ghost var H0 := H;
      H := H[D := Count(H, D) + G[D]];
      rest := rest - {D};
      forall E ensures Count(H, E) == Count(F, E) + (if E in rest then 0 else Count(G, E)) {
        assert E != D ==> Count(H, E) == Count(H0, E);
      }
    }
  }

  /** Merging two factorisations with the same bounds keeps the bounds. */
  lemma MergeFactors(F: map<seq<int>, int>, G: map<seq<int>, int>, H: map<seq<int>, int>, n: nat, monic: bool, p: int)
    requires Factors(F, n, monic, p) && Factors(G, n, monic, p)
    requires forall D {:trigger D in H} :: D in H <==> D in F || D in G
    requires forall D {:trigger Count(H, D)} :: Count(H, D) == Count(F, D) + Count(G, D)
    ensures Factors(H, n, monic, p)
  {
    forall D | D in H ensures H[D] >= 1 {
      assert Count(H, D) == Count(F, D) + Count(G, D);
    }
  }

  /** Merging keeps every key a divisor of A. */
  lemma MergeDivides(F: map<seq<int>, int>, G: map<seq<int>, int>, H: map<seq<int>, int>, A: seq<int>, p: int)
    requires KeysDivide(F, A, p) && KeysDivide(G, A, p)
    requires forall D {:trigger D in H} :: D in H <==> D in F || D in G
    ensures KeysDivide(H, A, p)
  {
  }

  /** A bound that holds for smaller degrees holds for larger ones, and
      monic keys satisfy any weaker request. */
  lemma FactorsWeaken(F: map<seq<int>, int>, n: nat, m: nat, monic: bool, monic': bool, p: int)
    requires Factors(F, n, monic, p) && n <= m && (monic' ==> monic)
    ensures Factors(F, m, monic', p)
  {
  }

  /** Q - i for a nonconstant Q and a residue i: still of the degree of Q,
      hence nonzero. */
  lemma SubConstant(Q: seq<int>, i: int, p: int)
    requires IsPoly(Q, p) && |Q| >= 2 && 0 <= i < p
    ensures Residues([i], p)
    ensures |Sub(Q, Poly([i], p), p)| == |Q|
  {
    var C := Poly([i], p);
    var T := Sub(Q, C, p);
    assert Coef(C, |Q| - 1) == 0;
    assert Coef(T, |Q| - 1) == Q[|Q| - 1];
    forall k | |Q| <= k ensures Coef(T, k) == 0 {
      assert Coef(C, k) == 0;
    }
    LenBound(T, p, |Q|);
  }

  /** The p-th multiple of a positive multiplicity is positive and
      divisible by p. */
  lemma ScaleCount(v: int, p: int)
    requires p >= 2 && v >= 1
    ensures p * v >= 1 && (p * v) % p == 0
  {
    MulMono(v, p);
    NumberTheory.DivModUnique(p * v, p, v, 0);
  }

  // ---------------------------------------------------------------------
  // Berlekamp's algorithm

  /** `{D: p * v for D, v in G.items()}` keeps the factors and their bounds
      and makes every multiplicity a multiple of p. */
  lemma ScaledFactors(G: map<seq<int>, int>, F: map<seq<int>, int>, n: nat, monic: bool, p: int)
    requires p >= 2 && Factors(G, n, monic, p)
    requires F == map D | D in G :: p * G[D]
    ensures Factors(F, n, monic, p)
    ensures forall D :: D in F ==> F[D] % p == 0
  {
    forall D | D in F ensures F[D] >= 1 && F[D] % p == 0 {
      ScaleCount(G[D], p);
    }
  }

  /** A polynomial of degree 1 is its own only factor, once; its
      derivative is its nonzero leading coefficient. */
  lemma LinearFactor(P: seq<int>, p: int)
    requires IsPoly(P, p) && |P| == 2
    ensures Factors(map[P := 1], |P|, IsMonic(P), p) && KeysDivide(map[P := 1], P, p)
    ensures Derivative(P, p) != []
  {
    SelfDivides(P, p);
    assert Coef(Derivative(P, p), 0) == Mod(1 * P[1], p);
    ModSmall(P[1], p);
  }

  /** `factors[P] += 1` for a nonconstant P within the bounds. */
  lemma AddFactor(F: map<seq<int>, int>, P: seq<int>, n: nat, monic: bool, p: int)
    requires IsPoly(P, p) && 2 <= |P| <= n && (monic ==> IsMonic(P))
    requires Factors(F, n, monic, p)
    ensures Factors(F[P := Count(F, P) + 1], n, monic, p)
  {
    var H := F[P := Count(F, P) + 1];
    forall D | D in H ensures IsPoly(D, p) && 2 <= |D| <= n && H[D] >= 1 && (monic ==> IsMonic(D)) {
      if D != P {
        assert D in F && H[D] == F[D];
      }
    }
  }

  /** The factorisation {P: 1} has P as its only key. */
  lemma SelfDivides(P: seq<int>, p: int)
    requires IsPoly(P, p)
    ensures KeysDivide(map[P := 1], P, p)
  {
    DividesSelf(P, p);
    forall D | D in map[P := 1] ensures IsPoly(D, p) && PolyDivision.Divides(D, P, p) {
      assert D == P;
    }
  }

  /** `factors[P] += 1` for a divisor P of A keeps every key a divisor. */
  lemma AddDivisor(F: map<seq<int>, int>, P: seq<int>, A: seq<int>, p: int)
    requires IsPoly(P, p) && PolyDivision.Divides(P, A, p) && KeysDivide(F, A, p)
    ensures KeysDivide(F[P := Count(F, P) + 1], A, p)
  {
  }

  /** The branch P' = 0 of `factor_unit`: the factors of the root R with
      multiplicities times p are factors of P = R^p. */
  lemma RootFactors(P: seq<int>, G: map<seq<int>, int>, F: map<seq<int>, int>, p: int)
    requires IsPrime(p) && IsPoly(P, p) && |P| >= 2 && Derivative(P, p) == []
    requires Residues(EveryPth(P, p), p) && IsPoly(Poly(EveryPth(P, p), p), p)
    requires |Poly(EveryPth(P, p), p)| < |P|
    requires IsMonic(P) ==> IsMonic(Poly(EveryPth(P, p), p))
    requires Factors(G, |Poly(EveryPth(P, p), p)|, IsMonic(Poly(EveryPth(P, p), p)), p)
    requires KeysDivide(G, Poly(EveryPth(P, p), p), p)
    requires F == map D | D in G :: p * G[D]
    ensures Factors(F, |P|, IsMonic(P), p) && KeysDivide(F, P, p)
    ensures forall D :: D in F ==> F[D] % p == 0
  {
    var R := Poly(EveryPth(P, p), p);
    FactorsWeaken(G, |R|, |P|, IsMonic(R), IsMonic(P), p);
    ScaledFactors(G, F, |P|, IsMonic(P), p);
    RootPower(P, p);
    KeysDivideTrans(G, R, P, p);
  }

  /** The factors of S = gcd(P, P') are factors of P within its bounds, and
      P // S is an exact, nonconstant divisor of P, monic when P is. */
  lemma GcdFactors(P: seq<int>, S: seq<int>, G: map<seq<int>, int>, H: map<seq<int>, int>, p: int)
    requires IsPrime(p) && IsPoly(P, p) && |P| >= 2
    requires S == PolyGcd(P, Derivative(P, p), p) && 2 <= |S| < |P|
    requires Factors(G, |S|, IsMonic(S), p) && KeysDivide(G, S, p)
    requires forall D {:trigger D in H} :: D in H <==> D in G
    requires forall D {:trigger Count(H, D)} :: Count(H, D) == Count(map[], D) + Count(G, D)
    ensures Factors(H, |P|, IsMonic(P), p) && KeysDivide(H, P, p)
    ensures UnitLead(S, p) && PolyDivision.Divides(FloorDiv(P, S, p), P, p)
    ensures 2 <= |FloorDiv(P, S, p)| <= |P| && (IsMonic(P) ==> IsMonic(FloorDiv(P, S, p)))
  {
    FactorsWeaken(G, |S|, |P|, true, IsMonic(P), p);
    MergeFactors(map[], G, H, |P|, IsMonic(P), p);
    GcdDivisors(P, S, G, H, p);
    SquareFreeQuotient(P, S, p);
  }

  /** The factors of S = gcd(P, P') divide P. */
  lemma GcdDivisors(P: seq<int>, S: seq<int>, G: map<seq<int>, int>, H: map<seq<int>, int>, p: int)
    requires IsPrime(p) && IsPoly(P, p) && P != []
    requires S == PolyGcd(P, Derivative(P, p), p) && KeysDivide(G, S, p)
    requires forall D {:trigger D in H} :: D in H <==> D in G
    ensures KeysDivide(H, P, p)
  {
    PolyDivision.GcdDivides(P, Derivative(P, p), S, p);
    KeysDivideTrans(G, S, P, p);
  }

  /** A nonconstant S = gcd(P, P') of lower degree leaves the exact,
      nonconstant divisor P // S. */
  lemma SquareFreeQuotient(P: seq<int>, S: seq<int>, p: int)
    requires IsPrime(p) && IsPoly(P, p) && |P| >= 2
    requires S == PolyGcd(P, Derivative(P, p), p) && 2 <= |S| < |P|
    ensures UnitLead(S, p) && PolyDivision.Divides(FloorDiv(P, S, p), P, p)
    ensures 2 <= |FloorDiv(P, S, p)| <= |P| && (IsMonic(P) ==> IsMonic(FloorDiv(P, S, p)))
  {
    SquareFreePart(P, p);
    PolyDivision.GcdDivides(P, Derivative(P, p), S, p);
    QuotientDivides(P, S, p);
  }

  /** `factor_unit`: a polynomial of degree 1 is its own factor; when P' = 0
      the factors of the p-th root R (P = R(x^p)) are returned with their
      multiplicities times p; otherwise the factors of S = gcd(P, P') are
      collected, P is divided by S, and the square-free quotient is either
      irreducible (no Q from `computeQ`) or split by the gcds with Q - i,
      each factored in turn. Every factor is nonconstant with degree at
      most deg P and a positive multiplicity, every factor of a monic P is
      monic, and when P' = 0 every multiplicity is a multiple of p. */
  method FactorUnit(P: seq<int>, p: int) returns (F: map<seq<int>, int>)
    requires IsPrime(p) && IsPoly(P, p) && |P| >= 2
    ensures Factors(F, |P|, IsMonic(P), p)
    ensures KeysDivide(F, P, p)
    ensures |P| == 2 ==> F == map[P := 1]
    ensures Derivative(P, p) == [] ==> forall D :: D in F ==> F[D] % p == 0
    decreases |P|, 2
  {
    if |P| == 2 {
      LinearFactor(P, p);
      return map[P := 1];
    }
    var S := EuclidGcd(P, Derivative(P, p), p);
    GcdDerivative(P, p);
    if |S| == |P| {
      PthRootShape(P, p);
      var R := Poly(EveryPth(P, p), p);
      var G := FactorUnit(R, p);
      F := map D | D in G :: p * G[D];
      RootFactors(P, G, F, p);
      return;
    }
    F := FactorCoprime(P, S, p);
  }

  /** The branch of `factor_unit` where S = gcd(P, P') has lower degree than
      P: the factors of S (when S is nonconstant), then those of the
      square-free P // S. */
  method FactorCoprime(P: seq<int>, S: seq<int>, p: int) returns (F: map<seq<int>, int>)
    requires IsPrime(p) && IsPoly(P, p) && |P| >= 2
    requires S == PolyGcd(P, Derivative(P, p), p) && |S| < |P|
    ensures Factors(F, |P|, IsMonic(P), p)
    ensures KeysDivide(F, P, p)
    decreases |P|, 1
  {
    F := map[];
    var P1 := P;
    DividesSelf(P, p);
    if |S| >= 2 {
      var G := FactorUnit(S, p);
      var H := Merge(F, G);
      GcdFactors(P, S, G, H, p);
      F := H;
      var Q1, R1 := EuclideanDivision(P, S, p);
      P1 := Q1;
    }
    assert IsPoly(P1, p) && 2 <= |P1| <= |P| && (IsMonic(P) ==> IsMonic(P1));
    assert PolyDivision.Divides(P1, P, p);
    var q := ComputeQ(P1, p);
    if q.None? {
      AddFactor(F, P1, |P|, IsMonic(P), p);
      AddDivisor(F, P1, P, p);
      F := F[P1 := Count(F, P1) + 1];
    } else {
      F := SplitSquareFree(P1, q.value, F, |P|, IsMonic(P), P, p);
    }
  }

  /** The loop of `factor_unit` over i in range(p): the nonconstant
      D = gcd(P, Q - i) are factored and their factors added to F. */
  method SplitSquareFree(P: seq<int>, Q: seq<int>, F0: map<seq<int>, int>, n: nat, monic: bool,
                         ghost A: seq<int>, p: int)
    returns (F: map<seq<int>, int>)
    requires IsPrime(p) && IsPoly(P, p) && |P| <= n && (monic ==> IsMonic(P))
    requires IsPoly(Q, p) && IsMonic(Q) && 2 <= |Q| <= |P| - 1
    requires Factors(F0, n, monic, p)
    requires IsPoly(A, p) && PolyDivision.Divides(P, A, p) && KeysDivide(F0, A, p)
    ensures Factors(F, n, monic, p)
    ensures KeysDivide(F, A, p)
    decreases |P|, 0
  {
    F := F0;
    for i := 0 to p
      invariant Factors(F, n, monic, p)
      invariant KeysDivide(F, A, p)
    {
      SubConstant(Q, i, p);
      var T := Sub(Q, Poly([i], p), p);
      var D := EuclidGcd(P, T, p);
      if |D| >= 2 {
        PolyDivision.GcdDivides(P, T, D, p);
        DividesDeg(D, T, p);
        var G := FactorUnit(D, p);
        FactorsWeaken(G, |D|, n, true, monic, p);
        DividesTrans(D, P, A, p);
        KeysDivideTrans(G, D, A, p);
        var H := Merge(F, G);
        MergeFactors(F, G, H, n, monic, p);
        MergeDivides(F, G, H, A, p);
        F := H;
      }
    }
  }

  /** `factor`: the leading coefficient c and the factorisation of the
      monic P / c; a constant has no factors. The factors are monic,
      nonconstant, of degree at most deg P, and P is c times the
      polynomial that was factored. */
  method Factor(P: seq<int>, p: int) returns (c: int, F: map<seq<int>, int>)
    requires IsPrime(p) && IsPoly(P, p) && P != []
    ensures c == Lead(P) && 0 < c < p
    ensures |P| == 1 ==> F == map[]
    ensures Factors(F, |P|, true, p)
    ensures KeysDivide(F, P, p)
    ensures |P| >= 2 ==> UnitLead(P, p) && ScalarMul(c, Monic(P, p), p) == P
  {
    c := Lead(P);
    if |P| == 1 {
      return c, map[];
    }
    PrimeUnitLead(P, p);
    MonicScale(P, p);
    var U := ScalarMul(ResDiv(1, c, p), P, p);
    assert U == Monic(P, p);
    F := FactorUnit(U, p);
    MonicDivides(P, U, p);
    KeysDivideTrans(F, U, P, p);
  }
}

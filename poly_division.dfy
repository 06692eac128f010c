/** Euclidean division and the monic gcd of polynomials over Z/pZ
    (algnuth/polynom.py, `euclidean_division`, `//`, `%` and `gcd`). */
module PolyDivision {
  import opened NumberTheory
  import opened ModPoly
  import opened PolyRing
  import M = ModArith

  /** `a / b` on residues, as `ModInt.__truediv__` computes it: a times the
      Bezout coefficient of b, mod p. */
  function ResDiv(a: int, b: int, p: int): (r: int)
    requires p >= 2
    ensures 0 <= r < p
  {
    Mod(a * M.Bezout(b, p).0, p)
  }

  /** (a / b) b == a whenever b is a unit mod p. */
  lemma ResDivMul(a: int, b: int, p: int)
    requires p >= 2 && 0 <= a < p && 0 <= b < p && Gcd(b, p) == 1
    ensures Mod(ResDiv(a, b, p) * b, p) == a
  {
    var x, y := M.ModInt(a, p), M.ModInt(b, p);
    M.DivMulCancel(x, y);
    assert M.Div(x, y).v == ResDiv(a, b, p);
  }

  /** The divisor's leading coefficient is invertible, as every nonzero
      residue is when p is prime. */
  predicate UnitLead(B: seq<int>, p: int) {
    B != [] && 0 <= Lead(B) && 0 <= p && Gcd(Lead(B), p) == 1
  }

  lemma PrimeUnitLead(B: seq<int>, p: int)
    requires IsPrime(p) && IsPoly(B, p) && B != []
    ensures UnitLead(B, p)
  {
    PrimeUnit(Lead(B), p);
  }

  // ---------------------------------------------------------------------
  // one pass of the division loop

  /** The subtraction cancels the leading coefficient of A, so the result
      is shorter (stated for any lists with the coefficients of T = x^k B,
      S = c T and D = A - S). */
  lemma ShrinkLaw(A: seq<int>, B: seq<int>, T: seq<int>, S: seq<int>, D: seq<int>, c: int, k: int, p: int)
    requires IsPoly(A, p) && IsPoly(B, p) && IsPoly(D, p) && UnitLead(B, p) && |A| >= |B|
    requires k == |A| - |B| && c == ResDiv(Lead(A), Lead(B), p)
    requires forall i {:trigger Coef(T, i)} :: Coef(T, i) == if i < k then 0 else Coef(B, i - k)
    requires forall i {:trigger Coef(S, i)} :: Coef(S, i) == Mod(c * Coef(T, i), p)
    requires forall i {:trigger Coef(D, i)} :: Coef(D, i) == SubRes(Coef(A, i), Coef(S, i), p)
    ensures |D| < |A|
  {
    forall i | |A| - 1 <= i ensures Coef(D, i) == 0 {
      if i == |A| - 1 {
        assert Coef(T, i) == Lead(B);
        ResDivMul(Lead(A), Lead(B), p);
      } else {
        assert Coef(T, i) == 0;
        ModSmall(0, p);
      }
    }
    LenBound(D, p, |A| - 1);
  }

  /** One pass of the loop of `euclidean_division`: A minus c x^k B with
      c = lead A / lead B and k = deg A - deg B; the degree drops. */
  function DivStep(A: seq<int>, B: seq<int>, p: int): (D: seq<int>)
    requires IsPoly(A, p) && IsPoly(B, p) && UnitLead(B, p) && |A| >= |B|
    ensures IsPoly(D, p) && |D| < |A|
  {
    var k, c := |A| - |B|, ResDiv(Lead(A), Lead(B), p);
    var T := Shift(B, k, p);
    var S := ScalarMul(c, T, p);
    assert forall i {:trigger Coef(T, i)} :: Coef(T, i) == if i < k then 0 else Coef(B, i - k);
    assert forall i {:trigger Coef(S, i)} :: Coef(S, i) == Mod(c * Coef(T, i), p);
    assert forall i {:trigger Coef(Sub(A, S, p), i)} :: Coef(Sub(A, S, p), i) == SubRes(Coef(A, i), Coef(S, i), p);
    ShrinkLaw(A, B, T, S, Sub(A, S, p), c, k, p);
    Sub(A, S, p)
  }

  // ---------------------------------------------------------------------
  // the quotient and the remainder

  /** `euclidean_division(A, B)` as a recursion on the degree of A: the
      quotient gains c x^k at each pass. */
  function DivMod(A: seq<int>, B: seq<int>, p: int): (QR: (seq<int>, seq<int>))
    requires IsPoly(A, p) && IsPoly(B, p) && UnitLead(B, p)
    ensures IsPoly(QR.0, p) && IsPoly(QR.1, p) && |QR.1| < |B|
    decreases |A|
  {
    if |A| < |B| then ([], A)
    else
      var c := ResDiv(Lead(A), Lead(B), p);
      var QR2 := DivMod(DivStep(A, B, p), B, p);
      (Add(Monomial(c, |A| - |B|, p), QR2.0, p), QR2.1)
  }

  /** DivStep unfolded: A - c x^k B. */
  lemma DivStepIs(A: seq<int>, B: seq<int>, p: int)
    requires IsPoly(A, p) && IsPoly(B, p) && UnitLead(B, p) && |A| >= |B|
    ensures DivStep(A, B, p) == Sub(A, ScalarMul(ResDiv(Lead(A), Lead(B), p), Shift(B, |A| - |B|, p), p), p)
  {
  }

  /** If Q2 B + R2 = A - S with S = Mo B, then (Mo + Q2) B + R2 = A. */
  lemma IdentityLaw(A: seq<int>, B: seq<int>, S: seq<int>, Mo: seq<int>, Q2: seq<int>, R2: seq<int>, p: int)
    requires IsPoly(A, p) && IsPoly(B, p) && IsPoly(S, p) && IsPoly(Mo, p) && IsPoly(Q2, p) && IsPoly(R2, p)
    requires Mul(Mo, B, p) == S && Add(Mul(Q2, B, p), R2, p) == Sub(A, S, p)
    ensures Add(Mul(Add(Mo, Q2, p), B, p), R2, p) == A
  {
    MulAddLeft(Mo, Q2, B, p);
    AddAssoc(S, Mul(Q2, B, p), R2, p);
    AddComm(S, Sub(A, S, p), p);
    SubAdd(A, S, p);
  }

  /** Q B + R == A. */
  lemma {:induction false} DivModIdentity(A: seq<int>, B: seq<int>, p: int)
    requires IsPoly(A, p) && IsPoly(B, p) && UnitLead(B, p)
    ensures Add(Mul(DivMod(A, B, p).0, B, p), DivMod(A, B, p).1, p) == A
    decreases |A|
  {
    if |A| < |B| {
      MulZeroLeft(B, p);
      AddZero(A, p);
    } else {
      var k, c := |A| - |B|, ResDiv(Lead(A), Lead(B), p);
      var A2 := DivStep(A, B, p);
      DivModIdentity(A2, B, p);
      DivStepIs(A, B, p);
      MulMonomial(c, k, B, p);
      IdentityLaw(A, B, ScalarMul(c, Shift(B, k, p), p), Monomial(c, k, p), DivMod(A2, B, p).0, DivMod(A2, B, p).1, p);
    }
  }

  /** Division is unique: any Q, R with Q B + R == A and deg R < deg B
      are the quotient and remainder the loop computes. */
  lemma DivModUnique(A: seq<int>, B: seq<int>, Q: seq<int>, R: seq<int>, p: int)
    requires IsPoly(A, p) && IsPoly(B, p) && UnitLead(B, p) && IsPoly(Q, p) && IsPoly(R, p)
    requires Add(Mul(Q, B, p), R, p) == A && |R| < |B|
    ensures (Q, R) == DivMod(A, B, p)
  {
    var QR0 := DivMod(A, B, p);
    var Q0, R0 := QR0.0, QR0.1;
    DivModIdentity(A, B, p);
    var X, Y := Mul(Q, B, p), Mul(Q0, B, p);
    AddSwapSub(X, R, Y, R0, p);
    MulSubLeft(Q, Q0, B, p);
    var D := Sub(Q, Q0, p);
    if D != [] {
      MulDeg(D, B, p);
      assert false;
    }
    SubZeroEq(Q, Q0, p);
    AddComm(X, R, p);
    AddComm(X, R0, p);
    AddCancel(X, R, R0, p);
  }

  /** `A % B`: the remainder, of degree below deg B. */
  function PolyMod(A: seq<int>, B: seq<int>, p: int): (R: seq<int>)
    requires IsPoly(A, p) && IsPoly(B, p) && UnitLead(B, p)
    ensures IsPoly(R, p) && |R| < |B|
  {
    DivMod(A, B, p).1
  }

  /** `A // B`: the quotient, which with `A % B` rebuilds A. */
  function FloorDiv(A: seq<int>, B: seq<int>, p: int): (Q: seq<int>)
    requires IsPoly(A, p) && IsPoly(B, p) && UnitLead(B, p)
    ensures IsPoly(Q, p)
    ensures Add(Mul(Q, B, p), PolyMod(A, B, p), p) == A
  {
    DivModIdentity(A, B, p);
    DivMod(A, B, p).0
  }

  // ---------------------------------------------------------------------
  // the loop

  /** Writing c into a zero entry k of the quotient list adds c x^k. */
  lemma WriteQuotient(q: seq<int>, k: int, c: int, p: int)
    requires p >= 2 && Residues(q, p) && 0 <= k < |q| && q[k] == 0 && 0 <= c < p
    ensures Residues(q[k := c], p)
    ensures Poly(q[k := c], p) == Add(Poly(q, p), Monomial(c, k, p), p)
  {
    var L, R := Poly(q[k := c], p), Add(Poly(q, p), Monomial(c, k, p), p);
    forall i | 0 <= i < Max(|L|, |R|) ensures Coef(L, i) == Coef(R, i) {
      var a, m := Coef(Poly(q, p), i), Coef(Monomial(c, k, p), i);
      assert Coef(R, i) == AddRes(a, m, p);
      assert Coef(L, i) == Coef(q[k := c], i);
      if i == k {
        assert a == 0 && m == c;
      } else {
        CoefRange(Poly(q, p), p, i);
        assert m == 0 && Coef(q[k := c], i) == a;
      }
    }
    Ext(L, R, p);
  }

  /** A list of zeros is the zero polynomial. */
  lemma ZerosPoly(q: seq<int>, p: int)
    requires p >= 2 && forall i :: 0 <= i < |q| ==> q[i] == 0
    ensures Residues(q, p) && Poly(q, p) == []
  {
    LenBound(Poly(q, p), p, 0);
  }

  /** A pass of the loop: the quotient entry written at k = deg A - deg B,
      together with the quotient of the shorter A, is the quotient of A. */
  lemma DivLoopInvariant(q1: seq<int>, A: seq<int>, B: seq<int>, Q0: seq<int>, p: int)
    requires IsPoly(A, p) && IsPoly(B, p) && UnitLead(B, p) && Residues(q1, p)
    requires |B| <= |A| && |A| - |B| < |q1|
    requires forall i :: 0 <= i <= |A| - |B| ==> q1[i] == 0
    requires Add(Poly(q1, p), DivMod(A, B, p).0, p) == Q0
    ensures var q2 := q1[|A| - |B| := ResDiv(Lead(A), Lead(B), p)];
      && Residues(q2, p)
      && (forall i :: 0 <= i <= |DivStep(A, B, p)| - |B| ==> q2[i] == 0)
      && Add(Poly(q2, p), DivMod(DivStep(A, B, p), B, p).0, p) == Q0
  {
    var k, c := |A| - |B|, ResDiv(Lead(A), Lead(B), p);
    WriteQuotient(q1, k, c, p);
    AddAssoc(Poly(q1, p), Monomial(c, k, p), DivMod(DivStep(A, B, p), B, p).0, p);
  }

  /** The loop of `euclidean_division` as a recursion on its state: the
      quotient list and the current A. */
  function DivLoop(q: seq<int>, A: seq<int>, B: seq<int>, p: int): (QR: (seq<int>, seq<int>))
    requires IsPoly(A, p) && IsPoly(B, p) && UnitLead(B, p) && |A| - |B| < |q|
    ensures |QR.0| == |q| && |QR.1| < |B|
    decreases |A|
  {
    if |A| < |B| then (q, A)
    else DivLoop(q[|A| - |B| := ResDiv(Lead(A), Lead(B), p)], DivStep(A, B, p), B, p)
  }

  /** Started on a quotient list that is zero where it is still to be
      written, the loop adds DivMod's quotient to it and ends with DivMod's
      remainder. */
  lemma {:induction false} DivLoopIsDivMod(q: seq<int>, A: seq<int>, B: seq<int>, p: int)
    requires IsPoly(A, p) && IsPoly(B, p) && UnitLead(B, p) && Residues(q, p) && |A| - |B| < |q|
    requires forall i :: 0 <= i <= |A| - |B| ==> q[i] == 0
    ensures Residues(DivLoop(q, A, B, p).0, p)
    ensures Poly(DivLoop(q, A, B, p).0, p) == Add(Poly(q, p), DivMod(A, B, p).0, p)
    ensures DivLoop(q, A, B, p).1 == DivMod(A, B, p).1
    decreases |A|
  {
    if |A| < |B| {
      AddZero(Poly(q, p), p);
    } else {
      var q2 := q[|A| - |B| := ResDiv(Lead(A), Lead(B), p)];
      DivLoopInvariant(q, A, B, Add(Poly(q, p), DivMod(A, B, p).0, p), p);
      DivLoopIsDivMod(q2, DivStep(A, B, p), B, p);
    }
  }

  /** Started on a list of zeros, the loop computes DivMod. */
  /** One step of the division loop: the quotient entry is written and A shrinks. */
  lemma DivLoopUnfold(q: seq<int>, A: seq<int>, B: seq<int>, p: int)
    requires IsPoly(A, p) && IsPoly(B, p) && UnitLead(B, p) && |B| <= |A| && |A| - |B| < |q|
    ensures DivLoop(q, A, B, p) == DivLoop(q[|A| - |B| := ResDiv(Lead(A), Lead(B), p)], DivStep(A, B, p), B, p)
  {
  }

  lemma DivLoopFromZero(q: seq<int>, A: seq<int>, B: seq<int>, p: int)
    requires IsPoly(A, p) && IsPoly(B, p) && UnitLead(B, p) && |A| - |B| < |q|
    requires forall i :: 0 <= i < |q| ==> q[i] == 0
    ensures var QR := DivLoop(q, A, B, p); Residues(QR.0, p) && (Poly(QR.0, p), QR.1) == DivMod(A, B, p)
  {
    ZerosPoly(q, p);
    DivLoopIsDivMod(q, A, B, p);
    AddZero(DivMod(A, B, p).0, p);
  }

  /** `euclidean_division`: one quotient entry is written per pass, at index
      deg A - deg B, while A is rebound to A - c x^k B. The quotient list is a
      local sequence (it is never shared, so a value models it exactly). */
  method EuclideanDivision(A0: seq<int>, B: seq<int>, p: int) returns (Q: seq<int>, R: seq<int>)
    requires IsPoly(A0, p) && IsPoly(B, p) && UnitLead(B, p)
    ensures (Q, R) == DivMod(A0, B, p)
  {
    var q := Zeros(Max(0, |A0| - |B| + 1));
    var A := A0;
    while |A| >= |B|
      invariant IsPoly(A, p) && |A| <= |A0| && |q| == Max(0, |A0| - |B| + 1)
      invariant DivLoop(q, A, B, p) == DivLoop(Zeros(Max(0, |A0| - |B| + 1)), A0, B, p)
      decreases |A|
    {
      DivLoopUnfold(q, A, B, p);
      q := q[|A| - |B| := ResDiv(Lead(A), Lead(B), p)];
      A := DivStep(A, B, p);
    }
    DivLoopFromZero(Zeros(Max(0, |A0| - |B| + 1)), A0, B, p);
    Q, R := Poly(q, p), A;
  }

  // ---------------------------------------------------------------------
  // divisibility and the gcd

  /** D divides A: A is a polynomial multiple of D. */
  ghost predicate Divides(D: seq<int>, A: seq<int>, p: int)
    requires IsPoly(D, p)
  {
    exists X :: IsPoly(X, p) && Mul(X, D, p) == A
  }

  /** `A * (1 / A[-1])`: the monic associate of a nonzero polynomial. */
  function Monic(A: seq<int>, p: int): (G: seq<int>)
    requires IsPoly(A, p) && UnitLead(A, p)
    ensures IsPoly(G, p) && IsMonic(G) && |G| == |A|
  {
    var u := ResDiv(1, Lead(A), p);
    var G := ScalarMul(u, A, p);
    ResDivMul(1, Lead(A), p);
    MulCommInt(u, Lead(A));
    assert Coef(G, |A| - 1) == 1;
    LenBound(G, p, |A|);
    G
  }

  /** A is its leading coefficient times its monic associate. */
  lemma MonicScale(A: seq<int>, p: int)
    requires IsPoly(A, p) && UnitLead(A, p)
    ensures ScalarMul(Lead(A), Monic(A, p), p) == A
  {
    var l, u := Lead(A), ResDiv(1, Lead(A), p);
    ResDivMul(1, l, p);
    MulCommInt(u, l);
    var L := ScalarMul(l, Monic(A, p), p);
    forall i | 0 <= i < Max(|L|, |A|) ensures Coef(L, i) == Coef(A, i) {
      var a := Coef(A, i);
      CoefRange(A, p, i);
      ModMulAssoc(l, u, a, p);
      MulCommInt(l * u, a);
      ModMulRight(a, l * u, p);
      ModSmall(a, p);
      assert a * 1 == a;
    }
    Ext(L, A, p);
  }

  /** The monic associate divides the polynomial and is divided by each
      of its divisors. */
  lemma MonicDivides(A: seq<int>, H: seq<int>, p: int)
    requires IsPoly(A, p) && UnitLead(A, p) && IsPoly(H, p)
    ensures Divides(Monic(A, p), A, p)
    ensures Divides(H, A, p) ==> Divides(H, Monic(A, p), p)
  {
    var G, l := Monic(A, p), Lead(A);
    MonicScale(A, p);
    MulConstant(l, G, p);
    assert Mul(Monomial(l, 0, p), G, p) == A;
    if Divides(H, A, p) {
      var X :| IsPoly(X, p) && Mul(X, H, p) == A;
      var u := ResDiv(1, l, p);
      MulScalarLeft(u, X, H, p);
      assert Mul(ScalarMul(u, X, p), H, p) == G;
    }
  }

  /** If A = Q B + R with B = Y H and R = Z H, then A = (Q Y + Z) H. */
  lemma CombineLaw(A: seq<int>, B: seq<int>, Q: seq<int>, R: seq<int>, H: seq<int>, Y: seq<int>, Z: seq<int>, p: int)
    requires IsPoly(B, p) && IsPoly(Q, p) && IsPoly(R, p) && IsPoly(H, p) && IsPoly(Y, p) && IsPoly(Z, p)
    requires Add(Mul(Q, B, p), R, p) == A && Mul(Y, H, p) == B && Mul(Z, H, p) == R
    ensures Mul(Add(Mul(Q, Y, p), Z, p), H, p) == A
  {
    MulAddLeft(Mul(Q, Y, p), Z, H, p);
    MulAssoc(Q, Y, H, p);
  }

  /** If A = Q B + R with A = X H and B = Y H, then R = (X - Q Y) H. */
  lemma SplitLaw(A: seq<int>, B: seq<int>, Q: seq<int>, R: seq<int>, H: seq<int>, X: seq<int>, Y: seq<int>, p: int)
    requires IsPoly(A, p) && IsPoly(B, p) && IsPoly(Q, p) && IsPoly(R, p) && IsPoly(H, p) && IsPoly(X, p) && IsPoly(Y, p)
    requires Add(Mul(Q, B, p), R, p) == A && Mul(X, H, p) == A && Mul(Y, H, p) == B
    ensures Mul(Sub(X, Mul(Q, Y, p), p), H, p) == R
  {
    AddComm(Mul(Q, B, p), R, p);
    AddSubIff(R, Mul(Q, B, p), A, p);
    MulSubLeft(X, Mul(Q, Y, p), H, p);
    MulAssoc(Q, Y, H, p);
  }

  /** Common divisors of B and A % B divide A. */
  lemma DividesFromRemainder(A: seq<int>, B: seq<int>, H: seq<int>, p: int)
    requires IsPoly(A, p) && IsPoly(B, p) && UnitLead(B, p) && IsPoly(H, p)
    requires Divides(H, B, p) && Divides(H, PolyMod(A, B, p), p)
    ensures Divides(H, A, p)
  {
    var Q, R := FloorDiv(A, B, p), PolyMod(A, B, p);
    var Y :| IsPoly(Y, p) && Mul(Y, H, p) == B;
    var Z :| IsPoly(Z, p) && Mul(Z, H, p) == R;
    CombineLaw(A, B, Q, R, H, Y, Z, p);
  }

  /** Common divisors of A and B divide A % B. */
  lemma DividesRemainder(A: seq<int>, B: seq<int>, H: seq<int>, p: int)
    requires IsPoly(A, p) && IsPoly(B, p) && UnitLead(B, p) && IsPoly(H, p)
    requires Divides(H, A, p) && Divides(H, B, p)
    ensures Divides(H, PolyMod(A, B, p), p)
  {
    var Q, R := FloorDiv(A, B, p), PolyMod(A, B, p);
    var X :| IsPoly(X, p) && Mul(X, H, p) == A;
    var Y :| IsPoly(Y, p) && Mul(Y, H, p) == B;
    SplitLaw(A, B, Q, R, H, X, Y, p);
    var W := Sub(X, Mul(Q, Y, p), p);
    assert IsPoly(W, p) && Mul(W, H, p) == R;
  }

  /** gcd(A, B) by Euclid's recursion on remainders, made monic. */
  function PolyGcd(A: seq<int>, B: seq<int>, p: int): (G: seq<int>)
    requires IsPrime(p) && IsPoly(A, p) && IsPoly(B, p) && (A != [] || B != [])
    ensures IsPoly(G, p) && IsMonic(G)
    decreases |B|
  {
    if B == [] then
      PrimeUnitLead(A, p);
      Monic(A, p)
    else
      PrimeUnitLead(B, p);
      PolyGcd(B, PolyMod(A, B, p), p)
  }

  /** The gcd divides both arguments, and every common divisor divides
      the gcd. */
  lemma {:induction false} GcdDivides(A: seq<int>, B: seq<int>, H: seq<int>, p: int)
    requires IsPrime(p) && IsPoly(A, p) && IsPoly(B, p) && (A != [] || B != []) && IsPoly(H, p)
    ensures Divides(PolyGcd(A, B, p), A, p) && Divides(PolyGcd(A, B, p), B, p)
    ensures Divides(H, A, p) && Divides(H, B, p) ==> Divides(H, PolyGcd(A, B, p), p)
    decreases |B|
  {
    var G := PolyGcd(A, B, p);
    if B == [] {
      PrimeUnitLead(A, p);
      MonicDivides(A, H, p);
      MulZeroLeft(G, p);
      assert Mul([], G, p) == B;
    } else {
      PrimeUnitLead(B, p);
      var R := PolyMod(A, B, p);
      GcdDivides(B, R, H, p);
      DividesFromRemainder(A, B, G, p);
      if Divides(H, A, p) && Divides(H, B, p) {
        DividesRemainder(A, B, H, p);
      }
    }
  }

  /** `gcd`: the loop A, B = B, A % B, then the monic associate of A. */
  method EuclidGcd(A0: seq<int>, B0: seq<int>, p: int) returns (G: seq<int>)
    requires IsPrime(p) && IsPoly(A0, p) && IsPoly(B0, p) && (A0 != [] || B0 != [])
    ensures G == PolyGcd(A0, B0, p)
  {
    var A, B := A0, B0;
    while B != []
      invariant IsPoly(A, p) && IsPoly(B, p) && (A != [] || B != [])
      invariant PolyGcd(A, B, p) == PolyGcd(A0, B0, p)
      decreases |B|
    {
      PrimeUnitLead(B, p);
      var _, R := EuclideanDivision(A, B, p);
      A, B := B, R;
    }
    PrimeUnitLead(A, p);
    G := ScalarMul(ResDiv(1, Lead(A), p), A, p);
  }
}

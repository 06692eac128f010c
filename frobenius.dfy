/** The Frobenius identity over Z/pZ[x]: R^p = R(x^p) for a prime p. The
    square-free step of `Polynomial.factor_unit` (algnuth/polynom.py) relies
    on it: a polynomial with zero derivative is the p-th power of the
    polynomial made of every p-th coefficient, so a factor of that root is
    a factor of the polynomial. The proof substitutes a polynomial Y for x
    in (x + c)^n, whose coefficients are binomial, and uses that p divides
    C(p, k) for 0 < k < p. */
module Frobenius {
  import opened NumberTheory
  import opened ModPoly
  import opened PolyRing
  import opened PolyPower
  import opened Fermat

  // ---------------------------------------------------------------------
  // small facts about constants, tails and shifts

  /** The list without its constant term: P = P[0] + x Tail(P). */
  function Tail(P: seq<int>, p: int): (T: seq<int>)
    requires IsPoly(P, p)
    ensures IsPoly(T, p)
    ensures forall i {:trigger Coef(T, i)} :: 0 <= i ==> Coef(T, i) == Coef(P, i + 1)
    ensures P != [] ==> |T| < |P|
  {
    if P == [] then [] else TailIsPoly(P, p); P[1..]
  }

  lemma TailAdd(G: seq<int>, H: seq<int>, p: int)
    requires IsPoly(G, p) && IsPoly(H, p)
    ensures Tail(Add(G, H, p), p) == Add(Tail(G, p), Tail(H, p), p)
  {
    var L, R := Tail(Add(G, H, p), p), Add(Tail(G, p), Tail(H, p), p);
    forall i | 0 <= i < Max(|L|, |R|) ensures Coef(L, i) == Coef(R, i) {
      assert Coef(L, i) == Coef(Add(G, H, p), i + 1);
    }
    Ext(L, R, p);
  }

  lemma TailScalarMul(k: int, G: seq<int>, p: int)
    requires IsPoly(G, p)
    ensures Tail(ScalarMul(k, G, p), p) == ScalarMul(k, Tail(G, p), p)
  {
    var L, R := Tail(ScalarMul(k, G, p), p), ScalarMul(k, Tail(G, p), p);
    forall i | 0 <= i < Max(|L|, |R|) ensures Coef(L, i) == Coef(R, i) {
      assert Coef(L, i) == Coef(ScalarMul(k, G, p), i + 1);
    }
    Ext(L, R, p);
  }

  lemma TailShift(G: seq<int>, p: int)
    requires IsPoly(G, p)
    ensures Tail(Shift(G, 1, p), p) == G && Coef(Shift(G, 1, p), 0) == 0
  {
    var L := Tail(Shift(G, 1, p), p);
    forall i | 0 <= i < Max(|L|, |G|) ensures Coef(L, i) == Coef(G, i) {
      assert Coef(L, i) == Coef(Shift(G, 1, p), i + 1);
    }
    Ext(L, G, p);
  }

  /** A constant polynomial has an empty tail. */
  lemma TailConstant(c: int, p: int)
    requires p >= 2 && 0 <= c < p
    ensures Tail(Monomial(c, 0, p), p) == [] && Coef(Monomial(c, 0, p), 0) == c
  {
    var T := Tail(Monomial(c, 0, p), p);
    forall i | 0 <= i ensures Coef(T, i) == 0 {
      assert Coef(T, i) == Coef(Monomial(c, 0, p), i + 1);
    }
    LenBound(T, p, 0);
  }

  /** Constants add as residues. */
  lemma ConstantAdd(a: int, b: int, p: int)
    requires p >= 2 && 0 <= a < p && 0 <= b < p
    ensures 0 <= AddRes(a, b, p) < p
    ensures Monomial(AddRes(a, b, p), 0, p) == Add(Monomial(a, 0, p), Monomial(b, 0, p), p)
  {
    AddResLaws(a, b, 0, p);
    var A, B := Monomial(AddRes(a, b, p), 0, p), Add(Monomial(a, 0, p), Monomial(b, 0, p), p);
    forall i | 0 <= i < Max(|A|, |B|) ensures Coef(A, i) == Coef(B, i) {
    }
    Ext(A, B, p);
  }

  /** Constants scale as residues. */
  lemma ConstantScale(a: int, k: int, p: int)
    requires p >= 2 && 0 <= a < p
    ensures Monomial(Mod(k * a, p), 0, p) == ScalarMul(k, Monomial(a, 0, p), p)
  {
    var S, T := Monomial(Mod(k * a, p), 0, p), ScalarMul(k, Monomial(a, 0, p), p);
    forall i | 0 <= i < Max(|S|, |T|) ensures Coef(S, i) == Coef(T, i) {
      if i != 0 { assert k * 0 == 0; }
    }
    Ext(S, T, p);
  }

  /** The constants 0 and 1 as lists. */
  lemma ConstantZeroOne(p: int)
    requires p >= 2
    ensures Monomial(0, 0, p) == [] && Monomial(1, 0, p) == [1]
  {
    LenBound(Monomial(0, 0, p), p, 0);
    Ext(Monomial(1, 0, p), [1], p);
  }

  /** Additive regrouping: (a + b) + (c + e) = (a + c) + (b + e). */
  lemma AddSwap(A: seq<int>, B: seq<int>, C: seq<int>, E: seq<int>, p: int)
    requires IsPoly(A, p) && IsPoly(B, p) && IsPoly(C, p) && IsPoly(E, p)
    ensures Add(Add(A, B, p), Add(C, E, p), p) == Add(Add(A, C, p), Add(B, E, p), p)
  {
    AddAssoc(A, B, Add(C, E, p), p);
    AddAssoc(B, C, E, p);
    AddComm(B, C, p);
    AddAssoc(C, B, E, p);
    AddAssoc(A, C, Add(B, E, p), p);
  }

  lemma ModScaleAdd(k: int, a: int, b: int, p: int)
    requires 0 <= a < p && 0 <= b < p
    ensures Mod(k * AddRes(a, b, p), p) == AddRes(Mod(k * a, p), Mod(k * b, p), p)
  {
    AddResIsMod(a, b, p);
    ModMulRight(k, a + b, p);
    AddResOfMod(k * a, k * b, p);
    assert k * (a + b) == k * a + k * b;
  }

  /** c (A + B) = c A + c B. */
  lemma ScalarMulAdd(k: int, A: seq<int>, B: seq<int>, p: int)
    requires IsPoly(A, p) && IsPoly(B, p)
    ensures ScalarMul(k, Add(A, B, p), p) == Add(ScalarMul(k, A, p), ScalarMul(k, B, p), p)
  {
    var L, R := ScalarMul(k, Add(A, B, p), p), Add(ScalarMul(k, A, p), ScalarMul(k, B, p), p);
    forall i | 0 <= i < Max(|L|, |R|) ensures Coef(L, i) == Coef(R, i) {
      CoefRange(A, p, i);
      CoefRange(B, p, i);
      ModScaleAdd(k, Coef(A, i), Coef(B, i), p);
    }
    Ext(L, R, p);
  }

  /** x G = G shifted by one place. */
  lemma MulX(G: seq<int>, p: int)
    requires IsPoly(G, p)
    ensures Mul(Monomial(1, 1, p), G, p) == Shift(G, 1, p)
  {
    MulMonomial(1, 1, G, p);
    ScalarMulOne(Shift(G, 1, p), p);
  }

  /** x^k = x x^(k - 1). */
  lemma MonomialStep(k: nat, p: int)
    requires p >= 2 && k >= 1
    ensures Monomial(1, k, p) == Shift(Monomial(1, k - 1, p), 1, p)
  {
    var L, R := Monomial(1, k, p), Shift(Monomial(1, k - 1, p), 1, p);
    forall i | 0 <= i < Max(|L|, |R|) ensures Coef(L, i) == Coef(R, i) {
    }
    Ext(L, R, p);
  }

  // ---------------------------------------------------------------------
  // substitution

  /** G(Y): the polynomial Y substituted for x in G, by Horner's rule. */
  function Compose(G: seq<int>, Y: seq<int>, p: int): (R: seq<int>)
    requires IsPoly(G, p) && IsPoly(Y, p)
    ensures IsPoly(R, p)
    decreases |G|
  {
    if G == [] then []
    else
      TailIsPoly(G, p);
      Add(Monomial(G[0], 0, p), Mul(Y, Compose(G[1..], Y, p), p), p)
  }

  /** Horner's step for every G, the zero polynomial included. */
  lemma ComposeUnfold(G: seq<int>, Y: seq<int>, p: int)
    requires IsPoly(G, p) && IsPoly(Y, p)
    ensures 0 <= Coef(G, 0) < p
    ensures Compose(G, Y, p) == Add(Monomial(Coef(G, 0), 0, p), Mul(Y, Compose(Tail(G, p), Y, p), p), p)
  {
    CoefRange(G, p, 0);
    if G == [] {
      ConstantZeroOne(p);
      MulZeroRight(Y, p);
      AddZero([], p);
    }
  }

  /** Substitution is additive. */
  lemma {:induction false} ComposeAdd(G: seq<int>, H: seq<int>, Y: seq<int>, p: int)
    requires IsPoly(G, p) && IsPoly(H, p) && IsPoly(Y, p)
    ensures Compose(Add(G, H, p), Y, p) == Add(Compose(G, Y, p), Compose(H, Y, p), p)
    decreases |G| + |H|
  {
    if G == [] {
      AddZero(H, p);
      AddZero(Compose(H, Y, p), p);
    } else if H == [] {
      AddZero(G, p);
      AddZero(Compose(G, Y, p), p);
    } else {
      var Z := Add(G, H, p);
      var TG, TH := Tail(G, p), Tail(H, p);
      var CG, CH := Compose(TG, Y, p), Compose(TH, Y, p);
      var a, b := Coef(G, 0), Coef(H, 0);
      TailAdd(G, H, p);
      ComposeAdd(TG, TH, Y, p);
      ComposeUnfold(Z, Y, p);
      ComposeUnfold(G, Y, p);
      ComposeUnfold(H, Y, p);
      MulAddRight(Y, CG, CH, p);
      ConstantAdd(a, b, p);
      assert Coef(Z, 0) == AddRes(a, b, p);
      AddSwap(Monomial(a, 0, p), Monomial(b, 0, p), Mul(Y, CG, p), Mul(Y, CH, p), p);
    }
  }

  /** Substitution commutes with scaling. */
  lemma {:induction false} ComposeScale(k: int, G: seq<int>, Y: seq<int>, p: int)
    requires IsPoly(G, p) && IsPoly(Y, p)
    ensures Compose(ScalarMul(k, G, p), Y, p) == ScalarMul(k, Compose(G, Y, p), p)
    decreases |G|
  {
    if G == [] {
      assert ScalarMul(k, G, p) == [];
      assert ScalarMul(k, [], p) == [];
    } else {
      var Z := ScalarMul(k, G, p);
      var TG := Tail(G, p);
      var CG := Compose(TG, Y, p);
      var a := Coef(G, 0);
      TailScalarMul(k, G, p);
      ComposeScale(k, TG, Y, p);
      ComposeUnfold(Z, Y, p);
      ComposeUnfold(G, Y, p);
      MulScalarRight(k, Y, CG, p);
      ConstantScale(a, k, p);
      ScalarMulAdd(k, Monomial(a, 0, p), Mul(Y, CG, p), p);
    }
  }

  /** (x G)(Y) = Y G(Y). */
  lemma ComposeShift(G: seq<int>, Y: seq<int>, p: int)
    requires IsPoly(G, p) && IsPoly(Y, p)
    ensures Compose(Shift(G, 1, p), Y, p) == Mul(Y, Compose(G, Y, p), p)
  {
    if G == [] {
      MulZeroRight(Y, p);
    } else {
      TailShift(G, p);
      ComposeUnfold(Shift(G, 1, p), Y, p);
      ConstantZeroOne(p);
      AddZero(Mul(Y, Compose(G, Y, p), p), p);
    }
  }

  /** A constant is unchanged by substitution. */
  lemma ComposeConstant(c: int, Y: seq<int>, p: int)
    requires p >= 2 && 0 <= c < p && IsPoly(Y, p)
    ensures Compose(Monomial(c, 0, p), Y, p) == Monomial(c, 0, p)
  {
    TailConstant(c, p);
    ComposeUnfold(Monomial(c, 0, p), Y, p);
    MulZeroRight(Y, p);
    AddZero(Monomial(c, 0, p), p);
  }

  /** x^k with Y for x is Y^k. */
  lemma {:induction false} ComposeMonomial(k: nat, Y: seq<int>, p: int)
    requires IsPoly(Y, p)
    ensures Compose(Monomial(1, k, p), Y, p) == Power(Y, k, p)
  {
    if k == 0 {
      ConstantZeroOne(p);
      ComposeConstant(1, Y, p);
    } else {
      forall h: nat | h == k - 1 ensures Compose(Monomial(1, h, p), Y, p) == Power(Y, h, p) {
        ComposeMonomial(h, Y, p);
      }
      MonomialStep(k, p);
      ComposeShift(Monomial(1, k - 1, p), Y, p);
    }
  }

  // ---------------------------------------------------------------------
  // (x + c)^n and its coefficients

  /** The polynomial x + c. */
  function Linear(c: int, p: int): (L: seq<int>)
    requires p >= 2 && 0 <= c < p
    ensures IsPoly(L, p)
  {
    Add(Monomial(c, 0, p), Monomial(1, 1, p), p)
  }

  /** C(n, j) c^(n - j): the coefficient of x^j in (x + c)^n over the
      integers, zero outside 0..n. */
  function BinomTerm(n: nat, j: int, c: int): int {
    if 0 <= j <= n then Binom(n, j) * IntPow(c, n - j) else 0
  }

  /** Pascal's rule for the terms: (x + c)^n = c (x + c)^(n-1) + x (x + c)^(n-1). */
  lemma PascalTerm(n: nat, j: int, c: int)
    requires n >= 1
    ensures BinomTerm(n, j, c) == c * BinomTerm(n - 1, j, c) + BinomTerm(n - 1, j - 1, c)
  {
    if j == 0 {
      assert IntPow(c, n) == c * IntPow(c, n - 1);
    } else if 1 <= j <= n - 1 {
      var u, v := Binom(n - 1, j - 1), Binom(n - 1, j);
      var w := IntPow(c, n - 1 - j);
      assert IntPow(c, n - j) == c * w;
      assert Binom(n, j) == u + v;
      calc {
        BinomTerm(n, j, c);
        (u + v) * (c * w);
        { MulDistInt(u, v, c * w); }
        u * (c * w) + v * (c * w);
        { MulAssocInt(c, v, w); MulCommInt(c, v); MulAssocInt(v, c, w); }
        c * (v * w) + u * (c * w);
      }
    } else if j == n {
      BinomDiag(n);
      BinomDiag(n - 1);
      BinomAbove(n - 1, n);
    }
  }

  /** Pascal's rule for the residues of the terms. */
  lemma PascalMod(n: nat, j: int, c: int, p: int)
    requires n >= 1 && p >= 2
    ensures AddRes(Mod(c * Mod(BinomTerm(n - 1, j, c), p), p), Mod(BinomTerm(n - 1, j - 1, c), p), p)
      == Mod(BinomTerm(n, j, c), p)
  {
    var x, y := BinomTerm(n - 1, j, c), BinomTerm(n - 1, j - 1, c);
    ModMulRight(c, x, p);
    AddResOfMod(c * x, y, p);
    PascalTerm(n, j, c);
  }

  lemma ModZero(p: int)
    requires p >= 2
    ensures Mod(0, p) == 0 && Mod(1, p) == 1
  {
  }

  /** (x + c) G = c G + x G. */
  lemma LinearMul(c: int, G: seq<int>, p: int)
    requires p >= 2 && 0 <= c < p && IsPoly(G, p)
    ensures Mul(Linear(c, p), G, p) == Add(ScalarMul(c, G, p), Shift(G, 1, p), p)
  {
    MulAddLeft(Monomial(c, 0, p), Monomial(1, 1, p), G, p);
    MulConstant(c, G, p);
    MulX(G, p);
  }

  /** The coefficients of (x + c)^n reduced mod p. */
  lemma {:induction false} LinearPowerCoef(c: int, n: nat, p: int)
    requires p >= 2 && 0 <= c < p
    ensures forall j {:trigger Coef(Power(Linear(c, p), n, p), j)} ::
      Coef(Power(Linear(c, p), n, p), j) == Mod(BinomTerm(n, j, c), p)
  {
    var L := Linear(c, p);
    if n == 0 {
      ModZero(p);
    } else {
      var G := Power(L, n - 1, p);
      forall h: nat | h == n - 1 ensures forall j :: Coef(Power(L, h, p), j) == Mod(BinomTerm(h, j, c), p) {
        LinearPowerCoef(c, h, p);
      }
      LinearMul(c, G, p);
      forall j ensures Coef(Power(L, n, p), j) == Mod(BinomTerm(n, j, c), p) {
        var x, y := BinomTerm(n - 1, j, c), BinomTerm(n - 1, j - 1, c);
        assert Coef(G, j) == Mod(x, p);
        assert Coef(Shift(G, 1, p), j) == Mod(y, p) by {
          if j < 1 { ModZero(p); }
        }
        PascalMod(n, j, c, p);
      }
    }
  }

  /** The constant term of (x + c)^p is c^p = c mod p (Fermat). */
  lemma FrobeniusTermZero(c: int, p: int)
    requires IsPrime(p) && 0 <= c < p
    ensures Mod(BinomTerm(p, 0, c), p) == c
  {
    var t := IntPow(c, p);
    assert BinomTerm(p, 0, c) == Binom(p, 0) * t;
    assert Binom(p, 0) == 1;
    FermatPow(p, c);
    ModSmall(c, p);
  }

  /** The middle terms C(p, j) c^(p - j), 0 < j < p, vanish mod p. */
  lemma FrobeniusTermMiddle(c: int, j: int, p: int)
    requires IsPrime(p) && 0 <= c < p && 0 < j < p
    ensures Mod(BinomTerm(p, j, c), p) == 0
  {
    var b, t := Binom(p, j), IntPow(c, p - j);
    PrimeDividesBinom(p, j);
    calc {
      Mod(BinomTerm(p, j, c), p);
      { ModIsRem(BinomTerm(p, j, c), p); }
      (b * t) % p;
      { ModMulLeft(b, t, p); }
      (b % p * t) % p;
      { assert b % p * t == 0 * t == 0; }
      0 % p;
    }
  }

  /** The top term is C(p, p) = 1. */
  lemma FrobeniusTermTop(c: int, p: int)
    requires IsPrime(p) && 0 <= c < p
    ensures Mod(BinomTerm(p, p, c), p) == 1
  {
    BinomDiag(p);
    assert IntPow(c, 0) == 1;
    assert BinomTerm(p, p, c) == 1;
  }

  /** The residues of C(p, j) c^(p - j): only j = 0 and j = p survive. */
  lemma FrobeniusTerm(c: int, j: int, p: int)
    requires IsPrime(p) && 0 <= c < p
    ensures Mod(BinomTerm(p, j, c), p) == if j == 0 then c else if j == p then 1 else 0
  {
    if j == 0 {
      FrobeniusTermZero(c, p);
    } else if 0 < j < p {
      FrobeniusTermMiddle(c, j, p);
    } else if j == p {
      FrobeniusTermTop(c, p);
    } else {
      assert BinomTerm(p, j, c) == 0;
    }
  }

  /** (x + c)^p = x^p + c over Z/pZ. */
  lemma LinearFrobenius(c: int, p: int)
    requires IsPrime(p) && 0 <= c < p
    ensures Power(Linear(c, p), p, p) == Add(Monomial(c, 0, p), Monomial(1, p, p), p)
  {
    var L, R := Power(Linear(c, p), p, p), Add(Monomial(c, 0, p), Monomial(1, p, p), p);
    LinearPowerCoef(c, p, p);
    forall j | 0 <= j < Max(|L|, |R|) ensures Coef(L, j) == Coef(R, j) {
      FrobeniusTerm(c, j, p);
    }
    Ext(L, R, p);
  }

  /** (Y + c)^n = (x + c)^n with Y for x. */
  lemma {:induction false} BinomialCompose(c: int, Y: seq<int>, n: nat, p: int)
    requires p >= 2 && 0 <= c < p && IsPoly(Y, p)
    ensures Power(Add(Monomial(c, 0, p), Y, p), n, p) == Compose(Power(Linear(c, p), n, p), Y, p)
  {
    var K := Monomial(c, 0, p);
    var Z := Add(K, Y, p);
    if n == 0 {
      ConstantZeroOne(p);
      ComposeConstant(1, Y, p);
    } else {
      var Zn, Gn := Power(Z, n - 1, p), Power(Linear(c, p), n - 1, p);
      forall h: nat | h == n - 1 ensures Power(Z, h, p) == Compose(Power(Linear(c, p), h, p), Y, p) {
        BinomialCompose(c, Y, h, p);
      }
      MulAddLeft(K, Y, Zn, p);
      MulConstant(c, Zn, p);
      LinearMul(c, Gn, p);
      ComposeAdd(ScalarMul(c, Gn, p), Shift(Gn, 1, p), Y, p);
      ComposeScale(c, Gn, Y, p);
      ComposeShift(Gn, Y, p);
    }
  }

  /** The freshman's dream for a constant: (c + Y)^p = c + Y^p. */
  lemma FreshmanConstant(c: int, Y: seq<int>, p: int)
    requires IsPrime(p) && 0 <= c < p && IsPoly(Y, p)
    ensures Power(Add(Monomial(c, 0, p), Y, p), p, p) == Add(Monomial(c, 0, p), Power(Y, p, p), p)
  {
    BinomialCompose(c, Y, p, p);
    LinearFrobenius(c, p);
    ComposeAdd(Monomial(c, 0, p), Monomial(1, p, p), Y, p);
    ComposeConstant(c, Y, p);
    ComposeMonomial(p, Y, p);
  }

  // ---------------------------------------------------------------------
  // powers of products

  /** (A B)^n = A^n B^n. */
  lemma {:induction false} PowerMul(A: seq<int>, B: seq<int>, n: nat, p: int)
    requires IsPoly(A, p) && IsPoly(B, p)
    ensures Power(Mul(A, B, p), n, p) == Mul(Power(A, n, p), Power(B, n, p), p)
  {
    if n == 0 {
      MulOne([1], p);
    } else {
      var An, Bn := Power(A, n - 1, p), Power(B, n - 1, p);
      forall h: nat | h == n - 1 ensures Power(Mul(A, B, p), h, p) == Mul(Power(A, h, p), Power(B, h, p), p) {
        PowerMul(A, B, h, p);
      }
      calc {
        Power(Mul(A, B, p), n, p);
        Mul(Mul(A, B, p), Mul(An, Bn, p), p);
        { MulAssoc(A, B, Mul(An, Bn, p), p); }
        Mul(A, Mul(B, Mul(An, Bn, p), p), p);
        { MulAssoc(B, An, Bn, p); MulComm(B, An, p); MulAssoc(An, B, Bn, p); }
        Mul(A, Mul(An, Mul(B, Bn, p), p), p);
        { MulAssoc(A, An, Mul(B, Bn, p), p); }
        Mul(Power(A, n, p), Power(B, n, p), p);
      }
    }
  }

  /** x^n as a power of x. */
  lemma {:induction false} PowerX(n: nat, p: int)
    requires p >= 2
    ensures Power(Monomial(1, 1, p), n, p) == Monomial(1, n, p)
  {
    if n == 0 {
      ConstantZeroOne(p);
    } else {
      forall h: nat | h == n - 1 ensures Power(Monomial(1, 1, p), h, p) == Monomial(1, h, p) {
        PowerX(h, p);
      }
      MulX(Monomial(1, n - 1, p), p);
      MonomialStep(n, p);
    }
  }

  // ---------------------------------------------------------------------
  // the Frobenius identity

  /** R(x^p): the coefficient R[i] moved to degree i p. */
  function Spread(R: seq<int>, p: int): (S: seq<int>)
    requires IsPoly(R, p)
    ensures IsPoly(S, p)
    decreases |R|
  {
    if R == [] then []
    else
      TailIsPoly(R, p);
      Add(Monomial(R[0], 0, p), Shift(Spread(R[1..], p), p, p), p)
  }

  /** The coefficient of x^i in R(x^p). */
  function AtMultiple(R: seq<int>, p: int, i: int): int
    requires p >= 1
  {
    if i % p == 0 then Coef(R, i / p) else 0
  }

  /** Below p only the constant term is a multiple; above it, one stride
      of R(x^p) is one coefficient of R. */
  lemma AtMultipleStep(R: seq<int>, p: int, i: int)
    requires IsPoly(R, p) && 0 <= i
    ensures i < p ==> AtMultiple(R, p, i) == if i == 0 then Coef(R, 0) else 0
    ensures p <= i ==> AtMultiple(R, p, i) == AtMultiple(Tail(R, p), p, i - p)
  {
    if i < p {
      DivModUnique(i, p, 0, i);
    } else {
      DivModUnique(i - p, p, i / p - 1, i % p);
    }
  }

  /** One coefficient of R(x^p), from those of its tail. */
  lemma SpreadCoefAt(R: seq<int>, p: int, i: int)
    requires IsPoly(R, p) && R != [] && 0 <= i
    requires p <= i ==> Coef(Spread(Tail(R, p), p), i - p) == AtMultiple(Tail(R, p), p, i - p)
    ensures Coef(Spread(R, p), i) == AtMultiple(R, p, i)
  {
    var S := Spread(Tail(R, p), p);
    var K, U := Monomial(R[0], 0, p), Shift(S, p, p);
    assert Spread(R, p) == Add(K, U, p);
    CoefRange(R, p, 0);
    CoefRange(S, p, i - p);
    AtMultipleStep(R, p, i);
    if i < p {
      assert Coef(U, i) == 0;
    } else {
      assert Coef(K, i) == 0;
    }
  }

  /** The coefficients of R(x^p). */
  lemma {:induction false} SpreadCoef(R: seq<int>, p: int)
    requires IsPoly(R, p)
    ensures forall i {:trigger Coef(Spread(R, p), i)} :: 0 <= i ==>
      Coef(Spread(R, p), i) == AtMultiple(R, p, i)
    decreases |R|
  {
    if R != [] {
      SpreadCoef(Tail(R, p), p);
      forall i | 0 <= i ensures Coef(Spread(R, p), i) == AtMultiple(R, p, i) {
        SpreadCoefAt(R, p, i);
      }
    } else {
      forall i | 0 <= i ensures Coef(Spread(R, p), i) == AtMultiple(R, p, i) {
        assert Coef(R, i / p) == 0;
      }
    }
  }

  /** R^p = R(x^p) over Z/pZ for a prime p. */
  lemma {:induction false} FrobeniusIdentity(R: seq<int>, p: int)
    requires IsPrime(p) && IsPoly(R, p)
    ensures Power(R, p, p) == Spread(R, p)
    decreases |R|
  {
    if R == [] {
      MulZeroLeft(Power(R, p - 1, p), p);
    } else {
      var r, T := R[0], Tail(R, p);
      var X := Monomial(1, 1, p);
      var Y := Shift(T, 1, p);
      assert R == Add(Monomial(r, 0, p), Y, p) by {
        var S := Add(Monomial(r, 0, p), Y, p);
        forall i | 0 <= i < Max(|R|, |S|) ensures Coef(R, i) == Coef(S, i) {
          if i > 0 { assert Coef(Y, i) == Coef(T, i - 1); }
        }
        Ext(R, S, p);
      }
      FreshmanConstant(r, Y, p);
      MulX(T, p);
      PowerMul(X, T, p, p);
      PowerX(p, p);
      FrobeniusIdentity(T, p);
      MulMonomial(1, p, Spread(T, p), p);
      ScalarMulOne(Shift(Spread(T, p), p, p), p);
    }
  }
}

/** The ring laws of polynomials over Z/pZ as the operations of ModPoly
    compute them: the additive group, the product's decomposition along the
    constant coefficient, distributivity, associativity, units and degrees.
    Every law is proved coefficient by coefficient and closed with `Ext`. */
module PolyRing {
  import opened NumberTheory
  import opened ModPoly
  import M = ModArith

  /** A polynomial has no coefficient at or beyond any index n past which
      all its coefficients vanish. */
  lemma LenBound(P: seq<int>, p: int, n: nat)
    requires IsPoly(P, p)
    requires forall i :: n <= i ==> Coef(P, i) == 0
    ensures |P| <= n
  {
    if P != [] {
      assert Coef(P, |P| - 1) != 0;
    }
  }

  /** Dropping the constant coefficient keeps the polynomial invariant. */
  lemma TailIsPoly(P: seq<int>, p: int)
    requires IsPoly(P, p) && P != []
    ensures IsPoly(P[1..], p)
    ensures forall i :: 0 <= i ==> Coef(P[1..], i) == Coef(P, i + 1)
  {
  }

  // ---------------------------------------------------------------------
  // the additive group

  /** The residue laws at coefficient i of three polynomials. */
  lemma LawsAt(P: seq<int>, Q: seq<int>, S: seq<int>, p: int, i: int)
    requires IsPoly(P, p) && IsPoly(Q, p) && IsPoly(S, p)
    ensures var a, b, c := Coef(P, i), Coef(Q, i), Coef(S, i);
      && AddRes(a, b, p) == AddRes(b, a, p)
      && AddRes(AddRes(a, b, p), c, p) == AddRes(a, AddRes(b, c, p), p)
      && AddRes(a, 0, p) == a && SubRes(a, a, p) == 0
      && AddRes(SubRes(a, b, p), b, p) == a
      && (AddRes(a, b, p) == c <==> a == SubRes(c, b, p))
  {
    CoefRange(P, p, i);
    CoefRange(Q, p, i);
    CoefRange(S, p, i);
    AddResLaws(Coef(P, i), Coef(Q, i), Coef(S, i), p);
  }

  lemma AddComm(P: seq<int>, Q: seq<int>, p: int)
    requires IsPoly(P, p) && IsPoly(Q, p)
    ensures Add(P, Q, p) == Add(Q, P, p)
  {
    var L, R := Add(P, Q, p), Add(Q, P, p);
    forall i | 0 <= i < Max(|L|, |R|) ensures Coef(L, i) == Coef(R, i) {
      LawsAt(P, Q, Q, p, i);
    }
    Ext(L, R, p);
  }

  lemma AddAssoc(P: seq<int>, Q: seq<int>, S: seq<int>, p: int)
    requires IsPoly(P, p) && IsPoly(Q, p) && IsPoly(S, p)
    ensures Add(Add(P, Q, p), S, p) == Add(P, Add(Q, S, p), p)
  {
    var L, R := Add(Add(P, Q, p), S, p), Add(P, Add(Q, S, p), p);
    forall i | 0 <= i < Max(|L|, |R|) ensures Coef(L, i) == Coef(R, i) {
      LawsAt(P, Q, S, p, i);
    }
    Ext(L, R, p);
  }

  lemma AddZero(P: seq<int>, p: int)
    requires IsPoly(P, p)
    ensures Add(P, [], p) == P && Add([], P, p) == P
  {
    var L, R := Add(P, [], p), Add([], P, p);
    forall i | 0 <= i < Max(|L|, |P|) ensures Coef(L, i) == Coef(P, i) {
      LawsAt(P, [], P, p, i);
    }
    Ext(L, P, p);
    AddComm(P, [], p);
  }

  /** P - P is the zero polynomial. */
  lemma SubSelf(P: seq<int>, p: int)
    requires IsPoly(P, p)
    ensures Sub(P, P, p) == []
  {
    var L := Sub(P, P, p);
    forall i | 0 <= i ensures Coef(L, i) == 0 {
      LawsAt(P, P, P, p, i);
    }
    LenBound(L, p, 0);
  }

  /** Subtracting X and adding it back returns the original. */
  lemma SubAdd(A: seq<int>, X: seq<int>, p: int)
    requires IsPoly(A, p) && IsPoly(X, p)
    ensures Add(Sub(A, X, p), X, p) == A
  {
    var L := Add(Sub(A, X, p), X, p);
    forall i | 0 <= i < Max(|L|, |A|) ensures Coef(L, i) == Coef(A, i) {
      LawsAt(A, X, X, p, i);
    }
    Ext(L, A, p);
  }

  /** A + B == C exactly when A == C - B. */
  lemma AddSubIff(A: seq<int>, B: seq<int>, C: seq<int>, p: int)
    requires IsPoly(A, p) && IsPoly(B, p) && IsPoly(C, p)
    ensures Add(A, B, p) == C <==> A == Sub(C, B, p)
  {
    if Add(A, B, p) == C {
      var L := Sub(C, B, p);
      forall i | 0 <= i < Max(|L|, |A|) ensures Coef(L, i) == Coef(A, i) {
        LawsAt(A, B, C, p, i);
      }
      Ext(L, A, p);
    }
    if A == Sub(C, B, p) {
      SubAdd(C, B, p);
    }
  }

  lemma ScalarMulZero(P: seq<int>, p: int)
    requires IsPoly(P, p)
    ensures ScalarMul(0, P, p) == []
  {
    var L := ScalarMul(0, P, p);
    forall i | 0 <= i < Max(|L|, 0) ensures Coef(L, i) == Coef([], i) {
    }
    Ext(L, [], p);
  }

  lemma ScalarMulOne(P: seq<int>, p: int)
    requires IsPoly(P, p)
    ensures ScalarMul(1, P, p) == P
  {
    var L := ScalarMul(1, P, p);
    forall i | 0 <= i < Max(|L|, |P|) ensures Coef(L, i) == Coef(P, i) {
      CoefRange(P, p, i);
      assert 1 * Coef(P, i) == Coef(P, i);
      ModSmall(Coef(P, i), p);
    }
    Ext(L, P, p);
  }

  /** Scaling twice is scaling by the product. */
  lemma ScalarMulScalarMul(a: int, b: int, P: seq<int>, p: int)
    requires IsPoly(P, p)
    ensures ScalarMul(a, ScalarMul(b, P, p), p) == ScalarMul(a * b, P, p)
  {
    var L, R := ScalarMul(a, ScalarMul(b, P, p), p), ScalarMul(a * b, P, p);
    forall i | 0 <= i < Max(|L|, |R|) ensures Coef(L, i) == Coef(R, i) {
      ModMulAssoc(a, b, Coef(P, i), p);
    }
    Ext(L, R, p);
  }

  /** -P is P scaled by -1. */
  lemma NegIsScalarMul(P: seq<int>, p: int)
    requires IsPoly(P, p)
    ensures Neg(P, p) == ScalarMul(-1, P, p)
  {
    var L, R := Neg(P, p), ScalarMul(-1, P, p);
    forall i | 0 <= i < Max(|L|, |R|) ensures Coef(L, i) == Coef(R, i) {
      assert -1 * Coef(P, i) == -Coef(P, i);
      NegResIsMod(Coef(P, i), p);
    }
    Ext(L, R, p);
  }

  lemma ShiftZero(P: seq<int>, p: int)
    requires IsPoly(P, p)
    ensures Shift(P, 0, p) == P
  {
    if P != [] {
      assert seq(0, _ => 0) + P == P;
    }
  }

  // ---------------------------------------------------------------------
  // the product

  /** Moving the left factor's window one step: the terms k = lo+1..hi of
      P against Q are the terms k = lo..hi-1 of P[1..] against Q at d - 1. */
  lemma {:induction false} ConvSumTail(P: seq<int>, Q: seq<int>, d: int, lo: int, hi: int)
    requires P != [] && 0 <= lo
    ensures ConvSum(P, Q, d, lo + 1, hi + 1) == ConvSum(P[1..], Q, d - 1, lo, hi)
    decreases hi - lo
  {
    if lo < hi {
      ConvSumTail(P, Q, d, lo, hi - 1);
      assert Coef(P, hi) == Coef(P[1..], hi - 1);
      assert d - hi == d - 1 - (hi - 1);
    }
  }

  /** The convolution splits off the constant coefficient of the left
      factor. */
  lemma ConvCons(P: seq<int>, Q: seq<int>, d: int)
    requires P != []
    ensures Conv(P, Q, d) == P[0] * Coef(Q, d) + Conv(P[1..], Q, d - 1)
  {
    if d >= 0 {
      ConvSumSplit(P, Q, d, 0, 1, d + 1);
      ConvSumTail(P, Q, d, 0, d);
    } else {
      assert Coef(Q, d) == 0;
    }
  }

  /** `MulCons` for any lists with the coefficients of L = P Q,
      T = P[1..] Q, S = P[0] Q, U = x T and R = S + U. */
  lemma ConsLaw(P: seq<int>, Q: seq<int>, L: seq<int>, T: seq<int>, S: seq<int>, U: seq<int>, R: seq<int>, p: int)
    requires P != [] && IsPoly(L, p) && IsPoly(R, p)
    requires forall d {:trigger Coef(L, d)} :: Coef(L, d) == Mod(Conv(P, Q, d), p)
    requires forall d {:trigger Coef(T, d)} :: Coef(T, d) == Mod(Conv(P[1..], Q, d), p)
    requires forall d {:trigger Coef(S, d)} :: Coef(S, d) == Mod(P[0] * Coef(Q, d), p)
    requires forall d {:trigger Coef(U, d)} :: Coef(U, d) == if d < 1 then 0 else Coef(T, d - 1)
    requires IsSum(R, S, U, p)
    ensures L == R
  {
    forall d | 0 <= d < Max(|L|, |R|) ensures Coef(L, d) == Coef(R, d) {
      ConvCons(P, Q, d);
      var a, b := P[0] * Coef(Q, d), Conv(P[1..], Q, d - 1);
      ModEq(Conv(P, Q, d), a + b, p);
      if d == 0 {
        assert b == 0;
        assert Coef(U, d) == 0 == Mod(b, p);
      } else {
        assert Coef(U, d) == Mod(b, p);
      }
      AddResOfMod(a, b, p);
    }
    Ext(L, R, p);
  }

  /** P * Q = P[0] Q + x (P[1..] Q): the product is built one coefficient
      of the left factor at a time. */
  lemma MulCons(P: seq<int>, Q: seq<int>, p: int)
    requires IsPoly(P, p) && IsPoly(Q, p) && P != []
    ensures IsPoly(P[1..], p)
    ensures Mul(P, Q, p) == Add(ScalarMul(P[0], Q, p), Shift(Mul(P[1..], Q, p), 1, p), p)
  {
    TailIsPoly(P, p);
    var T := Mul(P[1..], Q, p);
    var S, U := ScalarMul(P[0], Q, p), Shift(T, 1, p);
    ConsLaw(P, Q, Mul(P, Q, p), T, S, U, Add(S, U, p), p);
  }

  lemma MulZeroLeft(Q: seq<int>, p: int)
    requires IsPoly(Q, p)
    ensures Mul([], Q, p) == []
  {
    var L := Mul([], Q, p);
    forall d | 0 <= d ensures Coef(L, d) == 0 {
      ConvZero([], Q, d);
    }
    LenBound(L, p, 0);
  }

  lemma MulZeroRight(P: seq<int>, p: int)
    requires IsPoly(P, p)
    ensures Mul(P, [], p) == []
  {
    var L := Mul(P, [], p);
    forall d | 0 <= d ensures Coef(L, d) == 0 {
      ConvZero(P, [], d);
    }
    LenBound(L, p, 0);
  }

  /** Z is X + Y coefficientwise. */
  ghost predicate IsSum(Z: seq<int>, X: seq<int>, Y: seq<int>, p: int) {
    forall k {:trigger Coef(Z, k)} :: Coef(Z, k) == AddRes(Coef(X, k), Coef(Y, k), p)
  }

  /** S is B scaled by c coefficientwise. */
  ghost predicate IsScaled(S: seq<int>, c: int, B: seq<int>, p: int)
    requires p > 0
  {
    forall k {:trigger Coef(S, k)} :: Coef(S, k) == Mod(c * Coef(B, k), p)
  }

  /** The convolution is additive in its left factor, up to p. */
  lemma {:induction false} ConvSumOfSum(Z: seq<int>, X: seq<int>, Y: seq<int>, C: seq<int>, p: int, d: int, lo: int, hi: int)
    requires IsPoly(X, p) && IsPoly(Y, p) && IsSum(Z, X, Y, p)
    ensures Mod(ConvSum(Z, C, d, lo, hi), p) == Mod(ConvSum(X, C, d, lo, hi) + ConvSum(Y, C, d, lo, hi), p)
    decreases hi - lo
  {
    if lo < hi {
      var k := hi - 1;
      var x, y, c := Coef(X, k), Coef(Y, k), Coef(C, d - k);
      var zs, xs, ys := ConvSum(Z, C, d, lo, k), ConvSum(X, C, d, lo, k), ConvSum(Y, C, d, lo, k);
      ConvSumOfSum(Z, X, Y, C, p, d, lo, k);
      CoefRange(X, p, k);
      CoefRange(Y, p, k);
      assert Coef(Z, k) == AddRes(x, y, p);
      ModAddMul(x, y, c, p);
      ModAddCong(zs, Coef(Z, k) * c, xs + ys, x * c + y * c, p);
      ModEq(ConvSum(Z, C, d, lo, hi), zs + Coef(Z, k) * c, p);
      ModEq(ConvSum(X, C, d, lo, hi) + ConvSum(Y, C, d, lo, hi), (xs + ys) + (x * c + y * c), p);
      assert Mod(ConvSum(Z, C, d, lo, hi), p) == Mod(ConvSum(X, C, d, lo, hi) + ConvSum(Y, C, d, lo, hi), p);
    } else {
      assert ConvSum(X, C, d, lo, hi) + ConvSum(Y, C, d, lo, hi) == ConvSum(Z, C, d, lo, hi);
    }
  }

  /** The convolution is homogeneous in its left factor, up to p. */
  lemma {:induction false} ConvSumOfScaled(S: seq<int>, c: int, B: seq<int>, C: seq<int>, p: int, d: int, lo: int, hi: int)
    requires p > 0 && IsScaled(S, c, B, p)
    ensures Mod(ConvSum(S, C, d, lo, hi), p) == Mod(c * ConvSum(B, C, d, lo, hi), p)
    decreases hi - lo
  {
    if lo < hi {
      var k := hi - 1;
      var b, e := Coef(B, k), Coef(C, d - k);
      var ss, bs := ConvSum(S, C, d, lo, k), ConvSum(B, C, d, lo, k);
      ConvSumOfScaled(S, c, B, C, p, d, lo, k);
      assert Coef(S, k) == Mod(c * b, p);
      ModScaleMul(c, b, e, p);
      MulDistInt(bs, b * e, c);
      MulCommInt(bs, c);
      MulCommInt(b * e, c);
      ModAddCong(ss, Coef(S, k) * e, c * bs, c * (b * e), p);
      ModEq(ConvSum(S, C, d, lo, hi), ss + Coef(S, k) * e, p);
      ModEq(c * ConvSum(B, C, d, lo, hi), c * bs + c * (b * e), p);
    } else {
      assert ConvSum(S, C, d, lo, hi) == c * ConvSum(B, C, d, lo, hi);
    }
  }

  /** The coefficient of a product whose left factor is a sum. */
  lemma ConvOfSum(Z: seq<int>, X: seq<int>, Y: seq<int>, C: seq<int>, p: int, d: int)
    requires IsPoly(X, p) && IsPoly(Y, p) && IsSum(Z, X, Y, p)
    ensures Mod(Conv(Z, C, d), p) == AddRes(Mod(Conv(X, C, d), p), Mod(Conv(Y, C, d), p), p)
  {
    ConvSumOfSum(Z, X, Y, C, p, d, 0, d + 1);
    AddResOfMod(Conv(X, C, d), Conv(Y, C, d), p);
  }

  lemma MulAddLeftAt(X: seq<int>, Y: seq<int>, C: seq<int>, p: int, d: int)
    requires IsPoly(X, p) && IsPoly(Y, p) && IsPoly(C, p)
    ensures Coef(Mul(Add(X, Y, p), C, p), d) == Coef(Add(Mul(X, C, p), Mul(Y, C, p), p), d)
  {
    ConvOfSum(Add(X, Y, p), X, Y, C, p, d);
  }

  /** Right distributivity: (X + Y) C = X C + Y C. */
  lemma MulAddLeft(X: seq<int>, Y: seq<int>, C: seq<int>, p: int)
    requires IsPoly(X, p) && IsPoly(Y, p) && IsPoly(C, p)
    ensures Mul(Add(X, Y, p), C, p) == Add(Mul(X, C, p), Mul(Y, C, p), p)
  {
    var L, R := Mul(Add(X, Y, p), C, p), Add(Mul(X, C, p), Mul(Y, C, p), p);
    forall d | 0 <= d < Max(|L|, |R|) ensures Coef(L, d) == Coef(R, d) {
      MulAddLeftAt(X, Y, C, p, d);
    }
    Ext(L, R, p);
  }

  lemma MulScalarLeftAt(c: int, B: seq<int>, C: seq<int>, p: int, d: int)
    requires IsPoly(B, p) && IsPoly(C, p)
    ensures Coef(Mul(ScalarMul(c, B, p), C, p), d) == Coef(ScalarMul(c, Mul(B, C, p), p), d)
  {
    ConvSumOfScaled(ScalarMul(c, B, p), c, B, C, p, d, 0, d + 1);
    ModMulRight(c, Conv(B, C, d), p);
  }

  /** (c B) C = c (B C). */
  lemma MulScalarLeft(c: int, B: seq<int>, C: seq<int>, p: int)
    requires IsPoly(B, p) && IsPoly(C, p)
    ensures Mul(ScalarMul(c, B, p), C, p) == ScalarMul(c, Mul(B, C, p), p)
  {
    var L, R := Mul(ScalarMul(c, B, p), C, p), ScalarMul(c, Mul(B, C, p), p);
    forall d | 0 <= d < Max(|L|, |R|) ensures Coef(L, d) == Coef(R, d) {
      MulScalarLeftAt(c, B, C, p, d);
    }
    Ext(L, R, p);
  }

  /** (x X) C = x (X C). */
  lemma MulShiftLeft(X: seq<int>, C: seq<int>, p: int)
    requires IsPoly(X, p) && IsPoly(C, p)
    ensures Mul(Shift(X, 1, p), C, p) == Shift(Mul(X, C, p), 1, p)
  {
    if X == [] {
      MulZeroLeft(C, p);
    } else {
      var S := Shift(X, 1, p);
      assert S[0] == 0 && S[1..] == X;
      MulCons(S, C, p);
      ScalarMulZero(C, p);
      AddZero(Shift(Mul(X, C, p), 1, p), p);
    }
  }

  /** Associativity of the product, by induction on the left factor
      through `MulCons`. */
  lemma {:induction false} MulAssoc(A: seq<int>, B: seq<int>, C: seq<int>, p: int)
    requires IsPoly(A, p) && IsPoly(B, p) && IsPoly(C, p)
    ensures Mul(Mul(A, B, p), C, p) == Mul(A, Mul(B, C, p), p)
    decreases |A|
  {
    if A == [] {
      MulZeroLeft(B, p);
      MulZeroLeft(C, p);
      MulZeroLeft(Mul(B, C, p), p);
    } else {
      var a, T := A[0], A[1..];
      var BC := Mul(B, C, p);
      MulCons(A, B, p);
      MulCons(A, BC, p);
      var S, U := ScalarMul(a, B, p), Shift(Mul(T, B, p), 1, p);
      calc {
        Mul(Mul(A, B, p), C, p);
        Mul(Add(S, U, p), C, p);
        { MulAddLeft(S, U, C, p); }
        Add(Mul(S, C, p), Mul(U, C, p), p);
        { MulScalarLeft(a, B, C, p); MulShiftLeft(Mul(T, B, p), C, p); }
        Add(ScalarMul(a, BC, p), Shift(Mul(Mul(T, B, p), C, p), 1, p), p);
        { MulAssoc(T, B, C, p); }
        Add(ScalarMul(a, BC, p), Shift(Mul(T, BC, p), 1, p), p);
        Mul(A, BC, p);
      }
    }
  }

  /** The convolution with c x^k picks out one term. */
  lemma ConvMonomial(Mo: seq<int>, c: int, k: nat, B: seq<int>, d: int)
    requires forall i {:trigger Coef(Mo, i)} :: Coef(Mo, i) == if i == k then c else 0
    ensures Conv(Mo, B, d) == if d < k then 0 else c * Coef(B, d - k)
  {
    if d < k {
      ConvSumVanish(Mo, B, d, 0, d + 1);
    } else {
      ConvSumSplit(Mo, B, d, 0, k, d + 1);
      ConvSumSplit(Mo, B, d, k, k + 1, d + 1);
      ConvSumVanish(Mo, B, d, 0, k);
      ConvSumVanish(Mo, B, d, k + 1, d + 1);
      assert ConvSum(Mo, B, d, k, k + 1) == c * Coef(B, d - k);
    }
  }

  lemma MulMonomialAt(c: int, k: nat, B: seq<int>, p: int, d: int)
    requires p >= 2 && 0 <= c < p && IsPoly(B, p)
    ensures Coef(Mul(Monomial(c, k, p), B, p), d) == Coef(ScalarMul(c, Shift(B, k, p), p), d)
  {
    ConvMonomial(Monomial(c, k, p), c, k, B, d);
  }

  /** Multiplying by c x^k scales and shifts. */
  lemma MulMonomial(c: int, k: nat, B: seq<int>, p: int)
    requires p >= 2 && 0 <= c < p && IsPoly(B, p)
    ensures Mul(Monomial(c, k, p), B, p) == ScalarMul(c, Shift(B, k, p), p)
  {
    var L, R := Mul(Monomial(c, k, p), B, p), ScalarMul(c, Shift(B, k, p), p);
    forall d | 0 <= d < Max(|L|, |R|) ensures Coef(L, d) == Coef(R, d) {
      MulMonomialAt(c, k, B, p, d);
    }
    Ext(L, R, p);
  }

  /** The constant polynomial 1 is a two-sided unit. */
  lemma MulOne(P: seq<int>, p: int)
    requires IsPoly(P, p)
    ensures IsPoly([1], p)
    ensures Mul([1], P, p) == P && Mul(P, [1], p) == P
  {
    assert Monomial(1, 0, p) == [1];
    MulMonomial(1, 0, P, p);
    ShiftZero(P, p);
    ScalarMulOne(P, p);
    var L := Mul(P, [1], p);
    forall d | 0 <= d < Max(|L|, |P|) ensures Coef(L, d) == Coef(P, d) {
      ConvSumSplit(P, [1], d, 0, d, d + 1);
      ConvSumOutside(P, [1], d, 0, d);
      assert ConvSum(P, [1], d, d, d + 1) == Coef(P, d);
      CoefRange(P, p, d);
    }
    Ext(L, P, p);
  }

  /** Multiplying by the constant c is scaling by c. */
  lemma MulConstant(c: int, P: seq<int>, p: int)
    requires p >= 2 && 0 <= c < p && IsPoly(P, p)
    ensures Mul(Monomial(c, 0, p), P, p) == ScalarMul(c, P, p)
  {
    MulMonomial(c, 0, P, p);
    ShiftZero(P, p);
  }

  /** Left distributivity over a difference: (X - Z) H = X H - Z H. */
  lemma MulSubLeft(X: seq<int>, Z: seq<int>, H: seq<int>, p: int)
    requires IsPoly(X, p) && IsPoly(Z, p) && IsPoly(H, p)
    ensures Mul(Sub(X, Z, p), H, p) == Sub(Mul(X, H, p), Mul(Z, H, p), p)
  {
    NegIsScalarMul(Z, p);
    NegIsScalarMul(Mul(Z, H, p), p);
    MulAddLeft(X, Neg(Z, p), H, p);
    MulScalarLeft(-1, Z, H, p);
  }

  // ---------------------------------------------------------------------
  // cancellation

  /** X + R == X + R0 only when R == R0. */
  lemma AddCancel(X: seq<int>, R: seq<int>, R0: seq<int>, p: int)
    requires IsPoly(X, p) && IsPoly(R, p) && IsPoly(R0, p)
    requires Add(R, X, p) == Add(R0, X, p)
    ensures R == R0
  {
    forall i | 0 <= i < Max(|R|, |R0|) ensures Coef(R, i) == Coef(R0, i) {
      CoefRange(R, p, i);
      CoefRange(R0, p, i);
      CoefRange(X, p, i);
      assert Coef(Add(R, X, p), i) == Coef(Add(R0, X, p), i);
      ResCancelLaws(Coef(R, i), Coef(R0, i), Coef(X, i), 0, p);
    }
    Ext(R, R0, p);
  }

  /** A zero difference means equal polynomials. */
  lemma SubZeroEq(Q: seq<int>, Q0: seq<int>, p: int)
    requires IsPoly(Q, p) && IsPoly(Q0, p) && Sub(Q, Q0, p) == []
    ensures Q == Q0
  {
    forall i | 0 <= i < Max(|Q|, |Q0|) ensures Coef(Q, i) == Coef(Q0, i) {
      CoefRange(Q, p, i);
      CoefRange(Q0, p, i);
      assert Coef(Sub(Q, Q0, p), i) == 0;
      ResCancelLaws(Coef(Q, i), Coef(Q0, i), 0, 0, p);
    }
    Ext(Q, Q0, p);
  }

  /** X + R == Y + R0 gives X - Y == R0 - R. */
  lemma AddSwapSub(X: seq<int>, R: seq<int>, Y: seq<int>, R0: seq<int>, p: int)
    requires IsPoly(X, p) && IsPoly(R, p) && IsPoly(Y, p) && IsPoly(R0, p)
    requires Add(X, R, p) == Add(Y, R0, p)
    ensures Sub(X, Y, p) == Sub(R0, R, p)
  {
    var L, M := Sub(X, Y, p), Sub(R0, R, p);
    forall i | 0 <= i < Max(|L|, |M|) ensures Coef(L, i) == Coef(M, i) {
      CoefRange(X, p, i);
      CoefRange(R, p, i);
      CoefRange(Y, p, i);
      CoefRange(R0, p, i);
      assert Coef(Add(X, R, p), i) == Coef(Add(Y, R0, p), i);
      ResCancelLaws(Coef(X, i), Coef(R, i), Coef(Y, i), Coef(R0, i), p);
    }
    Ext(L, M, p);
  }

  // ---------------------------------------------------------------------
  // degrees

  /** A unit residue times a nonzero residue is nonzero. */
  lemma UnitProductNonZero(a: int, b: int, p: int)
    requires p >= 2 && 0 < a < p && 0 <= b < p && Gcd(b, p) == 1
    ensures Mod(a * b, p) != 0
  {
    ModIsRem(a * b, p);
    UnitProductRem(a, b, p);
  }

  lemma UnitProductRem(a: int, b: int, p: int)
    requires p >= 2 && 0 < a < p && 0 <= b < p && Gcd(b, p) == 1
    ensures (a * b) % p != 0
  {
    var (s, t) := M.Bezout(b, p);
    M.BezoutIdentity(b, p);
    assert b * s + p * t == 1;
    if (a * b) % p == 0 {
      DividesLinear(a * b, (a * t) * p, s, p) by {
        DivModUnique((a * t) * p, p, a * t, 0);
      }
      assert s * (a * b) + (a * t) * p == a * (b * s + p * t);
      ModSmall(a, p);
    }
  }

  /** deg(P Q) = deg P + deg Q when the leading coefficient of Q is a unit,
      and the leading coefficient of the product is the product of the
      leading coefficients. */
  lemma MulDeg(P: seq<int>, Q: seq<int>, p: int)
    requires IsPoly(P, p) && IsPoly(Q, p) && P != [] && Q != []
    requires Gcd(Lead(Q), p) == 1
    ensures |Mul(P, Q, p)| == |P| + |Q| - 1
    ensures Lead(Mul(P, Q, p)) == Mod(Lead(P) * Lead(Q), p)
  {
    var L := Mul(P, Q, p);
    var n := |P| + |Q| - 2;
    ConvSumSplit(P, Q, n, 0, |P| - 1, n + 1);
    ConvSumSplit(P, Q, n, |P| - 1, |P|, n + 1);
    ConvSumOutside(P, Q, n, 0, |P| - 1);
    ConvSumOutside(P, Q, n, |P|, n + 1);
    assert ConvSum(P, Q, n, |P| - 1, |P|) == Lead(P) * Lead(Q);
    assert Coef(L, n) == Mod(Lead(P) * Lead(Q), p);
    UnitProductNonZero(Lead(P), Lead(Q), p);
    forall i | n + 1 <= i ensures Coef(L, i) == 0 {
      ConvBeyond(P, Q, i);
    }
    LenBound(L, p, n + 1);
  }

  /** Summing the terms of a coefficient from the other end: k and d - k
      trade places. */
  lemma {:induction false} ConvSumReverse(P: seq<int>, Q: seq<int>, d: int, lo: int, hi: int)
    ensures ConvSum(P, Q, d, lo, hi) == ConvSum(Q, P, d, d + 1 - hi, d + 1 - lo)
    decreases hi - lo
  {
    if lo < hi {
      ConvSumReverse(P, Q, d, lo, hi - 1);
      ConvSumSplit(Q, P, d, d + 1 - hi, d + 2 - hi, d + 1 - lo);
      assert ConvSum(Q, P, d, d + 1 - hi, d + 2 - hi) == Coef(Q, d + 1 - hi) * Coef(P, hi - 1);
    }
  }

  /** The convolution sum at d is symmetric in its two factors. */
  lemma ConvComm(P: seq<int>, Q: seq<int>, d: int)
    ensures Conv(P, Q, d) == Conv(Q, P, d)
  {
    ConvSumReverse(P, Q, d, 0, d + 1);
  }

  /** Commutativity of the product. */
  lemma MulComm(P: seq<int>, Q: seq<int>, p: int)
    requires IsPoly(P, p) && IsPoly(Q, p)
    ensures Mul(P, Q, p) == Mul(Q, P, p)
  {
    var L, R := Mul(P, Q, p), Mul(Q, P, p);
    forall d | 0 <= d < Max(|L|, |R|) ensures Coef(L, d) == Coef(R, d) {
      ConvComm(P, Q, d);
    }
    Ext(L, R, p);
  }

  /** Left distributivity: C (X + Y) = C X + C Y. */
  lemma MulAddRight(C: seq<int>, X: seq<int>, Y: seq<int>, p: int)
    requires IsPoly(X, p) && IsPoly(Y, p) && IsPoly(C, p)
    ensures Mul(C, Add(X, Y, p), p) == Add(Mul(C, X, p), Mul(C, Y, p), p)
  {
    MulComm(C, Add(X, Y, p), p);
    MulAddLeft(X, Y, C, p);
    MulComm(X, C, p);
    MulComm(Y, C, p);
  }

  /** B (c C) = c (B C). */
  lemma MulScalarRight(c: int, B: seq<int>, C: seq<int>, p: int)
    requires IsPoly(B, p) && IsPoly(C, p)
    ensures Mul(B, ScalarMul(c, C, p), p) == ScalarMul(c, Mul(B, C, p), p)
  {
    MulComm(B, ScalarMul(c, C, p), p);
    MulScalarLeft(c, C, B, p);
    MulComm(C, B, p);
  }

  /** Every nonzero residue is a unit when p is prime. */
  lemma PrimeUnit(b: int, p: int)
    requires IsPrime(p) && 0 < b < p
    ensures Gcd(b, p) == 1
  {
    PrimeCoprime(b, p);
  }
}

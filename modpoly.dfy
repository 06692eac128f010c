/** Polynomials over Z/pZ (algnuth/polynom.py, class Polynomial with ModInt
    coefficients). A polynomial is its trimmed coefficient list, lowest
    degree first; each coefficient is the residue `v` in [0, p) of the
    ModInt the source stores. Every operation returns a new trimmed list. */
module ModPoly {
  import opened NumberTheory
  import opened CoefficientLists

  /** Every entry is a residue mod p. */
  predicate Residues(C: seq<int>, p: int) {
    forall i :: 0 <= i < |C| ==> 0 <= C[i] < p
  }

  /** The invariant of a Polynomial object: residues, no trailing zero. */
  predicate IsPoly(P: seq<int>, p: int) {
    p >= 2 && Residues(P, p) && (P == [] || P[|P| - 1] != 0)
  }

  /** Coefficient of x^i, zero outside the stored list. */
  function Coef(P: seq<int>, i: int): int {
    if 0 <= i < |P| then P[i] else 0
  }

  /** Every coefficient of a polynomial, stored or not, is a residue. */
  lemma CoefRange(P: seq<int>, p: int, i: int)
    requires IsPoly(P, p)
    ensures 0 <= Coef(P, i) < p
  {
  }

  /** `deg`: len - 1, so the zero polynomial has degree -1. */
  function Deg(P: seq<int>): int {
    |P| - 1
  }

  function Lead(P: seq<int>): int
    requires P != []
  {
    P[|P| - 1]
  }

  predicate IsMonic(P: seq<int>) {
    P != [] && P[|P| - 1] == 1
  }

  function Max(a: int, b: int): int { if a < b then b else a }
  function Min(a: int, b: int): int { if a < b then a else b }

  /** `Polynomial(C)`: the constructor trims its list. */
  function Poly(C: seq<int>, p: int): (P: seq<int>)
    requires p >= 2 && Residues(C, p)
    ensures IsPoly(P, p) && |P| <= |C|
    ensures forall i {:trigger Coef(P, i)} :: Coef(P, i) == Coef(C, i)
  {
    Trim(C, 0)
  }

  /** Two polynomials with the same coefficients are the same list. */
  lemma Ext(P: seq<int>, Q: seq<int>, p: int)
    requires IsPoly(P, p) && IsPoly(Q, p)
    requires forall i :: 0 <= i < Max(|P|, |Q|) ==> Coef(P, i) == Coef(Q, i)
    ensures P == Q
  {
    assert |P| <= |Q| by {
      if P != [] { assert Coef(P, |P| - 1) == Coef(Q, |P| - 1); }
    }
    assert |Q| <= |P| by {
      if Q != [] { assert Coef(P, |Q| - 1) == Coef(Q, |Q| - 1); }
    }
    forall i | 0 <= i < |P| ensures P[i] == Q[i] {
      assert Coef(P, i) == Coef(Q, i);
    }
  }

  // ---------------------------------------------------------------------
  // additive structure

  /** `[A[d] + B[d] for d in range(len(B))] + A[len(B):]`, entry by entry. */
  function AddEntries(A: seq<int>, B: seq<int>, p: int): (C: seq<int>)
    requires p >= 2 && |B| <= |A|
    ensures |C| == |A|
    ensures forall d {:trigger C[d]} :: 0 <= d < |A| ==> C[d] == if d < |B| then Mod(A[d] + B[d], p) else A[d]
    decreases |B|
  {
    if B == [] then A else [Mod(A[0] + B[0], p)] + AddEntries(A[1..], B[1..], p)
  }

  /** `P + Q`: with A the longer list, A[d] + B[d] where both are stored
      and A[d] beyond the shorter B. */
  function Add(P: seq<int>, Q: seq<int>, p: int): (R: seq<int>)
    requires IsPoly(P, p) && IsPoly(Q, p)
    ensures IsPoly(R, p) && |R| <= Max(|P|, |Q|)
    ensures forall d {:trigger Coef(R, d)} :: Coef(R, d) == AddRes(Coef(P, d), Coef(Q, d), p)
  {
    var A, B := if |P| < |Q| then Q else P, if |P| < |Q| then P else Q;
    var C := AddEntries(A, B, p);
    assert forall d :: Coef(C, d) == AddRes(Coef(P, d), Coef(Q, d), p) by {
      forall d ensures Coef(C, d) == AddRes(Coef(P, d), Coef(Q, d), p) {
        CoefRange(A, p, d);
        CoefRange(B, p, d);
        AddResIsMod(Coef(A, d), Coef(B, d), p);
      }
    }
    Poly(C, p)
  }

  /** `[-c for c in P]`, entry by entry. */
  function NegEntries(P: seq<int>, p: int): (C: seq<int>)
    requires p >= 2
    ensures |C| == |P|
    ensures forall i {:trigger C[i]} :: 0 <= i < |P| ==> C[i] == Mod(-P[i], p)
  {
    if P == [] then [] else [Mod(-P[0], p)] + NegEntries(P[1..], p)
  }

  /** `-P`. */
  function Neg(P: seq<int>, p: int): (R: seq<int>)
    requires IsPoly(P, p)
    ensures IsPoly(R, p) && |R| <= |P|
    ensures forall d {:trigger Coef(R, d)} :: Coef(R, d) == NegRes(Coef(P, d), p)
  {
    var C := NegEntries(P, p);
    assert forall d :: Coef(C, d) == NegRes(Coef(P, d), p) by {
      forall d ensures Coef(C, d) == NegRes(Coef(P, d), p) {
        NegResIsMod(Coef(P, d), p);
      }
    }
    Poly(C, p)
  }

  /** `P - Q` is defined by the source as `P + (-Q)`. */
  function Sub(P: seq<int>, Q: seq<int>, p: int): (R: seq<int>)
    requires IsPoly(P, p) && IsPoly(Q, p)
    ensures IsPoly(R, p) && |R| <= Max(|P|, |Q|)
    ensures forall d {:trigger Coef(R, d)} :: Coef(R, d) == SubRes(Coef(P, d), Coef(Q, d), p)
  {
    Add(P, Neg(Q, p), p)
  }

  /** `[k * c for c in P]`, entry by entry. */
  function ScaleEntries(k: int, P: seq<int>, p: int): (C: seq<int>)
    requires p >= 2
    ensures |C| == |P|
    ensures forall i {:trigger C[i]} :: 0 <= i < |P| ==> C[i] == Mod(k * P[i], p)
  {
    if P == [] then [] else [Mod(k * P[0], p)] + ScaleEntries(k, P[1..], p)
  }

  /** `_mulscal`: multiply every coefficient by k. */
  function ScalarMul(k: int, P: seq<int>, p: int): (R: seq<int>)
    requires IsPoly(P, p)
    ensures IsPoly(R, p) && |R| <= |P|
    ensures forall d {:trigger Coef(R, d)} :: Coef(R, d) == Mod(k * Coef(P, d), p)
  {
    var C := ScaleEntries(k, P, p);
    assert forall d :: Coef(C, d) == Mod(k * Coef(P, d), p) by {
      forall d ensures Coef(C, d) == Mod(k * Coef(P, d), p) {
        if 0 <= d < |P| { assert C[d] == Mod(k * P[d], p); } else { assert k * Coef(P, d) == 0; }
      }
    }
    Poly(C, p)
  }

  /** `[0] * d`. */
  function Zeros(d: nat): (Z: seq<int>)
    ensures |Z| == d && forall i {:trigger Z[i]} :: 0 <= i < d ==> Z[i] == 0
  {
    if d == 0 then [] else [0] + Zeros(d - 1)
  }

  /** `shift(d)`: multiply by x^d; the zero polynomial stays zero. */
  function Shift(P: seq<int>, d: nat, p: int): (R: seq<int>)
    requires IsPoly(P, p)
    ensures IsPoly(R, p)
    ensures P != [] ==> |R| == |P| + d
    ensures forall i {:trigger Coef(R, i)} :: Coef(R, i) == if i < d then 0 else Coef(P, i - d)
  {
    if P == [] then [] else Zeros(d) + P
  }

  /** The polynomial c x^k (zero when c is zero). */
  function Monomial(c: int, k: nat, p: int): (R: seq<int>)
    requires p >= 2 && 0 <= c < p
    ensures IsPoly(R, p)
    ensures forall i {:trigger Coef(R, i)} :: Coef(R, i) == if i == k then c else 0
  {
    Shift(Poly([c], p), k, p)
  }

  // ---------------------------------------------------------------------
  // product

  /** P[lo] Q[d - lo] + ... + P[hi - 1] Q[d - hi + 1]: the terms of the
      coefficient of x^d in P Q whose left index k lies in [lo, hi). */
  function ConvSum(P: seq<int>, Q: seq<int>, d: int, lo: int, hi: int): int
    decreases hi - lo
  {
    if lo >= hi then 0
    else ConvSum(P, Q, d, lo, hi - 1) + Coef(P, hi - 1) * Coef(Q, d - (hi - 1))
  }

  /** The coefficient of x^d in P Q over the integers: all k = 0..d. */
  function Conv(P: seq<int>, Q: seq<int>, d: int): int {
    ConvSum(P, Q, d, 0, d + 1)
  }

  /** The first n entries of the list `_mulpoly` builds before trimming:
      for each degree d the sum over the k with P[k] and Q[d - k] both
      stored. */
  function ConvEntries(P: seq<int>, Q: seq<int>, n: nat, p: int): (C: seq<int>)
    requires p >= 2
    ensures |C| == n
    ensures forall d {:trigger C[d]} :: 0 <= d < n ==>
      C[d] == Mod(ConvSum(P, Q, d, Max(0, d + 1 - |Q|), Min(d + 1, |P|)), p)
  {
    if n == 0 then []
    else ConvEntries(P, Q, n - 1, p) + [Mod(ConvSum(P, Q, n - 1, Max(0, n - |Q|), Min(n, |P|)), p)]
  }

  /** The whole list, one entry per degree up to deg P + deg Q. */
  function ConvList(P: seq<int>, Q: seq<int>, p: int): (C: seq<int>)
    requires p >= 2
    ensures Residues(C, p) && |C| == Max(0, |P| + |Q| - 1)
  {
    ConvEntries(P, Q, Max(0, |P| + |Q| - 1), p)
  }

  lemma {:induction false} ConvSumSplit(P: seq<int>, Q: seq<int>, d: int, lo: int, mid: int, hi: int)
    requires lo <= mid <= hi
    ensures ConvSum(P, Q, d, lo, hi) == ConvSum(P, Q, d, lo, mid) + ConvSum(P, Q, d, mid, hi)
    decreases hi - lo
  {
    if mid < hi {
      ConvSumSplit(P, Q, d, lo, mid, hi - 1);
    }
  }

  /** A range of k where P[k] or Q[d - k] is never stored contributes
      nothing. */
  lemma {:induction false} ConvSumOutside(P: seq<int>, Q: seq<int>, d: int, lo: int, hi: int)
    requires |P| <= lo || hi <= 0 || hi <= d + 1 - |Q| || d + 1 <= lo
    ensures ConvSum(P, Q, d, lo, hi) == 0
    decreases hi - lo
  {
    if lo < hi {
      ConvSumOutside(P, Q, d, lo, hi - 1);
      var k := hi - 1;
      if |P| <= lo || hi <= 0 {
        assert Coef(P, k) == 0;
      } else {
        assert Coef(Q, d - k) == 0;
      }
    }
  }

  /** A range of k where every P[k] is zero contributes nothing. */
  lemma {:induction false} ConvSumVanish(P: seq<int>, Q: seq<int>, d: int, lo: int, hi: int)
    requires forall k :: lo <= k < hi ==> Coef(P, k) == 0
    ensures ConvSum(P, Q, d, lo, hi) == 0
    decreases hi - lo
  {
    if lo < hi {
      ConvSumVanish(P, Q, d, lo, hi - 1);
    }
  }

  /** The source's range of k drops only vanishing terms. */
  lemma ConvRestrict(P: seq<int>, Q: seq<int>, d: int)
    requires 0 <= d
    ensures ConvSum(P, Q, d, Max(0, d + 1 - |Q|), Min(d + 1, |P|)) == Conv(P, Q, d)
  {
    var lo, hi := Max(0, d + 1 - |Q|), Min(d + 1, |P|);
    if lo <= hi {
      ConvSumSplit(P, Q, d, 0, lo, d + 1);
      ConvSumSplit(P, Q, d, lo, hi, d + 1);
      ConvSumOutside(P, Q, d, 0, lo);
      ConvSumOutside(P, Q, d, hi, d + 1);
    } else {
      ConvSumSplit(P, Q, d, 0, hi, d + 1);
      ConvSumOutside(P, Q, d, 0, hi);
      ConvSumOutside(P, Q, d, hi, d + 1);
    }
  }

  /** No coefficient beyond degree deg P + deg Q. */
  lemma ConvBeyond(P: seq<int>, Q: seq<int>, d: int)
    requires |P| + |Q| - 1 <= d
    ensures Conv(P, Q, d) == 0
  {
    ConvSumSplit(P, Q, d, 0, |P|, d + 1);
    ConvSumOutside(P, Q, d, 0, |P|);
    ConvSumOutside(P, Q, d, |P|, d + 1);
  }

  /** The product with the zero polynomial has no terms. */
  lemma ConvZero(P: seq<int>, Q: seq<int>, d: int)
    requires P == [] || Q == []
    ensures Conv(P, Q, d) == 0
  {
    ConvSumOutside(P, Q, d, 0, d + 1);
  }

  lemma ConvListCoef(P: seq<int>, Q: seq<int>, p: int)
    requires p >= 2
    ensures forall d :: Coef(ConvList(P, Q, p), d) == Mod(Conv(P, Q, d), p)
  {
    var C := ConvList(P, Q, p);
    forall d ensures Coef(C, d) == Mod(Conv(P, Q, d), p) {
      if 0 <= d < |C| {
        ConvRestrict(P, Q, d);
      } else if d >= 0 {
        ConvBeyond(P, Q, d);
      }
    }
  }

  /** `P * Q` for two polynomials (`_mulpoly`). */
  function Mul(P: seq<int>, Q: seq<int>, p: int): (R: seq<int>)
    requires IsPoly(P, p) && IsPoly(Q, p)
    ensures IsPoly(R, p)
    ensures forall d {:trigger Coef(R, d)} :: Coef(R, d) == Mod(Conv(P, Q, d), p)
  {
    ConvListCoef(P, Q, p);
    Poly(ConvList(P, Q, p), p)
  }

  // ---------------------------------------------------------------------
  // derivative, reduction, evaluation

  /** The first n entries of `[i * P[i] for i in range(1, len(P))]`. */
  function DerivEntries(P: seq<int>, n: nat, p: int): (C: seq<int>)
    requires p >= 2 && n < |P|
    ensures |C| == n
    ensures forall i {:trigger C[i]} :: 0 <= i < n ==> C[i] == Mod((i + 1) * P[i + 1], p)
  {
    if n == 0 then [] else DerivEntries(P, n - 1, p) + [Mod(n * P[n], p)]
  }

  /** `prime()`: coefficient i - 1 of the result is i * P[i]. */
  function Derivative(P: seq<int>, p: int): (R: seq<int>)
    requires IsPoly(P, p)
    ensures IsPoly(R, p) && |R| < |P| + 1 && (P != [] ==> |R| < |P|)
    ensures forall i {:trigger Coef(R, i)} :: 0 <= i ==> Coef(R, i) == Mod((i + 1) * Coef(P, i + 1), p)
  {
    var C := if P == [] then [] else DerivEntries(P, |P| - 1, p);
    assert forall i :: 0 <= i ==> Coef(C, i) == Mod((i + 1) * Coef(P, i + 1), p) by {
      forall i | 0 <= i ensures Coef(C, i) == Mod((i + 1) * Coef(P, i + 1), p) {
        if i < |P| - 1 { assert C[i] == Mod((i + 1) * P[i + 1], p); } else { assert (i + 1) * Coef(P, i + 1) == 0; }
      }
    }
    Poly(C, p)
  }

  /** `[ModInt(c, p) for c in C]`, entry by entry. */
  function ReduceEntries(C: seq<int>, p: int): (D: seq<int>)
    requires p >= 2
    ensures |D| == |C|
    ensures forall i {:trigger D[i]} :: 0 <= i < |C| ==> D[i] == Mod(C[i], p)
  {
    if C == [] then [] else [Mod(C[0], p)] + ReduceEntries(C[1..], p)
  }

  /** `reduceP(p)`: the residues of integer coefficients. */
  function ReduceP(C: seq<int>, p: int): (R: seq<int>)
    requires p >= 2
    ensures IsPoly(R, p) && |R| <= |C|
    ensures forall i {:trigger Coef(R, i)} :: Coef(R, i) == Mod(Coef(C, i), p)
  {
    var D := ReduceEntries(C, p);
    assert forall i :: Coef(D, i) == Mod(Coef(C, i), p) by {
      forall i ensures Coef(D, i) == Mod(Coef(C, i), p) {
        if 0 <= i < |C| { assert D[i] == Mod(C[i], p); }
      }
    }
    Poly(D, p)
  }

  /** Reducing a polynomial that is already over Z/pZ changes nothing. */
  lemma ReducePIdempotent(P: seq<int>, p: int)
    requires IsPoly(P, p)
    ensures ReduceP(P, p) == P
  {
    var R := ReduceP(P, p);
    forall i | 0 <= i < Max(|R|, |P|) ensures Coef(R, i) == Coef(P, i) {
      CoefRange(P, p, i);
      ModSmall(Coef(P, i), p);
    }
    Ext(R, P, p);
  }

  /** P[0] + P[1] x + ... + P[n - 1] x^(n - 1) over the integers. */
  function PowSum(P: seq<int>, x: int, n: int): int
    decreases n
  {
    if n <= 0 then 0 else PowSum(P, x, n - 1) + Coef(P, n - 1) * IntPow(x, n - 1)
  }

  /** The value of P at x as the power sum of its coefficients. */
  function EvalSum(P: seq<int>, x: int, p: int): int
    requires p >= 2
  {
    Mod(PowSum(P, x, |P|), p)
  }

  /** Horner's rule on a coefficient list (no reduction). */
  function Horner(S: seq<int>, x: int): int
    decreases |S|
  {
    if S == [] then 0 else S[0] + x * Horner(S[1..], x)
  }

  /** The power sum splits off the constant coefficient. */
  lemma {:induction false} PowSumCons(S: seq<int>, x: int, n: nat)
    requires S != []
    ensures PowSum(S, x, n + 1) == S[0] + x * PowSum(S[1..], x, n)
    decreases n
  {
    if n > 0 {
      PowSumCons(S, x, n - 1);
      var c, w := Coef(S[1..], n - 1), IntPow(x, n - 1);
      assert Coef(S, n) == c;
      assert IntPow(x, n) == x * w;
      MulAssocInt(c, x, w);
      MulCommInt(c, x);
      MulDistInt(PowSum(S[1..], x, n - 1), c * w, x);
    }
  }

  lemma {:induction false} HornerIsPowerSum(S: seq<int>, x: int)
    ensures Horner(S, x) == PowSum(S, x, |S|)
    decreases |S|
  {
    if S != [] {
      HornerIsPowerSum(S[1..], x);
      PowSumCons(S, x, |S| - 1);
    }
  }

  /** `eval(x)` by Horner's rule from the leading coefficient down. */
  method Eval(P: seq<int>, x: int, p: int) returns (v: int)
    requires IsPoly(P, p)
    ensures 0 <= v < p
    ensures v == EvalSum(P, x, p)
  {
    HornerIsPowerSum(P, x);
    if P == [] {
      return 0;
    }
    v := P[|P| - 1];
    var i := |P| - 2;
    assert P[i + 1..] == [P[|P| - 1]];
    assert Horner(P[i + 1..], x) == v;
    ModSmall(v, p);
    while i >= 0
      invariant -1 <= i <= |P| - 2
      invariant 0 <= v < p
      invariant v == Mod(Horner(P[i + 1..], x), p)
    {
      assert P[i..][1..] == P[i + 1..];
      ModHornerStep(Horner(P[i + 1..], x), x, P[i], p);
      v := Mod(v * x + P[i], p);
      i := i - 1;
    }
    assert P[0..] == P;
  }
}

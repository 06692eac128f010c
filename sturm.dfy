/** Sturm sequences (algnuth/polynom.py: `sign_changes`, `sturm`, `r1`,
    `r2`). The source evaluates each polynomial of the sequence at float
    -inf and +inf; those values are modelled by an extended real with the
    IEEE rules for infinite operands. */
module Sturm {
  import opened RealPoly
  import opened Wrappers

  /** A float as far as `sturm` needs it: exact finite values, the two
      infinities and NaN. */
  datatype Ext = Fin(v: real) | PosInf | NegInf | NaN

  predicate ExtPositive(a: Ext) {
    a.PosInf? || (a.Fin? && a.v > 0.0)
  }

  /** `a < 0` on a float (false for NaN). */
  predicate ExtNegative(a: Ext) {
    a.NegInf? || (a.Fin? && a.v < 0.0)
  }

  function ExtNeg(a: Ext): Ext {
    match a
    case Fin(v) => Fin(-v)
    case PosInf => NegInf
    case NegInf => PosInf
    case NaN => NaN
  }

  /** IEEE product: NaN is absorbing, 0 times an infinity is NaN, otherwise
      an infinite product has the sign of the product of the signs. */
  function ExtMul(a: Ext, b: Ext): Ext {
    if a.NaN? || b.NaN? then NaN
    else if a.Fin? && b.Fin? then Fin(a.v * b.v)
    else if (a.Fin? && a.v == 0.0) || (b.Fin? && b.v == 0.0) then NaN
    else if ExtPositive(a) == ExtPositive(b) then PosInf
    else NegInf
  }

  /** IEEE sum: NaN is absorbing, +inf + -inf is NaN, an infinity absorbs a
      finite value. */
  function ExtAdd(a: Ext, b: Ext): Ext {
    if a.NaN? || b.NaN? then NaN
    else if a.Fin? && b.Fin? then Fin(a.v + b.v)
    else if (a.PosInf? && b.NegInf?) || (a.NegInf? && b.PosInf?) then NaN
    else if a.Fin? then b
    else a
  }

  lemma ExtMulNeg(a: Ext, b: Ext)
    ensures ExtMul(ExtNeg(a), ExtNeg(b)) == ExtMul(a, b)
    ensures ExtMul(ExtNeg(a), b) == ExtNeg(ExtMul(a, b))
  {
    if a.Fin? && b.Fin? {
      assert (-a.v) * (-b.v) == a.v * b.v;
      assert (-a.v) * b.v == -(a.v * b.v);
    }
  }

  lemma ExtAddNeg(a: Ext, b: Ext)
    ensures ExtAdd(ExtNeg(a), ExtNeg(b)) == ExtNeg(ExtAdd(a, b))
  {
  }

  // ---------------------------------------------------------------------
  // sign changes

  /** `sign_changes`: the number of adjacent pairs whose product is
      negative. A list of n values has at most n - 1 of them. */
  function SignChanges(l: seq<Ext>): (n: nat)
    ensures |l| < 2 ==> n == 0
    ensures |l| >= 2 ==> n <= |l| - 1
  {
    if |l| < 2 then 0
    else (if ExtNegative(ExtMul(l[0], l[1])) then 1 else 0) + SignChanges(l[1..])
  }

  /** Every entry negated. */
  function NegValues(l: seq<Ext>): (m: seq<Ext>)
    ensures |m| == |l|
    ensures forall i {:trigger m[i]} :: 0 <= i < |l| ==> m[i] == ExtNeg(l[i])
  {
    if l == [] then [] else [ExtNeg(l[0])] + NegValues(l[1..])
  }

  /** Negating every value changes no sign change: (-a)(-b) = ab. */
  lemma {:induction false} SignChangesNeg(l: seq<Ext>)
    ensures SignChanges(NegValues(l)) == SignChanges(l)
  {
    if |l| >= 2 {
      var m := NegValues(l);
      ExtMulNeg(l[0], l[1]);
      assert m[1..] == NegValues(l[1..]);
      SignChangesNeg(l[1..]);
    }
  }

  // ---------------------------------------------------------------------
  // evaluation at the infinities

  /** Horner's loop of `eval` from the accumulator v, consuming P[j], P[j - 1],
      ..., P[0]. */
  function Horner(P: seq<real>, j: int, v: Ext, x: Ext): Ext
    requires -1 <= j < |P|
    decreases j + 1
  {
    if j < 0 then v else Horner(P, j - 1, ExtAdd(ExtMul(v, x), Fin(P[j])), x)
  }

  /** `P(x)`: 0 for the zero polynomial, otherwise Horner's rule from the
      leading coefficient. */
  function EvalExt(P: seq<real>, x: Ext): Ext {
    if P == [] then Fin(0.0) else Horner(P, |P| - 2, Fin(P[|P| - 1]), x)
  }

  /** `eval`: v = P[-1], then v = v x + c for the remaining coefficients
      from the top down. */
  method Eval(P: seq<real>, x: Ext) returns (v: Ext)
    ensures v == EvalExt(P, x)
  {
    if P == [] {
      return Fin(0.0);
    }
    v := Fin(P[|P| - 1]);
    var j := |P| - 2;
    while j >= 0
      invariant -1 <= j < |P|
      invariant Horner(P, j, v, x) == EvalExt(P, x)
      decreases j + 1
    {
      v := ExtAdd(ExtMul(v, x), Fin(P[j]));
      j := j - 1;
    }
  }

  /** Once the accumulator is infinite it keeps its sign at +inf and flips
      it at every remaining step at -inf. */
  lemma {:induction false} HornerInf(P: seq<real>, j: int, v: Ext, x: Ext)
    requires -1 <= j < |P| && (v.PosInf? || v.NegInf?) && (x.PosInf? || x.NegInf?)
    ensures Horner(P, j, v, x) == if x.PosInf? || j % 2 == 1 then v else ExtNeg(v)
    decreases j + 1
  {
    if j >= 0 {
      HornerInf(P, j - 1, ExtAdd(ExtMul(v, x), Fin(P[j])), x);
    }
  }

  /** The value of a nonconstant polynomial at +inf has the sign of its
      leading coefficient; at -inf that sign is flipped when the degree is
      odd. Neither is ever NaN. */
  lemma EvalAtInfinity(P: seq<real>)
    requires IsRPoly(P) && |P| >= 2
    ensures EvalExt(P, PosInf) == if RLead(P) > 0.0 then PosInf else NegInf
    ensures EvalExt(P, NegInf) == if (RLead(P) > 0.0) == (|P| % 2 == 1) then PosInf else NegInf
  {
    var l := Fin(P[|P| - 1]);
    var up := ExtAdd(ExtMul(l, PosInf), Fin(P[|P| - 2]));
    var down := ExtAdd(ExtMul(l, NegInf), Fin(P[|P| - 2]));
    HornerInf(P, |P| - 3, up, PosInf);
    HornerInf(P, |P| - 3, down, NegInf);
  }

  /** Evaluation commutes with negation of the coefficients, for a list NP
      given by its entries. */
  lemma {:induction false} HornerNeg(P: seq<real>, NP: seq<real>, j: int, v: Ext, x: Ext)
    requires |NP| == |P| && -1 <= j < |P|
    requires forall i {:trigger NP[i]} :: 0 <= i < |P| ==> NP[i] == -P[i]
    ensures Horner(NP, j, ExtNeg(v), x) == ExtNeg(Horner(P, j, v, x))
    decreases j + 1
  {
    if j >= 0 {
      var w := ExtAdd(ExtMul(v, x), Fin(P[j]));
      HornerStepNeg(v, x, P[j], NP[j]);
      HornerNeg(P, NP, j - 1, w, x);
    }
  }

  /** One Horner step commutes with negation. */
  lemma HornerStepNeg(v: Ext, x: Ext, c: real, nc: real)
    requires nc == -c
    ensures ExtAdd(ExtMul(ExtNeg(v), x), Fin(nc)) == ExtNeg(ExtAdd(ExtMul(v, x), Fin(c)))
  {
    ExtMulNeg(v, x);
    ExtAddNeg(ExtMul(v, x), Fin(c));
  }

  /** (-P)(x) = -(P(x)). */
  lemma EvalNeg(P: seq<real>, x: Ext)
    requires IsRPoly(P)
    ensures EvalExt(RNeg(P), x) == ExtNeg(EvalExt(P, x))
  {
    var NP := RNeg(P);
    if P != [] {
      forall i | 0 <= i < |P| ensures NP[i] == -P[i] {
        assert RCoef(NP, i) == -RCoef(P, i);
      }
      HornerNeg(P, NP, |P| - 2, Fin(P[|P| - 1]), x);
    }
  }

  // ---------------------------------------------------------------------
  // the Sturm sequence

  /** The values at x of B, -A % B, ... : the polynomials the loop of
      `sturm` appends while B is nonzero. There are at most deg B + 1. */
  function ChainValues(A: seq<real>, B: seq<real>, x: Ext): (l: seq<Ext>)
    requires IsRPoly(A) && IsRPoly(B)
    ensures |l| <= |B|
    decreases |B|
  {
    if B == [] then [] else [EvalExt(B, x)] + ChainValues(B, RMod(RNeg(A), B), x)
  }

  /** The list l1 (x = -inf) or l2 (x = +inf) of `sturm`. */
  function SturmValues(P: seq<real>, x: Ext): (l: seq<Ext>)
    requires IsRPoly(P)
    ensures 1 <= |l| && (P != [] ==> |l| <= |P|)
  {
    [EvalExt(P, x)] + ChainValues(P, RDeriv(P), x)
  }

  /** What `sturm` returns: sign changes at -inf minus those at +inf. */
  function SturmCount(P: seq<real>): int
    requires IsRPoly(P)
  {
    SignChanges(SturmValues(P, NegInf)) - SignChanges(SturmValues(P, PosInf))
  }

  /** `sturm`: append B(-inf) and B(inf) and step B, A = -A % B, B while B
      is nonzero. */
  method Sturm(P: seq<real>) returns (s: int)
    requires IsRPoly(P)
    ensures s == SturmCount(P)
  {
    var A := P;
    var B := RDeriv(P);
    var a1 := Eval(A, NegInf);
    var a2 := Eval(A, PosInf);
    var l1, l2 := [a1], [a2];
    while B != []
      invariant IsRPoly(A) && IsRPoly(B)
      invariant l1 + ChainValues(A, B, NegInf) == SturmValues(P, NegInf)
      invariant l2 + ChainValues(A, B, PosInf) == SturmValues(P, PosInf)
      decreases |B|
    {
      var b1 := Eval(B, NegInf);
      var b2 := Eval(B, PosInf);
      var R := RRemainder(RNeg(A), B);
      AppendOne(l1, b1, ChainValues(B, R, NegInf));
      AppendOne(l2, b2, ChainValues(B, R, PosInf));
      l1, l2 := l1 + [b1], l2 + [b2];
      A, B := B, R;
    }
    assert ChainValues(A, B, NegInf) == [] && ChainValues(A, B, PosInf) == [];
    assert l1 + [] == l1 && l2 + [] == l2;
    s := SignChanges(l1) - SignChanges(l2);
  }

  lemma AppendOne(l: seq<Ext>, b: Ext, rest: seq<Ext>)
    ensures l + ([b] + rest) == (l + [b]) + rest
  {
  }

  /** A constant (or zero) polynomial has Sturm count 0. */
  lemma SturmConstant(P: seq<real>)
    requires IsRPoly(P) && |P| <= 1
    ensures SturmCount(P) == 0
  {
    assert RDeriv(P) == [];
  }

  /** The Sturm count of a nonzero polynomial lies between -deg and deg. */
  lemma SturmBound(P: seq<real>)
    requires IsRPoly(P) && P != []
    ensures -(|P| - 1) <= SturmCount(P) <= |P| - 1
  {
    var l1, l2 := SturmValues(P, NegInf), SturmValues(P, PosInf);
    assert SignChanges(l1) <= |P| - 1 && SignChanges(l2) <= |P| - 1;
  }

  /** A polynomial of degree one has Sturm count 1: its values at -inf and
      +inf have opposite signs and its derivative is a nonzero constant. */
  lemma SturmLinear(P: seq<real>)
    requires IsRPoly(P) && |P| == 2
    ensures SturmCount(P) == 1
  {
    var D := RDeriv(P);
    assert |D| == 1 && D[0] == RCoef(D, 0) == P[1];
    EvalAtInfinity(P);
    var R := RMod(RNeg(P), D);
    assert R == [];
    assert ChainValues(P, D, NegInf) == [Fin(P[1])];
    assert ChainValues(P, D, PosInf) == [Fin(P[1])];
  }

  /** The chain of -A, -B is the chain of A, B with every value negated. */
  lemma {:induction false} ChainNeg(A: seq<real>, B: seq<real>, x: Ext)
    requires IsRPoly(A) && IsRPoly(B)
    ensures ChainValues(RNeg(A), RNeg(B), x) == NegValues(ChainValues(A, B, x))
    decreases |B|
  {
    if B != [] {
      var R := RMod(RNeg(A), B);
      RModNeg(RNeg(A), B);
      RNegNeg(A);
      assert RMod(RNeg(RNeg(A)), RNeg(B)) == RNeg(R);
      EvalNeg(B, x);
      ChainNeg(B, R, x);
      var l := ChainValues(A, B, x);
      assert l == [EvalExt(B, x)] + ChainValues(B, R, x);
      assert NegValues(l)[1..] == NegValues(ChainValues(B, R, x));
    }
  }

  /** sturm(-P) = sturm(P). */
  lemma SturmNeg(P: seq<real>)
    requires IsRPoly(P)
    ensures SturmCount(RNeg(P)) == SturmCount(P)
  {
    RDerivNeg(P);
    forall x: Ext | x.PosInf? || x.NegInf?
      ensures SturmValues(RNeg(P), x) == NegValues(SturmValues(P, x))
    {
      EvalNeg(P, x);
      ChainNeg(P, RDeriv(P), x);
      var l := SturmValues(P, x);
      assert NegValues(l)[1..] == NegValues(l[1..]);
    }
    SignChangesNeg(SturmValues(P, NegInf));
    SignChangesNeg(SturmValues(P, PosInf));
  }

  // ---------------------------------------------------------------------
  // r1 and r2

  /** `r1`: while the Sturm count s is nonzero, add it and pass to
      gcd(P, P'). A nonzero count implies deg P >= 1, so the degree drops. */
  function R1Of(P: seq<real>): int
    requires IsRPoly(P)
    decreases |P|
  {
    if SturmCount(P) == 0 then 0
    else
      NonzeroSturm(P);
      SturmCount(P) + R1Of(RGcd(P, RDeriv(P)))
  }

  /** A nonzero Sturm count needs a nonconstant polynomial, whose gcd with
      its derivative has smaller degree. */
  lemma NonzeroSturm(P: seq<real>)
    requires IsRPoly(P) && SturmCount(P) != 0
    ensures |P| >= 2 && |RGcd(P, RDeriv(P))| < |P|
  {
    if |P| <= 1 {
      SturmConstant(P);
      assert false;
    }
  }

  /** The loop of `r1`. */
  method R1(P0: seq<real>) returns (ans: int)
    requires IsRPoly(P0)
    ensures ans == R1Of(P0)
  {
    ans := 0;
    var P := P0;
    var s := Sturm(P);
    while s != 0
      invariant IsRPoly(P) && s == SturmCount(P)
      invariant ans + R1Of(P) == R1Of(P0)
      decreases |P|
    {
      ans := ans + s;
      NonzeroSturm(P);
      var D := RDeriv(P);
      P := REuclidGcd(P, D);
      s := Sturm(P);
    }
  }

  /** A constant has r1 = 0 and a polynomial of degree one has r1 = 1. */
  lemma R1Small(P: seq<real>)
    requires IsRPoly(P) && |P| <= 2
    ensures R1Of(P) == if |P| == 2 then 1 else 0
  {
    if |P| <= 1 {
      SturmConstant(P);
    } else {
      SturmLinear(P);
      var G := RGcd(P, RDeriv(P));
      assert |G| <= 1;
      SturmConstant(G);
    }
  }

  /** r1(-P) = r1(P). */
  lemma R1Neg(P: seq<real>)
    requires IsRPoly(P)
    ensures R1Of(RNeg(P)) == R1Of(P)
  {
    SturmNeg(P);
    if SturmCount(P) != 0 {
      calc {
        R1Of(RNeg(P));
        SturmCount(RNeg(P)) + R1Of(RGcd(RNeg(P), RDeriv(RNeg(P))));
        { RDerivNeg(P); }
        SturmCount(P) + R1Of(RGcd(RNeg(P), RNeg(RDeriv(P))));
        { RGcdNeg(P, RDeriv(P)); }
        SturmCount(P) + R1Of(RGcd(P, RDeriv(P)));
      }
    }
  }

  /** d // 2 under the source's assertion that d is even; None where that
      assertion fails. */
  function Half(d: int): (r: Option<int>)
    ensures r.Some? <==> d % 2 == 0
    ensures r.Some? ==> 2 * r.value == d
  {
    if d % 2 == 0 then Some(d / 2) else None
  }

  /** `r2` = (deg P - r1) // 2, where deg P = |P| - 1 (-1 for zero). */
  function R2Of(P: seq<real>): Option<int>
    requires IsRPoly(P)
  {
    Half(|P| - 1 - R1Of(P))
  }

  /** r2 of a constant is 0, of a line 0, and the zero polynomial (degree
      -1) fails the parity assertion. */
  lemma R2Small(P: seq<real>)
    requires IsRPoly(P) && |P| <= 2
    ensures R2Of(P) == if P == [] then None else Some(0)
  {
    R1Small(P);
    assert forall d1: int, d2: int {:trigger Half(d1), Half(d2)} :: d1 == d2 ==> Half(d1) == Half(d2);
    if P == [] {
      assert |P| - 1 - R1Of(P) == -1 && Half(-1) == None;
    } else {
      assert |P| - 1 - R1Of(P) == 0 && Half(0) == Some(0);
    }
  }

  /** r2(-P) = r2(P). */
  lemma R2Neg(P: seq<real>)
    requires IsRPoly(P)
    ensures R2Of(RNeg(P)) == R2Of(P)
  {
    R1Neg(P);
    assert |RNeg(P)| - 1 - R1Of(RNeg(P)) == |P| - 1 - R1Of(P);
    assert forall d1: int, d2: int {:trigger Half(d1), Half(d2)} :: d1 == d2 ==> Half(d1) == Half(d2);
  }
}

/** `Polynomial.__pow__` (algnuth/polynom.py): square-and-multiply over
    Z/pZ[x], proved against k-fold multiplication. */
module PolyPower {
  import opened ModPoly
  import opened PolyRing

  /** P multiplied by itself k times; k = 0 gives the constant 1 (the source
      returns the integer 1, which behaves as the constant polynomial). */
  function Power(P: seq<int>, k: nat, p: int): (R: seq<int>)
    requires IsPoly(P, p)
    ensures IsPoly(R, p)
    ensures k == 0 ==> R == [1]
    decreases k
  {
    if k == 0 then [1] else Mul(P, Power(P, k - 1, p), p)
  }

  /** (A A)^j = A^(2j): squaring the base halves the exponent. */
  lemma {:induction false} PowerSquare(A: seq<int>, j: nat, p: int)
    requires IsPoly(A, p)
    ensures Power(Mul(A, A, p), j, p) == Power(A, j + j, p)
  {
    if j > 0 {
      forall i: nat | i < j ensures Power(Mul(A, A, p), i, p) == Power(A, i + i, p) {
        PowerSquare(A, i, p);
      }
      MulAssoc(A, A, Power(A, j + j - 2, p), p);
    }
  }

  /** The inductive step of PowerAdd, from the hypothesis for i - 1. */
  lemma PowerAddStep(A: seq<int>, i: nat, j: nat, p: int)
    requires IsPoly(A, p) && i >= 1
    requires Power(A, i - 1 + j, p) == Mul(Power(A, i - 1, p), Power(A, j, p), p)
    ensures Power(A, i + j, p) == Mul(Power(A, i, p), Power(A, j, p), p)
  {
    assert Power(A, i + j, p) == Mul(A, Power(A, i + j - 1, p), p);
    assert forall m: nat, n: nat {:trigger Power(A, m, p), Power(A, n, p)} :: m == n ==> Power(A, m, p) == Power(A, n, p);
    MulAssoc(A, Power(A, i - 1, p), Power(A, j, p), p);
  }

  /** A^(i + j) = A^i A^j. */
  lemma {:induction false} PowerAdd(A: seq<int>, i: nat, j: nat, p: int)
    requires IsPoly(A, p)
    ensures Power(A, i + j, p) == Mul(Power(A, i, p), Power(A, j, p), p)
  {
    if i == 0 {
      assert forall m: nat, n: nat {:trigger Power(A, m, p), Power(A, n, p)} :: m == n ==> Power(A, m, p) == Power(A, n, p);
      MulOne(Power(A, j, p), p);
    } else {
      forall h: nat | h == i - 1 ensures Power(A, h + j, p) == Mul(Power(A, h, p), Power(A, j, p), p) {
        PowerAdd(A, h, j, p);
      }
      PowerAddStep(A, i, j, p);
    }
  }

  /** One pass of the loop: V A^e = V' (A A)^(e / 2), where V' = V A when e
      is odd and V' = V otherwise. */
  lemma PowStep(V: seq<int>, A: seq<int>, e: nat, p: int)
    requires IsPoly(V, p) && IsPoly(A, p)
    ensures Mul(V, Power(A, e, p), p)
         == Mul(if e % 2 == 1 then Mul(V, A, p) else V, Power(Mul(A, A, p), e / 2, p), p)
  {
    forall j: nat | j == e / 2 ensures Power(Mul(A, A, p), j, p) == Power(A, j + j, p) {
      PowerSquare(A, j, p);
    }
    assert forall i: nat, j: nat {:trigger Power(A, i, p), Power(A, j, p)} :: i == j ==> Power(A, i, p) == Power(A, j, p);
    if e % 2 == 1 {
      MulAssoc(V, A, Power(A, e - 1, p), p);
    }
  }

  /** `P ** k`: while k, multiply V by A when k is odd, halve k, and square A
      unless k has reached zero. */
  method Pow(P: seq<int>, k: nat, p: int) returns (V: seq<int>)
    requires IsPoly(P, p)
    ensures V == Power(P, k, p)
  {
    V := [1];
    var A := P;
    var e := k;
    MulOne(Power(P, k, p), p);
    while e != 0
      invariant IsPoly(V, p) && IsPoly(A, p)
      invariant Mul(V, Power(A, e, p), p) == Power(P, k, p)
      decreases e
    {
      PowStep(V, A, e, p);
      if e % 2 == 1 {
        V := Mul(V, A, p);
      }
      e := e / 2;
      if e == 0 {
        MulOne(V, p);
        break;
      }
      A := Mul(A, A, p);
    }
    MulOne(V, p);
  }
}

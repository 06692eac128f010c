/** `Polynomial.gaussianElimKer` and `Polynomial.computeQ`
    (algnuth/polynom.py): a row-echelon elimination over Z/pZ that finds a
    vector of the kernel of a list of polynomial rows, and the matrix of
    Frobenius minus the identity modulo P that Berlekamp's algorithm feeds
    it. A vector is itself a polynomial: its coefficient j weighs row j. */
module PolyKernel {
  import opened NumberTheory
  import opened ModPoly
  import opened PolyRing
  import opened PolyDivision
  import opened Wrappers

  /** Every row is a polynomial. */
  predicate Rows(R: seq<seq<int>>, p: int) {
    p >= 2 && forall j :: 0 <= j < |R| ==> IsPoly(R[j], p)
  }

  /** The sum of v_j R_j over the first n rows. */
  function LinCombN(v: seq<int>, R: seq<seq<int>>, n: nat, p: int): (S: seq<int>)
    requires Rows(R, p) && n <= |R|
    ensures IsPoly(S, p)
  {
    if n == 0 then [] else Add(LinCombN(v, R, n - 1, p), ScalarMul(Coef(v, n - 1), R[n - 1], p), p)
  }

  /** v M: the combination of all rows of M with the coefficients of v. */
  function LinComb(v: seq<int>, R: seq<seq<int>>, p: int): (S: seq<int>)
    requires Rows(R, p)
    ensures IsPoly(S, p)
  {
    LinCombN(v, R, |R|, p)
  }

  /** v is the i-th unit vector plus multiples of the earlier ones: its
      highest coefficient is a 1 at index i. */
  predicate UnitAt(v: seq<int>, i: nat) {
    |v| == i + 1 && v[i] == 1
  }

  // ---------------------------------------------------------------------
  // linearity of v |-> v M

  /** Residue arithmetic on representatives: the sum, difference and
      products of residues are the residues of the integer results. */
  lemma ResOfSum(s: int, t: int, p: int)
    requires p >= 2
    ensures AddRes(Mod(s, p), Mod(t, p), p) == Mod(s + t, p)
    ensures SubRes(Mod(s, p), Mod(t, p), p) == Mod(s - t, p)
  {
    ModIsRem(s, p); ModIsRem(t, p); ModIsRem(s + t, p); ModIsRem(s - t, p);
    AddResMod(s % p, t % p, p); ModAdd(s, t, p);
    SubResMod(s % p, t % p, p); ModSub(s, t, p);
  }

  lemma ResOfProduct(s: int, z: int, p: int)
    requires p >= 2
    ensures Mod(Mod(s, p) * z, p) == Mod(s * z, p) && Mod(z * Mod(s, p), p) == Mod(z * s, p)
  {
    ModIsRem(s, p); ModIsRem(s * z, p); ModIsRem(Mod(s, p) * z, p);
    ModMulLeft(s, z, p);
    ModMulRight(z, s, p);
  }

  lemma LinIdentity(x: int, y: int, z: int, a: int, b: int, c: int)
    ensures x - c * y + (a - c * b) * z == x + a * z - c * (y + b * z)
  {
    MulDistInt(y, b * z, c);
    MulAssocInt(c, b, z);
    assert (a - c * b) * z == a * z - (c * b) * z;
  }

  /** The coefficient identity behind LinStepLaw, on residues. */
  lemma ResLinLaw(x: int, y: int, z: int, a: int, b: int, c: int, p: int)
    requires p >= 2 && 0 <= x < p && 0 <= y < p && 0 <= z < p && 0 <= a < p && 0 <= b < p && 0 <= c < p
    ensures AddRes(SubRes(x, Mod(c * y, p), p), Mod(SubRes(a, Mod(c * b, p), p) * z, p), p)
         == SubRes(AddRes(x, Mod(a * z, p), p), Mod(c * AddRes(y, Mod(b * z, p), p), p), p)
  {
    var cy, cb, az, bz := c * y, c * b, a * z, b * z;
    ModSmall(x, p); ModSmall(y, p); ModSmall(a, p);
    ModIsRem(x, p); ModIsRem(y, p); ModIsRem(a, p);
    // left-hand side: Mod(x - cy + (a - cb) z)
    ResOfSum(x, cy, p);
    ResOfSum(a, cb, p);
    var s1, s2 := x - cy, a - cb;
    ResOfProduct(s2, z, p);
    var s3 := s2 * z;
    ResOfSum(s1, s3, p);
    // right-hand side: Mod(x + az - c (y + bz))
    ResOfSum(x, az, p);
    ResOfSum(y, bz, p);
    var t1, t2 := x + az, y + bz;
    ResOfProduct(t2, c, p);
    var t3 := c * t2;
    ResOfSum(t1, t3, p);
    // the two integers agree
    LinIdentity(x, y, z, a, b, c);
  }

  /** One elimination step on coefficient lists, both sides expanded. */
  lemma LinStepLaw(X: seq<int>, Y: seq<int>, r: seq<int>, a: int, b: int, c: int, p: int)
    requires IsPoly(X, p) && IsPoly(Y, p) && IsPoly(r, p) && 0 <= a < p && 0 <= b < p && 0 <= c < p
    ensures Add(Sub(X, ScalarMul(c, Y, p), p), ScalarMul(SubRes(a, Mod(c * b, p), p), r, p), p)
         == Sub(Add(X, ScalarMul(a, r, p), p), ScalarMul(c, Add(Y, ScalarMul(b, r, p), p), p), p)
  {
    var L := Add(Sub(X, ScalarMul(c, Y, p), p), ScalarMul(SubRes(a, Mod(c * b, p), p), r, p), p);
    var R := Sub(Add(X, ScalarMul(a, r, p), p), ScalarMul(c, Add(Y, ScalarMul(b, r, p), p), p), p);
    forall i | 0 <= i < Max(|L|, |R|) ensures Coef(L, i) == Coef(R, i) {
      CoefRange(X, p, i); CoefRange(Y, p, i); CoefRange(r, p, i);
      ResLinLaw(Coef(X, i), Coef(Y, i), Coef(r, i), a, b, c, p);
    }
    Ext(L, R, p);
  }

  /** Scaling the zero polynomial gives zero. */
  lemma ScalarMulEmpty(c: int, p: int)
    requires p >= 2
    ensures ScalarMul(c, [], p) == [] && Sub([], [], p) == []
  {
    var S := ScalarMul(c, [], p);
    LenBound(S, p, 0);
    SubSelf([], p);
  }

  /** (v - c w) M = v M - c (w M), over the first n rows. */
  lemma {:induction false} LinCombStepN(v: seq<int>, w: seq<int>, c: int, R: seq<seq<int>>, n: nat, p: int)
    requires Rows(R, p) && n <= |R| && IsPoly(v, p) && IsPoly(w, p) && 0 <= c < p
    ensures LinCombN(Sub(v, ScalarMul(c, w, p), p), R, n, p)
         == Sub(LinCombN(v, R, n, p), ScalarMul(c, LinCombN(w, R, n, p), p), p)
  {
    var u := Sub(v, ScalarMul(c, w, p), p);
    if n == 0 {
      ScalarMulEmpty(c, p);
    } else {
      forall h: nat | h == n - 1
        ensures LinCombN(u, R, h, p) == Sub(LinCombN(v, R, h, p), ScalarMul(c, LinCombN(w, R, h, p), p), p)
      {
        LinCombStepN(v, w, c, R, h, p);
      }
      CoefRange(v, p, n - 1); CoefRange(w, p, n - 1);
      LinStepLaw(LinCombN(v, R, n - 1, p), LinCombN(w, R, n - 1, p), R[n - 1], Coef(v, n - 1), Coef(w, n - 1), c, p);
    }
  }

  /** (v - c w) M = v M - c (w M). */
  lemma LinCombStep(v: seq<int>, w: seq<int>, c: int, R: seq<seq<int>>, p: int)
    requires Rows(R, p) && IsPoly(v, p) && IsPoly(w, p) && 0 <= c < p
    ensures LinComb(Sub(v, ScalarMul(c, w, p), p), R, p)
         == Sub(LinComb(v, R, p), ScalarMul(c, LinComb(w, R, p), p), p)
  {
    LinCombStepN(v, w, c, R, |R|, p);
  }

  /** The combination with the unit vector x^i over the first n rows picks
      row i, once n has passed it. */
  lemma {:induction false} LinCombUnitN(v: seq<int>, i: nat, R: seq<seq<int>>, n: nat, p: int)
    requires Rows(R, p) && i < |R| && n <= |R|
    requires forall j {:trigger Coef(v, j)} :: Coef(v, j) == if j == i then 1 else 0
    ensures LinCombN(v, R, n, p) == if i < n then R[i] else []
  {
    if n > 0 {
      var h: nat := n - 1;
      LinCombUnitN(v, i, R, h, p);
      var T, c := LinCombN(v, R, h, p), Coef(v, h);
      assert T == if i < h then R[i] else [];
      assert c == if h == i then 1 else 0;
      UnitCombStep(T, c, R[h], p);
      var S := Add(T, ScalarMul(c, R[h], p), p);
      assert LinCombN(v, R, n, p) == S;
      if i == h {
        assert S == R[i];
      } else if i < h {
        assert S == T == R[i];
      } else {
        assert S == T == [];
      }
    }
  }

  /** T + c row for c = 1 with T = 0, or for c = 0. */
  lemma UnitCombStep(T: seq<int>, c: int, row: seq<int>, p: int)
    requires IsPoly(T, p) && IsPoly(row, p) && (c == 0 || (c == 1 && T == []))
    ensures Add(T, ScalarMul(c, row, p), p) == if c == 1 then row else T
  {
    if c == 1 {
      ScalarMulOne(row, p);
      AddZero(row, p);
    } else {
      ScalarMulZero(row, p);
      AddZero(T, p);
    }
  }

  /** x^i M is row i of M: the starting vectors V_i of the elimination. */
  lemma LinCombUnit(i: nat, R: seq<seq<int>>, p: int)
    requires Rows(R, p) && i < |R|
    ensures LinComb(Monomial(1, i, p), R, p) == R[i]
  {
    LinCombUnitN(Monomial(1, i, p), i, R, |R|, p);
  }

  /** The combination with x v over m rows weighs row i + 1 by v_i, so row 0
      drops out. */
  lemma {:induction false} LinCombShiftN(v: seq<int>, R: seq<seq<int>>, m: nat, p: int)
    requires Rows(R, p) && IsPoly(v, p) && 1 <= m <= |R|
    ensures Rows(R[1..], p)
    ensures LinCombN(Shift(v, 1, p), R, m, p) == LinCombN(v, R[1..], m - 1, p)
  {
    var w := Shift(v, 1, p);
    assert Rows(R[1..], p) by {
      forall j | 0 <= j < |R| - 1 ensures IsPoly(R[1..][j], p) {
        assert R[1..][j] == R[j + 1];
      }
    }
    if m == 1 {
      assert Coef(w, 0) == 0;
      ScalarMulZero(R[0], p);
      AddZero([], p);
    } else {
      forall h: nat | h == m - 1 && 1 <= h
        ensures LinCombN(w, R, h, p) == LinCombN(v, R[1..], h - 1, p)
      {
        LinCombShiftN(v, R, h, p);
      }
      assert Coef(w, m - 1) == Coef(v, m - 2);
      assert R[m - 1] == R[1..][m - 2];
    }
  }

  /** The same over all rows: (x v) R = v (R without row 0). */
  lemma LinCombShift(v: seq<int>, R: seq<seq<int>>, p: int)
    requires Rows(R, p) && IsPoly(v, p) && R != []
    ensures Rows(R[1..], p)
    ensures LinComb(Shift(v, 1, p), R, p) == LinComb(v, R[1..], p)
  {
    LinCombShiftN(v, R, |R|, p);
    var T := R[1..];
    assert LinComb(v, T, p) == LinCombN(v, T, |T|, p);
    assert |T| == |R| - 1;
  }

  /** x v is monic when v is, one longer, with no constant term. */
  lemma ShiftMonic(v: seq<int>, p: int)
    requires IsPoly(v, p) && IsMonic(v)
    ensures var Q := Shift(v, 1, p); IsMonic(Q) && |Q| == |v| + 1 && Q[0] == 0
  {
    var Q := Shift(v, 1, p);
    assert Coef(Q, 0) == 0;
    assert Coef(Q, |v|) == Coef(v, |v| - 1);
  }

  /** x^i is the i-th unit vector. */
  lemma MonomialUnit(i: nat, p: int)
    requires p >= 2
    ensures UnitAt(Monomial(1, i, p), i)
  {
    var Mo := Monomial(1, i, p);
    assert Coef(Mo, i) == 1;
    LenBound(Mo, p, i + 1);
  }

  // ---------------------------------------------------------------------
  // Gaussian elimination

  /** The source's invariant M = V M_0: each row is the combination of the
      original rows by its vector, and vector i is x^i minus multiples of
      earlier unit vectors. Rows never grow past the pivot table. */
  ghost predicate Tracks(Ms: seq<seq<int>>, Vs: seq<seq<int>>, M0: seq<seq<int>>, p: int) {
    Rows(M0, p) && |Ms| == |M0| && |Vs| == |M0| &&
    forall i :: 0 <= i < |M0| ==> RowOk(Ms[i], Vs[i], i, M0, p)
  }

  /** Row i with its vector. */
  ghost predicate RowOk(m: seq<int>, v: seq<int>, i: nat, M0: seq<seq<int>>, p: int)
    requires Rows(M0, p)
  {
    IsPoly(m, p) && |m| <= |M0| + 1 && IsPoly(v, p) && UnitAt(v, i) && m == LinComb(v, M0, p)
  }

  /** pivots[d], when set (-1 stands for None), is a finished row of degree d. */
  ghost predicate Pivots(Ms: seq<seq<int>>, piv: seq<int>, l: int) {
    |piv| == |Ms| + 1 &&
    l <= |Ms| && forall d :: 0 <= d < |piv| ==> piv[d] == -1 || (0 <= piv[d] < l && |Ms[piv[d]]| == d + 1)
  }

  /** Every row before l is nonzero and is the pivot of its degree. */
  ghost predicate Placed(Ms: seq<seq<int>>, piv: seq<int>, l: int) {
    l <= |Ms| && forall j :: 0 <= j < l ==> Ms[j] != [] && |Ms[j]| <= |piv| && piv[|Ms[j]| - 1] == j
  }

  ghost predicate Echelon(Ms: seq<seq<int>>, Vs: seq<seq<int>>, piv: seq<int>, M0: seq<seq<int>>, l: int, p: int) {
    0 <= l && Tracks(Ms, Vs, M0, p) && Pivots(Ms, piv, l) && Placed(Ms, piv, l)
  }

  /** A nonzero vector of the kernel: monic, one coefficient per row, and
      combining the rows to zero. */
  predicate KernelVector(v: seq<int>, M0: seq<seq<int>>, p: int)
    requires Rows(M0, p)
  {
    IsPoly(v, p) && IsMonic(v) && |v| <= |M0| && LinComb(v, M0, p) == []
  }

  /** `[Polynomial([zero] * i + [one]) for i in range(n)]`: the unit vectors. */
  function UnitVectors(n: nat, p: int): (V: seq<seq<int>>)
    requires p >= 2
    ensures |V| == n && forall i {:trigger V[i]} :: 0 <= i < n ==> V[i] == Monomial(1, i, p)
  {
    if n == 0 then [] else UnitVectors(n - 1, p) + [Monomial(1, n - 1, p)]
  }

  /** `[None] * n`, with -1 for None. */
  function Nones(n: nat): (Z: seq<int>)
    ensures |Z| == n && forall i {:trigger Z[i]} :: 0 <= i < n ==> Z[i] == -1
  {
    if n == 0 then [] else [-1] + Nones(n - 1)
  }

  /** The starting state: V_i = x^i, no pivots, no row placed. */
  lemma EchelonStart(M0: seq<seq<int>>, Vs: seq<seq<int>>, piv: seq<int>, p: int)
    requires Rows(M0, p) && forall i :: 0 <= i < |M0| ==> |M0[i]| <= |M0| + 1
    requires |Vs| == |M0| && forall i :: 0 <= i < |M0| ==> Vs[i] == Monomial(1, i, p)
    requires |piv| == |M0| + 1 && forall d :: 0 <= d < |piv| ==> piv[d] == -1
    ensures Echelon(M0, Vs, piv, M0, 0, p)
  {
    forall i | 0 <= i < |M0| ensures RowOk(M0[i], Vs[i], i, M0, p) {
      MonomialUnit(i, p);
      LinCombUnit(i, M0, p);
    }
  }

  /** The vector of an eliminated row: V_l - c V_j keeps its unit at l when
      j < l. */
  lemma UnitStep(v: seq<int>, w: seq<int>, c: int, l: nat, j: nat, p: int)
    requires IsPoly(v, p) && IsPoly(w, p) && UnitAt(v, l) && UnitAt(w, j) && j < l && 0 <= c < p
    ensures UnitAt(Sub(v, ScalarMul(c, w, p), p), l)
  {
    var u := Sub(v, ScalarMul(c, w, p), p);
    assert Coef(u, l) == 1 by {
      assert Coef(w, l) == 0;
      ModSmall(0, p);
    }
    forall k | l + 1 <= k ensures Coef(u, k) == 0 {
      assert Coef(v, k) == 0 && Coef(w, k) == 0;
      ModSmall(0, p);
    }
    LenBound(u, p, l + 1);
  }

  /** `M[l] -= c * M[pivots[idp]]; V[l] -= c * V[pivots[idp]]`, on row l
      alone: the pair still satisfies M_l = V_l M_0 and the degree drops,
      since c is the quotient of the two leading coefficients. */
  lemma ReduceOnce(m: seq<int>, v: seq<int>, mj: seq<int>, vj: seq<int>, l: nat, j: nat, M0: seq<seq<int>>, p: int,
                  c: int, A: seq<int>, V: seq<int>)
    requires IsPrime(p) && Rows(M0, p) && RowOk(m, v, l, M0, p) && RowOk(mj, vj, j, M0, p)
    requires j < l && m != [] && |mj| == |m|
    requires c == ResDiv(Lead(m), Lead(mj), p)
    requires A == Sub(m, ScalarMul(c, mj, p), p) && V == Sub(v, ScalarMul(c, vj, p), p)
    ensures |A| < |m| && RowOk(A, V, l, M0, p)
  {
    PrimeUnitLead(mj, p);
    DivStepIs(m, mj, p);
    assert Shift(mj, |m| - |mj|, p) == Shift(mj, 0, p);
    ShiftZero(mj, p);
    UnitStep(v, vj, c, l, j, p);
    LinCombStep(v, vj, c, M0, p);
  }

  /** Replacing the row in progress by another valid row keeps the
      invariant: pivots and placed rows all lie before l. */
  lemma ReplaceRow(Ms: seq<seq<int>>, Vs: seq<seq<int>>, piv: seq<int>, M0: seq<seq<int>>, l: nat, p: int,
                   A: seq<int>, V: seq<int>)
    requires Echelon(Ms, Vs, piv, M0, l, p) && l < |M0| && RowOk(A, V, l, M0, p)
    ensures Echelon(Ms[l := A], Vs[l := V], piv, M0, l, p)
  {
    var Ms2, Vs2 := Ms[l := A], Vs[l := V];
    assert Tracks(Ms2, Vs2, M0, p) by {
      forall i | 0 <= i < |M0| ensures RowOk(Ms2[i], Vs2[i], i, M0, p) {
        if i != l {
          assert Ms2[i] == Ms[i] && Vs2[i] == Vs[i];
        }
      }
    }
    assert Pivots(Ms2, piv, l) by {
      forall d | 0 <= d < |piv| && piv[d] != -1 ensures 0 <= piv[d] < l && |Ms2[piv[d]]| == d + 1 {
        assert Ms2[piv[d]] == Ms[piv[d]];
      }
    }
    assert Placed(Ms2, piv, l) by {
      forall k | 0 <= k < l ensures Ms2[k] != [] && |Ms2[k]| <= |piv| && piv[|Ms2[k]| - 1] == k {
        assert Ms2[k] == Ms[k];
      }
    }
  }

  /** One reduction against the pivot of row l's degree. */
  lemma ReduceStep(Ms: seq<seq<int>>, Vs: seq<seq<int>>, piv: seq<int>, M0: seq<seq<int>>, l: nat, p: int,
                   idp: int, j: int, c: int, A: seq<int>, V: seq<int>)
    requires IsPrime(p) && Echelon(Ms, Vs, piv, M0, l, p) && l < |M0| && Ms[l] != []
    requires idp == |Ms[l]| - 1 && j == piv[idp] && j != -1
    ensures 0 <= j < l && Ms[j] != [] && |Ms[j]| == |Ms[l]|
    requires c == ResDiv(Lead(Ms[l]), Lead(Ms[j]), p)
    requires A == Sub(Ms[l], ScalarMul(c, Ms[j], p), p) && V == Sub(Vs[l], ScalarMul(c, Vs[j], p), p)
    ensures |A| < |Ms[l]| && Echelon(Ms[l := A], Vs[l := V], piv, M0, l, p)
  {
    assert RowOk(Ms[l], Vs[l], l, M0, p) && RowOk(Ms[j], Vs[j], j, M0, p);
    ReduceOnce(Ms[l], Vs[l], Ms[j], Vs[j], l, j, M0, p, c, A, V);
    ReplaceRow(Ms, Vs, piv, M0, l, p, A, V);
  }

  /** `pivots[idp] = l; break`: row l becomes the pivot of its degree. */
  lemma PivotStep(Ms: seq<seq<int>>, Vs: seq<seq<int>>, piv: seq<int>, M0: seq<seq<int>>, l: nat, p: int, idp: int)
    requires Echelon(Ms, Vs, piv, M0, l, p) && l < |M0| && Ms[l] != []
    requires idp == |Ms[l]| - 1 && piv[idp] == -1
    ensures Echelon(Ms, Vs, piv[idp := l], M0, l + 1, p)
  {
    assert RowOk(Ms[l], Vs[l], l, M0, p);
    PivotPlaced(Ms, piv, l, idp);
  }

  /** The pivot table and the placed rows after `pivots[idp] = l`. */
  lemma PivotPlaced(Ms: seq<seq<int>>, piv: seq<int>, l: nat, idp: int)
    requires Pivots(Ms, piv, l) && Placed(Ms, piv, l) && l < |Ms| && Ms[l] != [] && |Ms[l]| <= |piv|
    requires idp == |Ms[l]| - 1 && piv[idp] == -1
    ensures Pivots(Ms, piv[idp := l], l + 1) && Placed(Ms, piv[idp := l], l + 1)
  {
    var piv2 := piv[idp := l];
    forall d | 0 <= d < |piv2|
      ensures piv2[d] == -1 || (0 <= piv2[d] < l + 1 && |Ms[piv2[d]]| == d + 1)
    {
      if d != idp {
        assert piv2[d] == piv[d];
      }
    }
    forall k | 0 <= k < l + 1
      ensures Ms[k] != [] && |Ms[k]| <= |piv2| && piv2[|Ms[k]| - 1] == k
    {
      if k < l {
        assert piv[|Ms[k]| - 1] == k;
        assert |Ms[k]| - 1 != idp;
      }
    }
  }

  /** The end of the elimination: rows nonzero with distinct degrees. */
  lemma EchelonEnd(Ms: seq<seq<int>>, Vs: seq<seq<int>>, piv: seq<int>, M0: seq<seq<int>>, p: int)
    requires Echelon(Ms, Vs, piv, M0, |Ms|, p)
    ensures EchelonForm(Ms) && Tracks(Ms, Vs, M0, p)
  {
    PlacedDistinct(Ms, piv);
  }

  /** Rows in echelon form: all nonzero, no two of the same degree. */
  predicate EchelonForm(Ms: seq<seq<int>>) {
    (forall i :: 0 <= i < |Ms| ==> Ms[i] != []) &&
    (forall i, j :: 0 <= i < j < |Ms| ==> |Ms[i]| != |Ms[j]|)
  }

  lemma PlacedDistinct(Ms: seq<seq<int>>, piv: seq<int>)
    requires Placed(Ms, piv, |Ms|)
    ensures EchelonForm(Ms)
  {
    forall i, j | 0 <= i < j < |Ms| ensures |Ms[i]| != |Ms[j]| {
      assert piv[|Ms[i]| - 1] == i && piv[|Ms[j]| - 1] == j;
    }
  }

  /** A row reduced to zero yields its vector as a kernel vector. */
  lemma KernelFromRow(Ms: seq<seq<int>>, Vs: seq<seq<int>>, piv: seq<int>, M0: seq<seq<int>>, l: nat, p: int)
    requires Echelon(Ms, Vs, piv, M0, l, p) && l < |Ms| && Ms[l] == []
    ensures KernelVector(Vs[l], M0, p)
    ensures Tracks(Ms, Vs, M0, p)
  {
    assert RowOk(Ms[l], Vs[l], l, M0, p);
    var v := Vs[l];
    assert v[|v| - 1] == v[l];
  }

  /** The `while M[l].deg >= 0` loop of `gaussianElimKer`: row l is
      reduced against the pivot of its degree until that degree has no
      pivot, when the row becomes it, or until the row is zero. */
  method ReduceRow(M: array<seq<int>>, l: nat, V0: seq<seq<int>>, pivots0: seq<int>, ghost M0: seq<seq<int>>, p: int)
    returns (V: seq<seq<int>>, pivots: seq<int>)
    requires IsPrime(p) && l < M.Length && Echelon(M[..], V0, pivots0, M0, l, p)
    modifies M
    ensures Echelon(M[..], V, pivots, M0, if M[l] == [] then l else l + 1, p)
  {
    V, pivots := V0, pivots0;
    while M[l] != []
      invariant Echelon(M[..], V, pivots, M0, l, p)
      decreases |M[l]|
    {
      var idp := |M[l]| - 1;
      ghost var Ms := M[..];
      if pivots[idp] == -1 {
        PivotStep(Ms, V, pivots, M0, l, p, idp);
        pivots := pivots[idp := l];
        return;
      }
      var j := pivots[idp];
      var c := ResDiv(Lead(M[l]), Lead(M[j]), p);
      var A := Sub(M[l], ScalarMul(c, M[j], p), p);
      var W := Sub(V[l], ScalarMul(c, V[j], p), p);
      ReduceStep(Ms, V, pivots, M0, l, p, idp, j, c, A, W);
      M[l] := A;
      V := V[l := W];
      assert M[..] == Ms[l := A];
    }
  }

  /** `gaussianElimKer`: each row l in turn is reduced against the pivot
      rows (ReduceRow); once a row vanishes its vector V[l] is returned: a
      nonzero vector of the kernel of the rows the method was given.
      Without such a row the rows end in echelon form and None is
      returned. Pivots are stored as -1 for None. */
  method GaussianElimKer(M: array<seq<int>>, p: int) returns (r: Option<seq<int>>)
    requires IsPrime(p) && Rows(M[..], p)
    requires forall i :: 0 <= i < M.Length ==> |M[i]| <= M.Length + 1
    modifies M
    ensures r.Some? ==> KernelVector(r.value, old(M[..]), p)
    ensures r.None? ==> EchelonForm(M[..])
    ensures exists Vs :: Tracks(M[..], Vs, old(M[..]), p)
  {
    ghost var M0 := M[..];
    var V := UnitVectors(M.Length, p);
    var pivots := Nones(M.Length + 1);
    EchelonStart(M0, V, pivots, p);
    for l := 0 to M.Length
      invariant Echelon(M[..], V, pivots, M0, l, p)
    {
      V, pivots := ReduceRow(M, l, V, pivots, M0, p);
      if M[l] == [] {
        ghost var Ms := M[..];
        KernelFromRow(Ms, V, pivots, M0, l, p);
        r := Some(V[l]);
        return;
      }
    }
    ghost var Ms := M[..];
    EchelonEnd(Ms, V, pivots, M0, p);
    r := None;
  }

  // ---------------------------------------------------------------------
  // the matrix of Frobenius minus the identity

  /** x^(ip) mod P: the image of x^i under the Frobenius map A |-> A^p of
      Z/pZ[x]/(P). */
  function XpMod(P: seq<int>, i: nat, p: int): (R: seq<int>)
    requires IsPrime(p) && IsPoly(P, p) && P != []
    ensures IsPoly(R, p) && |R| < |P|
  {
    PrimeUnitLead(P, p);
    PolyMod(Monomial(1, i * p, p), P, p)
  }

  /** Row i of the matrix of Frobenius minus the identity in the basis
      1, x, ..., x^(deg P - 1): x^(ip) mod P - x^i. */
  function FrobeniusRow(P: seq<int>, i: nat, p: int): (R: seq<int>)
    requires IsPrime(p) && IsPoly(P, p) && P != []
    ensures IsPoly(R, p)
  {
    Sub(XpMod(P, i, p), Monomial(1, i, p), p)
  }

  /** Rows 0, ..., n - 1 of that matrix. */
  function FrobeniusRows(P: seq<int>, n: nat, p: int): (R: seq<seq<int>>)
    requires IsPrime(p) && IsPoly(P, p) && P != []
    ensures |R| == n && Rows(R, p)
    ensures forall i {:trigger R[i]} :: 0 <= i < n ==> R[i] == FrobeniusRow(P, i, p)
  {
    seq(n, i requires 0 <= i => FrobeniusRow(P, i, p))
  }

  /** A polynomial of lower degree is its own remainder. */
  lemma PolyModSmall(A: seq<int>, B: seq<int>, p: int)
    requires IsPoly(A, p) && IsPoly(B, p) && UnitLead(B, p) && |A| < |B|
    ensures PolyMod(A, B, p) == A
  {
    MulZeroLeft(B, p);
    AddZero(A, p);
    PolyDivision.DivModUnique(A, B, [], A, p);
  }

  /** (F - Id)(1) = 0 when deg P >= 1, which is why the source leaves row 0
      out of the matrix it eliminates. */
  lemma FrobeniusRowZero(P: seq<int>, p: int)
    requires IsPrime(p) && IsPoly(P, p) && |P| >= 2
    ensures FrobeniusRow(P, 0, p) == []
  {
    PrimeUnitLead(P, p);
    var One := Monomial(1, 0, p);
    MonomialUnit(0, p);
    assert Monomial(1, 0 * p, p) == One;
    PolyModSmall(One, P, p);
    SubSelf(One, p);
  }

  /** |x^i| = i + 1. */
  lemma MonomialLength(i: nat, p: int)
    requires p >= 2
    ensures |Monomial(1, i, p)| == i + 1
  {
    MonomialUnit(i, p);
  }

  /** The comprehension of `computeQ`: x^(i p) mod P for i = 1, ..., n,
      stored at index i - 1. */
  function XpRows(P: seq<int>, n: nat, p: int): (R: seq<seq<int>>)
    requires IsPrime(p) && IsPoly(P, p) && P != []
    ensures |R| == n
    ensures forall k {:trigger R[k]} :: 0 <= k < n ==> R[k] == XpMod(P, k + 1, p)
  {
    seq(n, k requires 0 <= k => XpMod(P, k + 1, p))
  }

  /** `M[i - 1] -= x^i` with i = k + 1. */
  method SubtractUnit(P: seq<int>, rows: seq<seq<int>>, k: nat, p: int) returns (rows': seq<seq<int>>)
    requires IsPrime(p) && IsPoly(P, p) && P != []
    requires k < |rows| && rows[k] == XpMod(P, k + 1, p)
    ensures rows' == rows[k := FrobeniusRow(P, k + 1, p)]
  {
    rows' := rows[k := Sub(rows[k], Monomial(1, k + 1, p), p)];
  }

  /** The list of `computeQ` after its loop `M[i - 1] -= x^i`: row i (at
      index i - 1) of the matrix of Frobenius minus the identity. */
  method FrobeniusMatrix(P: seq<int>, p: int) returns (M: array<seq<int>>)
    requires IsPrime(p) && IsPoly(P, p) && P != []
    ensures fresh(M) && M.Length == if |P| >= 2 then |P| - 2 else 0
    ensures forall k :: 0 <= k < M.Length ==> M[k] == FrobeniusRow(P, k + 1, p)
  {
    var n := if |P| >= 2 then |P| - 2 else 0;
    var rows := XpRows(P, n, p);
    for k := 0 to n
      invariant |rows| == n
      invariant forall j :: 0 <= j < n ==>
                  rows[j] == if j < k then FrobeniusRow(P, j + 1, p) else XpMod(P, j + 1, p)
    {
      rows := SubtractUnit(P, rows, k, p);
    }
    M := new seq<int>[n](j requires 0 <= j < n => rows[j]);
  }

  /** The rows are linearly independent: elimination can bring them to an
      echelon form whose every row is a unit-led combination of them. */
  ghost predicate Independent(M0: seq<seq<int>>, p: int) {
    exists Ms, Vs {:trigger Tracks(Ms, Vs, M0, p)} :: EchelonForm(Ms) && Tracks(Ms, Vs, M0, p)
  }

  /** `computeQ`: builds rows 1, ..., deg P - 1 of the matrix of Frobenius
      minus the identity modulo P (row 0 is zero), finds a kernel vector v by
      Gaussian elimination and returns Q = x v, putting back the coefficient
      of the dropped row 1. Q is a nonconstant monic polynomial of degree
      below deg P without constant term, and its coefficients combine the
      rows of the full matrix to zero: Q^p = Q mod P, by Frobenius. When
      there is no such Q, elimination has brought rows 1, ..., deg P - 1 to
      echelon form, each reduced row tracked by a unit-led combination of
      the original rows: those rows are linearly independent. */
  method ComputeQ(P: seq<int>, p: int) returns (r: Option<seq<int>>)
    requires IsPrime(p) && IsPoly(P, p) && P != []
    ensures r.Some? ==>
      var Q := r.value;
      IsPoly(Q, p) && IsMonic(Q) && 2 <= |Q| <= |P| - 1 && Q[0] == 0 &&
      LinComb(Q, FrobeniusRows(P, |P| - 1, p), p) == []
    ensures r.None? && |P| >= 2 ==> Independent(FrobeniusRows(P, |P| - 1, p)[1..], p)
  {
    var M := FrobeniusMatrix(P, p);
    ghost var Full := FrobeniusRows(P, |P| - 1, p);
    ghost var n := M.Length;
    forall k | 0 <= k < n ensures |M[k]| <= n + 1 && M[k] == Full[k + 1] {
      MonomialLength(k + 1, p);
    }
    assert |P| >= 2 ==> M[..] == Full[1..];
    ghost var M1 := M[..];
    var v := GaussianElimKer(M, p);
    if v.None? {
      assert EchelonForm(M[..]) && exists Vs :: Tracks(M[..], Vs, M1, p);
      assert |P| >= 2 ==> Independent(M1, p);
      return None;
    }
    var V := v.value;
    assert 1 <= |V| <= n;
    LinCombShift(V, Full, p);
    ShiftMonic(V, p);
    r := Some(Shift(V, 1, p));
  }
}
